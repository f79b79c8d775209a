/** Ranking and printing the scores of a query: sortIterate builds a list ordered by
    decreasing score, and sortPrint lists the documents whose URL it can read. The
    linked list of lnode_t is modelled by the sequence of its nodes, head first. */
module QueryRank {
  import opened Wrappers
  import opened CLib
  import opened Counters
  import opened PageDir

  /** A list node: a document id and its score (values[0] and values[1]). */
  datatype Entry = Entry(doc: nat, score: nat)

  predicate Sorted(list: seq<Entry>) {
    forall i, j | 0 <= i < j < |list| :: list[i].score >= list[j].score
  }

  /** Where a new entry with this score goes: before the first node whose score is not
      greater than it, or at the end. */
  function FirstAtMost(list: seq<Entry>, score: int): (p: nat)
    ensures p <= |list|
    ensures forall i | 0 <= i < p :: list[i].score > score
    ensures p < |list| ==> list[p].score <= score
    decreases |list|
  {
    if list == [] || list[0].score <= score then 0 else 1 + FirstAtMost(list[1..], score)
  }

  /** The list after inserting e. */
  function InsertSorted(list: seq<Entry>, e: Entry): seq<Entry> {
    var p := FirstAtMost(list, e.score);
    list[..p] + [e] + list[p..]
  }

  /** The nodes of InsertSorted(list, e): those of list before the insertion point, e,
      then the rest of list. */
  lemma InsertSortedAt(list: seq<Entry>, e: Entry)
    ensures var p := FirstAtMost(list, e.score); var r := InsertSorted(list, e);
      |r| == |list| + 1 && r[p] == e &&
      (forall i | 0 <= i < p :: r[i] == list[i]) &&
      (forall i | p < i < |r| :: r[i] == list[i - 1])
  {
  }

  /** Inserting keeps the list sorted and puts e after every node with a greater score
      and before every node with an equal or smaller one, so of two equal scores the one
      inserted later comes first. */
  lemma InsertSortedSpec(list: seq<Entry>, e: Entry)
    requires Sorted(list)
    ensures Sorted(InsertSorted(list, e))
    ensures var p := FirstAtMost(list, e.score);
      InsertSorted(list, e)[p] == e &&
      (forall i | 0 <= i < p :: InsertSorted(list, e)[i].score > e.score) &&
      (forall i | p < i < |list| + 1 :: InsertSorted(list, e)[i].score <= e.score)
  {
    var p := FirstAtMost(list, e.score);
    var r := InsertSorted(list, e);
    InsertSortedAt(list, e);
    forall i | p < i < |r| ensures r[i].score <= e.score {
      assert list[p].score <= e.score;
      assert r[i] == list[i - 1];
    }
    forall i, j | 0 <= i < j < |r| ensures r[i].score >= r[j].score {
      if j < p {
        assert r[i] == list[i] && r[j] == list[j];
      } else if i > p {
        assert r[i] == list[i - 1] && r[j] == list[j - 1];
      } else if i < p && j > p {
        assert r[i] == list[i] && r[j] == list[j - 1];
      }
    }
  }

  /** Inserting adds exactly e. */
  lemma InsertSortedAdds(list: seq<Entry>, e: Entry)
    ensures multiset(InsertSorted(list, e)) == multiset(list) + multiset{e}
  {
    var p := FirstAtMost(list, e.score);
    assert list == list[..p] + list[p..];
  }

  /** sortIterate: an entry with a negative key or score is skipped; any other is counted
      and inserted by the list walk. */
  method SortIterate(list: seq<Entry>, count: int, key: int, val: int) returns (list': seq<Entry>, count': int)
    ensures key < 0 || val < 0 ==> list' == list && count' == count
    ensures key >= 0 && val >= 0 ==> count' == count + 1 && list' == InsertSorted(list, Entry(key, val))
  {
    if key < 0 || val < 0 {
      return list, count;
    }
    count' := count + 1;
    var next := Entry(key, val);
    if list == [] {
      return [next], count';
    }
    if list[0].score <= next.score {
      return [next] + list, count';
    }
    var node := 0;
    while true
      invariant 0 <= node < |list|
      invariant forall i | 0 <= i <= node :: list[i].score > next.score
      decreases |list| - node
    {
      if node + 1 == |list| || list[node + 1].score <= next.score {
        FirstAtMostAt(list, next.score, node + 1);
        return list[..node + 1] + [next] + list[node + 1..], count';
      }
      node := node + 1;
    }
  }

  /** FirstAtMost is the unique position with the property it promises. */
  lemma {:induction false} FirstAtMostAt(list: seq<Entry>, score: int, p: nat)
    requires p <= |list|
    requires forall i | 0 <= i < p :: list[i].score > score
    requires p < |list| ==> list[p].score <= score
    ensures FirstAtMost(list, score) == p
    decreases p
  {
    if p > 0 {
      FirstAtMostAt(list[1..], score, p - 1);
    }
  }

  /** The entries sortIterate accepts from the scores whose keys are in keys. */
  function EntriesOf(scores: Counters, keys: set<int>): set<Entry> {
    set k | k in keys && k in scores && k >= 0 && scores[k] >= 0 :: Entry(k, scores[k])
  }

  /** What the list holds once every entry of scores has been offered: the accepted
      entries, each once, sorted by decreasing score. */
  ghost predicate IsRanking(ranked: seq<Entry>, scores: Counters) {
    Sorted(ranked) && multiset(ranked) == multiset(EntriesOf(scores, scores.Keys))
  }

  lemma EntriesOfStep(scores: Counters, keys: set<int>, key: int)
    requires key in scores && key !in keys
    ensures key >= 0 && scores[key] >= 0 ==>
      Entry(key, scores[key]) !in EntriesOf(scores, keys) &&
      EntriesOf(scores, keys + {key}) == EntriesOf(scores, keys) + {Entry(key, scores[key])}
    ensures key < 0 || scores[key] < 0 ==> EntriesOf(scores, keys + {key}) == EntriesOf(scores, keys)
  {
  }

  lemma MultisetOfAdd(s: set<Entry>, x: Entry)
    requires x !in s
    ensures multiset(s + {x}) == multiset(s) + multiset{x}
  {
  }

  /** sortPrint's loop after offering the entries of scores outside remaining: the list
      holds the accepted ones, each once, sorted by decreasing score, and count is its
      length. */
  ghost predicate RankedSoFar(scores: Counters, remaining: set<int>, list: seq<Entry>, count: int) {
    remaining <= scores.Keys && Sorted(list) && count == |list| &&
    multiset(list) == multiset(EntriesOf(scores, scores.Keys - remaining))
  }

  /** Offering one more entry to sortIterate keeps the loop state. */
  lemma RankStep(scores: Counters, remaining: set<int>, list: seq<Entry>, count: int, key: int)
    requires RankedSoFar(scores, remaining, list, count) && key in remaining
    ensures key >= 0 && scores[key] >= 0 ==>
      RankedSoFar(scores, remaining - {key}, InsertSorted(list, Entry(key, scores[key])), count + 1)
    ensures key < 0 || scores[key] < 0 ==> RankedSoFar(scores, remaining - {key}, list, count)
  {
    var visited := scores.Keys - remaining;
    assert scores.Keys - (remaining - {key}) == visited + {key};
    EntriesOfStep(scores, visited, key);
    if key >= 0 && scores[key] >= 0 {
      InsertSortedSpec(list, Entry(key, scores[key]));
      InsertSortedAdds(list, Entry(key, scores[key]));
      MultisetOfAdd(EntriesOf(scores, visited), Entry(key, scores[key]));
    }
  }

  lemma RankDone(scores: Counters, list: seq<Entry>, count: int)
    requires RankedSoFar(scores, {}, list, count)
    ensures IsRanking(list, scores) && count == |list|
  {
    assert scores.Keys - {} == scores.Keys;
  }

  /** The line sortPrint prints for a node whose URL it reads. */
  function EntryLine(e: Entry, url: string): string {
    "score\t" + Decimal(e.score) + " doc " + Decimal(e.doc) + ": " + url + "\n"
  }

  /** The nodes sortPrint prints, in list order, each with its URL: those whose
      getPageUrl is not NULL. */
  function Printed(ranked: seq<Entry>, dir: PageDirectory): seq<(Entry, string)>
    decreases |ranked|
  {
    if ranked == [] then []
    else
      var last := ranked[|ranked| - 1];
      var url := GetPageUrl(dir, last.doc);
      Printed(ranked[..|ranked| - 1], dir) + (if url.Some? then [(last, url.value)] else [])
  }

  lemma PrintedStep(list: seq<Entry>, node: int, dir: PageDirectory)
    requires 0 <= node < |list|
    ensures var url := GetPageUrl(dir, list[node].doc);
      ListingText(Printed(list[..node + 1], dir)) ==
        ListingText(Printed(list[..node], dir)) + (if url.Some? then EntryLine(list[node], url.value) else "")
  {
    assert list[..node + 1][..node] == list[..node];
    var url := GetPageUrl(dir, list[node].doc);
    var ps := Printed(list[..node], dir);
    if url.Some? {
      assert (ps + [(list[node], url.value)])[..|ps|] == ps;
    } else {
      assert ps + [] == ps;
    }
  }

  function ListingText(ps: seq<(Entry, string)>): string
    decreases |ps|
  {
    if ps == [] then "" else ListingText(ps[..|ps| - 1]) + EntryLine(ps[|ps| - 1].0, ps[|ps| - 1].1)
  }

  /** The first line sortPrint prints: the number of nodes of the list. */
  function MatchesLine(count: nat): string {
    "Matches " + Decimal(count) + " documents (ranked):\n"
  }

  /** What sortPrint prints for a ranked list. */
  function SortPrintText(ranked: seq<Entry>, dir: PageDirectory): string {
    MatchesLine(|ranked|) + ListingText(Printed(ranked, dir))
  }

  /** The nodes printed for a list are those printed for all but its last node, then the
      last node when its URL is found. */
  lemma PrintedSnoc(ranked: seq<Entry>, dir: PageDirectory)
    requires ranked != []
    ensures var last := ranked[|ranked| - 1]; var url := GetPageUrl(dir, last.doc);
      Printed(ranked, dir) == Printed(ranked[..|ranked| - 1], dir) + (if url.Some? then [(last, url.value)] else [])
  {
  }

  /** sortPrint prints only nodes of the list, each with the URL getPageUrl finds for it. */
  lemma {:induction false} PrintedSound(ranked: seq<Entry>, dir: PageDirectory)
    ensures forall j | 0 <= j < |Printed(ranked, dir)| ::
      Printed(ranked, dir)[j].0 in ranked && GetPageUrl(dir, Printed(ranked, dir)[j].0.doc) == Some(Printed(ranked, dir)[j].1)
    decreases |ranked|
  {
    if ranked != [] {
      var init := ranked[..|ranked| - 1];
      PrintedSound(init, dir);
      PrintedSnoc(ranked, dir);
      var pi := Printed(init, dir);
      var ps := Printed(ranked, dir);
      forall j | 0 <= j < |ps| ensures ps[j].0 in ranked && GetPageUrl(dir, ps[j].0.doc) == Some(ps[j].1) {
        if j < |pi| {
          assert ps[j] == pi[j];
          assert pi[j].0 in init;
        }
      }
    }
  }

  /** sortPrint prints every node of the list whose URL getPageUrl finds. */
  lemma {:induction false} PrintedComplete(ranked: seq<Entry>, dir: PageDirectory)
    ensures forall e | e in ranked && GetPageUrl(dir, e.doc).Some? :: (e, GetPageUrl(dir, e.doc).value) in Printed(ranked, dir)
    decreases |ranked|
  {
    if ranked != [] {
      var init := ranked[..|ranked| - 1];
      PrintedComplete(init, dir);
      PrintedSnoc(ranked, dir);
      assert ranked == init + [ranked[|ranked| - 1]];
    }
  }

  /** sortPrint prints in the order of the list, so for a sorted list the printed scores
      never increase. */
  lemma {:induction false} PrintedOrdered(ranked: seq<Entry>, dir: PageDirectory)
    requires Sorted(ranked)
    ensures forall i, j | 0 <= i < j < |Printed(ranked, dir)| ::
      Printed(ranked, dir)[i].0.score >= Printed(ranked, dir)[j].0.score
    decreases |ranked|
  {
    if ranked != [] {
      var init := ranked[..|ranked| - 1];
      var last := ranked[|ranked| - 1];
      assert Sorted(init) by {
        forall i, j | 0 <= i < j < |init| ensures init[i].score >= init[j].score {
          assert init[i] == ranked[i] && init[j] == ranked[j];
        }
      }
      PrintedOrdered(init, dir);
      PrintedSound(init, dir);
      PrintedSnoc(ranked, dir);
      var pi := Printed(init, dir);
      forall j | 0 <= j < |pi| ensures pi[j].0.score >= last.score {
        var k :| 0 <= k < |init| && init[k] == pi[j].0;
        assert ranked[k] == init[k];
      }
    }
  }

  /** sortPrint's walk down the list: prints each node whose URL getPageUrl finds. */
  method PrintNodes(list: seq<Entry>, dir: PageDirectory) returns (listing: string)
    ensures listing == ListingText(Printed(list, dir))
  {
    listing := "";
    var node := 0;
    assert list[..0] == [];
    while node < |list|
      invariant 0 <= node <= |list|
      invariant listing == ListingText(Printed(list[..node], dir))
    {
      PrintedStep(list, node, dir);
      var url := GetPageUrl(dir, list[node].doc);
      if url.Some? {
        listing := listing + EntryLine(list[node], url.value);
      }
      node := node + 1;
    }
    assert list[..|list|] == list;
  }

  /** sortPrint: every entry of scores is offered to sortIterate, in the iterator's order,
      which decides only the order among equal scores; the count of accepted entries is
      printed, and -1 is returned when the list is empty. Otherwise the list is walked and
      each node whose URL is found is printed, and 0 is returned. */
  method SortPrint(scores: Counters, dir: PageDirectory) returns (status: int, text: string, ghost ranked: seq<Entry>)
    ensures IsRanking(ranked, scores)
    ensures status == if ranked == [] then -1 else 0
    ensures text == SortPrintText(ranked, dir)
  {
    var list: seq<Entry> := [];
    var count := 0;
    var remaining := scores.Keys;
    while remaining != {}
      invariant RankedSoFar(scores, remaining, list, count)
      decreases remaining
    {
      var key := Choose(remaining);
      RankStep(scores, remaining, list, count, key);
      list, count := SortIterate(list, count, key, scores[key]);
      remaining := remaining - {key};
    }
    RankDone(scores, list, count);
    ranked := list;
    var header := MatchesLine(count);
    if list == [] {
      assert header + ListingText(Printed(list, dir)) == header + [];
      return -1, header, ranked;
    }
    var listing := PrintNodes(list, dir);
    text := header + listing;
    return 0, text, ranked;
  }
}
