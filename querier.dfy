/** The querier: reads query lines, checks and tokenizes each, evaluates it against the
    index and prints the ranked documents. */
module Querier {
  import opened Wrappers
  import opened CLib
  import opened Counters
  import opened IndexTable
  import opened IndexEngine
  import opened PageDir
  import opened QueryParse
  import opened QueryEval
  import opened QueryRank

  /** bag_extract: hands out some item of the bag; which one the bag does not promise. */
  method BagExtract(bag: multiset<Counters>) returns (item: Counters)
    requires bag != multiset{}
    ensures item in bag
  {
    item :| item in bag;
  }

  /** counters_iterate(indexFind(index, word), copyIter) into a new counters object. The
      query passes a word of its list; here indexFind normalises a fresh buffer holding
      the same characters. */
  method FindCopy(index: Index, word: string) returns (c: Counters)
    ensures c == Term(index.table, word)
  {
    var buffer := NewCString(word);
    var found := IndexFind(index, buffer);
    c := CopyCounters(found);
    assert CopyOf(map[]) == map[];
  }

  /** The words of a query list: the entries before its first NULL. */
  function QueryWords(list: seq<Option<string>>): seq<string>
    decreases |list|
  {
    if list == [] || list[0].None? then [] else [list[0].value] + QueryWords(list[1..])
  }

  lemma QueryWordsStep(list: seq<Option<string>>, k: int)
    requires 0 <= k < |list| && list[k].Some?
    ensures QueryWords(list[k..]) == [list[k].value] + QueryWords(list[k + 1..])
  {
    assert list[k..][1..] == list[k + 1..];
  }

  lemma QueryWordsEnd(list: seq<Option<string>>, k: int)
    requires 0 <= k < |list| && list[k].None?
    ensures QueryWords(list[k..]) == []
  {
  }

  /** A block under construction: bs ends in a non-empty block whose value is p, and the
      bag holds the values of the blocks before it. */
  ghost predicate Building(t: Table, bs: seq<seq<string>>, p: Counters, bag: multiset<Counters>) {
    bs != [] && bs[|bs| - 1] != [] &&
    bag == multiset(BlockValues(t, bs[..|bs| - 1])) && p == BlockValue(t, bs[|bs| - 1])
  }

  /** The loop state of query after the tokens before i: prev holds the value of the
      block being built and the bag the values of the blocks before it, or, for a query
      of one word, the bag holds its value and prev is NULL. */
  ghost predicate Evaluated(t: Table, q: seq<string>, i: int, prev: Option<Counters>, bag: multiset<Counters>) {
    0 <= i <= |q| &&
    (i == 0 ==> prev.None? && bag == multiset{}) &&
    (i > 0 && prev.Some? ==> Building(t, Blocks(q[..i]), prev.value, bag)) &&
    (i > 0 && prev.None? ==>
      var bs := Blocks(q[..i]);
      i == |q| && bs != [] && bs[|bs| - 1] != [] && bag == multiset(BlockValues(t, bs)))
  }

  lemma BlockValuesSnoc(t: Table, bs: seq<seq<string>>, b: seq<string>)
    ensures BlockValues(t, bs + [b]) == BlockValues(t, bs) + [BlockValue(t, b)]
  {
  }

  lemma BlockPair(t: Table, a: string, b: string)
    ensures BlockValue(t, [a, b]) == IntersectOf(Term(t, a), Term(t, b))
  {
    assert [a, b][..1] == [a];
  }

  /** A word joining the block under construction intersects its value with the word's. */
  lemma ExtendLast(t: Table, bs: seq<seq<string>>, p: Counters, bag: multiset<Counters>, w: string)
    requires Building(t, bs, p, bag)
    ensures Building(t, AppendToLast(bs, w), IntersectOf(p, Term(t, w)), bag)
  {
    var last := bs[|bs| - 1];
    var bs' := AppendToLast(bs, w);
    assert bs' == bs[..|bs| - 1] + [last + [w]];
    assert bs'[..|bs'| - 1] == bs[..|bs| - 1];
    assert (last + [w])[..|last|] == last;
  }

  /** An "or" followed by a word: the finished block's value goes into the bag and the word
      starts a block of its own. */
  lemma OpenBlock(t: Table, bs: seq<seq<string>>, p: Counters, bag: multiset<Counters>, w: string)
    requires Building(t, bs, p, bag)
    ensures Building(t, bs + [[w]], Term(t, w), bag + multiset{p})
  {
    assert bs == bs[..|bs| - 1] + [bs[|bs| - 1]];
    BlockValuesSnoc(t, bs[..|bs| - 1], bs[|bs| - 1]);
    assert (bs + [[w]])[..|bs|] == bs;
  }

  /** The blocks after an "and" operator and a word: the word joins the last block. */
  lemma BlocksAndWord(q: seq<string>, i: int)
    requires 0 <= i && i + 1 < |q| && IsOp(Some(q[i])) && !IsOrOp(q[i]) && !IsOp(Some(q[i + 1]))
    ensures Blocks(q[..i + 2]) == AppendToLast(Blocks(q[..i]), q[i + 1])
  {
    assert q[..i + 2] == q[..i] + [q[i]] + [q[i + 1]];
    BlocksSnoc(q[..i], q[i]);
    BlocksSnoc(q[..i] + [q[i]], q[i + 1]);
  }

  /** The blocks after a word: it joins the last block. */
  lemma BlocksWord(q: seq<string>, i: int)
    requires 0 <= i < |q| && !IsOp(Some(q[i]))
    ensures Blocks(q[..i + 1]) == AppendToLast(Blocks(q[..i]), q[i])
  {
    assert q[..i + 1] == q[..i] + [q[i]];
    BlocksSnoc(q[..i], q[i]);
  }

  /** The blocks after an "or" operator and a word: the word opens a new block. */
  lemma BlocksOrWord(q: seq<string>, i: int)
    requires 0 <= i && i + 1 < |q| && IsOp(Some(q[i])) && IsOrOp(q[i]) && !IsOp(Some(q[i + 1]))
    ensures Blocks(q[..i + 2]) == Blocks(q[..i]) + [[q[i + 1]]]
  {
    var bs := Blocks(q[..i]);
    assert q[..i + 2] == q[..i] + [q[i]] + [q[i + 1]];
    BlocksSnoc(q[..i], q[i]);
    BlocksSnoc(q[..i] + [q[i]], q[i + 1]);
    assert Blocks(q[..i] + [q[i]]) == bs + [[]];
    assert AppendToLast(bs + [[]], q[i + 1]) == bs + [[q[i + 1]]] by {
      assert (bs + [[]])[..|bs|] == bs;
      assert (bs + [[]])[|bs|] + [q[i + 1]] == [q[i + 1]];
    }
  }

  /** The blocks of the first word alone. */
  lemma BlocksFirst(q: seq<string>)
    requires |q| >= 1 && !IsOp(Some(q[0]))
    ensures Blocks(q[..1]) == [[q[0]]]
  {
    assert q[..1] == [] + [q[0]];
    BlocksSnoc([], q[0]);
    assert Blocks([]) == [];
  }

  /** The first word starts the first block. */
  lemma FirstBuilding(t: Table, q: seq<string>)
    requires |q| >= 1 && !IsOp(Some(q[0]))
    ensures Building(t, Blocks(q[..1]), Term(t, q[0]), multiset{})
  {
    BlocksFirst(q);
    var bs: seq<seq<string>> := [[q[0]]];
    assert bs[..0] == [];
  }

  /** The first step when the second token is an "or" operator. */
  lemma FirstStepOr(t: Table, q: seq<string>)
    requires |q| >= 3 && !IsOp(Some(q[0])) && IsOp(Some(q[1])) && IsOrOp(q[1]) && !IsOp(Some(q[2]))
    ensures Evaluated(t, q, 3, Some(Term(t, q[2])), multiset{Term(t, q[0])})
  {
    FirstBuilding(t, q);
    assert q[..2][..1] == q[..1];
    BlocksSnoc(q[..1], q[1]);
    assert q[..1] + [q[1]] == q[..2];
    assert q[..2] + [q[2]] == q[..3];
    BlocksSnoc(q[..2], q[2]);
    var bs := Blocks(q[..1]);
    assert Blocks(q[..2]) == bs + [[]];
    assert AppendToLast(bs + [[]], q[2]) == bs + [[q[2]]] by {
      assert (bs + [[]])[..|bs|] == bs;
      assert (bs + [[]])[|bs|] + [q[2]] == [q[2]];
    }
    OpenBlock(t, bs, Term(t, q[0]), multiset{}, q[2]);
  }

  /** The first step when the second token is an "and" operator followed by a word. */
  lemma FirstStepAndOp(t: Table, q: seq<string>)
    requires |q| >= 3 && !IsOp(Some(q[0])) && IsOp(Some(q[1])) && !IsOrOp(q[1]) && !IsOp(Some(q[2]))
    ensures Evaluated(t, q, 3, Some(IntersectOf(Term(t, q[0]), Term(t, q[2]))), multiset{})
  {
    FirstBuilding(t, q);
    BlocksSnoc(q[..1], q[1]);
    assert q[..1] + [q[1]] == q[..2];
    assert q[..2] + [q[2]] == q[..3];
    BlocksSnoc(q[..2], q[2]);
    ExtendLast(t, Blocks(q[..1]), Term(t, q[0]), multiset{}, q[2]);
  }

  /** The first step when the second token is a word. */
  lemma FirstStepAndWord(t: Table, q: seq<string>)
    requires |q| >= 2 && !IsOp(Some(q[0])) && !IsOp(Some(q[1]))
    ensures Evaluated(t, q, 2, Some(IntersectOf(Term(t, q[0]), Term(t, q[1]))), multiset{})
  {
    FirstBuilding(t, q);
    BlocksWord(q, 1);
    ExtendLast(t, Blocks(q[..1]), Term(t, q[0]), multiset{}, q[1]);
  }

  /** The only step of a one-word query. */
  lemma FirstStepAlone(t: Table, q: seq<string>)
    requires |q| == 1 && !IsOp(Some(q[0]))
    ensures Evaluated(t, q, 1, None, multiset{Term(t, q[0])})
  {
    BlocksFirst(q);
  }

  /** A later step at an "or" operator: the block built so far goes into the bag and the
      word after the operator starts the next one. */
  lemma StepOr(t: Table, q: seq<string>, i: int, p: Counters, bag: multiset<Counters>)
    requires Evaluated(t, q, i, Some(p), bag) && i > 0 && i + 1 < |q|
    requires IsOp(Some(q[i])) && IsOrOp(q[i]) && !IsOp(Some(q[i + 1]))
    ensures Evaluated(t, q, i + 2, Some(Term(t, q[i + 1])), bag + multiset{p})
  {
    BlocksOrWord(q, i);
    OpenBlock(t, Blocks(q[..i]), p, bag, q[i + 1]);
  }

  /** A later step at an "and" operator: the block built so far is intersected with the
      copy of the word after it. */
  lemma StepAndOp(t: Table, q: seq<string>, i: int, p: Counters, bag: multiset<Counters>)
    requires Evaluated(t, q, i, Some(p), bag) && 0 < i && i + 1 < |q|
    requires IsOp(Some(q[i])) && !IsOrOp(q[i]) && !IsOp(Some(q[i + 1]))
    ensures Evaluated(t, q, i + 2, Some(IntersectOf(p, Term(t, q[i + 1]))), bag)
  {
    BlocksAndWord(q, i);
    ExtendLast(t, Blocks(q[..i]), p, bag, q[i + 1]);
  }

  /** A later step at a word: the block built so far is intersected with its copy. */
  lemma StepAndWord(t: Table, q: seq<string>, i: int, p: Counters, bag: multiset<Counters>)
    requires Evaluated(t, q, i, Some(p), bag) && 0 < i < |q| && !IsOp(Some(q[i]))
    ensures Evaluated(t, q, i + 1, Some(IntersectOf(p, Term(t, q[i]))), bag)
  {
    BlocksWord(q, i);
    ExtendLast(t, Blocks(q[..i]), p, bag, q[i]);
  }

  /** When the tokens run out, the bag and prev together hold the value of every block. */
  lemma Finished(t: Table, q: seq<string>, prev: Option<Counters>, bag: multiset<Counters>)
    requires |q| >= 1 && Evaluated(t, q, |q|, prev, bag)
    ensures bag + (if prev.Some? then multiset{prev.value} else multiset{}) == multiset(BlockValues(t, Blocks(q)))
  {
    assert q[..|q|] == q;
    var bs := Blocks(q);
    if prev.Some? {
      assert bs == bs[..|bs| - 1] + [bs[|bs| - 1]];
      BlockValuesSnoc(t, bs[..|bs| - 1], bs[|bs| - 1]);
    }
  }

  /** Every block value of a valid query holds no negative entry. */
  lemma BlockValuesNonNegative(t: Table, q: seq<string>)
    requires |q| >= 1 && ValidQuery(q)
    ensures AllNonNegative(BlockValues(t, Blocks(q)))
  {
    ValidBlocksNonEmpty(q);
    var bs := Blocks(q);
    forall i | 0 <= i < |bs| ensures NonNegative(BlockValues(t, bs)[i]) {
      BlockValueSpec(t, bs[i]);
    }
  }

  /** What query prints for the scores: a ranking of them, as sortPrint prints it. */
  ghost predicate SortPrinted(text: string, scores: Counters, dir: PageDirectory) {
    exists ranked :: IsRanking(ranked, scores) && text == SortPrintText(ranked, dir)
  }

  /** What query returns and prints for the words q: nothing, with success, for no
      words; validateQuery's message, with failure, for an invalid query; otherwise
      success and a ranking of the query's scores. */
  ghost predicate Answered(t: Table, dir: PageDirectory, q: seq<string>, status: int, text: string) {
    if q == [] then status == 0 && text == ""
    else if !ValidQuery(q) then status == -1 && text == ValidateMessage(q)
    else status == 0 && SortPrinted(text, Evaluate(t, q), dir)
  }

  /** query: -1 for a NULL index or list. The words are those before the list's NULL; an
      empty query succeeds with no output, an invalid one fails with validateQuery's
      message. A valid query is evaluated block by block, the blocks are unioned in the
      bag's order, and the scores are ranked and printed. The index is only read. */
  method Query(index: Index?, dir: PageDirectory, queryList: array?<Option<string>>) returns (status: int, text: string)
    requires queryList != null ==> None in queryList[..]
    ensures index == null || queryList == null ==> status == -1 && text == ""
    ensures index != null && queryList != null ==> Answered(index.table, dir, QueryWords(queryList[..]), status, text)
  {
    if index == null || queryList == null {
      return -1, "";
    }
    var querySize, q := QuerySize(queryList);
    if querySize == 0 {
      AnsweredEmpty(index.table, dir, q);
      return 0, "";
    }
    var valid, message := ValidateQuery(q);
    if !valid {
      AnsweredInvalid(index.table, dir, q, message);
      return -1, message;
    }
    var bag := CollectBlocks(index, q);
    BlockValuesNonNegative(index.table, q);
    var queryResult := UnionBag(bag, BlockValues(index.table, Blocks(q)));
    var printed;
    ghost var ranked;
    printed, text, ranked := SortPrint(queryResult, dir);
    AnsweredValid(index.table, dir, q, ranked, text);
    return 0, text;
  }

  /** query's first loop: the number of words before the list's NULL, and those words. */
  method QuerySize(queryList: array<Option<string>>) returns (querySize: int, q: seq<string>)
    requires None in queryList[..]
    ensures querySize == |q| && q == QueryWords(queryList[..])
  {
    ghost var list := queryList[..];
    ghost var end :| 0 <= end < |list| && list[end] == None;
    querySize := 0;
    q := [];
    assert list[0..] == list;
    while queryList[querySize] != None
      invariant 0 <= querySize <= end && list == queryList[..]
      invariant Scanned(list, querySize, q)
      decreases end - querySize
    {
      ScanStep(list, querySize, q);
      q := q + [queryList[querySize].value];
      querySize := querySize + 1;
    }
    ScanEnd(list, querySize, q);
  }

  /** query's first loop after k entries of the list, none of them NULL: q holds them. */
  ghost predicate Scanned(list: seq<Option<string>>, k: int, q: seq<string>) {
    0 <= k <= |list| && k == |q| && QueryWords(list) == q + QueryWords(list[k..])
  }

  lemma ScanStep(list: seq<Option<string>>, k: int, q: seq<string>)
    requires Scanned(list, k, q) && k < |list| && list[k].Some?
    ensures Scanned(list, k + 1, q + [list[k].value])
  {
    QueryWordsStep(list, k);
    assert q + ([list[k].value] + QueryWords(list[k + 1..])) == (q + [list[k].value]) + QueryWords(list[k + 1..]);
  }

  lemma ScanEnd(list: seq<Option<string>>, k: int, q: seq<string>)
    requires Scanned(list, k, q) && k < |list| && list[k].None?
    ensures |q| == k && q == QueryWords(list)
  {
    QueryWordsEnd(list, k);
    assert q + [] == q;
  }

  lemma AnsweredEmpty(t: Table, dir: PageDirectory, q: seq<string>)
    requires q == []
    ensures Answered(t, dir, q, 0, "")
  {
  }

  lemma AnsweredInvalid(t: Table, dir: PageDirectory, q: seq<string>, message: string)
    requires q != [] && !ValidQuery(q) && message == ValidateMessage(q)
    ensures Answered(t, dir, q, -1, message)
  {
  }

  lemma AnsweredValid(t: Table, dir: PageDirectory, q: seq<string>, ranked: seq<Entry>, text: string)
    requires q != [] && ValidQuery(q)
    requires IsRanking(ranked, Evaluate(t, q)) && text == SortPrintText(ranked, dir)
    ensures Answered(t, dir, q, 0, text)
  {
  }

  /** The main loop of query over a valid query of querySize >= 1 words: the value of
      every and-block ends up in the bag. */
  method CollectBlocks(index: Index, q: seq<string>) returns (bag: multiset<Counters>)
    requires |q| >= 1 && ValidQuery(q)
    ensures bag == multiset(BlockValues(index.table, Blocks(q)))
  {
    var querySize := |q|;
    ghost var t := index.table;
    bag := multiset{};
    var prev: Option<Counters> := None;
    var i := 0;
    while i < querySize
      invariant Evaluated(t, q, i, prev, bag)
      invariant 0 < i < |q| ==> prev.Some?
      decreases querySize - i
    {
      var word1: string := "";
      var op: string;
      var word2: Option<string> := None;
      // The state the step must reach, by the lemmas about blocks.
      ghost var nextPrev: Option<Counters>, nextBag: multiset<Counters> := None, bag;
      if i == 0 {
        word1 := q[i];
        if i < querySize - 1 && IsOp(Some(q[i + 1])) {
          op := q[i + 1];
          word2 := Some(q[i + 2]);
          i := i + 3;
          assert !IsOp(Some(q[2])) by { assert !(IsOp(Some(q[1])) && IsOp(Some(q[2]))); }
          if IsOrOp(q[1]) {
            FirstStepOr(t, q);
            nextPrev, nextBag := Some(Term(t, q[2])), multiset{Term(t, q[0])};
          } else {
            FirstStepAndOp(t, q);
            nextPrev := Some(IntersectOf(Term(t, q[0]), Term(t, q[2])));
          }
        } else if i < querySize - 1 {
          op := "and";
          word2 := Some(q[i + 1]);
          i := i + 2;
          FirstStepAndWord(t, q);
          nextPrev := Some(IntersectOf(Term(t, q[0]), Term(t, q[1])));
        } else {
          op := "or";
          i := i + 1;
          FirstStepAlone(t, q);
          nextBag := multiset{Term(t, q[0])};
        }
      } else {
        if IsOp(Some(q[i])) {
          op := q[i];
          word1 := q[i + 1];
          assert !IsOp(Some(q[i + 1])) by { assert !(IsOp(Some(q[i])) && IsOp(Some(q[i + 1]))); }
          if IsOrOp(q[i]) {
            StepOr(t, q, i, prev.value, bag);
            nextPrev, nextBag := Some(Term(t, q[i + 1])), bag + multiset{prev.value};
          } else {
            StepAndOp(t, q, i, prev.value, bag);
            nextPrev := Some(IntersectOf(prev.value, Term(t, q[i + 1])));
          }
          i := i + 2;
        } else {
          op := "and";
          word1 := q[i];
          StepAndWord(t, q, i, prev.value, bag);
          nextPrev := Some(IntersectOf(prev.value, Term(t, q[i])));
          i := i + 1;
        }
      }
      var counters1: Counters;
      var counters2: Option<Counters> := None;
      if prev.Some? {
        counters1 := prev.value;
        var copy := FindCopy(index, word1);
        counters2 := Some(copy);
      } else if word2.None? {
        counters1 := FindCopy(index, word1);
      } else {
        counters1 := FindCopy(index, word1);
        var copy := FindCopy(index, word2.value);
        counters2 := Some(copy);
      }
      OperatorKinds("or");
      OperatorKinds("and");
      if IsOp(Some(op)) {
        OperatorKinds(op);
      }
      if IsOrOp(op) {
        bag := bag + multiset{counters1};
        prev := counters2;
      } else if IsAndOp(op) {
        // When prev is set, counters1 is prev itself and the intersection updates it.
        var other := if counters2.Some? then counters2.value else map[];
        counters1 := IntersectInto(counters1, other);
        prev := Some(counters1);
      }
      assert prev == nextPrev && bag == nextBag;
    }
    Finished(t, q, prev, bag);
    if prev.Some? {
      bag := bag + multiset{prev.value};
    }
  }

  /** The last loop of query: the items of the bag, taken out in the bag's own order,
      are unioned into the result, which is then the score of every block value. */
  method UnionBag(bag: multiset<Counters>, ghost values: seq<Counters>) returns (queryResult: Counters)
    requires multiset(values) == bag && AllNonNegative(values)
    ensures queryResult == ScoreOf(values)
  {
    var left := bag;
    queryResult := map[];
    ghost var done: seq<Counters> := [];
    ghost var all := left;
    while left != multiset{}
      invariant multiset(done) + left == all
      invariant AllNonNegative(done) && queryResult == ScoreOf(done)
      decreases |left|
    {
      var next := BagExtract(left);
      assert next in multiset(values);
      assert next in values;
      UnionStepScore(done, next);
      queryResult := UnionInto(queryResult, next);
      done := done + [next];
      left := left - multiset{next};
    }
    assert multiset(done) == all;
    ScoreOfPermutation(done, values);
  }

  // ---------------------------------------------------------------- readParse

  /** prompt prints "Query? " only when standard input is a terminal. */
  function Prompt(interactive: bool): string {
    if interactive then "Query? " else ""
  }

  /** The tokens as readParse echoes them: each one followed by a space. */
  function Joined(tokens: seq<string>): string
    decreases |tokens|
  {
    if tokens == [] then "" else Joined(tokens[..|tokens| - 1]) + tokens[|tokens| - 1] + " "
  }

  function NormalizedHeader(): string {
    "Normalized Query: "
  }

  /** What readParse prints for one line read: "Invalid query" for a line with a
      character that is neither a space nor a letter; otherwise the normalised tokens and
      then what query prints for them. */
  ghost predicate LineAnswered(t: Table, dir: PageDirectory, line: string, piece: string) {
    if !ValidChars(line) then piece == "Invalid query\n"
    else exists status, text ::
      piece == NormalizedHeader() + Joined(QueryTokens(line)) + "\n" + text && Answered(t, dir, QueryTokens(line), status, text)
  }

  /** A prompt before each line's answer. */
  function Exchanges(pieces: seq<string>, interactive: bool): string
    decreases |pieces|
  {
    if pieces == [] then "" else Exchanges(pieces[..|pieces| - 1], interactive) + Prompt(interactive) + pieces[|pieces| - 1]
  }

  /** The whole session: the answers, the last prompt (the one that meets the end of the
      input) and a final newline. */
  function SessionText(pieces: seq<string>, interactive: bool): string {
    Exchanges(pieces, interactive) + Prompt(interactive) + "\n"
  }

  /** A list holding the tokens and then a NULL has exactly the tokens as its query words. */
  lemma {:induction false} QueryWordsOf(list: seq<Option<string>>, tokens: seq<string>)
    requires |tokens| < |list| && list[|tokens|] == None
    requires forall j | 0 <= j < |tokens| :: list[j] == Some(tokens[j])
    ensures QueryWords(list) == tokens
    decreases |tokens|
  {
    if tokens != [] {
      QueryWordsOf(list[1..], tokens[1..]);
    }
  }

  /** One pass of readParse's loop, after the prompt: the line is checked, tokenized into
      a list of |line| / 2 + 1 entries preset to NULL, echoed, and queried. */
  method AnswerLine(index: Index, dir: PageDirectory, line: string) returns (piece: string)
    ensures LineAnswered(index.table, dir, line, piece)
  {
    var ok := CheckLine(line);
    if !ok {
      piece := "Invalid query\n";
    } else {
      var wordAppr := |line| / 2 + 1;
      var list := new Option<string>[wordAppr](_ => None);
      // tokenize cannot fail on a list that exists.
      var tokenized := Tokenize(list, line);
      ghost var tokens := QueryTokens(line);
      var normalized := EchoQuery(list, tokens);
      QueryWordsOf(list[..], tokens);
      var status, text := Query(index, dir, list);
      piece := normalized + text;
      Answer(index.table, dir, line, status, text);
    }
  }

  /** The line readParse prints before a query's answer: the header and the list's
      entries up to its first NULL, each followed by a space. */
  method EchoQuery(list: array<Option<string>>, ghost tokens: seq<string>) returns (normalized: string)
    requires |tokens| < list.Length
    requires forall j | 0 <= j < |tokens| :: list[j] == Some(tokens[j])
    requires forall j | |tokens| <= j < list.Length :: list[j] == None
    ensures normalized == NormalizedHeader() + Joined(tokens) + "\n"
  {
    normalized := NormalizedHeader();
    var i := 0;
    while i < list.Length
      invariant 0 <= i <= list.Length
      invariant normalized == NormalizedHeader() + Joined(tokens[..if i < |tokens| then i else |tokens|])
    {
      if list[i] != None {
        assert tokens[..i + 1][..i] == tokens[..i];
        normalized := normalized + list[i].value + " ";
      }
      i := i + 1;
    }
    assert tokens[..|tokens|] == tokens;
    normalized := normalized + "\n";
  }

  lemma Answer(t: Table, dir: PageDirectory, line: string, status: int, text: string)
    requires ValidChars(line) && Answered(t, dir, QueryTokens(line), status, text)
    ensures LineAnswered(t, dir, line, NormalizedHeader() + Joined(QueryTokens(line)) + "\n" + text)
  {
  }

  /** readParse: with a NULL index nothing is printed. Otherwise each line read is
      answered after a prompt, as LineAnswered says, and the session ends with one more
      prompt and a newline. The index is only read. */
  method ReadParse(index: Index?, dir: PageDirectory, lines: seq<string>, interactive: bool) returns (out: string, ghost pieces: seq<string>)
    ensures index == null ==> out == ""
    ensures index != null ==> |pieces| == |lines| && out == SessionText(pieces, interactive)
    ensures index != null ==> forall k | 0 <= k < |lines| :: LineAnswered(index.table, dir, lines[k], pieces[k])
  {
    out := "";
    pieces := [];
    if index == null {
      return;
    }
    var k := 0;
    while k < |lines|
      invariant 0 <= k <= |lines| && |pieces| == k
      invariant out == Exchanges(pieces, interactive)
      invariant forall j | 0 <= j < k :: LineAnswered(index.table, dir, lines[j], pieces[j])
    {
      out := out + Prompt(interactive);
      var piece := AnswerLine(index, dir, lines[k]);
      pieces := pieces + [piece];
      out := out + piece;
      assert pieces[..k] == pieces[..|pieces| - 1];
      k := k + 1;
    }
    out := out + Prompt(interactive) + "\n";
  }
}
