/** The meaning of a query: the counters callbacks of the querier (copy, intersect,
    union), the and-blocks a query splits into at its "or" operators, and the score each
    document gets. */
module QueryEval {
  import opened Wrappers
  import opened CLib
  import opened Word
  import opened Counters
  import opened IndexTable
  import opened QueryParse

  // ---------------------------------------------------------------- counters callbacks

  /** What copyIter builds through counters_set: the entries with a key and a count that
      are not negative. */
  function CopyOf(c: Counters): Counters {
    map k | k in c && k >= 0 && c[k] >= 0 :: c[k]
  }

  /** A copy never holds a negative entry, and a counters object that holds none is copied
      as it is. */
  lemma CopyOfNonNegative(c: Counters)
    ensures NonNegative(CopyOf(c))
    ensures NonNegative(c) ==> CopyOf(c) == c
  {
    if NonNegative(c) {
      assert CopyOf(c).Keys == c.Keys;
      forall k | k in c ensures CopyOf(c)[k] == c[k] {
      }
    }
  }

  /** counters_iterate(src, copyIter) into a new counters object; a NULL source (a word
      indexFind does not know) leaves the copy empty. */
  method CopyCounters(src: Option<Counters>) returns (dst: Counters)
    ensures dst == if src.None? then map[] else CopyOf(src.value)
  {
    dst := map[];
    if src.None? {
      return;
    }
    var c := src.value;
    var remaining := c.Keys;
    while remaining != {}
      invariant remaining <= c.Keys
      invariant dst == map k | k in c.Keys - remaining && k >= 0 && c[k] >= 0 :: c[k]
      decreases remaining
    {
      var key := Choose(remaining);
      var val := c[key];
      if key >= 0 && val >= 0 {
        dst := dst[key := val];
      }
      remaining := remaining - {key};
    }
  }

  function Min(a: int, b: int): int {
    if b < a then b else a
  }

  /** counters_iterate(res, countersIntersect) with other: every key of res keeps its
      place and takes the smaller of its two counts (0 when other lacks it). */
  function IntersectOf(res: Counters, other: Counters): Counters {
    map k | k in res :: if k >= 0 && res[k] >= 0 then Min(res[k], Get(other, k)) else res[k]
  }

  /** countersIntersect run over every key of res, updating res in place. */
  method IntersectInto(res: Counters, other: Counters) returns (r: Counters)
    ensures r == IntersectOf(res, other)
  {
    r := res;
    var remaining := res.Keys;
    while remaining != {}
      invariant remaining <= res.Keys && r.Keys == res.Keys
      invariant forall k | k in res :: r[k] == if k in remaining then res[k] else IntersectOf(res, other)[k]
      decreases remaining
    {
      var key := Choose(remaining);
      var val1 := r[key];
      if key >= 0 && val1 >= 0 {
        var val2 := Get(other, key);
        var minVal := if val2 < val1 then val2 else val1;
        r := r[key := minVal];
      }
      remaining := remaining - {key};
    }
  }

  /** Whether countersUnion writes key k of next into res: a key and count that are not
      negative, whose sum with res's count is not 0. */
  predicate Adds(res: Counters, next: Counters, k: int) {
    k in next && k >= 0 && next[k] >= 0 && next[k] + Get(res, k) != 0
  }

  /** counters_iterate(next, countersUnion) into res: each accepted key of next gets the
      sum of the two counts; every other key of res is kept. */
  function UnionOf(res: Counters, next: Counters): Counters {
    map k | k in res.Keys + next.Keys && (k in res || Adds(res, next, k)) ::
      if Adds(res, next, k) then next[k] + Get(res, k) else res[k]
  }

  /** countersUnion run over every key of next, adding into res in place. */
  method UnionInto(res: Counters, next: Counters) returns (r: Counters)
    ensures r == UnionOf(res, next)
  {
    r := res;
    var remaining := next.Keys;
    while remaining != {}
      invariant remaining <= next.Keys
      invariant forall k | k in remaining :: Get(r, k) == Get(res, k) && (k in r <==> k in res)
      invariant forall k | k !in remaining ::
        (k in r <==> k in UnionOf(res, next)) && (k in r ==> r[k] == UnionOf(res, next)[k])
      decreases remaining
    {
      var key := Choose(remaining);
      var val1 := next[key];
      if key >= 0 && val1 >= 0 {
        var val2 := Get(r, key);
        var sum := val1 + val2;
        if sum != 0 {
          r := r[key := sum];
        }
      }
      remaining := remaining - {key};
    }
    assert forall k :: (k in r <==> k in UnionOf(res, next)) && (k in r ==> r[k] == UnionOf(res, next)[k]);
  }

  // ---------------------------------------------------------------- and-blocks

  /** The test the evaluator applies to an operator word: strncmp(op, "or", 2) == 0. */
  predicate IsOrOp(op: string) {
    StrNCmp(op, "or", 2) == 0
  }

  /** The second test: strncmp(op, "and", 2) == 0, which only compares "an". */
  predicate IsAndOp(op: string) {
    StrNCmp(op, "and", 2) == 0
  }

  /** Every operator word passes one of the two tests: one that does not begin with "or"
      begins with "and". */
  lemma OperatorKinds(w: string)
    requires IsOp(Some(w))
    ensures IsOrOp(w) || IsAndOp(w)
    ensures IsOrOp(w) <==> "or" <= w
  {
    IsOpPrefix(w);
    StrNCmpPrefix("or", w, 2);
    StrNCmpPrefix("and", w, 2);
    assert "or"[..2] == "or" && "and"[..2] == "an";
    if "and" <= w {
      assert w[..2] == "an";
    }
  }

  /** The word w joins the last block; with no block yet it opens one. */
  function AppendToLast(bs: seq<seq<string>>, w: string): seq<seq<string>> {
    if bs == [] then [[w]] else bs[..|bs| - 1] + [bs[|bs| - 1] + [w]]
  }

  /** One token of a query read from the left: an "or" operator opens a new block, any
      other operator is an "and" and changes nothing, and a word joins the last block. */
  function Feed(bs: seq<seq<string>>, token: string): seq<seq<string>> {
    if IsOp(Some(token)) && IsOrOp(token) then bs + [[]]
    else if IsOp(Some(token)) then bs
    else AppendToLast(bs, token)
  }

  function FeedAll(bs: seq<seq<string>>, tokens: seq<string>): seq<seq<string>>
    decreases |tokens|
  {
    if tokens == [] then bs else Feed(FeedAll(bs, tokens[..|tokens| - 1]), tokens[|tokens| - 1])
  }

  /** The and-blocks of a query: the runs of words between its "or" operators. */
  function Blocks(q: seq<string>): seq<seq<string>> {
    FeedAll([], q)
  }

  lemma {:induction false} FeedAllConcat(bs: seq<seq<string>>, a: seq<string>, b: seq<string>)
    ensures FeedAll(bs, a + b) == FeedAll(FeedAll(bs, a), b)
    decreases |b|
  {
    if b == [] {
      assert a + b == a;
    } else {
      assert (a + b)[..|a + b| - 1] == a + b[..|b| - 1];
      assert (a + b)[|a + b| - 1] == b[|b| - 1];
      FeedAllConcat(bs, a, b[..|b| - 1]);
    }
  }

  /** The blocks of q + [token] come from those of q and the one token. */
  lemma BlocksSnoc(q: seq<string>, token: string)
    ensures Blocks(q + [token]) == Feed(Blocks(q), token)
  {
    assert (q + [token])[..|q|] == q;
  }

  /** An explicit "and" between words means what leaving it out means. */
  lemma ExplicitAnd(before: seq<string>, after: seq<string>)
    ensures Blocks(before + ["and"] + after) == Blocks(before + after)
  {
    OperatorKinds("and");
    FeedAllConcat([], before + ["and"], after);
    FeedAllConcat([], before, ["and"]);
    FeedAllConcat([], before, after);
    assert FeedAll(Blocks(before), ["and"]) == Feed(FeedAll(Blocks(before), []), "and");
  }

  /** An "or" operator starts a new block: the blocks of before + ["or"] + after are those
      of before followed by those of after. */
  lemma OrSplits(before: seq<string>, after: seq<string>)
    requires after != [] && !IsOp(Some(after[0]))
    ensures Blocks(before + ["or"] + after) == Blocks(before) + Blocks(after)
  {
    OperatorKinds("or");
    FeedAllConcat([], before + ["or"], after);
    FeedAllConcat([], before, ["or"]);
    assert FeedAll(Blocks(before), ["or"]) == Feed(FeedAll(Blocks(before), []), "or");
    FeedAfterOr(Blocks(before), after);
  }

  /** Feeding words and operators after an empty last block leaves the earlier blocks
      alone. */
  lemma {:induction false} FeedAfterOr(bs: seq<seq<string>>, after: seq<string>)
    requires after != [] && !IsOp(Some(after[0]))
    ensures FeedAll(bs + [[]], after) == bs + FeedAll([], after)
    decreases |after|
  {
    if |after| == 1 {
      assert after[..0] == [];
      assert FeedAll([], after) == [[after[0]]];
      assert (bs + [[]])[..|bs|] == bs;
      assert [] + [after[0]] == [after[0]];
      assert FeedAll(bs + [[]], after) == AppendToLast(bs + [[]], after[0]);
    } else {
      var init := after[..|after| - 1];
      assert init[0] == after[0];
      FeedAfterOr(bs, init);
      FeedAllNonEmpty(init);
      FeedShift(bs, FeedAll([], init), after[|after| - 1]);
    }
  }

  /** Feeding a token to blocks that follow bs leaves bs alone. */
  lemma FeedShift(bs: seq<seq<string>>, c: seq<seq<string>>, token: string)
    requires c != []
    ensures Feed(bs + c, token) == bs + Feed(c, token)
  {
    if IsOp(Some(token)) && IsOrOp(token) {
      assert (bs + c) + [[]] == bs + (c + [[]]);
    } else if !IsOp(Some(token)) {
      assert (bs + c)[..|bs + c| - 1] == bs + c[..|c| - 1];
      assert (bs + c)[|bs + c| - 1] == c[|c| - 1];
    }
  }

  /** A query that starts with a word has at least one block. */
  lemma {:induction false} FeedAllNonEmpty(q: seq<string>)
    requires q != [] && !IsOp(Some(q[0]))
    ensures FeedAll([], q) != []
    decreases |q|
  {
    if |q| > 1 {
      var init := q[..|q| - 1];
      assert init[0] == q[0];
      FeedAllNonEmpty(init);
    } else {
      assert q[..0] == [];
    }
  }

  /** validateQuery's conditions are what keeps every block non-empty: each operator
      is followed by a word. */
  lemma {:induction false} ValidBlocksNonEmpty(q: seq<string>)
    requires |q| >= 1 && ValidQuery(q)
    ensures Blocks(q) != []
    ensures forall i | 0 <= i < |Blocks(q)| :: Blocks(q)[i] != []
  {
    FeedAllNonEmpty(q);
    PrefixBlocks(q, |q|);
    assert q[..|q|] == q;
  }

  /** The blocks of a prefix of a valid query that ends with a word are all non-empty. */
  lemma {:induction false} PrefixBlocks(q: seq<string>, i: int)
    requires |q| >= 1 && ValidQuery(q) && 1 <= i <= |q| && !IsOp(Some(q[i - 1]))
    ensures forall j | 0 <= j < |Blocks(q[..i])| :: Blocks(q[..i])[j] != []
    decreases i
  {
    var p := q[..i];
    var init := q[..i - 1];
    assert p == init + [q[i - 1]];
    BlocksSnoc(init, q[i - 1]);
    if i == 1 {
      assert init == [];
    } else if !IsOp(Some(q[i - 2])) {
      PrefixBlocks(q, i - 1);
    } else {
      assert i >= 3;
      var before, op := q[i - 3], q[i - 2];
      assert !(IsOp(Some(before)) && IsOp(Some(op)));
      var init2 := q[..i - 2];
      assert init == init2 + [q[i - 2]];
      BlocksSnoc(init2, q[i - 2]);
      PrefixBlocks(q, i - 2);
    }
  }

  // ---------------------------------------------------------------- block values

  /** The copy of the posting list indexFind returns for w (it looks w up in normal form). */
  function Term(t: Table, w: string): Counters {
    CopyOf(Postings(t, Lower(w)))
  }

  /** The counters an and-block leaves: the first word's copy, intersected in turn with
      each following word's copy. */
  function BlockValue(t: Table, ws: seq<string>): Counters
    decreases |ws|
  {
    if ws == [] then map[]
    else if |ws| == 1 then Term(t, ws[0])
    else IntersectOf(BlockValue(t, ws[..|ws| - 1]), Term(t, ws[|ws| - 1]))
  }

  /** The smallest count of document k over the words of a block. */
  function MinCount(t: Table, ws: seq<string>, k: int): int
    requires ws != []
    decreases |ws|
  {
    if |ws| == 1 then Get(Term(t, ws[0]), k)
    else Min(MinCount(t, ws[..|ws| - 1], k), Get(Term(t, ws[|ws| - 1]), k))
  }

  /** MinCount is the minimum: no word has fewer, and some word has exactly that many. */
  lemma {:induction false} MinCountIsMin(t: Table, ws: seq<string>, k: int)
    requires ws != []
    ensures forall i | 0 <= i < |ws| :: MinCount(t, ws, k) <= Get(Term(t, ws[i]), k)
    ensures exists i | 0 <= i < |ws| :: MinCount(t, ws, k) == Get(Term(t, ws[i]), k)
    decreases |ws|
  {
    if |ws| > 1 {
      var init := ws[..|ws| - 1];
      MinCountIsMin(t, init, k);
      var j :| 0 <= j < |init| && MinCount(t, init, k) == Get(Term(t, init[j]), k);
      assert init[j] == ws[j];
      forall i | 0 <= i < |ws| ensures MinCount(t, ws, k) <= Get(Term(t, ws[i]), k) {
        if i < |init| {
          assert init[i] == ws[i];
        }
      }
      if MinCount(t, ws, k) == MinCount(t, init, k) {
        assert 0 <= j < |ws| && MinCount(t, ws, k) == Get(Term(t, ws[j]), k);
      } else {
        assert 0 <= |ws| - 1 < |ws| && MinCount(t, ws, k) == Get(Term(t, ws[|ws| - 1]), k);
      }
    } else {
      assert MinCount(t, ws, k) == Get(Term(t, ws[0]), k);
    }
  }

  /** What an and-block yields: exactly the documents of its first word, each with the
      smallest count it has over the block's words (0 when some word lacks it). */
  lemma {:induction false} BlockValueSpec(t: Table, ws: seq<string>)
    requires ws != []
    ensures NonNegative(BlockValue(t, ws))
    ensures BlockValue(t, ws).Keys == Term(t, ws[0]).Keys
    ensures forall k | k in BlockValue(t, ws) :: BlockValue(t, ws)[k] == MinCount(t, ws, k)
    decreases |ws|
  {
    CopyOfNonNegative(Postings(t, Lower(ws[0])));
    if |ws| > 1 {
      var init := ws[..|ws| - 1];
      assert init[0] == ws[0];
      BlockValueSpec(t, init);
      CopyOfNonNegative(Postings(t, Lower(ws[|ws| - 1])));
      var b := BlockValue(t, init);
      var c := Term(t, ws[|ws| - 1]);
      assert BlockValue(t, ws) == IntersectOf(b, c);
      forall k | k in IntersectOf(b, c) ensures IntersectOf(b, c)[k] == MinCount(t, ws, k) && IntersectOf(b, c)[k] >= 0 {
        assert b[k] == MinCount(t, init, k);
      }
    }
  }

  // ---------------------------------------------------------------- scores

  /** What countersUnion takes from one counters object for key k. */
  function Contribution(c: Counters, k: int): int {
    if k in c && k >= 0 && c[k] >= 0 then c[k] else 0
  }

  /** The total count of k over a sequence of counters. */
  function SeqSum(cs: seq<Counters>, k: int): int
    decreases |cs|
  {
    if cs == [] then 0 else Contribution(cs[0], k) + SeqSum(cs[1..], k)
  }

  function KeysOf(cs: seq<Counters>): set<int>
    decreases |cs|
  {
    if cs == [] then {} else cs[0].Keys + KeysOf(cs[1..])
  }

  /** The scores the union of a sequence of counters leaves: each document with a positive
      total count, scored by that total. */
  function ScoreOf(cs: seq<Counters>): Counters {
    map k | k in KeysOf(cs) && SeqSum(cs, k) > 0 :: SeqSum(cs, k)
  }

  lemma {:induction false} SeqSumConcat(a: seq<Counters>, b: seq<Counters>, k: int)
    ensures SeqSum(a + b, k) == SeqSum(a, k) + SeqSum(b, k)
    decreases |a|
  {
    if a == [] {
      assert a + b == b;
    } else {
      assert (a + b)[0] == a[0] && (a + b)[1..] == a[1..] + b;
      SeqSumConcat(a[1..], b, k);
    }
  }

  lemma {:induction false} KeysOfConcat(a: seq<Counters>, b: seq<Counters>)
    ensures KeysOf(a + b) == KeysOf(a) + KeysOf(b)
    decreases |a|
  {
    if a == [] {
      assert a + b == b;
    } else {
      assert (a + b)[0] == a[0] && (a + b)[1..] == a[1..] + b;
      KeysOfConcat(a[1..], b);
    }
  }

  /** A key with a non-zero total is a key of one of the counters. */
  lemma {:induction false} SeqSumKey(cs: seq<Counters>, k: int)
    requires SeqSum(cs, k) != 0
    ensures k in KeysOf(cs)
    decreases |cs|
  {
    if Contribution(cs[0], k) == 0 {
      SeqSumKey(cs[1..], k);
    }
  }

  /** A document scores exactly when its total count is positive, and scores that total. */
  lemma ScoreOfAt(cs: seq<Counters>, k: int)
    ensures k in ScoreOf(cs) <==> SeqSum(cs, k) > 0
    ensures k in ScoreOf(cs) ==> ScoreOf(cs)[k] == SeqSum(cs, k)
  {
    if SeqSum(cs, k) > 0 {
      SeqSumKey(cs, k);
    }
  }

  /** Taking the element at j out of b leaves the other elements. */
  lemma MultisetRemoveAt(b: seq<Counters>, j: int)
    requires 0 <= j < |b|
    ensures multiset(b[..j] + b[j + 1..]) == multiset(b) - multiset{b[j]}
  {
    assert b == b[..j] + ([b[j]] + b[j + 1..]);
  }

  /** The sum over b is the element at j's contribution plus the sum over the others. */
  lemma SeqSumRemoveAt(b: seq<Counters>, j: int, k: int)
    requires 0 <= j < |b|
    ensures SeqSum(b, k) == Contribution(b[j], k) + SeqSum(b[..j] + b[j + 1..], k)
  {
    assert b == b[..j] + ([b[j]] + b[j + 1..]);
    SeqSumConcat(b[..j], [b[j]] + b[j + 1..], k);
    SeqSumConcat([b[j]], b[j + 1..], k);
    SeqSumConcat(b[..j], b[j + 1..], k);
    assert SeqSum([b[j]], k) == Contribution(b[j], k) + SeqSum([], k);
  }

  /** Totals do not depend on the order of the counters. */
  lemma {:induction false} SeqSumPermutation(a: seq<Counters>, b: seq<Counters>, k: int)
    requires multiset(a) == multiset(b)
    ensures SeqSum(a, k) == SeqSum(b, k)
    decreases |a|
  {
    if a == [] {
      assert |b| == |multiset(b)| == 0;
    } else {
      assert a[0] in multiset(b);
      var j :| 0 <= j < |b| && b[j] == a[0];
      MultisetRemoveAt(b, j);
      assert a == [a[0]] + a[1..];
      assert multiset(a[1..]) == multiset(a) - multiset{a[0]};
      SeqSumPermutation(a[1..], b[..j] + b[j + 1..], k);
      SeqSumRemoveAt(b, j, k);
    }
  }

  /** The result of the union loop does not depend on the order the bag hands out its
      blocks. */
  lemma ScoreOfPermutation(a: seq<Counters>, b: seq<Counters>)
    requires multiset(a) == multiset(b)
    ensures ScoreOf(a) == ScoreOf(b)
  {
    forall k ensures (k in ScoreOf(a) <==> k in ScoreOf(b)) && (k in ScoreOf(a) ==> ScoreOf(a)[k] == ScoreOf(b)[k]) {
      SeqSumPermutation(a, b, k);
      ScoreOfAt(a, k);
      ScoreOfAt(b, k);
    }
  }

  predicate AllNonNegative(cs: seq<Counters>) {
    forall i | 0 <= i < |cs| :: NonNegative(cs[i])
  }

  /** One more round of the union loop: adding the next block into the scores so far
      gives the scores of the longer sequence. */
  lemma UnionStepScore(done: seq<Counters>, next: Counters)
    requires AllNonNegative(done) && NonNegative(next)
    ensures UnionOf(ScoreOf(done), next) == ScoreOf(done + [next])
  {
    var r := ScoreOf(done);
    var u := UnionOf(r, next);
    var s := ScoreOf(done + [next]);
    forall k ensures (k in u <==> k in s) && (k in u ==> u[k] == s[k]) {
      SeqSumConcat(done, [next], k);
      assert SeqSum([next], k) == Contribution(next, k) + SeqSum([], k);
      ScoreOfAt(done, k);
      ScoreOfAt(done + [next], k);
      SeqSumNonNegative(done, k);
    }
  }

  lemma {:induction false} SeqSumNonNegative(cs: seq<Counters>, k: int)
    ensures SeqSum(cs, k) >= 0
    decreases |cs|
  {
    if cs != [] {
      SeqSumNonNegative(cs[1..], k);
    }
  }

  /** The value of each block of a query. */
  function BlockValues(t: Table, bs: seq<seq<string>>): seq<Counters> {
    seq(|bs|, i requires 0 <= i < |bs| => BlockValue(t, bs[i]))
  }

  /** The scores a query yields: the union of its and-blocks. */
  function Evaluate(t: Table, q: seq<string>): Counters {
    ScoreOf(BlockValues(t, Blocks(q)))
  }

  /** The score of document k: the sum, over the blocks, of the smallest count k has among
      the words of the block, counting only blocks whose first word occurs in k; k is
      listed exactly when that sum is positive. */
  lemma EvaluateAt(t: Table, q: seq<string>, k: int)
    requires |q| >= 1 && ValidQuery(q)
    ensures k in Evaluate(t, q) <==> BlockSum(t, Blocks(q), k) > 0
    ensures k in Evaluate(t, q) ==> Evaluate(t, q)[k] == BlockSum(t, Blocks(q), k)
  {
    ValidBlocksNonEmpty(q);
    ScoreOfAt(BlockValues(t, Blocks(q)), k);
    BlockSumIsSeqSum(t, Blocks(q), k);
  }

  /** Sum over the blocks of the block's minimum count of k, for blocks whose first word
      occurs in k. */
  function BlockSum(t: Table, bs: seq<seq<string>>, k: int): int
    decreases |bs|
  {
    if bs == [] then 0
    else (if bs[0] != [] && k in Term(t, bs[0][0]) then MinCount(t, bs[0], k) else 0) + BlockSum(t, bs[1..], k)
  }

  lemma {:induction false} BlockSumIsSeqSum(t: Table, bs: seq<seq<string>>, k: int)
    ensures BlockSum(t, bs, k) == SeqSum(BlockValues(t, bs), k)
    decreases |bs|
  {
    if bs != [] {
      if bs[0] != [] {
        BlockValueSpec(t, bs[0]);
      }
      BlockSumIsSeqSum(t, bs[1..], k);
      assert BlockValues(t, bs)[1..] == BlockValues(t, bs[1..]);
      assert BlockValues(t, bs)[0] == BlockValue(t, bs[0]);
    }
  }
}
