/** Reading a query: the character check, the tokenizer, the operator test and the
    validator of the querier. */
module QueryParse {
  import opened Wrappers
  import opened CLib
  import opened Split
  import opened Word

  /** A query line may hold only white space and letters. */
  predicate ValidChars(line: string) {
    forall i | 0 <= i < |line| :: IsSpace(line[i]) || IsAlpha(line[i])
  }

  /** The character check of readParse: scans the line and stops at the first character
      that is neither white space nor a letter. */
  method CheckLine(line: string) returns (ok: bool)
    ensures ok <==> ValidChars(line)
  {
    ok := true;
    var i := 0;
    while i < |line|
      invariant 0 <= i <= |line|
      invariant ok && forall j | 0 <= j < i :: IsSpace(line[j]) || IsAlpha(line[j])
    {
      if !IsSpace(line[i]) && !IsAlpha(line[i]) {
        ok := false;
        return;
      }
      i := i + 1;
    }
  }

  /** The words the tokenizer cuts from a line, before normalisation. They are the
      white-space separated fields of the line, with two exceptions at its end: a field
      that starts at the last character is never emitted, and a field closed by a
      single trailing white-space character keeps that character. */
  function RawTokens(line: string): seq<string> {
    var f := Fields(line, IsSpace);
    var n := |line|;
    FieldsEmpty(line, IsSpace);
    if n >= 1 && !IsSpace(line[n - 1]) && (n == 1 || IsSpace(line[n - 2])) then
      f[..|f| - 1]
    else if n >= 2 && IsSpace(line[n - 1]) && !IsSpace(line[n - 2]) then
      f[..|f| - 1] + [f[|f| - 1] + [line[n - 1]]]
    else
      f
  }

  /** The tokens tokenize stores, each passed through normalizeWord. */
  function QueryTokens(line: string): seq<string> {
    var raw := RawTokens(line);
    seq(|raw|, i requires 0 <= i < |raw| => Lower(raw[i]))
  }

  /** tokenize: -1 for a NULL list. Otherwise the normalised tokens go into the list from
      slot 0 on, in order, and no other slot changes. There are never more than half as
      many tokens as characters, so a list of strlen/2 + 1 slots keeps a NULL at the end. */
  method Tokenize(list: array?<Option<string>>, line: string) returns (status: int)
    requires list != null ==> list.Length >= |line| / 2
    modifies list
    ensures list == null ==> status == -1
    ensures list != null ==> status == 0 && |QueryTokens(line)| <= |line| / 2
    ensures list != null ==> forall j | 0 <= j < |QueryTokens(line)| :: list[j] == Some(QueryTokens(line)[j])
    ensures list != null ==> forall j | |QueryTokens(line)| <= j < list.Length :: list[j] == old(list[j])
  {
    if list == null {
      return -1;
    }
    var n := |line|;
    var wordStart, wordEnd, count := 0, 0, 0;
    var readingWord := false;
    ghost var emitted: seq<string> := [];
    while wordEnd < n
      invariant Progress(line, emitted, wordStart, wordEnd, readingWord) || (wordEnd == n + 1 && !readingWord && Done(line, emitted))
      invariant count == |emitted| && 2 * count <= n
      invariant forall j | 0 <= j < count :: list[j] == Some(Lower(emitted[j]))
      invariant forall j | count <= j < list.Length :: list[j] == old(list[j])
    {
      if (IsSpace(line[wordEnd]) || wordEnd == n - 1) && readingWord {
        if wordEnd == n - 1 {
          StepCloseEnd(line, emitted, wordStart, wordEnd);
          wordEnd := wordEnd + 1;
        } else {
          StepCloseSpace(line, emitted, wordStart, wordEnd);
        }
        var word := NewCString(line[wordStart..wordEnd]);
        var normalized := NormalizeWord(word);
        list[count] := Some(word[..]);
        emitted := emitted + [line[wordStart..wordEnd]];
        count := count + 1;
        readingWord := false;
      } else if !IsSpace(line[wordEnd]) && !readingWord {
        StepStart(line, emitted, wordStart, wordEnd);
        wordStart := wordEnd;
        readingWord := true;
      } else {
        StepOver(line, emitted, wordStart, wordEnd, readingWord);
      }
      wordEnd := wordEnd + 1;
    }
    Finish(line, emitted, wordStart, wordEnd, readingWord);
    return 0;
  }

  /** Where tokenize stands after reading line[..wordEnd]: the words emitted so far, and
      the word being read, if any. */
  ghost predicate Progress(line: string, emitted: seq<string>, wordStart: int, wordEnd: int, readingWord: bool) {
    var n := |line|;
    0 <= wordEnd <= n &&
    (!readingWord ==>
      emitted == Fields(line[..wordEnd], IsSpace) && (wordEnd == 0 || IsSpace(line[wordEnd - 1])) && 2 * |emitted| <= wordEnd) &&
    (readingWord ==>
      0 <= wordStart < wordEnd && emitted == Fields(line[..wordStart], IsSpace) &&
      (wordStart == 0 || IsSpace(line[wordStart - 1])) && NoSep(line[wordStart..wordEnd], IsSpace) &&
      2 * |emitted| <= wordStart) &&
    (readingWord && wordEnd == n ==> wordStart == n - 1) &&
    (wordEnd == n && n >= 2 && IsSpace(line[n - 1]) ==> IsSpace(line[n - 2]))
  }

  /** The words tokenize has emitted once the whole line is read. */
  ghost predicate Done(line: string, emitted: seq<string>) {
    emitted == RawTokens(line) && 2 * |emitted| <= |line|
  }

  /** Closing the word being read at white space before the last character. */
  lemma StepCloseSpace(line: string, emitted: seq<string>, ws: int, e: int)
    requires Progress(line, emitted, ws, e, true) && e < |line| - 1 && IsSpace(line[e])
    ensures 0 <= ws < e && Progress(line, emitted + [line[ws..e]], ws, e + 1, false)
  {
    ClosedAtSpace(line, ws, e, emitted);
  }

  /** Closing the word being read at the last character, which the word keeps. */
  lemma StepCloseEnd(line: string, emitted: seq<string>, ws: int, e: int)
    requires Progress(line, emitted, ws, e, true) && e == |line| - 1
    ensures 0 <= ws < |line| && Done(line, emitted + [line[ws..|line|]])
  {
    ClosedWord(line, ws, emitted);
  }

  /** Starting a word at a character that is not white space. */
  lemma StepStart(line: string, emitted: seq<string>, ws: int, e: int)
    requires Progress(line, emitted, ws, e, false) && e < |line| && !IsSpace(line[e])
    ensures Progress(line, emitted, e, e + 1, true)
  {
  }

  /** White space outside a word, or a character inside a word before the last: nothing
      is emitted. */
  lemma StepOver(line: string, emitted: seq<string>, ws: int, e: int, readingWord: bool)
    requires Progress(line, emitted, ws, e, readingWord) && e < |line|
    requires !((IsSpace(line[e]) || e == |line| - 1) && readingWord)
    requires !(!IsSpace(line[e]) && !readingWord)
    ensures Progress(line, emitted, ws, e + 1, readingWord)
  {
    if readingWord {
      assert line[ws..e + 1] == line[ws..e] + [line[e]];
      NoSepAppend(line[ws..e], [line[e]], IsSpace);
    } else {
      SpaceOutsideWord(line, e);
    }
  }

  /** At the end of the line the emitted words are RawTokens. */
  lemma Finish(line: string, emitted: seq<string>, ws: int, e: int, readingWord: bool)
    requires Progress(line, emitted, ws, e, readingWord) || (e == |line| + 1 && Done(line, emitted))
    requires e >= |line|
    ensures emitted == RawTokens(line) && 2 * |emitted| <= |line|
  {
    var n := |line|;
    if e == n && readingWord {
      assert Progress(line, emitted, ws, e, readingWord);
      assert ws == n - 1 && line[ws..e][0] == line[n - 1];
      DroppedLastWord(line);
    } else if e == n {
      assert line[..n] == line;
      UnchangedEnd(line);
    }
  }

  /** A white-space character outside a word adds no field. */
  lemma SpaceOutsideWord(line: string, e: int)
    requires 0 <= e < |line| && IsSpace(line[e])
    requires e == 0 || IsSpace(line[e - 1])
    ensures Fields(line[..e + 1], IsSpace) == Fields(line[..e], IsSpace)
  {
    assert line[..e + 1] == line[..e] + [line[e]];
    FieldsConcat(line[..e], [line[e]], IsSpace);
    assert Fields([line[e]], IsSpace) == Fields([line[e]][1..], IsSpace);
  }

  /** What closing the word that runs to the last character emits. */
  lemma ClosedWord(line: string, ws: int, before: seq<string>)
    requires 0 <= ws < |line| - 1
    requires before == Fields(line[..ws], IsSpace)
    requires ws == 0 || IsSpace(line[ws - 1])
    requires NoSep(line[ws..|line| - 1], IsSpace)
    ensures before + [line[ws..|line|]] == RawTokens(line)
  {
    var n := |line|;
    if IsSpace(line[n - 1]) {
      ClosedAtSpace(line, ws, n - 1, before);
      assert line[..n] == line;
      TrailingSpaceKept(line, ws, before);
      TrailingSpaceCase(line);
    } else {
      ClosedAtEnd(line, ws, before);
      PlainEndCase(line);
    }
  }

  /** A word closed by a white-space character is the next field. */
  lemma ClosedAtSpace(line: string, ws: int, closer: int, before: seq<string>)
    requires 0 <= ws < closer < |line| && IsSpace(line[closer])
    requires before == Fields(line[..ws], IsSpace)
    requires ws == 0 || IsSpace(line[ws - 1])
    requires NoSep(line[ws..closer], IsSpace)
    ensures before + [line[ws..closer]] == Fields(line[..closer + 1], IsSpace)
  {
    var w := line[ws..closer];
    assert line[..ws] == [] || IsSpace(line[..ws][ws - 1]);
    assert line[..closer + 1] == line[..ws] + (w + [line[closer]]);
    FieldsConcat(line[..ws], w + [line[closer]], IsSpace);
    FieldsRun(w, [line[closer]], IsSpace);
    assert Fields([line[closer]], IsSpace) == Fields([line[closer]][1..], IsSpace);
  }

  /** A word closed by a white-space character that ends the line keeps that character. */
  lemma TrailingSpaceKept(line: string, ws: int, before: seq<string>)
    requires 0 <= ws < |line| - 1 && IsSpace(line[|line| - 1])
    requires NoSep(line[ws..|line| - 1], IsSpace)
    requires before + [line[ws..|line| - 1]] == Fields(line, IsSpace)
    ensures !IsSpace(line[|line| - 2])
    ensures var f := Fields(line, IsSpace); |f| > 0 && before + [line[ws..|line|]] == f[..|f| - 1] + [f[|f| - 1] + [line[|line| - 1]]]
  {
    var n := |line|;
    var w := line[ws..n - 1];
    assert !IsSpace(w[n - 2 - ws]);
    assert w[n - 2 - ws] == line[n - 2];
    ExtendLast(Fields(line, IsSpace), before, w, line[n - 1]);
    SliceSnoc(line, ws, n - 1);
  }

  lemma TrailingSpaceCase(line: string)
    requires |line| >= 2 && IsSpace(line[|line| - 1]) && !IsSpace(line[|line| - 2])
    ensures var f := Fields(line, IsSpace);
      |f| > 0 && RawTokens(line) == f[..|f| - 1] + [f[|f| - 1] + [line[|line| - 1]]]
  {
    FieldsEmpty(line, IsSpace);
  }

  lemma ExtendLast(f: seq<string>, before: seq<string>, w: string, c: char)
    requires f == before + [w]
    ensures |f| > 0 && f[..|f| - 1] + [f[|f| - 1] + [c]] == before + [w + [c]]
  {
    assert f[..|f| - 1] == before;
  }

  /** A word still open at a last character that is not white space ends with it. */
  lemma ClosedAtEnd(line: string, ws: int, before: seq<string>)
    requires 0 <= ws < |line| - 1 && !IsSpace(line[|line| - 1])
    requires before == Fields(line[..ws], IsSpace)
    requires ws == 0 || IsSpace(line[ws - 1])
    requires NoSep(line[ws..|line| - 1], IsSpace)
    ensures before + [line[ws..|line|]] == Fields(line, IsSpace)
    ensures !IsSpace(line[|line| - 2])
  {
    LastWord(line, ws);
    FinalField(line, ws);
    SliceToEnd(line, ws);
  }

  lemma SliceToEnd(s: string, i: int)
    requires 0 <= i <= |s|
    ensures s[i..|s|] == s[i..]
  {
  }

  /** A final run without white space, after white space, is the last field. */
  lemma FinalField(line: string, ws: int)
    requires 0 <= ws < |line|
    requires ws == 0 || IsSpace(line[ws - 1])
    requires NoSep(line[ws..], IsSpace)
    ensures Fields(line, IsSpace) == Fields(line[..ws], IsSpace) + [line[ws..]]
  {
    CutAfterSpace(line, ws);
    SingleField(line[ws..]);
  }

  /** A non-empty run without white space is its only field. */
  lemma SingleField(w: string)
    requires |w| > 0 && NoSep(w, IsSpace)
    ensures Fields(w, IsSpace) == [w]
  {
    FieldsRun(w, [], IsSpace);
    assert w + [] == w;
  }

  /** The run from ws to the end holds no white space. */
  lemma LastWord(line: string, ws: int)
    requires 0 <= ws < |line| - 1 && !IsSpace(line[|line| - 1])
    requires NoSep(line[ws..|line| - 1], IsSpace)
    ensures |line[ws..]| > 0 && NoSep(line[ws..], IsSpace) && !IsSpace(line[|line| - 2])
  {
    var n := |line|;
    var w := line[ws..n - 1];
    assert line[ws..] == w + [line[n - 1]];
    NoSepAppend(w, [line[n - 1]], IsSpace);
    assert line[n - 2] == w[|w| - 1];
  }

  /** Cutting the line just after white space cuts its fields in two. */
  lemma CutAfterSpace(line: string, ws: int)
    requires 0 <= ws <= |line|
    requires ws == 0 || IsSpace(line[ws - 1])
    ensures Fields(line, IsSpace) == Fields(line[..ws], IsSpace) + Fields(line[ws..], IsSpace)
  {
    assert line[..ws] == [] || IsSpace(line[..ws][ws - 1]);
    assert line == line[..ws] + line[ws..];
    FieldsConcat(line[..ws], line[ws..], IsSpace);
  }

  lemma PlainEndCase(line: string)
    requires |line| >= 2 && !IsSpace(line[|line| - 1]) && !IsSpace(line[|line| - 2])
    ensures RawTokens(line) == Fields(line, IsSpace)
  {
  }

  lemma SliceSnoc(s: string, i: int, j: int)
    requires 0 <= i <= j < |s|
    ensures s[i..j + 1] == s[i..j] + [s[j]]
  {
  }

  /** A word that starts at the last character is never emitted. */
  lemma DroppedLastWord(line: string)
    requires |line| >= 1 && !IsSpace(line[|line| - 1])
    requires |line| == 1 || IsSpace(line[|line| - 2])
    ensures RawTokens(line) == Fields(line[..|line| - 1], IsSpace)
  {
    var n := |line|;
    assert line == line[..n - 1] + [line[n - 1]];
    FieldsConcat(line[..n - 1], [line[n - 1]], IsSpace);
    FieldsRun([line[n - 1]], [], IsSpace);
    assert [line[n - 1]] + [] == [line[n - 1]];
  }

  /** A line that ends in white space preceded by white space (or is empty) yields its
      fields unchanged. */
  lemma UnchangedEnd(line: string)
    requires |line| == 0 || IsSpace(line[|line| - 1])
    requires |line| >= 2 && IsSpace(line[|line| - 1]) ==> IsSpace(line[|line| - 2])
    ensures RawTokens(line) == Fields(line, IsSpace)
  {
  }

  /** isOP: NULL is no operator; a word is one when it begins with "and" or "or". */
  function IsOp(word: Option<string>): (r: bool)
    ensures word.None? ==> !r
  {
    word.Some? && (StrNCmp("and", word.value, 3) == 0 || StrNCmp("or", word.value, 2) == 0)
  }

  /** isOP is a prefix test, so "order" and "andes" count as operators too. */
  lemma IsOpPrefix(w: string)
    ensures IsOp(Some(w)) <==> "and" <= w || "or" <= w
  {
    StrNCmpPrefix("and", w, 3);
    StrNCmpPrefix("or", w, 2);
    assert "and"[..3] == "and" && "or"[..2] == "or";
  }

  /** What validateQuery accepts: the first and last tokens are not operators and no two
      adjacent tokens both are. */
  predicate ValidQuery(q: seq<string>)
    requires |q| >= 1
  {
    !IsOp(Some(q[0])) && !IsOp(Some(q[|q| - 1])) &&
    forall i | 1 <= i < |q| :: !(IsOp(Some(q[i - 1])) && IsOp(Some(q[i])))
  }

  /** The rule a query breaks, with the words involved. */
  datatype Rejection = OpFirst(first: string) | OpLast(last: string) | OpsAdjacent(left: string, right: string)

  /** The first position j >= i, j >= 1, where an operator follows an operator. */
  function AdjacentFrom(q: seq<string>, i: nat): (r: Option<nat>)
    ensures r.Some? ==> 1 <= r.value < |q| && r.value >= i && IsOp(Some(q[r.value - 1])) && IsOp(Some(q[r.value]))
    ensures r.Some? ==> forall j | 1 <= j < r.value && j >= i :: !(IsOp(Some(q[j - 1])) && IsOp(Some(q[j])))
    ensures r.None? ==> forall j | 1 <= j < |q| && j >= i :: !(IsOp(Some(q[j - 1])) && IsOp(Some(q[j])))
    decreases |q| - i
  {
    if i >= |q| then None
    else if i >= 1 && IsOp(Some(q[i - 1])) && IsOp(Some(q[i])) then Some(i)
    else AdjacentFrom(q, i + 1)
  }

  /** Which check of validateQuery rejects q, in the order it makes them. */
  function RejectionOf(q: seq<string>): Option<Rejection>
    requires |q| >= 1
  {
    if IsOp(Some(q[0])) then Some(OpFirst(q[0]))
    else if IsOp(Some(q[|q| - 1])) then Some(OpLast(q[|q| - 1]))
    else
      var j := AdjacentFrom(q, 0);
      if j.None? then None else Some(OpsAdjacent(q[j.value - 1], q[j.value]))
  }

  /** A query is rejected exactly when it is not valid; the first and last tokens are
      rejected when they are operators, and otherwise two adjacent operators are named,
      the leftmost such pair in the query. */
  lemma RejectionIff(q: seq<string>)
    requires |q| >= 1
    ensures RejectionOf(q).None? <==> ValidQuery(q)
    ensures RejectionOf(q) == Some(OpFirst(q[0])) <==> IsOp(Some(q[0]))
    ensures RejectionOf(q) == Some(OpLast(q[|q| - 1])) <==> !IsOp(Some(q[0])) && IsOp(Some(q[|q| - 1]))
    ensures RejectionOf(q).Some? && RejectionOf(q).value.OpsAdjacent? ==>
      AdjacentFrom(q, 0).Some? && AdjacentFrom(q, 0).value < |q| - 1 &&
      RejectionOf(q).value == OpsAdjacent(q[AdjacentFrom(q, 0).value - 1], q[AdjacentFrom(q, 0).value])
  {
    if !IsOp(Some(q[0])) && !IsOp(Some(q[|q| - 1])) {
      var r := AdjacentFrom(q, 0);
      if r.Some? {
        assert !ValidQuery(q) by {
          assert IsOp(Some(q[r.value - 1])) && IsOp(Some(q[r.value]));
        }
      } else {
        assert ValidQuery(q);
      }
    }
  }

  /** The message printed for a rejection, naming the offending words. */
  function RejectionText(r: Rejection): string {
    match r
    case OpFirst(w) => "'" + w + "' cannot be first\n"
    case OpLast(w) => "'" + w + "' cannot be last\n"
    case OpsAdjacent(a, b) => "'" + a + "' and '" + b + "' cannot be adjacent\n"
  }

  /** What validateQuery prints as written: for a last token that is an operator the
      message names the first token instead. */
  function ValidateMessageAsWritten(q: seq<string>): string
    requires |q| >= 1
  {
    var r := RejectionOf(q);
    if r.None? then ""
    else if r.value.OpLast? then "'" + q[0] + "' cannot be last\n"
    else RejectionText(r.value)
  }

  /** What validateQuery evidently means to print: the message for the rule broken, naming
      the offending words. */
  function ValidateMessage(q: seq<string>): string
    requires |q| >= 1
  {
    var r := RejectionOf(q);
    if r.None? then "" else RejectionText(r.value)
  }

  /** "cat" is no operator and "and" is one. */
  lemma CatAndOperators()
    ensures !IsOp(Some("cat")) && IsOp(Some("and"))
  {
    IsOpPrefix("cat");
    IsOpPrefix("and");
    assert !("and" <= "cat") && !("or" <= "cat");
    assert "and"[..3] == "and";
  }

  /** For "cat and", validateQuery as written blames "cat", which is no operator, for
      coming last, where the rule it applies, and the intended message, blame "and". */
  lemma LastMessageMisnames()
    ensures !IsOp(Some("cat")) && IsOp(Some("and"))
    ensures RejectionOf(["cat", "and"]) == Some(OpLast("and"))
    ensures ValidateMessageAsWritten(["cat", "and"]) == RejectionText(OpLast("cat"))
    ensures ValidateMessage(["cat", "and"]) == RejectionText(OpLast("and"))
  {
    CatAndOperators();
    var q := ["cat", "and"];
    assert q[0] == "cat" && q[|q| - 1] == "and";
  }

  /** The intended messages name only operators: the rejected word is an operator, and so
      are both words of a rejected pair. */
  lemma MessageNamesOperators(q: seq<string>)
    requires |q| >= 1 && !ValidQuery(q)
    ensures RejectionOf(q).Some?
    ensures var r := RejectionOf(q).value;
      (r.OpFirst? ==> IsOp(Some(r.first)) && ValidateMessage(q) == "'" + r.first + "' cannot be first\n") &&
      (r.OpLast? ==> IsOp(Some(r.last)) && ValidateMessage(q) == "'" + r.last + "' cannot be last\n") &&
      (r.OpsAdjacent? ==>
        IsOp(Some(r.left)) && IsOp(Some(r.right)) &&
        ValidateMessage(q) == "'" + r.left + "' and '" + r.right + "' cannot be adjacent\n")
  {
    RejectionIff(q);
  }

  /** validateQuery over a query of querySize >= 1 tokens: whether it is valid, and what
      it prints when it is not. */
  method ValidateQuery(q: seq<string>) returns (valid: bool, message: string)
    requires |q| >= 1
    ensures valid <==> ValidQuery(q)
    ensures message == ValidateMessage(q)
  {
    if IsOp(Some(q[0])) {
      return false, RejectionText(OpFirst(q[0]));
    } else if IsOp(Some(q[|q| - 1])) {
      return false, RejectionText(OpLast(q[|q| - 1]));
    }
    var prev: Option<string> := None;
    var i := 0;
    while i < |q|
      invariant 0 <= i <= |q|
      invariant prev == if i == 0 then None else Some(q[i - 1])
      invariant forall j | 1 <= j < i :: !(IsOp(Some(q[j - 1])) && IsOp(Some(q[j])))
    {
      if IsOp(Some(q[i])) && IsOp(prev) {
        AdjacentAt(q, i);
        return false, RejectionText(OpsAdjacent(prev.value, q[i]));
      }
      prev := Some(q[i]);
      i := i + 1;
    }
    NoAdjacent(q);
    return true, "";
  }

  /** With no adjacent operators the scan finds no pair. */
  lemma NoAdjacent(q: seq<string>)
    requires forall j | 1 <= j < |q| :: !(IsOp(Some(q[j - 1])) && IsOp(Some(q[j])))
    ensures AdjacentFrom(q, 0).None?
  {
  }

  /** The first adjacent pair of operators is found where the scan meets it. */
  lemma AdjacentAt(q: seq<string>, i: int)
    requires 1 <= i < |q| && IsOp(Some(q[i - 1])) && IsOp(Some(q[i]))
    requires forall j | 1 <= j < i :: !(IsOp(Some(q[j - 1])) && IsOp(Some(q[j])))
    ensures AdjacentFrom(q, 0) == Some(i)
  {
    var r := AdjacentFrom(q, 0);
    assert r.Some?;
  }
}
