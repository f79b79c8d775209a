/** The index engine: an inverted index object whose content, a Table, the
    operations update in place, and the reader and writer of the index file. */
module IndexEngine {
  import opened Wrappers
  import opened CLib
  import opened Split
  import opened Word
  import opened Counters
  import opened IndexTable
  import opened IndexFormat

  /** The hashtable size indexLoad asks for. */
  const IndexCoeff := 825

  /** An index_t: a hashtable from word to counters, seen through its content. */
  class Index {
    var table: Table

    constructor ()
      ensures table == map[]
    {
      table := map[];
    }
  }

  /** indexInit: NULL for a size that is not positive, otherwise a new empty index. */
  method IndexInit(slots: int) returns (index: Index?)
    ensures index == null <==> slots <= 0
    ensures index != null ==> fresh(index) && index.table == map[]
  {
    if slots <= 0 {
      return null;
    }
    index := new Index();
  }

  /** indexAdd: -1, with nothing changed, for a NULL index or word or a docID below 1.
      Otherwise the caller's word is normalised in place, the count of the normalised
      word in docID goes up by one, and 0 is returned. */
  method IndexAdd(index: Index?, word: array?<char>, docID: int) returns (status: int)
    modifies index, word
    ensures index == null || word == null || docID < 1 ==>
      status == -1 && (index != null ==> index.table == old(index.table)) && (word != null ==> word[..] == old(word[..]))
    ensures index != null && word != null && docID >= 1 ==>
      status == 0 && word[..] == Lower(old(word[..])) && index.table == Added(old(index.table), Lower(old(word[..])), docID)
  {
    if index == null || word == null || docID < 1 {
      return -1;
    }
    var normalized := NormalizeWord(word);
    assert normalized == 0;
    index.table := Added(index.table, word[..], docID);
    return 0;
  }

  /** indexFind: NULL for a NULL index or word. Otherwise the caller's word is
      normalised in place and its posting list is returned, NULL when it is absent. */
  method IndexFind(index: Index?, word: array?<char>) returns (found: Option<Counters>)
    modifies word
    ensures index == null || word == null ==> found == None && (word != null ==> word[..] == old(word[..]))
    ensures index != null && word != null ==>
      word[..] == Lower(old(word[..])) &&
      found == if Lower(old(word[..])) in index.table then Some(index.table[Lower(old(word[..]))]) else None
  {
    if index == null || word == null {
      return None;
    }
    var normalized := NormalizeWord(word);
    assert normalized == 0;
    var key := word[..];
    if key in index.table {
      found := Some(index.table[key]);
    } else {
      found := None;
    }
  }

  /** indexUpdate: -1, with nothing changed, for a NULL index or word, a docID below 1 or
      a count below 1; otherwise the count of the word, as given, in docID becomes freq. */
  method IndexUpdate(index: Index?, word: Option<string>, docID: int, freq: int) returns (status: int)
    modifies index
    ensures index == null || word == None || docID < 1 || freq < 1 ==>
      status == -1 && (index != null ==> index.table == old(index.table))
    ensures index != null && word != None && docID >= 1 && freq >= 1 ==>
      status == 0 && index.table == Updated(old(index.table), word.value, docID, freq)
  {
    if index == null || word == None || docID < 1 || freq < 1 {
      return -1;
    }
    index.table := Updated(index.table, word.value, docID, freq);
    return 0;
  }

  /** getWordInLine: starting from pos, skips spaces and newlines and returns the next
      token, moving pos to the token's end. NULL when pos is outside the line (a negative
      pos compares as a huge unsigned number) and when only separators remain; in the
      latter case pos has been moved to the end of the line. */
  method GetWordInLine(line: string, pos: int) returns (token: Option<string>, newPos: int)
    ensures pos < 0 || pos >= |line| ==> token == None && newPos == pos
    ensures 0 <= pos <= |line| ==> pos <= newPos <= |line|
    ensures 0 <= pos <= |line| ==>
      Fields(line[pos..], IsIndexSep) == (if token.Some? then [token.value] else []) + Fields(line[newPos..], IsIndexSep)
    ensures 0 <= pos <= |line| && token == None ==> newPos == |line|
    ensures token.Some? ==>
      pos < newPos <= |line| && 0 < |token.value| <= newPos && NoSep(token.value, IsIndexSep) &&
      token.value == line[newPos - |token.value|..newPos] &&
      (newPos == |line| || IsIndexSep(line[newPos]))
  {
    if pos < 0 || pos >= |line| {
      return None, pos;
    }
    var start := pos;
    var end := pos;
    var startedWord := false;
    while end < |line|
      invariant pos <= start <= end <= |line|
      invariant forall k | pos <= k < start :: IsIndexSep(line[k])
      invariant !startedWord ==> start == end
      invariant startedWord ==> start < end && forall k | start <= k < end :: !IsIndexSep(line[k])
    {
      if !startedWord {
        if IsIndexSep(line[end]) {
          start := start + 1;
        } else {
          startedWord := true;
        }
      } else {
        if IsIndexSep(line[end]) {
          break;
        }
      }
      end := end + 1;
    }
    SkippedSeps(line, pos, start);
    if start >= |line| {
      return None, start;
    }
    TokenRun(line, start, end);
    token := Some(line[start..end]);
    newPos := end;
  }

  /** The separators skipped before a token do not change the fields. */
  lemma SkippedSeps(line: string, pos: int, start: int)
    requires 0 <= pos <= start <= |line|
    requires forall k | pos <= k < start :: IsIndexSep(line[k])
    ensures Fields(line[pos..], IsIndexSep) == Fields(line[start..], IsIndexSep)
  {
    assert line[pos..] == line[pos..start] + line[start..];
    assert AllSep(line[pos..start], IsIndexSep);
    FieldsSkipSeps(line[pos..start], line[start..], IsIndexSep);
  }

  /** A maximal run of non-separators is the first field. */
  lemma TokenRun(line: string, start: int, end: int)
    requires 0 <= start < end <= |line|
    requires forall k | start <= k < end :: !IsIndexSep(line[k])
    requires end == |line| || IsIndexSep(line[end])
    ensures NoSep(line[start..end], IsIndexSep)
    ensures Fields(line[start..], IsIndexSep) == [line[start..end]] + Fields(line[end..], IsIndexSep)
  {
    assert NoSep(line[start..end], IsIndexSep);
    assert line[start..] == line[start..end] + line[end..];
    FieldsRun(line[start..end], line[end..], IsIndexSep);
  }

  /** indexLoad on the lines of the file: NULL exactly when some line has no first
      token; otherwise a new index holding what LoadLines computes from those lines. */
  method IndexLoad(lines: seq<string>) returns (index: Index?)
    ensures index == null <==> LoadLines(map[], lines).None?
    ensures index != null ==> fresh(index) && index.table == LoadLines(map[], lines).value
  {
    index := IndexInit(IndexCoeff);
    var i := 0;
    while i < |lines|
      invariant 0 <= i <= |lines|
      invariant fresh(index)
      invariant LoadLines(map[], lines) == LoadLines(index.table, lines[i..])
    {
      var line := lines[i];
      assert lines[i..][0] == line && lines[i..][1..] == lines[i + 1..];
      var pos := 0;
      var word;
      word, pos := GetWordInLine(line, pos);
      if word == None {
        return null;
      }
      var w := word.value;
      assert line[0..] == line;
      ReadPairs(index, line, w, pos);
      i := i + 1;
    }
  }

  /** The inner loop of indexLoad: reads docID/count token pairs from pos on and records
      each with indexUpdate, until the tokens run out or one of them reads below 1. */
  method ReadPairs(index: Index, line: string, word: string, pos: int)
    requires 0 <= pos <= |line|
    modifies index
    ensures index.table == ApplyTokens(old(index.table), word, Fields(line[pos..], IsIndexSep))
  {
    var p := pos;
    ghost var goal := ApplyTokens(old(index.table), word, Fields(line[pos..], IsIndexSep));
    var token;
    token, p := GetWordInLine(line, p);
    while token.Some?
      invariant PairsLeft(goal, index.table, word, token, line, p)
      decreases |line| - p
    {
      var docID := Atoi(token.value);
      if docID < 1 {
        ApplyTokensStop(index.table, word, [token.value] + Fields(line[p..], IsIndexSep));
        break;
      }
      ghost var first, p0 := token.value, p;
      token, p := GetWordInLine(line, p);
      if token == None {
        ApplyTokensStop(index.table, word, [first]);
        break;
      }
      var freq := Atoi(token.value);
      if freq < 1 {
        SecondLow(goal, index.table, word, first, token.value, line, p0, p);
        break;
      }
      ghost var second, p1 := token.value, p;
      ghost var t0 := index.table;
      var updated := IndexUpdate(index, Some(word), docID, freq);
      token, p := GetWordInLine(line, p);
      PairRead(goal, t0, word, first, second, line, p0, p1, token, p);
    }
  }

  /** The reader's state: goal is what the tokens still to be read, the pending one
      first, leave in the table; with no pending token none remain. */
  ghost predicate PairsLeft(goal: Table, t: Table, word: string, token: Option<string>, line: string, p: int) {
    0 <= p <= |line| &&
    goal == ApplyTokens(t, word, Pending(token) + Fields(line[p..], IsIndexSep)) &&
    (token.None? ==> Fields(line[p..], IsIndexSep) == [])
  }

  /** A count token below 1 ends the line. */
  lemma SecondLow(goal: Table, t: Table, word: string, first: string, second: string, line: string, p0: int, p: int)
    requires PairsLeft(goal, t, word, Some(first), line, p0) && 0 <= p <= |line|
    requires Fields(line[p0..], IsIndexSep) == [second] + Fields(line[p..], IsIndexSep)
    requires Atoi(first) >= 1 && Atoi(second) < 1
    ensures goal == t
  {
    ApplyTokensStop(t, word, [first, second] + Fields(line[p..], IsIndexSep));
    assert [first] + ([second] + Fields(line[p..], IsIndexSep)) == [first, second] + Fields(line[p..], IsIndexSep);
  }

  /** A docID and a count token, both at least 1, make one update. */
  lemma PairRead(goal: Table, t: Table, word: string, first: string, second: string, line: string,
                 p0: int, p1: int, token: Option<string>, p: int)
    requires PairsLeft(goal, t, word, Some(first), line, p0) && 0 <= p1 <= p <= |line|
    requires Fields(line[p0..], IsIndexSep) == [second] + Fields(line[p1..], IsIndexSep)
    requires Fields(line[p1..], IsIndexSep) == Pending(token) + Fields(line[p..], IsIndexSep)
    requires token.None? ==> Fields(line[p..], IsIndexSep) == []
    requires Atoi(first) >= 1 && Atoi(second) >= 1
    ensures PairsLeft(goal, Updated(t, word, Atoi(first), Atoi(second)), word, token, line, p)
  {
    var rest := Fields(line[p1..], IsIndexSep);
    assert [first] + ([second] + rest) == [first, second] + rest;
    ApplyTokensStep(t, word, first, second, rest);
  }

  /** The tokens a reader holds: the one it has read but not yet used, if any. */
  function Pending(token: Option<string>): seq<string> {
    if token.Some? then [token.value] else []
  }

  /** printIndexRow for one word: the word, a space, then printCounter for each posting
      in the counters iterator's order (left open here), then a newline. */
  method PrintRow(word: string, postings: Counters) returns (text: string, ghost entries: seq<(int, int)>)
    ensures Enumerates(entries, postings)
    ensures text == PrintIndexRow(Row(word, entries))
  {
    var counters: string := "";
    entries := [];
    var remaining := postings.Keys;
    while remaining != {}
      invariant counters == CountersText(entries)
      invariant PrintedSoFar(entries, postings, remaining)
      decreases remaining
    {
      var key := Choose(remaining);
      var e := (key, postings[key]);
      PrintStep(entries, postings, remaining, key);
      counters := counters + PrintCounter(key, postings[key]);
      entries := entries + [e];
      remaining := remaining - {key};
    }
    assert PrintedSoFar(entries, postings, {});
    text := word + (" " + counters) + "\n";
  }

  /** The postings printed so far: distinct, from postings, and all but those remaining. */
  ghost predicate PrintedSoFar(entries: seq<(int, int)>, postings: Counters, remaining: set<int>) {
    remaining <= postings.Keys &&
    (forall i, j | 0 <= i < j < |entries| :: entries[i].0 != entries[j].0) &&
    EntryKeys(entries) == postings.Keys - remaining &&
    (forall i | 0 <= i < |entries| :: entries[i].0 in postings && entries[i].1 == postings[entries[i].0])
  }

  lemma PrintStep(entries: seq<(int, int)>, postings: Counters, remaining: set<int>, key: int)
    requires PrintedSoFar(entries, postings, remaining) && key in remaining
    ensures PrintedSoFar(entries + [(key, postings[key])], postings, remaining - {key})
    ensures CountersText(entries + [(key, postings[key])]) == CountersText(entries) + PrintCounter(key, postings[key])
  {
    var e := (key, postings[key]);
    forall i | 0 <= i < |entries| ensures entries[i].0 != key {
      EntryKeysAt(entries, i);
    }
    CountersTextAppend(entries, e);
    EntryKeysAppend(entries, e);
  }

  /** indexSave: nothing is written for a NULL index; otherwise one row per word, in the
      hashtable iterator's order (left open here). */
  method IndexSave(index: Index?) returns (text: string, ghost rows: seq<Row>)
    ensures index == null ==> text == ""
    ensures index != null ==> RowsEnumerate(rows, index.table) && text == SaveText(rows)
  {
    text := "";
    rows := [];
    if index == null {
      return;
    }
    var t := index.table;
    var remaining := t.Keys;
    while remaining != {}
      invariant text == SaveText(rows)
      invariant SavedSoFar(rows, t, remaining)
      decreases remaining
    {
      var word := Choose(remaining);
      var line, entries := PrintRow(word, t[word]);
      var r := Row(word, entries);
      SaveStep(rows, t, remaining, r);
      text := text + line;
      rows := rows + [r];
      remaining := remaining - {word};
    }
    assert SavedSoFar(rows, t, {});
  }

  /** The rows written so far: distinct words of t, each with an enumeration of its
      postings, and all but those remaining. */
  ghost predicate SavedSoFar(rows: seq<Row>, t: Table, remaining: set<string>) {
    remaining <= t.Keys &&
    (forall i, j | 0 <= i < j < |rows| :: rows[i].word != rows[j].word) &&
    RowWords(rows) == t.Keys - remaining &&
    (forall i | 0 <= i < |rows| :: rows[i].word in t && Enumerates(rows[i].entries, t[rows[i].word]))
  }

  lemma SaveStep(rows: seq<Row>, t: Table, remaining: set<string>, r: Row)
    requires SavedSoFar(rows, t, remaining) && r.word in remaining && Enumerates(r.entries, t[r.word])
    ensures SavedSoFar(rows + [r], t, remaining - {r.word})
    ensures SaveText(rows + [r]) == SaveText(rows) + PrintIndexRow(r)
  {
    forall i | 0 <= i < |rows| ensures rows[i].word != r.word {
      RowWordsAt(rows, i);
    }
    SaveTextAppend(rows, r);
    RowWordsAppend(rows, r);
  }

  /** What indextest checks: an index loaded from a file, saved, and loaded again from
      the saved text, holds the same words with the same counts. */
  method SaveThenLoad(lines: seq<string>) returns (first: Index?, second: Index?)
    ensures first == null <==> LoadLines(map[], lines).None?
    ensures first != null ==> second != null && second.table == first.table
  {
    first := IndexLoad(lines);
    if first == null {
      return null, null;
    }
    LoadedWellFormed(map[], lines);
    var text, rows := IndexSave(first);
    SaveLoadRoundTrip(first.table, rows);
    second := IndexLoad(SplitLines(text));
  }
}
