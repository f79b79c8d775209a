/** The index file format: one line per word, the word, a space, then " docID count"
    for every posting. The writer is printIndexRow/printCounter; the reader is the
    line loop of indexLoad, stated here as a function of the file's lines (the
    imperative reader in IndexEngine is proved to compute it). */
module IndexFormat {
  import opened Wrappers
  import opened CLib
  import opened Split
  import opened Counters
  import opened IndexTable

  /** getWordInLine splits on space and newline only. */
  predicate IsIndexSep(c: char) { c == ' ' || c == '\n' }

  predicate IsNewline(c: char) { c == '\n' }

  // ---------------------------------------------------------------- writer

  /** printCounter: " docID count", or nothing for a negative key or count. */
  function PrintCounter(key: int, count: int): string {
    if key < 0 || count < 0 then "" else " " + (Decimal(key) + (" " + Decimal(count)))
  }

  /** counters_iterate with printCounter, for the entries in iteration order. */
  function CountersText(es: seq<(int, int)>): string {
    if es == [] then "" else PrintCounter(es[0].0, es[0].1) + CountersText(es[1..])
  }

  /** One word with its postings in the order the counters iterator yields them. */
  datatype Row = Row(word: string, entries: seq<(int, int)>)

  /** The text of a row without its line terminator. */
  function RowLine(r: Row): string {
    r.word + (" " + CountersText(r.entries))
  }

  /** printIndexRow: "%s " for the word, the counters, then a newline. */
  function PrintIndexRow(r: Row): string {
    RowLine(r) + "\n"
  }

  /** indexSave: the rows in the order the hashtable iterator yields them. */
  function SaveText(rows: seq<Row>): string {
    if rows == [] then "" else PrintIndexRow(rows[0]) + SaveText(rows[1..])
  }

  /** The document ids of a run of entries, in any order. */
  function EntryKeys(es: seq<(int, int)>): set<int> {
    if es == [] then {} else {es[0].0} + EntryKeys(es[1..])
  }

  /** The words of a run of rows. */
  function RowWords(rows: seq<Row>): set<string> {
    if rows == [] then {} else {rows[0].word} + RowWords(rows[1..])
  }

  /** The entries list every posting of m exactly once. */
  ghost predicate Enumerates(es: seq<(int, int)>, m: Counters) {
    (forall i, j | 0 <= i < j < |es| :: es[i].0 != es[j].0) &&
    EntryKeys(es) == m.Keys &&
    (forall i | 0 <= i < |es| :: es[i].0 in m && es[i].1 == m[es[i].0])
  }

  /** The rows list every word of t exactly once, each with an enumeration of its postings. */
  ghost predicate RowsEnumerate(rows: seq<Row>, t: Table) {
    (forall i, j | 0 <= i < j < |rows| :: rows[i].word != rows[j].word) &&
    RowWords(rows) == t.Keys &&
    (forall i | 0 <= i < |rows| :: rows[i].word in t && Enumerates(rows[i].entries, t[rows[i].word]))
  }

  // ---------------------------------------------------------------- reader

  /** file_readLine applied until it returns NULL: the text cut at each newline, the
      newline dropped; a last piece without a newline is a line too when non-empty. */
  function SplitLines(s: string): seq<string>
    decreases |s|
  {
    if s == [] then []
    else
      var n := RunLength(s, IsNewline);
      if n == |s| then [s] else [s[..n]] + SplitLines(s[n + 1..])
  }

  /** The pair loop of indexLoad for one line: tokens go in docID/count pairs, each
      recorded with indexUpdate; a docID token that reads below 1, a missing count
      token or a count below 1 ends the line, keeping the pairs before it. */
  function ApplyTokens(t: Table, w: string, toks: seq<string>): Table
    decreases |toks|
  {
    if toks == [] then t
    else
      var d := Atoi(toks[0]);
      if d < 1 || |toks| < 2 then t
      else
        var f := Atoi(toks[1]);
        if f < 1 then t else ApplyTokens(Updated(t, w, d, f), w, toks[2..])
  }

  /** The line loop of indexLoad: None (NULL) as soon as a line has no first token. */
  function LoadLines(t: Table, lines: seq<string>): Option<Table>
    decreases |lines|
  {
    if lines == [] then Some(t)
    else
      var fs := Fields(lines[0], IsIndexSep);
      if fs == [] then None else LoadLines(ApplyTokens(t, fs[0], fs[1..]), lines[1..])
  }

  /** indexLoad on a file holding the text s. */
  function LoadText(s: string): Option<Table> {
    LoadLines(map[], SplitLines(s))
  }

  /** A word the reader can give back: non-empty and free of separators. */
  ghost predicate Loadable(w: string) {
    |w| > 0 && NoSep(w, IsIndexSep)
  }

  // ---------------------------------------------------------------- helpers

  ghost predicate Positive(es: seq<(int, int)>) {
    forall i | 0 <= i < |es| :: es[i].0 >= 1 && es[i].1 >= 1
  }

  /** The postings a run of pairs sets, later pairs winning. */
  function EntriesMap(es: seq<(int, int)>): Counters
    requires Positive(es)
  {
    if es == [] then map[] else map[es[0].0 := es[0].1] + EntriesMap(es[1..])
  }

  /** The tokens the reader sees for a run of positive pairs. */
  function PairTokens(es: seq<(int, int)>): seq<string>
    requires Positive(es)
  {
    if es == [] then [] else [Decimal(es[0].0), Decimal(es[0].1)] + PairTokens(es[1..])
  }

  /** The table a run of rows with distinct words loads to, later rows winning. */
  function RowsTable(rows: seq<Row>): Table
    requires forall i | 0 <= i < |rows| :: Positive(rows[i].entries)
  {
    if rows == [] then map[] else map[rows[0].word := EntriesMap(rows[0].entries)] + RowsTable(rows[1..])
  }

  function RowLines(rows: seq<Row>): seq<string> {
    if rows == [] then [] else [RowLine(rows[0])] + RowLines(rows[1..])
  }

  // ---------------------------------------------------------------- lemmas

  lemma {:induction false} DecimalNoSep(n: nat)
    ensures |Decimal(n)| > 0 && NoSep(Decimal(n), IsIndexSep) && NoSep(Decimal(n), IsNewline)
  {
    DecimalDigits(n);
  }

  /** A space, then a field, then the end or another space. */
  lemma SpacedField(w: string, rest: string)
    requires |w| > 0 && NoSep(w, IsIndexSep)
    requires rest == [] || rest[0] == ' '
    ensures Fields(" " + (w + rest), IsIndexSep) == [w] + Fields(rest, IsIndexSep)
  {
    FieldsRun(w, rest, IsIndexSep);
    FieldsSkipSeps(" ", w + rest, IsIndexSep);
  }

  /** One printed posting, " k v", followed by more printed postings. */
  lemma PairFields(dk: string, dv: string, rest: string)
    requires |dk| > 0 && NoSep(dk, IsIndexSep) && |dv| > 0 && NoSep(dv, IsIndexSep)
    requires rest == [] || rest[0] == ' '
    ensures Fields(" " + (dk + (" " + (dv + rest))), IsIndexSep) == [dk, dv] + Fields(rest, IsIndexSep)
  {
    var tail := " " + (dv + rest);
    SpacedField(dv, rest);
    SpacedField(dk, tail);
    ConsPair(dk, dv, Fields(rest, IsIndexSep));
  }

  lemma ConsPair(a: string, b: string, xs: seq<string>)
    ensures [a] + ([b] + xs) == [a, b] + xs
  {
  }

  lemma PairNoNewline(dk: string, dv: string, rest: string)
    requires NoSep(dk, IsNewline) && NoSep(dv, IsNewline) && NoSep(rest, IsNewline)
    ensures NoSep(" " + (dk + (" " + (dv + rest))), IsNewline)
  {
    var s3 := dv + rest;
    var s2 := " " + s3;
    var s1 := dk + s2;
    NoSepAppend(dv, rest, IsNewline);
    NoSepAppend(" ", s3, IsNewline);
    NoSepAppend(dk, s2, IsNewline);
    NoSepAppend(" ", s1, IsNewline);
  }

  lemma PrintCounterShape(k: nat, v: nat, rest: string)
    ensures PrintCounter(k, v) + rest == " " + (Decimal(k) + (" " + (Decimal(v) + rest)))
  {
  }

  /** The printed postings read back as their decimal tokens. */
  lemma {:induction false} CountersTextFields(es: seq<(int, int)>)
    requires Positive(es)
    ensures Fields(CountersText(es), IsIndexSep) == PairTokens(es)
    ensures CountersText(es) == [] || CountersText(es)[0] == ' '
    ensures NoSep(CountersText(es), IsNewline)
    decreases |es|
  {
    if es != [] {
      var k, v := es[0].0, es[0].1;
      var rest := CountersText(es[1..]);
      CountersTextFields(es[1..]);
      assert CountersText(es) == PrintCounter(k, v) + rest;
      PrintCounterShape(k, v, rest);
      DecimalNoSep(k);
      DecimalNoSep(v);
      PairFields(Decimal(k), Decimal(v), rest);
      PairNoNewline(Decimal(k), Decimal(v), rest);
      assert PairTokens(es) == [Decimal(k), Decimal(v)] + PairTokens(es[1..]);
    }
  }

  /** A row reads back as its word followed by the tokens of its postings. */
  lemma RowLineFields(r: Row)
    requires Loadable(r.word) && Positive(r.entries)
    ensures Fields(RowLine(r), IsIndexSep) == [r.word] + PairTokens(r.entries)
    ensures NoSep(RowLine(r), IsNewline)
  {
    var c := CountersText(r.entries);
    CountersTextFields(r.entries);
    assert RowLine(r) == r.word + (" " + c);
    FieldsRun(r.word, " " + c, IsIndexSep);
    FieldsSkipSeps(" ", c, IsIndexSep);
    assert NoSep(r.word, IsNewline);
    NoSepAppend(" ", c, IsNewline);
    NoSepAppend(r.word, " " + c, IsNewline);
  }

  lemma SplitLinesCons(l: string, rest: string)
    requires NoSep(l, IsNewline)
    ensures SplitLines(l + "\n" + rest) == [l] + SplitLines(rest)
  {
    var s := l + "\n" + rest;
    RunLengthOfRun(l, "\n" + rest, IsNewline);
    assert s == l + ("\n" + rest);
    assert s[..|l|] == l;
    assert s[|l| + 1..] == rest;
  }

  /** The saved text reads back line by line as the rows' lines. */
  lemma {:induction false} SplitSaved(rows: seq<Row>)
    requires forall i | 0 <= i < |rows| :: Loadable(rows[i].word) && Positive(rows[i].entries)
    ensures SplitLines(SaveText(rows)) == RowLines(rows)
    decreases |rows|
  {
    if rows != [] {
      RowLineFields(rows[0]);
      SplitLinesCons(RowLine(rows[0]), SaveText(rows[1..]));
      SplitSaved(rows[1..]);
    }
  }

  lemma TableOverwrite(t: Table, w: string, a: Counters, b: Counters)
    ensures t[w := a][w := b] == t[w := b]
  {
  }

  lemma MapStep(p: Counters, k: int, v: int, e: Counters)
    ensures p[k := v] + e == p + (map[k := v] + e)
  {
  }

  lemma ApplyTokensStep(t: Table, w: string, a: string, b: string, tail: seq<string>)
    requires Atoi(a) >= 1 && Atoi(b) >= 1
    ensures ApplyTokens(t, w, [a, b] + tail) == ApplyTokens(Updated(t, w, Atoi(a), Atoi(b)), w, tail)
  {
    assert ([a, b] + tail)[2..] == tail;
  }

  lemma ApplyTokensStop(t: Table, w: string, toks: seq<string>)
    requires toks == [] || Atoi(toks[0]) < 1 || |toks| == 1 || Atoi(toks[1]) < 1
    ensures ApplyTokens(t, w, toks) == t
  {
  }

  /** A printed pair is read back as one update. */
  lemma DecimalPairStep(t: Table, w: string, k: int, v: int, tail: seq<string>)
    requires k >= 1 && v >= 1
    ensures ApplyTokens(t, w, [Decimal(k), Decimal(v)] + tail) == ApplyTokens(Updated(t, w, k, v), w, tail)
  {
    AtoiOfDecimal(k);
    AtoiOfDecimal(v);
    ApplyTokensStep(t, w, Decimal(k), Decimal(v), tail);
  }

  /** Updating w and then overwriting its postings is the overwrite alone, with the
      update folded into the postings. */
  lemma UpdatedThenSet(t: Table, w: string, k: int, v: int, e: Counters)
    requires k >= 1 && v >= 1
    ensures Updated(t, w, k, v)[w := Postings(Updated(t, w, k, v), w) + e] == t[w := Postings(t, w) + (map[k := v] + e)]
  {
    MapStep(Postings(t, w), k, v, e);
    assert Postings(Updated(t, w, k, v), w) == Postings(t, w)[k := v];
    TableOverwrite(t, w, Postings(t, w)[k := v], Postings(t, w)[k := v] + e);
  }

  /** The first pair of a run is read back as one update. */
  lemma FirstPair(t: Table, w: string, es: seq<(int, int)>, rest: seq<string>)
    requires Positive(es) && es != []
    ensures ApplyTokens(t, w, PairTokens(es) + rest) == ApplyTokens(Updated(t, w, es[0].0, es[0].1), w, PairTokens(es[1..]) + rest)
    ensures EntriesMap(es) == map[es[0].0 := es[0].1] + EntriesMap(es[1..])
  {
    var tail := PairTokens(es[1..]) + rest;
    assert PairTokens(es) + rest == [Decimal(es[0].0), Decimal(es[0].1)] + tail;
    DecimalPairStep(t, w, es[0].0, es[0].1, tail);
  }

  lemma LastPair(t: Table, w: string, k: int, v: int)
    requires k >= 1 && v >= 1
    ensures Updated(t, w, k, v) == t[w := Postings(t, w) + (map[k := v] + map[])]
  {
    UpdatedThenSet(t, w, k, v, map[]);
    var t1 := Updated(t, w, k, v);
    assert Postings(t1, w) + map[] == Postings(t1, w);
    assert t1[w := Postings(t1, w)] == t1;
  }

  /** A run of well-formed pairs records exactly those pairs and hands the remaining
      tokens on to the same loop. */
  lemma {:induction false} ApplyPairTokens(t: Table, w: string, es: seq<(int, int)>, rest: seq<string>)
    requires Positive(es) && es != []
    ensures ApplyTokens(t, w, PairTokens(es) + rest) == ApplyTokens(t[w := Postings(t, w) + EntriesMap(es)], w, rest)
    decreases |es|
  {
    var k, v := es[0].0, es[0].1;
    FirstPair(t, w, es, rest);
    if |es| == 1 {
      assert es[1..] == [];
      assert PairTokens(es[1..]) + rest == rest;
      LastPair(t, w, k, v);
    } else {
      ApplyPairTokens(Updated(t, w, k, v), w, es[1..], rest);
      UpdatedThenSet(t, w, k, v, EntriesMap(es[1..]));
    }
  }

  /** The tokens of a run of (docID, count) token pairs, in order. */
  function Flat(ps: seq<(string, string)>): seq<string>
    decreases |ps|
  {
    if ps == [] then [] else [ps[0].0, ps[0].1] + Flat(ps[1..])
  }

  /** Every pair's tokens read, through atoi, as a docID and a count of at least 1,
      whatever their spelling ("01", "+3" and "3x" all qualify). */
  predicate AtoiPositive(ps: seq<(string, string)>) {
    forall i | 0 <= i < |ps| :: Atoi(ps[i].0) >= 1 && Atoi(ps[i].1) >= 1
  }

  /** The updates of a run of pairs, applied left to right. */
  function Recorded(t: Table, w: string, ps: seq<(string, string)>): Table
    requires AtoiPositive(ps)
    decreases |ps|
  {
    if ps == [] then t
    else
      assert AtoiPositive(ps[1..]) by {
        forall i | 0 <= i < |ps[1..]| ensures Atoi(ps[1..][i].0) >= 1 && Atoi(ps[1..][i].1) >= 1 {
          assert ps[1..][i] == ps[i + 1];
        }
      }
      Recorded(Updated(t, w, Atoi(ps[0].0), Atoi(ps[0].1)), w, ps[1..])
  }

  /** A docID token below 1, a lone docID token or a count below 1 ends the line and
      keeps every pair recorded before it, however its tokens are spelled. */
  lemma {:induction false} LineKeepsEarlierPairs(t: Table, w: string, ps: seq<(string, string)>, rest: seq<string>)
    requires AtoiPositive(ps)
    requires rest == [] || Atoi(rest[0]) < 1 || |rest| == 1 || Atoi(rest[1]) < 1
    ensures ApplyTokens(t, w, Flat(ps) + rest) == Recorded(t, w, ps)
    decreases |ps|
  {
    if ps == [] {
      assert Flat(ps) + rest == rest;
      ApplyTokensStop(t, w, rest);
    } else {
      var tail := Flat(ps[1..]) + rest;
      assert Flat(ps) + rest == [ps[0].0, ps[0].1] + tail;
      ApplyTokensStep(t, w, ps[0].0, ps[0].1, tail);
      assert AtoiPositive(ps[1..]) by {
        forall i | 0 <= i < |ps[1..]| ensures Atoi(ps[1..][i].0) >= 1 && Atoi(ps[1..][i].1) >= 1 {
          assert ps[1..][i] == ps[i + 1];
        }
      }
      LineKeepsEarlierPairs(Updated(t, w, Atoi(ps[0].0), Atoi(ps[0].1)), w, ps[1..], rest);
    }
  }

  /** The line "dog 01 2 x" records the pair (1, 2): the leading zero is read by atoi,
      and the lone token "x" ends the line. */
  lemma LeadingZeroPairKept()
    ensures ApplyTokens(map[], "dog", ["01", "2", "x"]) == Updated(map[], "dog", 1, 2)
  {
    assert Atoi("01") == 1 by {
      assert LeadingDigits("01") == "01";
      assert DigitsValue("01") == 1;
    }
    assert Atoi("2") == 2;
    LineKeepsEarlierPairs(map[], "dog", [("01", "2")], ["x"]);
    assert Flat([("01", "2")]) + ["x"] == ["01", "2", "x"];
  }

  /** Loading fails exactly when some line has no first token. */
  lemma {:induction false} LoadFailsIff(t: Table, lines: seq<string>)
    ensures LoadLines(t, lines).None? <==> exists i | 0 <= i < |lines| :: Fields(lines[i], IsIndexSep) == []
    decreases |lines|
  {
    if lines != [] {
      var fs := Fields(lines[0], IsIndexSep);
      if fs != [] {
        LoadFailsIff(ApplyTokens(t, fs[0], fs[1..]), lines[1..]);
        if exists i | 0 <= i < |lines| :: Fields(lines[i], IsIndexSep) == [] {
          var i :| 0 <= i < |lines| && Fields(lines[i], IsIndexSep) == [];
          assert i > 0 && Fields(lines[1..][i - 1], IsIndexSep) == [];
        }
        if exists i | 0 <= i < |lines[1..]| :: Fields(lines[1..][i], IsIndexSep) == [] {
          var i :| 0 <= i < |lines[1..]| && Fields(lines[1..][i], IsIndexSep) == [];
          assert Fields(lines[i + 1], IsIndexSep) == [];
        }
      }
    }
  }

  /** The pair loop keeps the table well formed and adds no word except w. */
  lemma {:induction false} ApplyTokensInvariant(t: Table, w: string, toks: seq<string>)
    requires WellFormed(t)
    ensures WellFormed(ApplyTokens(t, w, toks))
    ensures ApplyTokens(t, w, toks).Keys <= t.Keys + {w}
    decreases |toks|
  {
    if toks != [] && Atoi(toks[0]) >= 1 && |toks| >= 2 && Atoi(toks[1]) >= 1 {
      var d, f := Atoi(toks[0]), Atoi(toks[1]);
      UpdatedWellFormed(t, w, d, f);
      UpdatedLookup(t, w, d, f, w, d);
      ApplyTokensInvariant(Updated(t, w, d, f), w, toks[2..]);
    }
  }

  /** What indexLoad returns is well formed, and every word in it could be saved and
      loaded again: it is non-empty and holds no separator. */
  lemma {:induction false} LoadedWellFormed(t: Table, lines: seq<string>)
    requires WellFormed(t) && forall w | w in t :: Loadable(w)
    requires LoadLines(t, lines).Some?
    ensures WellFormed(LoadLines(t, lines).value)
    ensures forall w | w in LoadLines(t, lines).value :: Loadable(w)
    decreases |lines|
  {
    if lines != [] {
      var fs := Fields(lines[0], IsIndexSep);
      FieldsShape(lines[0], IsIndexSep);
      var t1 := ApplyTokens(t, fs[0], fs[1..]);
      ApplyTokensInvariant(t, fs[0], fs[1..]);
      LoadedWellFormed(t1, lines[1..]);
    }
  }

  lemma {:induction false} EntriesMapKeys(es: seq<(int, int)>)
    requires Positive(es)
    ensures EntriesMap(es).Keys == EntryKeys(es)
    decreases |es|
  {
    if es != [] {
      EntriesMapKeys(es[1..]);
    }
  }

  lemma {:induction false} EntryKeysAt(es: seq<(int, int)>, i: int)
    requires 0 <= i < |es|
    ensures es[i].0 in EntryKeys(es)
    decreases |es|
  {
    if i > 0 {
      EntryKeysAt(es[1..], i - 1);
    }
  }

  lemma {:induction false} NotInEntryKeys(es: seq<(int, int)>, k: int)
    requires forall j | 0 <= j < |es| :: es[j].0 != k
    ensures k !in EntryKeys(es)
    decreases |es|
  {
    if es != [] {
      NotInEntryKeys(es[1..], k);
    }
  }

  lemma {:induction false} NotInRowWords(rows: seq<Row>, w: string)
    requires forall j | 0 <= j < |rows| :: rows[j].word != w
    ensures w !in RowWords(rows)
    decreases |rows|
  {
    if rows != [] {
      NotInRowWords(rows[1..], w);
    }
  }

  /** An entry no later entry overrides gives its count to the recorded postings. */
  lemma {:induction false} EntriesMapAt(es: seq<(int, int)>, i: int)
    requires Positive(es) && 0 <= i < |es|
    requires forall j | i < j < |es| :: es[j].0 != es[i].0
    ensures es[i].0 in EntriesMap(es) && EntriesMap(es)[es[i].0] == es[i].1
    decreases |es|
  {
    var rest := es[1..];
    if i == 0 {
      EntriesMapKeys(rest);
      forall j | 0 <= j < |rest| ensures rest[j].0 != es[0].0 {
        assert rest[j] == es[j + 1];
      }
      NotInEntryKeys(rest, es[0].0);
    } else {
      assert rest[i - 1] == es[i];
      forall j | i - 1 < j < |rest| ensures rest[j].0 != rest[i - 1].0 {
        assert rest[j] == es[j + 1];
      }
      EntriesMapAt(rest, i - 1);
    }
  }

  lemma {:induction false} FindKey(es: seq<(int, int)>, k: int) returns (j: int)
    requires k in EntryKeys(es)
    ensures 0 <= j < |es| && es[j].0 == k
    decreases |es|
  {
    if es[0].0 == k {
      j := 0;
    } else {
      j := FindKey(es[1..], k);
      j := j + 1;
    }
  }

  /** An enumeration of a posting list records exactly that list. */
  lemma EntriesMapOfEnumeration(es: seq<(int, int)>, m: Counters)
    requires Enumerates(es, m) && Positive(es)
    ensures EntriesMap(es) == m
  {
    EntriesMapKeys(es);
    var e := EntriesMap(es);
    forall k | k in m ensures e[k] == m[k] {
      var i := FindKey(es, k);
      EntriesMapAt(es, i);
    }
  }

  lemma {:induction false} RowsTableKeys(rows: seq<Row>)
    requires forall i | 0 <= i < |rows| :: Positive(rows[i].entries)
    ensures RowsTable(rows).Keys == RowWords(rows)
    decreases |rows|
  {
    if rows != [] {
      RowsTableKeys(rows[1..]);
    }
  }

  lemma {:induction false} FindWord(rows: seq<Row>, w: string) returns (j: int)
    requires w in RowWords(rows)
    ensures 0 <= j < |rows| && rows[j].word == w
    decreases |rows|
  {
    if rows[0].word == w {
      j := 0;
    } else {
      j := FindWord(rows[1..], w);
      j := j + 1;
    }
  }

  lemma {:induction false} RowsTableAt(rows: seq<Row>, i: int)
    requires forall i | 0 <= i < |rows| :: Positive(rows[i].entries)
    requires 0 <= i < |rows|
    requires forall j | i < j < |rows| :: rows[j].word != rows[i].word
    ensures rows[i].word in RowsTable(rows) && RowsTable(rows)[rows[i].word] == EntriesMap(rows[i].entries)
    decreases |rows|
  {
    var rest := rows[1..];
    if i == 0 {
      RowsTableKeys(rest);
      forall j | 0 <= j < |rest| ensures rest[j].word != rows[0].word {
        assert rest[j] == rows[j + 1];
      }
      NotInRowWords(rest, rows[0].word);
    } else {
      assert rest[i - 1] == rows[i];
      forall j | i - 1 < j < |rest| ensures rest[j].word != rest[i - 1].word {
        assert rest[j] == rows[j + 1];
      }
      RowsTableAt(rest, i - 1);
    }
  }

  lemma TableUnionStep(t: Table, w: string, e: Counters, r: Table)
    ensures t[w := e] + r == t + (map[w := e] + r)
  {
  }

  lemma TableExt(a: Table, b: Table)
    requires a.Keys == b.Keys && forall w | w in b :: a[w] == b[w]
    ensures a == b
  {
  }

  lemma TableUnionEmpty(t: Table)
    ensures t + map[] == t && map[] + t == t
  {
  }

  lemma CountersUnionEmpty(e: Counters)
    ensures map[] + e == e
  {
  }

  /** Loading the lines of rows with distinct, fresh words adds exactly those rows. */
  lemma {:induction false} LoadRows(t: Table, rows: seq<Row>)
    requires forall i | 0 <= i < |rows| :: Loadable(rows[i].word) && Positive(rows[i].entries) && rows[i].entries != []
    requires forall i, j | 0 <= i < j < |rows| :: rows[i].word != rows[j].word
    requires RowWords(rows) !! t.Keys
    ensures LoadLines(t, RowLines(rows)) == Some(t + RowsTable(rows))
    decreases |rows|
  {
    if rows == [] {
      TableUnionEmpty(t);
    } else {
      var r, rest := rows[0], rows[1..];
      RowLineFields(r);
      var fs := Fields(RowLine(r), IsIndexSep);
      assert fs[0] == r.word && fs[1..] == PairTokens(r.entries) + [];
      ApplyPairTokens(t, r.word, r.entries, []);
      assert r.word !in t;
      CountersUnionEmpty(EntriesMap(r.entries));
      var t1 := t[r.word := EntriesMap(r.entries)];
      assert RowLines(rows)[0] == RowLine(r) && RowLines(rows)[1..] == RowLines(rest);
      assert LoadLines(t, RowLines(rows)) == LoadLines(t1, RowLines(rest));
      forall j | 0 <= j < |rest| ensures rest[j].word != r.word {
        assert rest[j] == rows[j + 1];
      }
      NotInRowWords(rest, r.word);
      forall i, j | 0 <= i < j < |rest| ensures rest[i].word != rest[j].word {
        assert rest[i] == rows[i + 1] && rest[j] == rows[j + 1];
      }
      LoadRows(t1, rest);
      TableUnionStep(t, r.word, EntriesMap(r.entries), RowsTable(rest));
    }
  }

  /** Saving a well-formed index and loading the text back gives the same index,
      whatever order the hashtable and counters iterators visited it in. */
  lemma SaveLoadRoundTrip(t: Table, rows: seq<Row>)
    requires WellFormed(t) && forall w | w in t :: Loadable(w)
    requires RowsEnumerate(rows, t)
    ensures LoadText(SaveText(rows)) == Some(t)
  {
    forall i | 0 <= i < |rows|
      ensures Loadable(rows[i].word) && Positive(rows[i].entries) && rows[i].entries != []
    {
      var w := rows[i].word;
      var es := rows[i].entries;
      assert Enumerates(es, t[w]);
      forall j | 0 <= j < |es| ensures es[j].0 >= 1 && es[j].1 >= 1 {
        assert es[j].0 in t[w];
      }
      assert |t[w]| > 0;
      var k :| k in t[w];
      assert k in EntryKeys(es);
    }
    SplitSaved(rows);
    LoadRows(map[], rows);
    RowsTableKeys(rows);
    var m := RowsTable(rows);
    forall w | w in t ensures m[w] == t[w] {
      var i := FindWord(rows, w);
      RowsTableAt(rows, i);
      EntriesMapOfEnumeration(rows[i].entries, t[w]);
    }
    TableExt(m, t);
    TableUnionEmpty(m);
  }

  // ---------------------------------------------------------------- growing the output

  lemma {:induction false} CountersTextAppend(es: seq<(int, int)>, e: (int, int))
    ensures CountersText(es + [e]) == CountersText(es) + PrintCounter(e.0, e.1)
    decreases |es|
  {
    if es == [] {
      assert es + [e] == [e];
    } else {
      assert (es + [e])[1..] == es[1..] + [e];
      CountersTextAppend(es[1..], e);
    }
  }

  lemma {:induction false} EntryKeysAppend(es: seq<(int, int)>, e: (int, int))
    ensures EntryKeys(es + [e]) == EntryKeys(es) + {e.0}
    decreases |es|
  {
    if es == [] {
      assert es + [e] == [e];
    } else {
      assert (es + [e])[1..] == es[1..] + [e];
      EntryKeysAppend(es[1..], e);
    }
  }

  lemma {:induction false} SaveTextAppend(rows: seq<Row>, r: Row)
    ensures SaveText(rows + [r]) == SaveText(rows) + PrintIndexRow(r)
    decreases |rows|
  {
    if rows == [] {
      assert rows + [r] == [r];
    } else {
      assert (rows + [r])[1..] == rows[1..] + [r];
      SaveTextAppend(rows[1..], r);
    }
  }

  lemma {:induction false} RowWordsAppend(rows: seq<Row>, r: Row)
    ensures RowWords(rows + [r]) == RowWords(rows) + {r.word}
    decreases |rows|
  {
    if rows == [] {
      assert rows + [r] == [r];
    } else {
      assert (rows + [r])[1..] == rows[1..] + [r];
      RowWordsAppend(rows[1..], r);
    }
  }

  lemma {:induction false} RowWordsAt(rows: seq<Row>, i: int)
    requires 0 <= i < |rows|
    ensures rows[i].word in RowWords(rows)
    decreases |rows|
  {
    if i > 0 {
      RowWordsAt(rows[1..], i - 1);
    }
  }
}
