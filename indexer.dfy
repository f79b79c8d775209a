/** The indexer: reads every document of a page directory, from docID 1 upward until
    the first missing file, counts its words into an index and saves the index. */
module Indexer {
  import opened Wrappers
  import opened CLib
  import opened Word
  import opened Counters
  import opened IndexTable
  import opened IndexFormat
  import opened IndexEngine
  import opened PageDir

  /** indexPage keeps only words of at least this many characters. */
  const MinWordLength := 3

  /** indexPage's loop: each word of at least three characters counts once more, in its
      normalised form, for docID; shorter words are skipped. */
  function AddWords(t: Table, words: seq<string>, docID: int): Table
    requires docID >= 1
    decreases |words|
  {
    if words == [] then t
    else
      var t1 := if |words[0]| >= MinWordLength then Added(t, Lower(words[0]), docID) else t;
      AddWords(t1, words[1..], docID)
  }

  /** How many of the words are long enough to be indexed and normalise to w. */
  function Occurrences(words: seq<string>, w: string): nat
    decreases |words|
  {
    if words == [] then 0
    else (if |words[0]| >= MinWordLength && Lower(words[0]) == w then 1 else 0) + Occurrences(words[1..], w)
  }

  /** The words indexPage keeps. */
  function LongWords(words: seq<string>): seq<string>
    decreases |words|
  {
    if words == [] then []
    else (if |words[0]| >= MinWordLength then [words[0]] else []) + LongWords(words[1..])
  }

  /** indexPage: nothing happens for a NULL page or index or a docID below 1. Otherwise
      every word of the page is offered to indexAdd, in order, as a fresh buffer, when it
      has at least three characters. */
  method IndexPage(page: Option<Webpage>, index: Index?, docID: int)
    modifies index
    ensures page == None || index == null || docID < 1 ==> index == null || index.table == old(index.table)
    ensures page != None && index != null && docID >= 1 ==>
      index.table == AddWords(old(index.table), page.value.words, docID)
  {
    if page == None || index == null || docID < 1 {
      return;
    }
    var words := page.value.words;
    var i := 0;
    while i < |words|
      invariant 0 <= i <= |words|
      invariant AddWords(old(index.table), words, docID) == AddWords(index.table, words[i..], docID)
    {
      assert words[i..][0] == words[i] && words[i..][1..] == words[i + 1..];
      var word := NewCString(words[i]);
      if word.Length >= MinWordLength {
        var added := IndexAdd(index, word, docID);
      }
      i := i + 1;
    }
  }

  /** The count indexPage leaves at (w, d): what was there, plus, in the page's own
      document, the number of long words of the page that normalise to w. */
  lemma {:induction false} AddWordsLookup(t: Table, words: seq<string>, docID: int, w: string, d: int)
    requires docID >= 1
    ensures Lookup(AddWords(t, words, docID), w, d) == Lookup(t, w, d) + (if d == docID then Occurrences(words, w) else 0)
    decreases |words|
  {
    if words != [] {
      var t1 := if |words[0]| >= MinWordLength then Added(t, Lower(words[0]), docID) else t;
      if |words[0]| >= MinWordLength {
        AddedLookup(t, Lower(words[0]), docID, w, d);
      }
      AddWordsLookup(t1, words[1..], docID, w, d);
    }
  }

  /** indexPage adds no word but the normalised long words of the page, and keeps the
      index well formed. */
  lemma {:induction false} AddWordsKeys(t: Table, words: seq<string>, docID: int)
    requires docID >= 1 && WellFormed(t)
    ensures WellFormed(AddWords(t, words, docID))
    ensures forall w | w in AddWords(t, words, docID) :: w in t || Occurrences(words, w) > 0
    decreases |words|
  {
    if words != [] {
      var t1 := if |words[0]| >= MinWordLength then Added(t, Lower(words[0]), docID) else t;
      if |words[0]| >= MinWordLength {
        AddedWellFormed(t, Lower(words[0]), docID);
        AddedLookup(t, Lower(words[0]), docID, Lower(words[0]), docID);
      }
      AddWordsKeys(t1, words[1..], docID);
    }
  }

  /** Words shorter than three characters leave no trace: indexing only the long words
      gives the same index. */
  lemma {:induction false} ShortWordsIgnored(t: Table, words: seq<string>, docID: int)
    requires docID >= 1
    ensures AddWords(t, words, docID) == AddWords(t, LongWords(words), docID)
    decreases |words|
  {
    if words != [] {
      var t1 := if |words[0]| >= MinWordLength then Added(t, Lower(words[0]), docID) else t;
      ShortWordsIgnored(t1, words[1..], docID);
      if |words[0]| >= MinWordLength {
        assert LongWords(words) == [words[0]] + LongWords(words[1..]);
        assert LongWords(words)[1..] == LongWords(words[1..]);
      } else {
        assert LongWords(words) == LongWords(words[1..]);
      }
    }
  }

  /** The document ids of dir from d on. */
  function Later(dir: PageDirectory, d: int): set<int> {
    set k | k in dir && k >= d
  }

  lemma LaterStep(dir: PageDirectory, d: int)
    ensures d in dir ==> |Later(dir, d + 1)| + 1 == |Later(dir, d)|
    ensures d !in dir ==> Later(dir, d + 1) == Later(dir, d)
  {
    if d in dir {
      assert Later(dir, d) == Later(dir, d + 1) + {d};
    }
  }

  lemma LaterShrinks(dir: PageDirectory, d: int)
    requires d in dir
    ensures |Later(dir, d + 1)| < |Later(dir, d)|
  {
    LaterStep(dir, d);
  }

  /** indexBuild's scan from docID d on: a missing file ends it, a file without a page is
      skipped, a page is indexed, and the scan goes on with the next docID. */
  function ScanFrom(t: Table, dir: PageDirectory, d: int): Table
    requires d >= 1
    decreases |Later(dir, d)|
  {
    match PageDirLoad(dir, d)
    case Missing => t
    case Failed => LaterShrinks(dir, d); ScanFrom(t, dir, d + 1)
    case Loaded(page) => LaterShrinks(dir, d); ScanFrom(AddWords(t, page.words, d), dir, d + 1)
  }

  /** The first docID from d on whose file is missing: where the scan stops. */
  function FirstMissing(dir: PageDirectory, d: int): (m: int)
    requires d >= 1
    ensures m >= d && m !in dir
    ensures forall k | d <= k < m :: k in dir
    decreases |Later(dir, d)|
  {
    if d !in dir then d else LaterShrinks(dir, d); FirstMissing(dir, d + 1)
  }

  /** The index indexBuild builds. */
  function Built(dir: PageDirectory): Table {
    ScanFrom(map[], dir, 1)
  }

  /** The counts after a scan from d0: a document before the first missing file whose page
      loads contributes its long words; every other document contributes nothing. */
  lemma {:induction false} ScanFromLookup(t: Table, dir: PageDirectory, d0: int, w: string, d: int)
    requires d0 >= 1
    ensures Lookup(ScanFrom(t, dir, d0), w, d) == Lookup(t, w, d) +
      (if d0 <= d < FirstMissing(dir, d0) && PageDirLoad(dir, d).Loaded? then Occurrences(PageDirLoad(dir, d).page.words, w) else 0)
    decreases |Later(dir, d0)|
  {
    match PageDirLoad(dir, d0)
    case Missing =>
    case Failed =>
      LaterShrinks(dir, d0);
      ScanFromLookup(t, dir, d0 + 1, w, d);
    case Loaded(page) =>
      LaterShrinks(dir, d0);
      var t1 := AddWords(t, page.words, d0);
      ScanFromLookup(t1, dir, d0 + 1, w, d);
      AddWordsLookup(t, page.words, d0, w, d);
  }

  /** What indexBuild proves about its index: docIDs 1, 2, 3, ... are visited in turn up to
      the first missing file; the count of w in document d is the number of long words of
      d's page that normalise to w when d comes before that file and its page loads, and
      0 otherwise (a document that fails to load, or one after the gap, is not indexed). */
  lemma BuiltLookup(dir: PageDirectory, w: string, d: int)
    ensures Lookup(Built(dir), w, d) ==
      if 1 <= d < FirstMissing(dir, 1) && PageDirLoad(dir, d).Loaded? then Occurrences(PageDirLoad(dir, d).page.words, w) else 0
  {
    ScanFromLookup(map[], dir, 1, w, d);
  }

  /** indexBuild: starting from docID 1, loads each document: a status of -1 or 0 skips
      it, 1 indexes its page; the scan ends after the first -1 and the index is saved. */
  method IndexBuild(dir: PageDirectory) returns (status: int, text: string, ghost rows: seq<Row>)
    ensures status == 0
    ensures RowsEnumerate(rows, Built(dir)) && text == SaveText(rows)
  {
    var docID := 1;
    var index := IndexInit(IndexCoeff);
    var loaded := 0;
    while loaded != -1
      invariant docID >= 1 && fresh(index)
      invariant loaded == -1 ==> index.table == Built(dir)
      invariant loaded != -1 ==> Built(dir) == ScanFrom(index.table, dir, docID)
      decreases |Later(dir, docID)| + (if loaded == -1 then 0 else 1)
    {
      var result := PageDirLoad(dir, docID);
      loaded := Status(result);
      LaterStep(dir, docID);
      if loaded == -1 || loaded == 0 {
        docID := docID + 1;
        continue;
      }
      IndexPage(Some(result.page), index, docID);
      docID := docID + 1;
    }
    text, rows := IndexSave(index);
    return 0, text, rows;
  }
}
