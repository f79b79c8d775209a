/** The content of an inverted index: each word is mapped to its posting list,
    the counters object of document id to occurrence count. The hash table's
    bucket layout and iteration order are not part of this content. */
module IndexTable {
  import opened Counters

  type Table = map<string, Counters>

  /** The posting list of w; an absent word reads as an empty list. */
  function Postings(t: Table, w: string): Counters {
    if w in t then t[w] else map[]
  }

  /** The count of w in document d, 0 when absent. */
  function Lookup(t: Table, w: string, d: int): int {
    Get(Postings(t, w), d)
  }

  /** What the index holds after adding or loading words: every word has at least one
      posting, every document id is at least 1 and every count at least 1. */
  ghost predicate WellFormed(t: Table) {
    forall w | w in t :: |t[w]| > 0 && forall d | d in t[w] :: d >= 1 && t[w][d] >= 1
  }

  /** One more occurrence of the (already normalised) word w in document d. */
  function Added(t: Table, w: string, d: int): Table
    requires d >= 1
  {
    t[w := Postings(t, w)[d := Lookup(t, w, d) + 1]]
  }

  /** The count of w in d set to exactly f. */
  function Updated(t: Table, w: string, d: int, f: int): Table
    requires d >= 1 && f >= 1
  {
    t[w := Postings(t, w)[d := f]]
  }

  /** Adding raises the one count at (w, d) by 1 and changes no other count;
      the word set gains w. */
  lemma AddedLookup(t: Table, w: string, d: int, w': string, d': int)
    requires d >= 1
    ensures Lookup(Added(t, w, d), w', d') == Lookup(t, w', d') + (if w' == w && d' == d then 1 else 0)
    ensures Added(t, w, d).Keys == t.Keys + {w}
  {
  }

  lemma AddedWellFormed(t: Table, w: string, d: int)
    requires d >= 1 && WellFormed(t)
    ensures WellFormed(Added(t, w, d))
  {
    var t' := Added(t, w, d);
    forall w' | w' in t'
      ensures |t'[w']| > 0 && forall d' | d' in t'[w'] :: d' >= 1 && t'[w'][d'] >= 1
    {
      if w' == w {
        assert d in t'[w'];
      } else {
        assert t'[w'] == t[w'];
      }
    }
  }

  /** Updating sets the count at (w, d) to f and changes no other count;
      the word set gains w. */
  lemma UpdatedLookup(t: Table, w: string, d: int, f: int, w': string, d': int)
    requires d >= 1 && f >= 1
    ensures Lookup(Updated(t, w, d, f), w', d') == if w' == w && d' == d then f else Lookup(t, w', d')
    ensures Updated(t, w, d, f).Keys == t.Keys + {w}
  {
  }

  lemma UpdatedWellFormed(t: Table, w: string, d: int, f: int)
    requires d >= 1 && f >= 1 && WellFormed(t)
    ensures WellFormed(Updated(t, w, d, f))
  {
    var t' := Updated(t, w, d, f);
    forall w' | w' in t'
      ensures |t'[w']| > 0 && forall d' | d' in t'[w'] :: d' >= 1 && t'[w'][d'] >= 1
    {
      if w' == w {
        assert d in t'[w'];
      } else {
        assert t'[w'] == t[w'];
      }
    }
  }
}
