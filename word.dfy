/** The word normaliser: rewrites a word in place to lower case. */
module Word {
  import opened CLib

  /** The normal form of a word: every letter in lower case, every other character kept. */
  function Lower(s: string): string {
    seq(|s|, i requires 0 <= i < |s| => ToLower(s[i]))
  }

  /** normalizeWord: -1 for a NULL word; otherwise 0, and each letter of the buffer is
      replaced by its lower-case form. The buffer keeps its length. */
  method NormalizeWord(word: array?<char>) returns (status: int)
    modifies word
    ensures word == null ==> status == -1
    ensures word != null ==> status == 0
    ensures word != null ==> word[..] == Lower(old(word[..]))
  {
    if word == null {
      return -1;
    }
    var limit := word.Length;
    for i := 0 to limit
      invariant forall j | 0 <= j < i :: word[j] == ToLower(old(word[j]))
      invariant forall j | i <= j < limit :: word[j] == old(word[j])
    {
      if IsAlpha(word[i]) {
        word[i] := ToLower(word[i]);
      }
    }
    return 0;
  }

  /** Letters become lower case, every other character is left alone, and nothing
      moves: the result has the input's length. */
  lemma LowerAt(s: string, i: int)
    requires 0 <= i < |s|
    ensures |Lower(s)| == |s|
    ensures IsAlpha(s[i]) ==> IsLower(Lower(s)[i]) && (IsLower(s[i]) ==> Lower(s)[i] == s[i])
    ensures IsUpper(s[i]) ==> Lower(s)[i] as int == s[i] as int + 32
    ensures !IsAlpha(s[i]) ==> Lower(s)[i] == s[i]
  {
  }

  /** Normalising a normalised word changes nothing. */
  lemma LowerIdempotent(s: string)
    ensures Lower(Lower(s)) == Lower(s)
  {
  }

  /** A normalised word holds no upper-case letter. */
  lemma LowerHasNoUpper(s: string)
    ensures forall i | 0 <= i < |Lower(s)| :: !IsUpper(Lower(s)[i])
  {
  }

  /** The normaliser leaves space, newline and NUL where they were, so a word without
      separators stays without them. */
  lemma LowerKeepsSeparators(s: string, sep: char -> bool)
    requires forall c :: sep(c) ==> !IsAlpha(c)
    ensures forall i | 0 <= i < |s| :: sep(Lower(s)[i]) <==> sep(s[i])
  {
  }
}
