/** Splitting a line into fields: the maximal runs of characters that are not
    separators, left to right. The index file reader splits on space and newline,
    the query reader on C white space; both are instances of Fields. */
module Split {

  predicate NoSep(s: string, sep: char -> bool) {
    forall i | 0 <= i < |s| :: !sep(s[i])
  }

  predicate AllSep(s: string, sep: char -> bool) {
    forall i | 0 <= i < |s| :: sep(s[i])
  }

  /** Length of the run of non-separators at the front of s. */
  function RunLength(s: string, sep: char -> bool): (n: nat)
    ensures n <= |s|
  {
    if s == [] || sep(s[0]) then 0 else 1 + RunLength(s[1..], sep)
  }

  function Fields(s: string, sep: char -> bool): seq<string>
    decreases |s|
  {
    if s == [] then []
    else if sep(s[0]) then Fields(s[1..], sep)
    else
      var n := RunLength(s, sep);
      [s[..n]] + Fields(s[n..], sep)
  }

  lemma {:induction false} RunLengthProps(s: string, sep: char -> bool)
    ensures NoSep(s[..RunLength(s, sep)], sep)
    ensures RunLength(s, sep) < |s| ==> sep(s[RunLength(s, sep)])
  {
    if s != [] && !sep(s[0]) {
      RunLengthProps(s[1..], sep);
    }
  }

  /** Every field is non-empty and holds no separator. */
  lemma {:induction false} FieldsShape(s: string, sep: char -> bool)
    ensures forall j | 0 <= j < |Fields(s, sep)| :: |Fields(s, sep)[j]| > 0 && NoSep(Fields(s, sep)[j], sep)
    decreases |s|
  {
    if s != [] {
      if sep(s[0]) {
        FieldsShape(s[1..], sep);
      } else {
        var n := RunLength(s, sep);
        RunLengthProps(s, sep);
        FieldsShape(s[n..], sep);
      }
    }
  }

  /** A string has no fields exactly when it holds only separators. */
  lemma {:induction false} FieldsEmpty(s: string, sep: char -> bool)
    ensures Fields(s, sep) == [] <==> AllSep(s, sep)
    decreases |s|
  {
    if s != [] {
      FieldsEmpty(s[1..], sep);
      if !sep(s[0]) {
        assert Fields(s, sep) != [];
      }
    }
  }

  /** Leading separators do not change the fields. */
  lemma {:induction false} FieldsSkipSeps(a: string, b: string, sep: char -> bool)
    requires AllSep(a, sep)
    ensures Fields(a + b, sep) == Fields(b, sep)
    decreases |a|
  {
    if a != [] {
      assert (a + b)[0] == a[0] && (a + b)[1..] == a[1..] + b;
      FieldsSkipSeps(a[1..], b, sep);
    } else {
      assert a + b == b;
    }
  }

  lemma {:induction false} RunLengthOfRun(w: string, rest: string, sep: char -> bool)
    requires NoSep(w, sep)
    requires rest == [] || sep(rest[0])
    ensures RunLength(w + rest, sep) == |w|
    decreases |w|
  {
    if w != [] {
      assert (w + rest)[1..] == w[1..] + rest;
      RunLengthOfRun(w[1..], rest, sep);
    }
  }

  /** A run followed by the end or by a separator is the first field. */
  lemma FieldsRun(w: string, rest: string, sep: char -> bool)
    requires |w| > 0 && NoSep(w, sep)
    requires rest == [] || sep(rest[0])
    ensures Fields(w + rest, sep) == [w] + Fields(rest, sep)
  {
    RunLengthOfRun(w, rest, sep);
    assert (w + rest)[..|w|] == w;
    assert (w + rest)[|w|..] == rest;
  }

  lemma {:induction false} RunLengthPrefix(a: string, b: string, sep: char -> bool)
    requires RunLength(a, sep) < |a|
    ensures RunLength(a + b, sep) == RunLength(a, sep)
    decreases |a|
  {
    if !sep(a[0]) {
      assert (a + b)[1..] == a[1..] + b;
      RunLengthPrefix(a[1..], b, sep);
    }
  }

  /** Cutting a string just after a separator cuts its list of fields in two. */
  lemma {:induction false} FieldsConcat(a: string, b: string, sep: char -> bool)
    requires a == [] || sep(a[|a| - 1])
    ensures Fields(a + b, sep) == Fields(a, sep) + Fields(b, sep)
    decreases |a|
  {
    if a == [] {
      assert a + b == b;
    } else if sep(a[0]) {
      assert (a + b)[1..] == a[1..] + b;
      FieldsConcat(a[1..], b, sep);
    } else {
      var n := RunLength(a, sep);
      RunLengthProps(a, sep);
      assert n < |a|;
      RunLengthPrefix(a, b, sep);
      assert (a + b)[..n] == a[..n];
      assert (a + b)[n..] == a[n..] + b;
      FieldsConcat(a[n..], b, sep);
    }
  }

  lemma NoSepAppend(a: string, b: string, sep: char -> bool)
    ensures NoSep(a + b, sep) <==> NoSep(a, sep) && NoSep(b, sep)
  {
    if NoSep(a, sep) && NoSep(b, sep) {
      forall i | 0 <= i < |a + b| ensures !sep((a + b)[i]) {
        if i < |a| {
          assert (a + b)[i] == a[i];
        } else {
          assert (a + b)[i] == b[i - |a|];
        }
      }
    }
    if NoSep(a + b, sep) {
      forall i | 0 <= i < |a| ensures !sep(a[i]) {
        assert (a + b)[i] == a[i];
      }
      forall i | 0 <= i < |b| ensures !sep(b[i]) {
        assert (a + b)[i + |a|] == b[i];
      }
    }
  }
}
