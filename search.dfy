/** Separator occurrences and the `indexOf` search that both line builders
    use (String.prototype.indexOf for text, Buffer.prototype.indexOf for
    bytes). A separator "occurs at i" only when it fits wholly inside the
    searched sequence. */
module Search {

  /** sep occurs in s starting at offset i. */
  predicate SepAt<T(==)>(s: seq<T>, sep: seq<T>, i: int)
  {
    0 <= i && i + |sep| <= |s| && s[i..i + |sep|] == sep
  }

  /** No occurrence of sep starts in [lo, hi). */
  predicate SepFreeBetween<T(==)>(s: seq<T>, sep: seq<T>, lo: int, hi: int)
  {
    forall i :: lo <= i < hi ==> !SepAt(s, sep, i)
  }

  /** sep does not occur anywhere in s. */
  ghost predicate SepFree<T>(s: seq<T>, sep: seq<T>)
  {
    forall i :: !SepAt(s, sep, i)
  }

  /** A separator with no proper border: no proper prefix of it is also a
      suffix of it ("\n" and "42" are such separators, "aa" and "aba" are
      not). Exactly for these two occurrences can never overlap. */
  predicate Unbordered<T(==)>(sep: seq<T>)
  {
    forall k :: 0 < k < |sep| ==> sep[..k] != sep[|sep| - k..]
  }

  /** indexOf(sep, from): the first offset at or after `from` where sep
      occurs, or -1 when there is none. */
  function IndexOf<T(==)>(s: seq<T>, sep: seq<T>, from: nat): (r: int)
    requires |sep| >= 1
    ensures r == -1 || (from <= r && SepAt(s, sep, r) && SepFreeBetween(s, sep, from, r))
    ensures r == -1 <==> forall i :: from <= i ==> !SepAt(s, sep, i)
    decreases |s| - from
  {
    if from + |sep| > |s| then -1
    else if s[from..from + |sep|] == sep then from
    else IndexOf(s, sep, from + 1)
  }

  /** An occurrence at p with none in [from, p) is what indexOf finds. */
  lemma IndexOfIs<T>(s: seq<T>, sep: seq<T>, from: nat, p: int)
    requires |sep| >= 1
    requires from <= p && SepAt(s, sep, p) && SepFreeBetween(s, sep, from, p)
    ensures IndexOf(s, sep, from) == p
  {
    assert IndexOf(s, sep, from) != -1;
  }

  /** Occurrences that end inside s are unaffected by what follows s. */
  lemma SepAtExtend<T>(s: seq<T>, t: seq<T>, sep: seq<T>, i: int)
    requires i + |sep| <= |s|
    ensures SepAt(s + t, sep, i) <==> SepAt(s, sep, i)
  {
    if 0 <= i {
      assert (s + t)[i..i + |sep|] == s[i..i + |sep|];
    }
  }

  /** Occurrences in a suffix s[k..] are the occurrences in s shifted by k. */
  lemma SepAtShift<T>(s: seq<T>, sep: seq<T>, k: nat, i: int)
    requires k <= |s| && 0 <= i
    ensures SepAt(s[k..], sep, i) <==> SepAt(s, sep, k + i)
  {
    if i + |sep| <= |s| - k {
      assert s[k..][i..i + |sep|] == s[k + i..k + i + |sep|];
    }
  }

  /** Occurrences in a prefix s[..k] are the occurrences in s that end by k. */
  lemma SepAtPrefix<T>(s: seq<T>, sep: seq<T>, k: nat, i: int)
    requires k <= |s|
    ensures SepAt(s[..k], sep, i) <==> (i + |sep| <= k && SepAt(s, sep, i))
  {
    if 0 <= i && i + |sep| <= k {
      assert s[..k][i..i + |sep|] == s[i..i + |sep|];
    }
  }

  /** Two overlapping occurrences of sep give sep a proper border. */
  lemma {:induction false} OverlapMakesBorder<T>(s: seq<T>, sep: seq<T>, i: int, j: int)
    requires SepAt(s, sep, i) && SepAt(s, sep, j) && i < j < i + |sep|
    ensures !Unbordered(sep)
  {
    var k := i + |sep| - j;
    assert 0 < k < |sep|;
    forall t | 0 <= t < k
      ensures sep[..k][t] == sep[|sep| - k..][t]
    {
      calc {
        sep[|sep| - k..][t];
        sep[j - i + t];
        s[i..i + |sep|][j - i + t];
        s[j + t];
        s[j..j + |sep|][t];
        sep[t];
      }
    }
    assert sep[..k] == sep[|sep| - k..];
  }

  /** A search resumed at `cursor` when no separator starts in
      [from, cursor) finds the first separator of s[from..], at the same
      place shifted by `from`. */
  lemma ResumedSearch<T>(s: seq<T>, sep: seq<T>, from: int, cursor: int)
    requires |sep| >= 1 && 0 <= from <= cursor <= |s|
    requires SepFreeBetween(s, sep, from, cursor)
    ensures IndexOf(s, sep, cursor) == -1 <==> SepFree(s[from..], sep)
    ensures IndexOf(s, sep, cursor) != -1 ==>
              from <= IndexOf(s, sep, cursor) &&
              SepAt(s, sep, IndexOf(s, sep, cursor)) &&
              SepFreeBetween(s[from..], sep, 0, IndexOf(s, sep, cursor) - from)
  {
    var pos := IndexOf(s, sep, cursor);
    forall i | 0 <= i ensures SepAt(s[from..], sep, i) <==> SepAt(s, sep, from + i) {
      SepAtShift(s, sep, from, i);
    }
    if pos != -1 {
      assert SepAt(s[from..], sep, pos - from);
    }
  }

  /** A failed search from `from` leaves no separator starting anywhere in
      [from, |s|). */
  lemma MissLeavesNoSeparator<T>(s: seq<T>, sep: seq<T>, from: int)
    requires 0 <= from <= |s| && SepFree(s[from..], sep)
    ensures SepFreeBetween(s, sep, from, |s|)
  {
    forall i | from <= i < |s| ensures !SepAt(s, sep, i) {
      SepAtShift(s, sep, from, i - from);
    }
  }

  /** A separator at pos splits s[from..] into the record s[from..pos], the
      separator and what follows it. */
  lemma CutRecord<T>(s: seq<T>, sep: seq<T>, from: int, pos: int)
    requires 0 <= from <= pos && SepAt(s, sep, pos)
    ensures s[from..] == s[from..pos] + sep + s[pos + |sep|..]
  {
    assert s[pos..pos + |sep|] == sep;
  }
}
