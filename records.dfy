/** The record sequence a whole input splits into. This is the reference
    against which both line builders and the readlines driver are proved:
    records are taken leftmost-first, each record is what precedes the next
    separator occurrence, and the unterminated remainder becomes one last
    record only when it is non-empty. */
module Records {
  import opened Search

  /** One extraction step: the first record of `pending` and what follows
      its separator, or NoRecord when the separator does not occur. */
  datatype Extraction<T> = NoRecord | Record(line: seq<T>, rest: seq<T>)

  function NextRecord<T(==)>(pending: seq<T>, sep: seq<T>): (r: Extraction<T>)
    requires |sep| >= 1
    ensures r.NoRecord? <==> SepFree(pending, sep)
    ensures r.Record? ==> pending == r.line + sep + r.rest
    ensures r.Record? ==> SepFreeBetween(pending, sep, 0, |r.line|) && SepFree(r.line, sep)
  {
    var p := IndexOf(pending, sep, 0);
    if p == -1 then NoRecord
    else
      var line := pending[..p];
      assert pending == line + sep + pending[p + |sep|..] by {
        assert pending[p..p + |sep|] == sep;
      }
      assert SepFree(line, sep) by {
        forall i ensures !SepAt(line, sep, i) {
          SepAtPrefix(pending, sep, p, i);
        }
      }
      Record(line, pending[p + |sep|..])
  }

  /** The records of a whole input. */
  function Split<T(==)>(s: seq<T>, sep: seq<T>): (r: seq<seq<T>>)
    requires |sep| >= 1
    ensures r == [] <==> s == []
    decreases |s|
  {
    match NextRecord(s, sep)
    case NoRecord => if s == [] then [] else [s]
    case Record(line, rest) => [line] + Split(rest, sep)
  }

  /** None of the records holds the separator. */
  ghost predicate AllSepFree<T>(rs: seq<seq<T>>, sep: seq<T>)
  {
    forall k :: 0 <= k < |rs| ==> SepFree(rs[k], sep)
  }

  lemma AllSepFreeCons<T>(r: seq<T>, rs: seq<seq<T>>, sep: seq<T>)
    requires SepFree(r, sep) && AllSepFree(rs, sep)
    ensures AllSepFree([r] + rs, sep)
  {
    forall k | 1 <= k < |[r] + rs| ensures ([r] + rs)[k] == rs[k - 1] {
    }
  }

  /** No record holds the separator. */
  lemma {:induction false} SplitRecordsSepFree<T>(s: seq<T>, sep: seq<T>)
    requires |sep| >= 1
    ensures AllSepFree(Split(s, sep), sep)
    decreases |s|
  {
    var e := NextRecord(s, sep);
    if e.Record? {
      assert Split(s, sep) == [e.line] + Split(e.rest, sep);
      SplitRecordsSepFree(e.rest, sep);
      AllSepFreeCons(e.line, Split(e.rest, sep), sep);
    }
  }

  /** The unterminated remainder after the last separator taken. */
  function Tail<T(==)>(s: seq<T>, sep: seq<T>): (r: seq<T>)
    requires |sep| >= 1
    ensures SepFree(r, sep)
    decreases |s|
  {
    match NextRecord(s, sep)
    case NoRecord => s
    case Record(_, rest) => Tail(rest, sep)
  }

  /** Every record followed by the separator. */
  function Terminated<T>(rs: seq<seq<T>>, sep: seq<T>): seq<T>
  {
    if rs == [] then [] else rs[0] + sep + Terminated(rs[1..], sep)
  }

  /** Records joined by the separator, with no separator after the last. */
  function Join<T>(rs: seq<seq<T>>, sep: seq<T>): seq<T>
  {
    if rs == [] then []
    else if |rs| == 1 then rs[0]
    else rs[0] + sep + Join(rs[1..], sep)
  }

  /** Total number of elements in the records. */
  function TotalLength<T>(rs: seq<seq<T>>): nat
  {
    if rs == [] then 0 else |rs[0]| + TotalLength(rs[1..])
  }

  /** Taking the first record of `pending` and splitting the rest is
      splitting `pending`, whatever input follows it: an occurrence found
      inside `pending` stays the first one once more input is appended. */
  lemma SplitAfterRecord<T>(pending: seq<T>, line: seq<T>, rest: seq<T>, more: seq<T>, sep: seq<T>)
    requires |sep| >= 1
    requires pending == line + sep + rest && SepFreeBetween(pending, sep, 0, |line|)
    ensures Split(pending + more, sep) == [line] + Split(rest + more, sep)
  {
    var s := pending + more;
    assert s == line + sep + (rest + more);
    assert SepAt(pending, sep, |line|) by {
      assert pending[|line|..|line| + |sep|] == sep;
    }
    SepAtExtend(pending, more, sep, |line|);
    forall i | 0 <= i < |line| ensures !SepAt(s, sep, i) {
      SepAtExtend(pending, more, sep, i);
    }
    IndexOfIs(s, sep, 0, |line|);
    assert s[..|line|] == line;
    assert s[|line| + |sep|..] == rest + more;
    assert NextRecord(s, sep) == Record(line, rest + more);
    SplitOfRecord(line, rest + more, sep);
  }

  /** Input in which the separator does not occur is one record, or none
      when it is empty. */
  lemma SplitSepFree<T>(s: seq<T>, sep: seq<T>)
    requires |sep| >= 1 && SepFree(s, sep)
    ensures Split(s, sep) == if s == [] then [] else [s]
    ensures Tail(s, sep) == s
  {
  }

  /** Round trip: putting the separator back after every record rebuilds
      the input, plus one separator more exactly when the input ends in an
      unterminated (non-empty) remainder. */
  lemma SplitRoundTrip<T>(s: seq<T>, sep: seq<T>)
    requires |sep| >= 1
    ensures Tail(s, sep) == [] ==> Terminated(Split(s, sep), sep) == s
    ensures Tail(s, sep) != [] ==> Terminated(Split(s, sep), sep) == s + sep
  {
    if Tail(s, sep) == [] {
      RoundTripTerminated(s, sep);
    } else {
      RoundTripUnterminated(s, sep);
    }
  }

  lemma {:induction false} RoundTripTerminated<T>(s: seq<T>, sep: seq<T>)
    requires |sep| >= 1 && Tail(s, sep) == []
    ensures Terminated(Split(s, sep), sep) == s
    decreases |s|
  {
    var e := NextRecord(s, sep);
    if e.Record? {
      RoundTripTerminated(e.rest, sep);
      TerminatedCons(e.line, Split(e.rest, sep), sep);
    }
  }

  lemma {:induction false} RoundTripUnterminated<T>(s: seq<T>, sep: seq<T>)
    requires |sep| >= 1 && Tail(s, sep) != []
    ensures Terminated(Split(s, sep), sep) == s + sep
    decreases |s|
  {
    var e := NextRecord(s, sep);
    if e.Record? {
      assert Tail(s, sep) == Tail(e.rest, sep);
      RoundTripUnterminated(e.rest, sep);
      TerminatedCons(e.line, Split(e.rest, sep), sep);
      assert Split(s, sep) == [e.line] + Split(e.rest, sep);
      AppendAssoc(e.line + sep, e.rest, sep);
    } else {
      TerminatedCons(s, [], sep);
    }
  }

  lemma AppendAssoc<T>(a: seq<T>, b: seq<T>, c: seq<T>)
    ensures a + (b + c) == a + b + c
  {
  }

  lemma TerminatedCons<T>(r: seq<T>, rs: seq<seq<T>>, sep: seq<T>)
    ensures Terminated([r] + rs, sep) == r + sep + Terminated(rs, sep)
  {
    assert ([r] + rs)[1..] == rs;
  }

  /** Trailing record: a non-empty unterminated remainder is the last
      record, emitted without a separator. That an empty remainder adds no
      record is the first case of SplitRoundTrip. */
  lemma {:induction false} SplitTrailingRecord<T>(s: seq<T>, sep: seq<T>)
    requires |sep| >= 1
    ensures Tail(s, sep) != [] ==> |Split(s, sep)| >= 1 && Split(s, sep)[|Split(s, sep)| - 1] == Tail(s, sep)
    decreases |s|
  {
    match NextRecord(s, sep)
    case NoRecord =>
    case Record(line, rest) =>
      SplitTrailingRecord(rest, sep);
  }

  lemma {:induction false} TerminatedLength<T>(rs: seq<seq<T>>, sep: seq<T>)
    ensures |Terminated(rs, sep)| == TotalLength(rs) + |rs| * |sep|
  {
    if rs != [] {
      TerminatedLength(rs[1..], sep);
    }
  }

  /** Sizes: the records hold every input element except the separators
      taken; there are as many of those as records, less one when the last
      record is an unterminated remainder. */
  lemma SplitSizes<T>(s: seq<T>, sep: seq<T>)
    requires |sep| >= 1
    ensures Tail(s, sep) == [] ==> TotalLength(Split(s, sep)) + |Split(s, sep)| * |sep| == |s|
    ensures Tail(s, sep) != [] ==> TotalLength(Split(s, sep)) + (|Split(s, sep)| - 1) * |sep| == |s|
  {
    var rs := Split(s, sep);
    SplitRoundTrip(s, sep);
    TerminatedLength(rs, sep);
    assert (|rs| - 1) * |sep| == |rs| * |sep| - |sep|;
  }

  /** With an unbordered separator, a separator-free record followed by the
      separator is found as the first record, whatever follows. */
  lemma FirstRecordOfTerminated<T>(line: seq<T>, rest: seq<T>, sep: seq<T>)
    requires |sep| >= 1 && Unbordered(sep) && SepFree(line, sep)
    ensures NextRecord(line + sep + rest, sep) == Record(line, rest)
  {
    var s := line + sep + rest;
    assert SepAt(s, sep, |line|) by {
      assert s[|line|..|line| + |sep|] == sep;
    }
    forall i | 0 <= i < |line| ensures !SepAt(s, sep, i) {
      if i + |sep| <= |line| {
        SepAtPrefix(s, sep, |line|, i);
        assert s[..|line|] == line;
      } else if SepAt(s, sep, i) {
        OverlapMakesBorder(s, sep, i, |line|);
      }
    }
    IndexOfIs(s, sep, 0, |line|);
    assert s[..|line|] == line;
    assert s[|line| + |sep|..] == rest;
  }

  /** Converse round trip for terminated input: records free of an
      unbordered separator, each followed by the separator, split back into
      exactly those records. */
  lemma {:induction false} SplitTerminated<T>(rs: seq<seq<T>>, sep: seq<T>)
    requires |sep| >= 1 && Unbordered(sep)
    requires AllSepFree(rs, sep)
    ensures Split(Terminated(rs, sep), sep) == rs
  {
    if rs != [] {
      var t := Terminated(rs[1..], sep);
      FirstRecordOfTerminated(rs[0], t, sep);
      SplitOfRecord(rs[0], t, sep);
      SepFreeRecordsTail(rs, sep);
      SplitTerminated(rs[1..], sep);
      assert [rs[0]] + rs[1..] == rs;
    }
  }

  lemma SplitOfRecord<T>(line: seq<T>, rest: seq<T>, sep: seq<T>)
    requires |sep| >= 1 && NextRecord(line + sep + rest, sep) == Record(line, rest)
    ensures Split(line + sep + rest, sep) == [line] + Split(rest, sep)
  {
  }

  lemma SepFreeRecordsTail<T>(rs: seq<seq<T>>, sep: seq<T>)
    requires rs != [] && AllSepFree(rs, sep)
    ensures AllSepFree(rs[1..], sep)
  {
    forall k | 0 <= k < |rs[1..]| ensures SepFree(rs[1..][k], sep) {
      assert rs[1..][k] == rs[k + 1];
    }
  }

  /** Converse round trip for joined input: records free of an unbordered
      separator, joined by it, split back into exactly those records,
      provided the last record is not empty (an empty last record leaves no
      trace in the joined input). */
  lemma {:induction false} SplitJoin<T>(rs: seq<seq<T>>, sep: seq<T>)
    requires |sep| >= 1 && Unbordered(sep)
    requires AllSepFree(rs, sep)
    requires rs == [] || rs[|rs| - 1] != []
    ensures Split(Join(rs, sep), sep) == rs
  {
    if |rs| == 1 {
      SplitSepFree(rs[0], sep);
    } else if |rs| > 1 {
      FirstRecordOfTerminated(rs[0], Join(rs[1..], sep), sep);
      SplitOfRecord(rs[0], Join(rs[1..], sep), sep);
      SepFreeRecordsTail(rs, sep);
      SplitJoin(rs[1..], sep);
      assert [rs[0]] + rs[1..] == rs;
    }
  }

  /** The read-back the test suite performs: non-empty separator-free lines
      joined by "\n" (or any unbordered separator) come back as the same
      number of lines with the same total size. */
  lemma ReadBackJoinedLines<T>(rs: seq<seq<T>>, sep: seq<T>)
    requires |sep| >= 1 && Unbordered(sep)
    requires forall k :: 0 <= k < |rs| ==> rs[k] != [] && SepFree(rs[k], sep)
    ensures |Split(Join(rs, sep), sep)| == |rs|
    ensures TotalLength(Split(Join(rs, sep), sep)) == TotalLength(rs)
  {
    SplitJoin(rs, sep);
  }
}
