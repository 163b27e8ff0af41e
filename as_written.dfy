/** ByteLineBuilder.nextLine and lastLine exactly as index.js writes them,
    on plain values, kept beside the corrected class ByteLines.ByteLineBuilder
    to exhibit where the two differ. The array is the whole allocation
    `mem`, including the bytes past bufSize that Buffer.allocUnsafe leaves
    uninitialised or that earlier data left behind. Two things differ from
    the corrected class: the separator search runs over all of `mem`, and
    only a match that STARTS at or past bufSize counts as a miss; and a miss
    resumes the next search at max(0, bufSize - |sep| + 1) rather than at no
    earlier than `consumed`. */
module AsWritten {
  import opened Wrappers
  import opened Search
  import opened Records
  import opened ByteLines
  import opened ReadLines

  datatype ByteState = ByteState(mem: seq<bv8>, bufSize: int, consumed: int, searchOffset: nat)

  datatype Step = Step(line: Option<seq<bv8>>, state: ByteState)

  /** Buffer.slice(start, end) for non-negative bounds: both are clamped to
      the length, and an end before the start gives an empty slice. */
  function Slice(mem: seq<bv8>, start: nat, end: nat): (r: seq<bv8>)
    ensures |r| <= |mem|
    ensures start <= end <= |mem| ==> r == mem[start..end]
    ensures end <= start ==> r == []
    ensures start <= |mem| < end ==> r == mem[start..]
    ensures |mem| <= start ==> r == []
  {
    var e := if end <= |mem| then end else |mem|;
    var b := if start <= e then start else e;
    mem[b..e]
  }

  /** chunk.copy(buf, bufSize) when the chunk fits: the only branch of
      append the counterexamples below take. */
  function WriteAt(mem: seq<bv8>, at: nat, chunk: seq<bv8>): (r: seq<bv8>)
    requires at + |chunk| <= |mem|
    ensures |r| == |mem| && r[..at] == mem[..at] && r[at..at + |chunk|] == chunk
    ensures r[at + |chunk|..] == mem[at + |chunk|..]
  {
    mem[..at] + chunk + mem[at + |chunk|..]
  }

  /** nextLine as written. A record is cut whenever the first match at or
      after searchOffset anywhere in the allocation starts before bufSize,
      even when it ends past bufSize. */
  function NextLine(st: ByteState, sep: seq<bv8>): (r: Step)
    requires |sep| >= 1 && 0 <= st.consumed
    ensures r.state.mem == st.mem && r.state.bufSize == st.bufSize
    ensures r.line.None? <==> SepFreeBetween(st.mem, sep, st.searchOffset, st.bufSize)
    ensures r.line.None? ==>
              r.state.consumed == st.consumed && r.state.searchOffset == Max(0, st.bufSize - |sep| + 1)
    ensures r.line.Some? ==>
              r.state.consumed == r.state.searchOffset >= st.searchOffset + |sep| &&
              SepAt(st.mem, sep, r.state.consumed - |sep|) &&
              r.state.consumed - |sep| < st.bufSize
    ensures r.line.Some? ==>
              r.line.value == Slice(st.mem, st.consumed, r.state.consumed - |sep|) &&
              SepFreeBetween(st.mem, sep, st.searchOffset, r.state.consumed - |sep|)
  {
    var pos := IndexOf(st.mem, sep, st.searchOffset);
    if pos == -1 || pos >= st.bufSize then
      Step(None, st.(searchOffset := Max(0, st.bufSize - |sep| + 1)))
    else
      Step(Some(Slice(st.mem, st.consumed, pos)), st.(consumed := pos + |sep|, searchOffset := pos + |sep|))
  }

  /** lastLine as written. */
  function LastLine(st: ByteState): (r: Option<seq<bv8>>)
    requires 0 <= st.consumed && 0 <= st.bufSize
    ensures r.Some? <==> st.bufSize > st.consumed
    ensures r.Some? && st.bufSize <= |st.mem| ==> r.value == st.mem[st.consumed..st.bufSize]
  {
    if st.bufSize - st.consumed > 0 then Some(Slice(st.mem, st.consumed, st.bufSize)) else None
  }


  /** append as written when the chunk fits in the allocation, so that
      _realloc is not called: an empty chunk changes nothing, any other is
      copied in at bufSize and bufSize grows by its length. */
  function AppendFits(st: ByteState, chunk: seq<bv8>): (r: ByteState)
    requires 0 <= st.bufSize && st.bufSize + |chunk| <= |st.mem|
    ensures |r.mem| == |st.mem| && r.bufSize == st.bufSize + |chunk|
    ensures r.mem[..st.bufSize] == st.mem[..st.bufSize] && r.mem[st.bufSize..r.bufSize] == chunk
    ensures r.mem[r.bufSize..] == st.mem[r.bufSize..]
    ensures r.consumed == st.consumed && r.searchOffset == st.searchOffset
  {
    if |chunk| == 0 then st else st.(mem := WriteAt(st.mem, st.bufSize, chunk), bufSize := st.bufSize + |chunk|)
  }

  /** The inner loop of readlines over the builder as written: records are
      handed out until nextLine misses. The allocation and bufSize stay as
      they are and consumed stays non-negative; consumed can move back,
      since a miss may resume the search before it. */
  function Drain(st: ByteState, sep: seq<bv8>): (r: (seq<seq<bv8>>, ByteState))
    requires |sep| >= 1 && 0 <= st.consumed
    ensures r.1.mem == st.mem && r.1.bufSize == st.bufSize && 0 <= r.1.consumed
    decreases st.bufSize + |sep| - st.searchOffset
  {
    var s := NextLine(st, sep);
    if s.line.None? then ([], s.state)
    else
      var d := Drain(s.state, sep);
      ([s.line.value] + d.0, d.1)
  }

  /** readlines without an encoding over the builder as written, for
      chunks that fit in the allocation one after another. */
  function Run(st: ByteState, chunks: seq<seq<bv8>>, sep: seq<bv8>): seq<seq<bv8>>
    requires |sep| >= 1 && 0 <= st.consumed && 0 <= st.bufSize
    requires st.bufSize + |Concat(chunks)| <= |st.mem|
    decreases |chunks|
  {
    if chunks == [] then
      var last := LastLine(st);
      if last.Some? then [last.value] else []
    else
      var d := Drain(AppendFits(st, chunks[0]), sep);
      d.0 + Run(d.1, chunks[1..], sep)
  }

  /** A search resumed at or past bufSize always misses. */
  lemma MissPastEnd(st: ByteState, sep: seq<bv8>)
    requires |sep| >= 1 && 0 <= st.consumed && st.searchOffset >= st.bufSize
    ensures NextLine(st, sep) == Step(None, st.(searchOffset := Max(0, st.bufSize - |sep| + 1)))
  {
  }

  /** For a separator without a border, resuming the search below consumed
      after a miss is harmless: when a separator ends at consumed, no match
      starts between the resume point and consumed. */
  lemma ResumeHarmlessWhenUnbordered(mem: seq<bv8>, sep: seq<bv8>, consumed: int, bufSize: int, i: int)
    requires Unbordered(sep) && |sep| <= consumed <= bufSize <= |mem|
    requires SepAt(mem, sep, consumed - |sep|)
    requires Max(0, bufSize - |sep| + 1) <= i < consumed
    ensures !SepAt(mem, sep, i)
  {
    if SepAt(mem, sep, i) {
      OverlapMakesBorder(mem, sep, consumed - |sep|, i);
    }
  }

  /** With a one-byte separator such as "\n", nextLine as written agrees
      with the corrected search: from any state the corrected builder can
      be in, it hands out the same record and moves the cursors to the same
      places as FindRecord on the valid bytes. */
  lemma OneByteSeparatorAgrees(mem: seq<bv8>, sep: seq<bv8>, bufSize: int, consumed: int, searchOffset: nat)
    requires |sep| == 1 && 0 <= consumed <= searchOffset <= bufSize <= |mem|
    requires SepFreeBetween(mem[..bufSize], sep, consumed, searchOffset)
    ensures var f := FindRecord(mem[..bufSize], sep, consumed, searchOffset);
            NextLine(ByteState(mem, bufSize, consumed, searchOffset), sep) ==
            Step(f.line, ByteState(mem, bufSize, f.consumed, f.searchOffset))
  {
    var valid := mem[..bufSize];
    var p := IndexOf(mem, sep, searchOffset);
    if p != -1 && p < bufSize {
      SepAtPrefix(mem, sep, bufSize, p);
      forall i | searchOffset <= i < p ensures !SepAt(valid, sep, i) {
        SepAtPrefix(mem, sep, bufSize, i);
      }
      IndexOfIs(valid, sep, searchOffset, p);
      assert Slice(mem, consumed, p) == valid[consumed..p];
    } else {
      forall i | searchOffset <= i ensures !SepAt(valid, sep, i) {
        SepAtPrefix(mem, sep, bufSize, i);
      }
      assert IndexOf(valid, sep, searchOffset) == -1;
    }
  }

  /** "42" and the single chunk "x4", as bytes. */
  const FortyTwo: seq<bv8> := [0x34, 0x32]
  const ChunkX4: seq<bv8> := [0x78, 0x34]

  /** A fresh builder with separator "42" whose allocation happens to hold
      the byte '2' at offset 2 receives the single chunk "x4". nextLine
      matches "42" at offset 1, where the '4' is the last valid byte and the
      '2' is stale, and hands out "x" with consumed past bufSize. */
  lemma StaleByteMatch(mem: seq<bv8>)
    requires |mem| == InitialCapacity && mem[2] == 0x32
    ensures NextLine(ByteState(WriteAt(mem, 0, ChunkX4), 2, 0, 0), FortyTwo) ==
            Step(Some([0x78]), ByteState(WriteAt(mem, 0, ChunkX4), 2, 3, 3))
  {
    var m := WriteAt(mem, 0, ChunkX4);
    assert m[0] == 0x78 && m[1] == 0x34 && m[2] == 0x32;
    assert !SepAt(m, FortyTwo, 0) by {
      assert m[0..2][0] == 0x78;
    }
    assert SepAt(m, FortyTwo, 1) by {
      assert m[1..3] == FortyTwo;
    }
    IndexOfIs(m, FortyTwo, 0, 1);
    assert Slice(m, 0, 1) == [0x78];
  }

  /** "x4" holds no separator "42": it is one record. */
  lemma RecordsOfX4()
    ensures Split(Concat([ChunkX4]), FortyTwo) == [ChunkX4]
  {
    assert Concat([ChunkX4]) == ChunkX4 by {
      assert [ChunkX4][1..] == [];
    }
    assert !SepAt(ChunkX4, FortyTwo, 0) by {
      assert ChunkX4[0..2][0] == 0x78;
    }
    assert IndexOf(ChunkX4, FortyTwo, 1) == -1;
  }

  /** The whole run on "x4" from a fresh builder: the records as written
      are only "x" (the second nextLine misses and lastLine sees consumed
      past bufSize), while the records of "x4" are "x4". */
  lemma StaleByteCompletesSeparator(mem: seq<bv8>)
    requires |mem| == InitialCapacity && mem[2] == 0x32
    ensures Run(ByteState(mem, 0, 0, 0), [ChunkX4], FortyTwo) == [[0x78]]
    ensures Split(Concat([ChunkX4]), FortyTwo) == [ChunkX4]
  {
    var m := WriteAt(mem, 0, ChunkX4);
    assert AppendFits(ByteState(mem, 0, 0, 0), ChunkX4) == ByteState(m, 2, 0, 0);
    StaleByteMatch(mem);
    MissPastEnd(ByteState(m, 2, 3, 3), FortyTwo);
    assert Drain(ByteState(m, 2, 3, 3), FortyTwo) == ([], ByteState(m, 2, 3, 1));
    var x: seq<bv8> := [0x78];
    assert [x] + [] == [x];
    assert Drain(ByteState(m, 2, 0, 0), FortyTwo) == ([[0x78]], ByteState(m, 2, 3, 1));
    assert [ChunkX4][1..] == [];
    assert Run(ByteState(m, 2, 3, 1), [], FortyTwo) == [];
    RecordsOfX4();
  }

  /** "aa" and the chunks "xaa" and "a", as bytes. */
  const DoubleA: seq<bv8> := [0x61, 0x61]
  const ChunkXAA: seq<bv8> := [0x78, 0x61, 0x61]
  const ChunkA: seq<bv8> := [0x61]

  /** The first chunk "xaa": nextLine hands out "x" and consumes up to 3. */
  lemma FirstRecordX(mem: seq<bv8>)
    requires |mem| == InitialCapacity
    ensures NextLine(ByteState(WriteAt(mem, 0, ChunkXAA), 3, 0, 0), DoubleA) ==
            Step(Some([0x78]), ByteState(WriteAt(mem, 0, ChunkXAA), 3, 3, 3))
  {
    var m := WriteAt(mem, 0, ChunkXAA);
    assert m[0] == 0x78 && m[1] == 0x61 && m[2] == 0x61;
    assert !SepAt(m, DoubleA, 0) by {
      assert m[0..2][0] == 0x78;
    }
    assert SepAt(m, DoubleA, 1) by {
      assert m[1..3] == DoubleA;
    }
    IndexOfIs(m, DoubleA, 0, 1);
    assert Slice(m, 0, 1) == [0x78];
  }

  /** After the second chunk "a" the search resumes at 2, before consumed,
      and finds "aa" at 2, overlapping the separator already taken: the
      record handed out is slice(3, 2), which is empty. */
  lemma OverlappingMatch(m: seq<bv8>)
    requires |m| == InitialCapacity && m[2] == 0x61 && m[3] == 0x61
    ensures NextLine(ByteState(m, 4, 3, 2), DoubleA) == Step(Some([]), ByteState(m, 4, 4, 4))
  {
    assert SepAt(m, DoubleA, 2) by {
      assert m[2..4] == DoubleA;
    }
    IndexOfIs(m, DoubleA, 2, 2);
  }

  /** The chunks "xaa" and "a" make up "xaaa". */
  lemma ConcatXAAThenA()
    ensures Concat([ChunkXAA, ChunkA]) == ChunkXAA + ChunkA
  {
    assert [ChunkXAA, ChunkA][1..] == [ChunkA] && [ChunkA][1..] == [];
    assert Concat([ChunkA]) == ChunkA;
  }

  /** "xaaa" splits into "x" and "a". */
  lemma RecordsOfXAAA()
    ensures Split(Concat([ChunkXAA, ChunkA]), DoubleA) == [[0x78], ChunkA]
  {
    var input := ChunkXAA + ChunkA;
    ConcatXAAThenA();
    assert !SepAt(input, DoubleA, 0) by {
      assert input[0..2][0] == 0x78;
    }
    assert SepAt(input, DoubleA, 1) by {
      assert input[1..3] == DoubleA;
    }
    IndexOfIs(input, DoubleA, 0, 1);
    assert input[..1] == [0x78] && input[3..] == ChunkA;
    assert NextRecord(input, DoubleA) == Record([0x78], ChunkA);
    assert IndexOf(ChunkA, DoubleA, 0) == -1;
  }

  /** The first chunk "xaa" appended to a fresh builder and drained: the
      record "x", then a miss that resumes the search at 2. */
  lemma DrainFirstChunk(mem: seq<bv8>)
    requires |mem| == InitialCapacity
    ensures Drain(AppendFits(ByteState(mem, 0, 0, 0), ChunkXAA), DoubleA) ==
            ([[0x78]], ByteState(WriteAt(mem, 0, ChunkXAA), 3, 3, 2))
  {
    var m := WriteAt(mem, 0, ChunkXAA);
    assert AppendFits(ByteState(mem, 0, 0, 0), ChunkXAA) == ByteState(m, 3, 0, 0);
    FirstRecordX(mem);
    MissPastEnd(ByteState(m, 3, 3, 3), DoubleA);
    assert Drain(ByteState(m, 3, 3, 3), DoubleA) == ([], ByteState(m, 3, 3, 2));
    var x: seq<bv8> := [0x78];
    assert [x] + [] == [x];
  }

  /** The second chunk "a" appended and drained: the overlapping match
      hands out the empty record, then a miss. */
  lemma DrainSecondChunk(m: seq<bv8>)
    requires |m| == InitialCapacity && m[2] == 0x61
    ensures Drain(AppendFits(ByteState(m, 3, 3, 2), ChunkA), DoubleA) ==
            ([[]], ByteState(WriteAt(m, 3, ChunkA), 4, 4, 3))
  {
    var m2 := WriteAt(m, 3, ChunkA);
    assert AppendFits(ByteState(m, 3, 3, 2), ChunkA) == ByteState(m2, 4, 3, 2);
    assert m2[2] == m[2] == 0x61 && m2[3] == 0x61;
    OverlappingMatch(m2);
    MissPastEnd(ByteState(m2, 4, 4, 4), DoubleA);
    assert Drain(ByteState(m2, 4, 4, 4), DoubleA) == ([], ByteState(m2, 4, 4, 3));
    var e: seq<bv8> := [];
    assert [e] + [] == [e];
  }

  /** The run from the state the first chunk leaves behind. */
  lemma RunSecondChunk(m: seq<bv8>)
    requires |m| == InitialCapacity && m[2] == 0x61
    ensures Run(ByteState(m, 3, 3, 2), [ChunkA], DoubleA) == [[]]
  {
    DrainSecondChunk(m);
    assert [ChunkA][1..] == [];
    assert Run(ByteState(WriteAt(m, 3, ChunkA), 4, 4, 3), [], DoubleA) == [];
  }

  /** The whole run on the chunks "xaa", "a" from a fresh builder with
      separator "aa": the records as written are "x" and "", while the
      records of "xaaa" are "x" and "a". */
  lemma MissResumesBeforeConsumed(mem: seq<bv8>)
    requires |mem| == InitialCapacity
    ensures Concat([ChunkXAA, ChunkA]) == ChunkXAA + ChunkA &&
            Run(ByteState(mem, 0, 0, 0), [ChunkXAA, ChunkA], DoubleA) == [[0x78], []]
    ensures Split(Concat([ChunkXAA, ChunkA]), DoubleA) == [[0x78], ChunkA]
  {
    ConcatXAAThenA();
    RecordsOfXAAA();
    DrainFirstChunk(mem);
    var m := WriteAt(mem, 0, ChunkXAA);
    assert m[2] == 0x61;
    RunSecondChunk(m);
    assert [ChunkXAA, ChunkA][1..] == [ChunkA];
  }
}
