/** ByteLineBuilder: the byte accumulator used when the input is not
    decoded. Chunks are copied into one growable byte array; `bufSize` bytes
    of it are valid, the first `consumed` of those were already handed out,
    and `searchOffset` is where the next separator search resumes, so that
    bytes already known to hold no separator are not searched twice. When a
    chunk does not fit, the live tail is either moved to the front of the
    same array or copied into a new array of doubled capacity. */
module ByteLines {
  import opened Wrappers
  import opened Search

  /** Capacity of the array a new builder starts with. */
  const InitialCapacity := 1024

  function Pow2(k: nat): (r: nat)
    ensures r >= 1
  {
    if k == 0 then 1 else 2 * Pow2(k - 1)
  }

  function Max(a: int, b: int): int
  {
    if a >= b then a else b
  }

  /** The capacity doubling of a reallocation: starting from twice the old
      capacity, double until the capacity reaches minCap. The result is the
      smallest such doubling, a power-of-two multiple of the old capacity. */
  method DoubledCapacity(length: int, minCap: int) returns (cap: int)
    requires length >= 1
    ensures cap >= minCap && cap >= 2 * length
    ensures exists k: nat :: k >= 1 && cap == length * Pow2(k)
    ensures cap == 2 * length || cap < 2 * minCap
  {
    cap := length * 2;
    ghost var k: nat := 1;
    while cap < minCap
      invariant k >= 1 && cap == length * Pow2(k)
      invariant cap >= 2 * length
      invariant cap == 2 * length || cap < 2 * minCap
      decreases minCap - cap
    {
      cap := cap * 2;
      k := k + 1;
    }
  }

  /** chunk.copy(target, at): the chunk's bytes overwrite target[at..]. */
  method CopyChunk(chunk: seq<bv8>, target: array<bv8>, at: int)
    requires 0 <= at && at + |chunk| <= target.Length
    modifies target
    ensures target[..] == old(target[..at]) + chunk + old(target[at + |chunk|..])
  {
    for j := 0 to |chunk|
      invariant forall k :: 0 <= k < target.Length ==>
        target[k] == if at <= k < at + j then chunk[k - at] else old(target[k])
    {
      target[at + j] := chunk[j];
    }
    assert target[..] == old(target[..at]) + chunk + old(target[at + |chunk|..]);
  }

  /** source.copy(target, 0, from, to): source[from..to] moves to the front of
      target. When source and target are one array, the destination range
      [0, to - from) must end before the source range starts. */
  method CopyToFront(source: array<bv8>, from: int, to: int, target: array<bv8>)
    requires 0 <= from <= to <= source.Length && to - from <= target.Length
    requires source == target ==> to - from <= from
    modifies target
    ensures target[..to - from] == old(source[from..to])
    ensures target[to - from..] == old(target[to - from..])
  {
    ghost var src := source[..];
    for j := 0 to to - from
      invariant forall k :: 0 <= k < target.Length ==>
        target[k] == if k < j then src[from + k] else old(target[k])
      invariant forall k :: from <= k < to ==> source[k] == src[k]
    {
      target[j] := source[from + j];
    }
  }

  /** What a search resumed at `cursor` means for the pending bytes
      valid[from..], when no separator starts in [from, cursor): a miss
      means the pending bytes hold no separator, and leaves none before the
      new cursor; a hit is the first separator of the pending bytes. */
  lemma ResumedSearchOutcome(valid: seq<bv8>, sep: seq<bv8>, from: int, cursor: int)
    requires |sep| >= 1 && 0 <= from <= cursor <= |valid|
    requires SepFreeBetween(valid, sep, from, cursor)
    ensures var pos := IndexOf(valid, sep, cursor);
      pos == -1 ==>
        SepFree(valid[from..], sep) &&
        SepFreeBetween(valid, sep, from, Max(from, |valid| - |sep| + 1))
    ensures var pos := IndexOf(valid, sep, cursor);
      pos != -1 ==>
        from <= pos && pos + |sep| <= |valid| && !SepFree(valid[from..], sep) &&
        valid[from..] == valid[from..pos] + sep + valid[pos + |sep|..] &&
        SepFreeBetween(valid[from..], sep, 0, pos - from)
  {
    var pos := IndexOf(valid, sep, cursor);
    ResumedSearch(valid, sep, from, cursor);
    if pos == -1 {
      MissLeavesNoSeparator(valid, sep, from);
    } else {
      CutRecord(valid, sep, from, pos);
      assert SepAt(valid[from..], sep, pos - from) by {
        SepAtShift(valid, sep, from, pos - from);
      }
    }
  }

  /** The outcome of one nextLine: the record handed out, if any, and the
      new cursors. */
  datatype Found = Found(line: Option<seq<bv8>>, consumed: int, searchOffset: int)

  /** nextLine on the valid bytes: the search resumes at searchOffset. A
      hit is the first separator of the pending bytes valid[consumed..]:
      the record is what precedes it, and both cursors move past it. A miss
      means the pending bytes hold no separator; the search will resume at
      the earliest offset where a separator completed by the next chunk
      could start, never before consumed. Either way no separator starts
      between the new cursors. */
  function FindRecord(valid: seq<bv8>, sep: seq<bv8>, consumed: int, searchOffset: int): (r: Found)
    requires |sep| >= 1 && 0 <= consumed <= searchOffset <= |valid|
    requires SepFreeBetween(valid, sep, consumed, searchOffset)
    ensures consumed <= r.consumed <= r.searchOffset <= |valid|
    ensures r.line.None? <==> SepFree(valid[consumed..], sep)
    ensures r.line.None? ==> r.consumed == consumed && r.searchOffset == Max(consumed, |valid| - |sep| + 1)
    ensures r.line.Some? ==> r.consumed == r.searchOffset == consumed + |r.line.value| + |sep|
    ensures r.line.Some? ==> valid[consumed..] == r.line.value + sep + valid[r.consumed..]
    ensures r.line.Some? ==> SepFreeBetween(valid[consumed..], sep, 0, |r.line.value|)
    ensures r.line.Some? ==> SepAt(valid, sep, r.consumed - |sep|)
    ensures r.searchOffset == r.consumed || r.searchOffset + |sep| <= |valid| + 1
    ensures SepFreeBetween(valid, sep, r.consumed, r.searchOffset)
  {
    var pos := IndexOf(valid, sep, searchOffset);
    ResumedSearchOutcome(valid, sep, consumed, searchOffset);
    if pos == -1 then
      Found(None, consumed, Max(consumed, |valid| - |sep| + 1))
    else
      Found(Some(valid[consumed..pos]), pos + |sep|, pos + |sep|)
  }

  /** Appending keeps the pending bytes in front of the chunk, and keeps
      ruled out every separator position ruled out before, provided each of
      those positions was ruled out for a separator lying wholly in
      `before`. */
  lemma AppendKeepsSearched(before: seq<bv8>, chunk: seq<bv8>, sep: seq<bv8>, from: int, cursor: int)
    requires 0 <= from <= cursor <= |before|
    requires cursor == from || cursor + |sep| <= |before| + 1
    requires SepFreeBetween(before, sep, from, cursor)
    ensures (before + chunk)[from..] == before[from..] + chunk
    ensures SepFreeBetween(before + chunk, sep, from, cursor)
  {
    forall i | from <= i < cursor ensures !SepAt(before + chunk, sep, i) {
      SepAtExtend(before, chunk, sep, i);
    }
  }

  class ByteLineBuilder {
    const sep: seq<bv8>
    var buf: array<bv8>
    var bufSize: int
    var consumed: int
    var searchOffset: int

    /** The cursors are ordered within the array, and no separator starts in
        [consumed, searchOffset): the search may resume there. A cursor
        ahead of `consumed` lies at most |sep| - 1 bytes before the end, so
        every separator ruled out there lies wholly within the valid bytes
        and stays ruled out when more bytes are appended. */
    ghost predicate Valid()
      reads this, buf
    {
      |sep| >= 1 && InitialCapacity <= buf.Length &&
      0 <= consumed <= searchOffset <= bufSize <= buf.Length &&
      (searchOffset == consumed || searchOffset + |sep| <= bufSize + 1) &&
      SepFreeBetween(buf[..bufSize], sep, consumed, searchOffset)
    }

    /** The bytes received and not yet handed out in a record. */
    ghost function Pending(): seq<bv8>
      reads this, buf
      requires 0 <= consumed <= bufSize <= buf.Length
    {
      buf[..bufSize][consumed..]
    }

    constructor (sep: seq<bv8>)
      requires |sep| >= 1
      ensures Valid() && this.sep == sep && fresh(buf)
      ensures buf.Length == InitialCapacity && bufSize == 0 && consumed == 0 && searchOffset == 0
      ensures Pending() == []
    {
      this.sep := sep;
      buf := new bv8[InitialCapacity];
      bufSize, consumed, searchOffset := 0, 0, 0;
    }

    method Append(chunk: seq<bv8>)
      requires Valid()
      modifies this, buf
      ensures Valid()
      ensures Pending() == old(Pending()) + chunk
      ensures buf == old(buf) || fresh(buf)
      ensures |chunk| == 0 ==>
                buf == old(buf) && buf[..] == old(buf[..]) && bufSize == old(bufSize) &&
                consumed == old(consumed) && searchOffset == old(searchOffset)
    {
      if |chunk| == 0 {
        return;
      }
      if buf.Length - bufSize < |chunk| {
        Realloc(|chunk|);
      }
      ghost var before := buf[..bufSize];
      CopyChunk(chunk, buf, bufSize);
      assert buf[..bufSize + |chunk|] == before + chunk;
      AppendKeepsSearched(before, chunk, sep, consumed, searchOffset);
      bufSize := bufSize + |chunk|;
    }

    /** Hands out the next record, as FindRecord on the valid bytes
        describes it. */
    method NextLine() returns (line: Option<seq<bv8>>)
      requires Valid()
      modifies this
      ensures Valid() && buf == old(buf) && bufSize == old(bufSize) && buf[..bufSize] == old(buf[..bufSize])
      ensures Found(line, consumed, searchOffset) ==
              FindRecord(old(buf[..bufSize]), sep, old(consumed), old(searchOffset))
      ensures line.None? <==> SepFree(old(Pending()), sep)
      ensures line.None? ==> Pending() == old(Pending())
      ensures line.Some? ==> old(Pending()) == line.value + sep + Pending()
      ensures line.Some? ==> SepFreeBetween(old(Pending()), sep, 0, |line.value|)
    {
      var found := FindRecord(buf[..bufSize], sep, consumed, searchOffset);
      line, consumed, searchOffset := found.line, found.consumed, found.searchOffset;
    }

    /** The unterminated remainder, which is a record only when non-empty. */
    function LastLine(): (r: Option<seq<bv8>>)
      reads this, buf
      requires Valid()
      ensures r.Some? <==> Pending() != []
      ensures r.Some? ==> r.value == Pending()
    {
      if bufSize - consumed > 0 then Some(buf[..bufSize][consumed..]) else None
    }

    /** Makes room for extraSpace more bytes. The live tail [consumed, bufSize)
        is moved to the front of the same array when it is no longer than
        the discarded prefix and the array then has room; otherwise it is
        copied to the front of a new array of doubled capacity. */
    method Realloc(extraSpace: nat)
      requires Valid()
      modifies this, buf
      ensures Valid()
      ensures buf.Length - bufSize >= extraSpace
      ensures consumed == 0 && searchOffset == 0 && bufSize == old(bufSize - consumed)
      ensures Pending() == old(Pending())
      ensures old(bufSize - consumed <= consumed && buf.Length - (bufSize - consumed) >= extraSpace) ==>
        buf == old(buf)
      ensures !old(bufSize - consumed <= consumed && buf.Length - (bufSize - consumed) >= extraSpace) ==>
        fresh(buf) && buf.Length >= 2 * old(buf.Length) &&
        buf.Length >= 2 * (old(bufSize - consumed) + extraSpace) &&
        exists k: nat :: k >= 1 && buf.Length == old(buf.Length) * Pow2(k)
    {
      var toConsume := bufSize - consumed;
      var freeSpace := buf.Length - toConsume;
      if toConsume <= consumed && freeSpace >= extraSpace {
        // repack
        CopyToFront(buf, consumed, bufSize, buf);
      } else {
        // double capacity
        var cap := DoubledCapacity(buf.Length, (toConsume + extraSpace) * 2);
        var grown := new bv8[cap];
        CopyToFront(buf, consumed, bufSize, grown);
        buf := grown;
      }
      bufSize := toConsume;
      consumed := 0;
      searchOffset := 0;
    }
  }
}
