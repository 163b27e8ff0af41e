/** StringLineBuilder: the text accumulator used when the input is decoded
    to characters. It concatenates each chunk onto one string, searches it
    from offset 0 for the separator, and replaces the string by what follows
    the separator once a record has been cut off. */
module StringLines {
  import opened Wrappers
  import opened Search

  class StringLineBuilder {
    const sep: string
    var buf: string
    /** Always 0 between calls: the search restarts at the front after each
        record, because the record and its separator are cut off. */
    var searchOffset: int

    ghost predicate Valid()
      reads this
    {
      |sep| >= 1 && searchOffset == 0
    }

    constructor (sep: string)
      requires |sep| >= 1
      ensures Valid() && this.sep == sep && buf == []
    {
      this.sep := sep;
      buf := [];
      searchOffset := 0;
    }

    method Append(chunk: string)
      requires Valid()
      modifies this
      ensures Valid() && buf == old(buf) + chunk
    {
      buf := buf + chunk;
    }

    /** Cuts the first record off the buffer. A record is what precedes the
        first occurrence of the separator; without an occurrence there is no
        record yet and the buffer is kept for the next chunk. */
    method NextLine() returns (line: Option<string>)
      requires Valid()
      modifies this
      ensures Valid()
      ensures line.None? <==> SepFree(old(buf), sep)
      ensures line.None? ==> buf == old(buf)
      ensures line.Some? ==> old(buf) == line.value + sep + buf
      ensures line.Some? ==> SepFreeBetween(old(buf), sep, 0, |line.value|) && SepFree(line.value, sep)
    {
      var pos := IndexOf(buf, sep, searchOffset);
      if pos == -1 {
        return None;
      }
      line := Some(buf[..pos]);
      assert buf == buf[..pos] + sep + buf[pos + |sep|..] by {
        assert buf[pos..pos + |sep|] == sep;
      }
      forall i ensures !SepAt(buf[..pos], sep, i) {
        SepAtPrefix(buf, sep, pos, i);
      }
      buf := buf[pos + |sep|..];
      searchOffset := 0;
    }

    /** The unterminated remainder, which is a record only when non-empty. */
    function LastLine(): (r: Option<string>)
      reads this
      ensures r.Some? <==> buf != []
      ensures r.Some? ==> r.value == buf
    {
      if buf != [] then Some(buf) else None
    }
  }
}
