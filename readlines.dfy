/** The readlines driver: every chunk the reader delivers is appended to a
    line builder, which then hands out records until it finds no further
    separator; after the last chunk the unterminated remainder is handed
    out as one more record when it is non-empty. The reader becomes the
    sequence of chunks it would deliver. Both drivers produce exactly the
    records of the concatenated input, so how the input is cut into chunks
    never changes the records. */
module ReadLines {
  import opened Wrappers
  import opened Search
  import opened Records
  import opened StringLines
  import opened ByteLines

  /** The input the chunks make up, in order. */
  function Concat<T>(chunks: seq<seq<T>>): seq<T>
  {
    if chunks == [] then [] else chunks[0] + Concat(chunks[1..])
  }

  lemma ConcatFrom<T>(chunks: seq<seq<T>>, i: int)
    requires 0 <= i < |chunks|
    ensures Concat(chunks[i..]) == chunks[i] + Concat(chunks[i + 1..])
  {
    assert chunks[i..][1..] == chunks[i + 1..];
  }

  /** One record handed out: the records still to come are those of what
      follows its separator. */
  lemma RecordStep<T>(whole: seq<seq<T>>, done: seq<seq<T>>, pending: seq<T>, line: seq<T>, rest: seq<T>, more: seq<T>, sep: seq<T>)
    requires |sep| >= 1
    requires whole == done + Split(pending + more, sep)
    requires pending == line + sep + rest && SepFreeBetween(pending, sep, 0, |line|)
    ensures whole == (done + [line]) + Split(rest + more, sep)
  {
    SplitAfterRecord(pending, line, rest, more, sep);
    AppendAssoc(done, [line], Split(rest + more, sep));
  }

  /** One chunk appended and drained. */
  lemma ChunkStep<T>(whole: seq<seq<T>>, done: seq<seq<T>>, lines: seq<seq<T>>, pending: seq<T>, chunk: seq<T>, rest: seq<T>, more: seq<T>, sep: seq<T>)
    requires |sep| >= 1
    requires whole == done + Split(pending + (chunk + more), sep)
    requires Split(pending + chunk + more, sep) == lines + Split(rest + more, sep)
    ensures whole == (done + lines) + Split(rest + more, sep)
  {
    AppendAssoc(pending, chunk, more);
    AppendAssoc(done, lines, Split(rest + more, sep));
  }

  /** After the last chunk: the separator-free remainder is the last
      record, or none when it is empty. */
  lemma FinalStep<T>(whole: seq<seq<T>>, done: seq<seq<T>>, rest: seq<T>, sep: seq<T>)
    requires |sep| >= 1
    requires whole == done + Split(rest + [], sep) && NextRecord(rest, sep).NoRecord?
    ensures rest == [] ==> whole == done
    ensures rest != [] ==> whole == done + [rest]
  {
    assert rest + [] == rest;
  }

  /** The inner loop of readlines over a StringLineBuilder: hands out
      records until nextLine finds no separator. Whatever input `more`
      still follows, the records handed out are the first records of the
      whole remaining input. */
  method DrainText(builder: StringLineBuilder, ghost more: string) returns (lines: seq<string>)
    requires builder.Valid()
    modifies builder
    ensures builder.Valid() && NextRecord(builder.buf, builder.sep).NoRecord?
    ensures Split(old(builder.buf) + more, builder.sep) == lines + Split(builder.buf + more, builder.sep)
  {
    lines := [];
    ghost var whole := Split(builder.buf + more, builder.sep);
    while true
      invariant builder.Valid()
      invariant whole == lines + Split(builder.buf + more, builder.sep)
      decreases |builder.buf|
    {
      ghost var pending := builder.buf;
      var line := builder.NextLine();
      if line.None? {
        break;
      }
      RecordStep(whole, lines, pending, line.value, builder.buf, more, builder.sep);
      lines := lines + [line.value];
    }
  }

  /** The same inner loop over a ByteLineBuilder. */
  method DrainBytes(builder: ByteLineBuilder, ghost more: seq<bv8>) returns (lines: seq<seq<bv8>>)
    requires builder.Valid()
    modifies builder
    ensures builder.Valid() && builder.buf == old(builder.buf) && NextRecord(builder.Pending(), builder.sep).NoRecord?
    ensures Split(old(builder.Pending()) + more, builder.sep) == lines + Split(builder.Pending() + more, builder.sep)
  {
    lines := [];
    ghost var whole := Split(builder.Pending() + more, builder.sep);
    while true
      invariant builder.Valid() && builder.buf == old(builder.buf)
      invariant whole == lines + Split(builder.Pending() + more, builder.sep)
      decreases |builder.Pending()|
    {
      ghost var pending := builder.Pending();
      var line := builder.NextLine();
      if line.None? {
        break;
      }
      RecordStep(whole, lines, pending, line.value, builder.Pending(), more, builder.sep);
      lines := lines + [line.value];
    }
  }

  /** readlines with an encoding: the chunks are strings and the records
      are cut by a StringLineBuilder. */
  method ReadLinesText(chunks: seq<string>, sep: string) returns (records: seq<string>)
    requires |sep| >= 1
    ensures records == Split(Concat(chunks), sep)
  {
    var builder := new StringLineBuilder(sep);
    records := [];
    ghost var whole := Split(Concat(chunks), sep);
    assert chunks[0..] == chunks && builder.buf + Concat(chunks) == Concat(chunks);
    for i := 0 to |chunks|
      invariant builder.Valid() && builder.sep == sep && fresh(builder)
      invariant NextRecord(builder.buf, sep).NoRecord?
      invariant whole == records + Split(builder.buf + Concat(chunks[i..]), sep)
    {
      ConcatFrom(chunks, i);
      ghost var more := Concat(chunks[i + 1..]);
      ghost var before := builder.buf;
      builder.Append(chunks[i]);
      var lines := DrainText(builder, more);
      ChunkStep(whole, records, lines, before, chunks[i], builder.buf, more, sep);
      records := records + lines;
    }
    assert Concat(chunks[|chunks|..]) == [];
    FinalStep(whole, records, builder.buf, sep);
    var last := builder.LastLine();
    if last.Some? {
      records := records + [last.value];
    }
  }

  /** readlines without an encoding: the chunks are byte sequences and the
      records are cut by a ByteLineBuilder. */
  method ReadLinesBytes(chunks: seq<seq<bv8>>, sep: seq<bv8>) returns (records: seq<seq<bv8>>)
    requires |sep| >= 1
    ensures records == Split(Concat(chunks), sep)
  {
    var builder := new ByteLineBuilder(sep);
    records := [];
    ghost var whole := Split(Concat(chunks), sep);
    assert chunks[0..] == chunks && builder.Pending() + Concat(chunks) == Concat(chunks);
    for i := 0 to |chunks|
      invariant builder.Valid() && builder.sep == sep && fresh(builder) && fresh(builder.buf)
      invariant NextRecord(builder.Pending(), sep).NoRecord?
      invariant whole == records + Split(builder.Pending() + Concat(chunks[i..]), sep)
    {
      ConcatFrom(chunks, i);
      ghost var more := Concat(chunks[i + 1..]);
      ghost var before := builder.Pending();
      builder.Append(chunks[i]);
      var lines := DrainBytes(builder, more);
      ChunkStep(whole, records, lines, before, chunks[i], builder.Pending(), more, sep);
      records := records + lines;
    }
    assert Concat(chunks[|chunks|..]) == [];
    FinalStep(whole, records, builder.Pending(), sep);
    var last := builder.LastLine();
    if last.Some? {
      records := records + [last.value];
    }
  }

  /** A text without the character '4' does not contain "42". */
  lemma NoFourNoFortyTwo(s: string)
    requires forall j :: 0 <= j < |s| ==> s[j] != '4'
    ensures SepFree(s, "42")
  {
    forall i ensures !SepAt(s, "42", i) {
      if 0 <= i && i + 2 <= |s| {
        assert s[i..i + 2][0] == s[i];
      }
    }
  }

  lemma FortyTwoUnbordered()
    ensures Unbordered("42")
  {
    assert "42"[..1][0] == '4' && "42"[1..][0] == '2';
  }

  /** The input "abc42qux42foobar4242" read in chunks of ten characters
      with separator "42": the records are "abc", "qux", "foobar" and one
      empty record before the final separator, so by the contract of
      ReadLinesText these are what readlines with an encoding yields. */
  lemma MultiCharacterSeparatorScenario()
    ensures Split(Concat(["abc42qux42", "foobar4242"]), "42") == ["abc", "qux", "foobar", ""]
  {
    var rs := ["abc", "qux", "foobar", ""];
    FortyTwoUnbordered();
    NoFourNoFortyTwo("abc");
    NoFourNoFortyTwo("qux");
    NoFourNoFortyTwo("foobar");
    NoFourNoFortyTwo("");
    assert AllSepFree(rs, "42");
    assert Concat(["abc42qux42", "foobar4242"]) == "abc42qux42foobar4242";
    assert Terminated(rs, "42") == "abc42qux42foobar4242" by {
      assert Terminated([""], "42") == "42";
    }
    SplitTerminated(rs, "42");
  }
}
