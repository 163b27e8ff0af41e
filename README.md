# readlines-ng line splitting, modelled in Dafny

readlines-ng reads a file or stream chunk by chunk and yields its records:
what lies between occurrences of a separator (`"\n"` by default, any
string or byte sequence otherwise). The unterminated remainder after the
last separator is one more record, but only when it is non-empty. Text
input is cut by a `StringLineBuilder`, which concatenates chunks onto one
string. Byte input (no encoding) is cut by a `ByteLineBuilder`. That builder
copies chunks into one growable byte array and keeps three cursors:
`bufSize` (valid bytes), `consumed` (bytes already handed out) and
`searchOffset` (where the next separator search resumes). When a chunk does
not fit, the builder either moves the live tail to the front of the same
array or copies it into a new array of doubled capacity.

The model:

- `wrappers.dfy` (`Wrappers`): `Option`, standing for a record or `undefined`.
- `search.dfy` (`Search`): separator occurrences and `indexOf` as a pure
  function `IndexOf`, with lemmas about searches that resume part-way.
- `records.dfy` (`Records`): the reference definition `Split(s, sep)` of the
  records of a whole input, taken leftmost-first. Also the round trip back
  to the input, the trailing-record rule, the sizes the test suite checks,
  and the converse round trips for separators that cannot overlap
  themselves.
- `string_builder.dfy` (`StringLines`): `StringLineBuilder` as a class over a
  `string` field.
- `byte_builder.dfy` (`ByteLines`): `ByteLineBuilder` as a class over an
  `array<bv8>`. It has the copy loops, the capacity-doubling loop and the
  invariant that no separator starts in `[consumed, searchOffset)`.
  `FindRecord` describes one `nextLine` on the valid bytes.
- `readlines.dfy` (`ReadLines`): the `readlines` driver, once per builder.
  It appends each chunk, drains `nextLine`, then takes `lastLine`. With the
  `StringLineBuilder` and with the corrected `ByteLineBuilder` the driver is
  proved to return exactly `Split(Concat(chunks), sep)`. For those builders
  the records never depend on how the input is cut into chunks, and all the
  `Records` lemmas apply to what readlines yields. The byte builder as
  written differs on some inputs; see Findings.
- `as_written.dfy` (`AsWritten`): `nextLine` and `lastLine` of
  `ByteLineBuilder` exactly as written, with `append` for chunks that fit
  and the readlines loop over them. They work on plain values over the
  whole allocation, including bytes past `bufSize`, and come with the two
  counterexamples listed under Findings.

The async reader becomes the sequence of chunks it would deliver. Each
chunk is a `string` for the text variant and a `seq<bv8>` for the byte
variant.

## Model

| member | source | states |
|---|---|---|
| `Search.IndexOf` | index.js:59 | The result is -1 exactly when no separator starts at or after `from`; otherwise it is the first offset at or after `from` where the separator occurs wholly inside the sequence. |
| `Search.ResumedSearch` | index.js:105 | A search resumed at a cursor with no separator in `[from, cursor)` misses exactly when `s[from..]` holds no separator; otherwise it finds the first separator of `s[from..]`. |
| `Search.OverlapMakesBorder` | index.js:107 | Two overlapping occurrences of a separator give it a proper prefix that is also a suffix, so `"\n"` and `"42"` can never overlap themselves while `"aa"` can. |
| `Records.NextRecord` | index.js:59-67 | One extraction: there is no record exactly when the separator does not occur. Otherwise the input is the record, the separator and the rest, and no separator starts inside the record. |
| `Records.Split` | index.js:24-39 | The records of a whole input: none exactly for the empty input. |
| `Records.Tail` | index.js:36-39 | The unterminated remainder holds no separator. |
| `Records.SplitRecordsSepFree` | index.js:64 | No record contains the separator. |
| `Records.SplitAfterRecord` | index.js:27-33 | A record cut from the pending input is the first record of the pending input followed by any further input, and the later records are those of what follows its separator. |
| `Records.SplitSepFree` | index.js:36-39 | Input without a separator is one record, or no record when it is empty; it is its own remainder. |
| `Records.SplitRoundTrip` | index.js:24-39 | Every record followed by the separator rebuilds the input exactly when the remainder is empty, and rebuilds the input plus one separator otherwise. |
| `Records.SplitTrailingRecord` | index.js:36-39 | A non-empty remainder is the last record. (That an empty remainder adds no record is the first case of `Records.SplitRoundTrip`: then every record is followed by a separator.) |
| `Records.SplitSizes` | test/tests.js:54-60 | The record sizes plus one separator per record add up to the input size, less one separator when the input ends in a non-empty remainder. |
| `Records.FirstRecordOfTerminated` | index.js:59-67 | With a separator that cannot overlap itself, a separator-free record followed by the separator is cut off as the first record, whatever follows. |
| `Records.SplitTerminated` | index.js:24-39 | Separator-free records, each followed by a separator that cannot overlap itself, split back into exactly those records, an empty last one included. |
| `Records.SplitJoin` | test/tests.js:26-30 | Separator-free records joined by such a separator split back into exactly those records, provided the last record is non-empty. |
| `Records.ReadBackJoinedLines` | test/tests.js:21-45 | Non-empty separator-free lines written joined by `"\n"` read back as the same number of lines with the same total size. |
| `StringLines.StringLineBuilder.constructor` | index.js:46-52 | A new builder has the given separator and an empty buffer. |
| `StringLines.StringLineBuilder.Append` | index.js:54-56 | The buffer becomes the old buffer followed by the chunk. |
| `StringLines.StringLineBuilder.NextLine` | index.js:58-68 | The result is `None` exactly when the buffer holds no separator, and then the buffer is unchanged. Otherwise the old buffer is the record, the separator and the new buffer, and no separator starts inside the record. |
| `StringLines.StringLineBuilder.LastLine` | index.js:70-72 | The buffer is returned exactly when it is non-empty. |
| `ByteLines.DoubledCapacity` | index.js:131-135 | The loop terminates. The capacity is at least the minimum and at least twice the old length, and is the old length times a power of two. It is exactly twice the old length unless that is below the minimum, and it stays below twice the minimum. |
| `ByteLines.CopyChunk` | index.js:100 | The chunk overwrites the array from the offset on; everything else is unchanged. |
| `ByteLines.CopyToFront` | index.js:128-138 | `source[from..to]` lands at the front of the target and the rest of the target is unchanged, also when source and target are one array whose ranges do not overlap. |
| `ByteLines.ResumedSearchOutcome` | index.js:105-107 | On the valid bytes, a miss means the pending bytes hold no separator and none starts before the new cursor. A hit is the first separator of the pending bytes and splits them into record, separator and rest. |
| `ByteLines.AppendKeepsSearched` | index.js:100-101 | Appended bytes keep the pending bytes in front and keep every ruled-out separator position ruled out. |
| `ByteLines.FindRecord` | index.js:104-115 | nextLine on the valid bytes. A miss happens exactly when the pending bytes hold no separator; it keeps `consumed` and resumes at `max(consumed, bufSize - sepSize + 1)`. A hit returns the bytes before the first separator, moves both cursors past it, and the separator lies at `consumed - sepSize`. The cursors stay ordered within the valid bytes, with no separator between them. |
| `ByteLines.ByteLineBuilder.constructor` | index.js:79-88 | A new builder has 1024 bytes of capacity, zero cursors and no pending bytes. |
| `ByteLines.ByteLineBuilder.Append` | index.js:90-102 | The pending bytes become the old pending bytes followed by the chunk, and the invariant is kept. A zero-length chunk changes nothing. |
| `ByteLines.ByteLineBuilder.NextLine` | index.js:104-115 | Record and cursors are those `FindRecord` gives for the old valid bytes. The result is `None` exactly when the pending bytes hold no separator, and then they are unchanged. Otherwise the old pending bytes are the record, the separator and the new pending bytes, with no separator inside the record. The array and `bufSize` are unchanged. |
| `ByteLines.ByteLineBuilder.LastLine` | index.js:117-121 | The pending bytes are returned exactly when they are non-empty. |
| `ByteLines.ByteLineBuilder.Realloc` | index.js:123-145 | Afterwards at least `extraSpace` bytes are free, `consumed` and `searchOffset` are 0, and `bufSize` is the old pending length. The pending bytes are preserved. The array is kept exactly when the tail is no longer than the consumed prefix and the chunk then fits. Otherwise the new array is fresh, at least twice the old capacity and twice the needed size, and a power-of-two multiple of the old capacity. |
| `ReadLines.DrainText` | index.js:27-33 | The records drained, followed by the records of the rest, are the records of the pending text followed by any later input; afterwards the buffer holds no separator. |
| `ReadLines.DrainBytes` | index.js:27-33 | The same for the byte builder, which keeps its array while draining. |
| `ReadLines.ReadLinesText` | index.js:13-39 | readlines with an encoding yields exactly `Split(Concat(chunks), sep)`. |
| `ReadLines.ReadLinesBytes` | index.js:16-39 | readlines without an encoding, over the corrected `ByteLineBuilder`, yields exactly `Split(Concat(chunks), sep)`. |
| `ReadLines.MultiCharacterSeparatorScenario` | index.js:104-115 | `"abc42qux42foobar4242"` in chunks of ten with separator `"42"` has records `"abc"`, `"qux"`, `"foobar"`, `""`. |
| `AsWritten.Slice` | index.js:111 | Buffer.slice clamps both bounds to the length and is empty when the end is not after the start. |
| `AsWritten.WriteAt` | index.js:100 | `chunk.copy(buf, bufSize)`: the chunk lands at the offset, the bytes before and after it are unchanged, and the length stays. |
| `AsWritten.AppendFits` | index.js:90-102 | append as written when the chunk fits: an empty chunk changes nothing; any other lands at `bufSize`, the rest of the allocation and the cursors stay, and `bufSize` grows by the chunk's length. |
| `AsWritten.NextLine` | index.js:104-115 | As written: a miss happens exactly when no match in the whole allocation starts in `[searchOffset, bufSize)`. A miss resumes at `max(0, bufSize - sepSize + 1)`. A hit is the first match at or after `searchOffset`, which starts before `bufSize`. It hands out `slice(consumed, pos)` and moves both cursors past the match. |
| `AsWritten.Drain` | index.js:27-33 | The inner loop over the builder as written. It terminates, and it keeps the allocation and `bufSize`. |
| `AsWritten.Run` | index.js:24-39 | No contract of its own. It fixes the order of the readlines loop as written: for each chunk, append (fit branch only), then drain; after the last chunk, `lastLine`. The counterexample lemmas evaluate it. |
| `AsWritten.LastLine` | index.js:117-121 | As written: a record exactly when `bufSize > consumed`. |
| `AsWritten.ResumeHarmlessWhenUnbordered` | index.js:107 | For a separator that cannot overlap itself, resuming below `consumed` is harmless. When a separator ends at `consumed`, no match starts between `max(0, bufSize - sepSize + 1)` and `consumed`. |
| `AsWritten.OneByteSeparatorAgrees` | index.js:104-115 | With a one-byte separator, nextLine as written hands out the same record and sets the same cursors as `ByteLines.FindRecord` on the valid bytes, from any state the corrected builder can be in. |
| `AsWritten.StaleByteCompletesSeparator` | index.js:105-112 | The first Findings row: the whole run `AsWritten.Run` from a fresh builder yields `["x"]`, while `Split("x4", "42")` is `["x4"]`. |
| `AsWritten.MissResumesBeforeConsumed` | index.js:106-113 | The second Findings row: the whole run `AsWritten.Run` on the chunks `"xaa"`, `"a"` yields `["x", ""]`, while the records of `"xaaa"` are `["x", "a"]`. |

## Left out

- `toReadable` and `LineStream` (index.js:148-194): opening files, Node streams, back-pressure and error emission are I/O. The reader is the sequence of chunks it delivers.
- Character decoding of text chunks and `Buffer.from(sep, 'utf8')` (index.js:17-19).
  - Text chunks are given already decoded as `string`.
  - The byte separator is given as `seq<bv8>`.
- Separator validation: the source asserts only the separator's type. An empty separator would make the drain loop spin forever, so every constructor and driver requires a separator of length at least 1.
- Aliasing: `Buffer.slice` returns a view into the builder's array, which a later repack can overwrite. Records here are copies.
- Contents of `Buffer.allocUnsafe` memory: the class never reads past `bufSize`. Only `AsWritten` looks at the whole allocation, as an arbitrary sequence.
- `ByteLines.DoubledCapacity`: JavaScript's `<<` wraps to a signed 32-bit integer, so capacities of 2^31 bytes or more would go wrong; the model's integers are unbounded and ignore this.
- `ByteLines.ByteLineBuilder.NextLine` and `ByteLines.FindRecord`: they model the corrected search, which looks only at the valid bytes and never resumes before `consumed`. The code as written is `AsWritten.NextLine` (see Findings).
- `AsWritten.Run`: the readlines loop over the builder as written covers only chunks that fit in the allocation one after another, so `_realloc` is never called. The counterexamples need no more. `_realloc` itself is modelled by `ByteLines.ByteLineBuilder.Realloc`.
- `AsWritten.Drain`: its contract says only what the whole-run lemmas need. The records it yields are given by evaluating it on concrete inputs.
- `ReadLines.ReadLinesBytes`: proved over the corrected `ByteLineBuilder`. The code as written can lose bytes to a match that ends in stale memory, and with a separator that overlaps itself its records can depend on the chunking. Both are shown under Findings.
- A reader that fails: when the reader throws inside `for await` (index.js:24), readlines leaves before `lastLine` (index.js:36-39). The records of the delivered chunks that a separator ended have been yielded; the unterminated remainder is never yielded. `ReadLines.ReadLinesText` and `ReadLines.ReadLinesBytes` model only a reader that ends normally.
- UTF-16: a JavaScript string is a sequence of UTF-16 code units, and `sep.length`, `indexOf` and `slice` count code units. A Dafny `string` is a sequence of Unicode scalar values. The two agree on well-formed text. They differ for a separator holding a lone surrogate, which the source can match inside a surrogate pair and the model cannot express.
- benchmark/bench.js, benchmark/gen.js and test/utils.js: timing, console output and random fixture generation. test/tests.js is used only for what it checks about the records.

## Findings

| source | as written | input that shows it | evidently intended | confidence | as-written member | corrected member |
|---|---|---|---|---|---|---|
| index.js:105-112 | `indexOf` searches the whole allocation and rejects only matches starting at or past `bufSize`, so a match may end in stale bytes, leaving `consumed > bufSize` | separator `"42"`, a fresh builder whose allocation holds `'2'` at offset 2, one chunk `"x4"`: yields `"x"` and nothing more | search only the valid bytes: yields `"x4"` | not executed; needs those stale bytes, which allocUnsafe or an earlier repack can leave | `AsWritten.StaleByteCompletesSeparator` | `ByteLines.FindRecord` |
| index.js:107 | a miss resumes the search at `max(0, bufSize - sepSize + 1)`, which can lie before `consumed` | separator `"aa"`, chunks `"xaa"` and `"a"`: yields `"x"`, `""` | resume at `max(consumed, bufSize - sepSize + 1)`: yields `"x"`, `"a"`, the records of `"xaaa"` | not executed | `AsWritten.MissResumesBeforeConsumed` | `ReadLines.ReadLinesBytes` |

The first row does not need uninitialised memory. Take a first chunk of
1024 bytes, which fills the allocation. It holds `'2'` at offset 101, `"42"`
at offsets 1021-1022, `'4'` at offset 1023 and `'q'` everywhere else. The
first drain hands out bytes 0-1020 and leaves `consumed` at 1023. Then take
a second chunk of 100 bytes: 99 `'q'` followed by `'4'`. The repack moves
the tail `'4'` to the front, and the chunk fills offsets 1-100. The old
`'2'` is left at offset 101, just past the new `bufSize` of 101. The search
then matches `"42"` at offset 100, hands out `'4'` and the 99 `'q'`, and
loses the final `'4'`. Every byte these searches read was written by a
chunk. The input for the second row uses a separator that overlaps itself.
`Search.OverlapMakesBorder` shows that `"\n"` and `"42"` cannot. By
`AsWritten.ResumeHarmlessWhenUnbordered`, the early resume then finds no
match before `consumed`. For a one-byte separator such as `"\n"`, a match
starting before `bufSize` also ends within it, so neither row applies.
`AsWritten.OneByteSeparatorAgrees` proves the step: each nextLine as
written agrees with the corrected one. `append` and `_realloc` are the same
code in both, so for such a separator the builder as written should yield
the records of `ReadLines.ReadLinesBytes`. That whole-run equivalence is
argued here, not proved.
