# aietrace decode pipeline, in Dafny

A model of the trace decoder that ships with mlir-aie's reference designs
(`reference_designs/utils/aietrace`). An AI Engine array writes trace
words. The decoder:

- cleans up the textual word list;
- cuts it into eight-word packets;
- routes each packet's payload to a buffer keyed by tile, source id and
  packet type;
- expands every buffer into a bit stream and decodes that stream into
  prefix-coded frames (start, stop, single/multiple events, repeats,
  filler, sync);
- folds the frames into a timeline of labelled points;
- trims trailing `LOCK_STALL` points;
- emits Chrome/Perfetto trace-event records (metadata, begin, end).

Each stage is a pure function over immutable values. The only exception
is the frame decoder, which also exists as a method with a loop over a
bit cursor. Python's exceptions become the `Err` case of a `Result`.
Each stage is proved against an independent description of what it
computes: round trips (header fields, decimal tokens, mask bits, single
frames, whole frame streams), reference definitions (packet payloads
gathered per key, first-sighting order), and invariants (the timeline is
strictly increasing and made of points; trimming is idempotent; emitted
records pair up begin/end on the label's thread).

Modules, one per source file plus shared pieces:

| file | module | models |
|---|---|---|
| `results.dfy` | `Results` | `Option`, `Result` and the error kinds (the exceptions the code raises) |
| `bits.dfy` | `Bits` | Python slices, `bin(...).zfill(32)`, `words2bits`, `bits2int` |
| `digits.dfy` | `Digits` | `int(x)`, `int(x, 16)` and `str(n)` on digit strings |
| `trace_packet.dfy` | `Packets` | `PacketType`, `PacketHeader`, `TracePacket` |
| `word_parser.dfy` | `WordParser` | `extract_bits`, `parity_check_header`, `parse_header`, `words_cleanup`, `parse_packets` |
| `trace_buffers.dfy` | `TraceBuffers` | `TraceIdent`, `TraceBuffers.add` |
| `trace_frames.dfy` | `TraceFrames` | opcodes, frames, `events_list_from_bitvector`, `attempt_event_label`, `parse_frames_bitvector`, `parse_frames` |
| `timeline.dfy` | `Timeline` | `construct_timeline` and the trailing-stall trim |
| `perfetto.dfy` | `Perfetto` | `generate_perfetto_dict` and the record builders |

Behaviour of the code that is easy to misread:

- **A decode failure fails everything.** A bit position that matches no
  opcode fails the whole `generate_perfetto_dict` call. The
  `RuntimeError` is not caught per buffer.
- **`Multiple2` frames add nothing to the timeline.** `construct_timeline`
  does not import the class, so these frames fall to the branch that
  leaves the clock alone.
- **A repeat frame that comes first is an error.** The loop reads
  `new_ts` before anything has assigned it (`UnboundLocalError`). A
  repeat with no entry before it is a no-op only later in the list.
- **Frames may overrun the end of the stream.** A frame wider than the
  bits left is still decoded from the shorter, clamped slices. The frames
  then consume at least the stream's length, and less than that plus the
  last frame's width. They do not consume exactly the stream's length.
- **A packet carries six payload words, not seven.** The payload is
  `wordlist[w+1:w+7]`.
- **The trailing token is dropped by the decimal test alone.** It is
  dropped exactly when it is not a decimal number, even if it is valid
  hexadecimal.
- **Empty input: only an empty token list is an error.** An empty token
  list raises (`words_in[-1]`). An empty file reads as one blank token,
  which is not decimal, so it is dropped and the result is zero packets.
- **Some entries make emission fail.**
  - An entry whose label is not a listed name makes `list.index` raise.
    This includes a raw event number.
  - An entry without labels makes `d[-1]['ts']` raise when the records
    before it are empty or end with a metadata record. Every labelled
    entry ends with a timestamped record, so this happens only to the
    first kept entry of the first buffer that keeps any.

## Model

All source paths are under `reference_designs/utils/aietrace/aietrace/`; the cells give them in full.

| member | source | states |
|---|---|---|
| Bits.Slice | reference_designs/utils/aietrace/aietrace/word_parser.py:20 | a Python slice past the end is shorter: its length is clamped to what is left, and it is empty when the start is past the end |
| Bits.Drop | reference_designs/utils/aietrace/aietrace/trace_frames.py:194 | `bits[k:]` is empty once `k` reaches the length, otherwise it is `k` shorter |
| Bits.BitsToNat | reference_designs/utils/aietrace/aietrace/trace_frames.py:18-20 | the big-endian value of `n` bits is below 2^n |
| Bits.BitsOfConcat | reference_designs/utils/aietrace/aietrace/trace_frames.py:18-20 | the value of a concatenation is the left part shifted past the right part plus the right part |
| Bits.BitAt | reference_designs/utils/aietrace/aietrace/trace_frames.py:18-20 | bit `j` of a list is the binary digit of weight 2^(n-1-j) of its value (first bit most significant) |
| Bits.Binary | reference_designs/utils/aietrace/aietrace/trace_frames.py:14 | `bin(n)[2:]` is non-empty and reads back as `n` |
| Bits.BinaryLength | reference_designs/utils/aietrace/aietrace/trace_frames.py:14 | a number below 2^k has at most `k` binary digits |
| Bits.ZeroFill | reference_designs/utils/aietrace/aietrace/trace_frames.py:14 | `zfill` pads to the width (never truncates) and keeps the value |
| Bits.NatToBits | reference_designs/utils/aietrace/aietrace/trace_frames.py:18-20 | the fixed-width rendering that `bits2int` inverts has exactly the requested width |
| Bits.NatToBitsValue | reference_designs/utils/aietrace/aietrace/trace_frames.py:18-20 | `bits2int` of the k-bit rendering of `n < 2^k` is `n` |
| Bits.WordBitsValue | reference_designs/utils/aietrace/aietrace/trace_frames.py:14-15 | each word's bits read back as the word, and are exactly 32 bits when the word fits 32 bits |
| Bits.WordBitAt | reference_designs/utils/aietrace/aietrace/trace_frames.py:14-15 | bit `j` of a 32-bit word's rendering is the word's bit of weight 2^(31-j) |
| Bits.WordsToBitsLayout | reference_designs/utils/aietrace/aietrace/trace_frames.py:8-16 | for 32-bit words, `WordsToBits` (`words2bits`) gives 32 bits per word, and word `i`'s bit `j` sits at position 32i+j, most significant first |
| Digits.ParseDigits | reference_designs/utils/aietrace/aietrace/word_parser.py:54 | a token reads as a number exactly when it is non-empty and all its characters are digits of the base |
| Digits.ToDecimal | reference_designs/utils/aietrace/aietrace/perfetto_generation.py:105 | `str(n)` is a non-empty string of decimal digits with no leading zero: it starts with `0` only for zero, and then is that one digit |
| Digits.DecimalRoundTrip | reference_designs/utils/aietrace/aietrace/word_parser.py:54 | `int(str(n)) == n` |
| Digits.ValueOfDecimal | reference_designs/utils/aietrace/aietrace/perfetto_generation.py:105 | the digits of `str(n)` have positional value `n` |
| Digits.DecimalHasNoSeparator | reference_designs/utils/aietrace/aietrace/perfetto_generation.py:105 | a rendered number contains no `,` and no `)`, so the tuple text splits unambiguously |
| Packets.TypeCode | reference_designs/utils/aietrace/aietrace/trace_packet.py:5-9 | every packet type has a code below 4 |
| Packets.TypeFromCode | reference_designs/utils/aietrace/aietrace/trace_packet.py:5-9 | `PacketType(c)` exists exactly for c < 4, and it is the type whose code is `c` |
| Packets.TypeCodeRoundTrip | reference_designs/utils/aietrace/aietrace/trace_packet.py:5-9 | type to code to type is the identity, and distinct types have distinct codes |
| WordParser.BitAnd | reference_designs/utils/aietrace/aietrace/word_parser.py:10 | `a & b` never exceeds `b` |
| WordParser.AndLowMask | reference_designs/utils/aietrace/aietrace/word_parser.py:9-10 | masking with 2^w - 1 keeps exactly `x mod 2^w` |
| WordParser.AndOne | reference_designs/utils/aietrace/aietrace/word_parser.py:39 | `x & 0x1` is the lowest bit of `x` |
| WordParser.ExtractBits | reference_designs/utils/aietrace/aietrace/word_parser.py:5-10 | the field is `(number >> start) mod 2^(end-start+1)`, so it is below 2^(end-start+1) |
| WordParser.ParityFold | reference_designs/utils/aietrace/aietrace/word_parser.py:37-39 | after `i` steps the XOR accumulator is the parity of the ones among the `i` low bits |
| WordParser.ParityCheckHeader | reference_designs/utils/aietrace/aietrace/word_parser.py:35-40 | a header is valid exactly when its low 32 bits hold an odd number of ones |
| WordParser.ParseHeader | reference_designs/utils/aietrace/aietrace/word_parser.py:25-33 | fails exactly when bits 12-14 hold 4..7, reporting that code; otherwise id, type, row and column are bits 0-4, 12-14, 16-20 and 21-27, and `valid` is the parity flag |
| WordParser.HeaderRoundTrip | reference_designs/utils/aietrace/aietrace/word_parser.py:25-33 | a header word built from in-range fields parses back to exactly those fields |
| WordParser.ParseAll | reference_designs/utils/aietrace/aietrace/word_parser.py:54 | the list comprehension succeeds exactly when every token reads in the base, and then holds each token's value in place |
| WordParser.KeptTokens | reference_designs/utils/aietrace/aietrace/word_parser.py:48-51 | the last token is dropped exactly when it is not a decimal number, and nothing else changes |
| WordParser.WordsCleanup | reference_designs/utils/aietrace/aietrace/word_parser.py:42-61 | empty input fails; otherwise it succeeds exactly when the kept tokens all read as decimal or all read as hexadecimal, with decimal taking precedence, and each word is its token's value |
| WordParser.CleanupOfRenderedWords | reference_designs/utils/aietrace/aietrace/word_parser.py:42-61 | words written one per line in decimal, followed by a non-numeric end-of-file artifact, clean up to exactly those words |
| WordParser.SplitPackets | reference_designs/utils/aietrace/aietrace/word_parser.py:17-22 | one packet per group of eight words (the last group may be short); it fails exactly when some group's header fails; packet `k` has group `k`'s header and the payload `[8k+1:8k+7]`, six words at most |
| WordParser.ShiftedGroups | reference_designs/utils/aietrace/aietrace/word_parser.py:17-20 | group `k+1` of the words is group `k` of the words after the first eight, in header and in payload |
| WordParser.ParsePackets | reference_designs/utils/aietrace/aietrace/word_parser.py:12-23 | succeeds exactly when cleanup and every header succeed, giving one packet per eight cleaned words, rounded up |
| TraceBuffers.Add | reference_designs/utils/aietrace/aietrace/trace_buffers.py:22-31 | the packet's key gets a buffer (even with no payload) and its payload is appended in order; other keys keep their buffers; a new key goes to the end of the key order |
| TraceBuffers.Demultiplex | reference_designs/utils/aietrace/aietrace/trace_buffers.py:22-31 | the key order has no repeats and lists exactly the buffered keys |
| TraceBuffers.DemultiplexContents | reference_designs/utils/aietrace/aietrace/trace_buffers.py:22-31 | a key has a buffer exactly when some packet carries it, and the buffer is the concatenation of that key's payloads in arrival order |
| TraceBuffers.DemultiplexOrder | reference_designs/utils/aietrace/aietrace/trace_buffers.py:27-28 | keys appear in the order of the first packet carrying them |
| TraceFrames.Pattern | reference_designs/utils/aietrace/aietrace/trace_frames.py:27-40 | every opcode is one to eight bits long |
| TraceFrames.ClassifyExact | reference_designs/utils/aietrace/aietrace/trace_frames.py:22-40 | an opcode matches the leading bits (`StartsWith`, the `startswith` test) exactly when a binary decision tree over those bits selects it |
| TraceFrames.AtMostOneOpcode | reference_designs/utils/aietrace/aietrace/trace_frames.py:27-40 | the opcode table is a prefix code: two opcodes matching at one cursor are the same opcode |
| TraceFrames.MatchIsUnique | reference_designs/utils/aietrace/aietrace/trace_frames.py:136-188 | the opcode matching at a cursor is unique, so the order of the `elif` chain does not change the result |
| TraceFrames.UnmatchedBytes | reference_designs/utils/aietrace/aietrace/trace_frames.py:136-191 | with eight bits left, decoding fails exactly on the bytes 1111xxxx other than 11110000, 11110100, 11111110 and 11111111 |
| TraceFrames.Width | reference_designs/utils/aietrace/aietrace/trace_frames.py:42-108 | every frame consumes a positive whole number of bytes |
| TraceFrames.MaskIndices | reference_designs/utils/aietrace/aietrace/trace_frames.py:110-120 | a set bit at position `p` yields index 7-p, and nothing else does; indices are strictly decreasing and there is one per set bit |
| TraceFrames.MaskIndexIsValueBit | reference_designs/utils/aietrace/aietrace/trace_frames.py:110-120 | index `i` is reported exactly when bit `i` of the mask's value is set |
| TraceFrames.MaskBits | reference_designs/utils/aietrace/aietrace/trace_frames.py:110-120 | the eight-bit mask naming a set of indices sets position 7-i exactly for the listed `i` |
| TraceFrames.MaskRoundTrip | reference_designs/utils/aietrace/aietrace/trace_frames.py:110-120 | reading the mask built from a valid index list gives that list back |
| TraceFrames.FrameFor | reference_designs/utils/aietrace/aietrace/trace_frames.py:136-188 | each opcode builds its own frame variant, and its fields fit their bit widths |
| TraceFrames.DecodeFrame | reference_designs/utils/aietrace/aietrace/trace_frames.py:136-191 | succeeds exactly when some opcode matches, otherwise fails with the decoder's error; the frame is the one the matching opcode builds |
| TraceFrames.Encode | reference_designs/utils/aietrace/aietrace/trace_frames.py:42-108 | the bits a tile emits for a frame are exactly the frame's width |
| TraceFrames.DecodeEncode | reference_designs/utils/aietrace/aietrace/trace_frames.py:136-188 | a frame whose fields fit decodes back from its encoding, whatever bits follow |
| TraceFrames.DecodeAll | reference_designs/utils/aietrace/aietrace/trace_frames.py:130-194 | fails only on an unmatched cursor; the result is empty exactly for an empty stream; the frames consume at least the stream and less than the stream plus the last frame's width; every frame's fields fit |
| TraceFrames.TruncatedLastFrame | reference_designs/utils/aietrace/aietrace/trace_frames.py:193-194 | a frame wider than the bits left is still produced, and decoding ends after it without error |
| TraceFrames.DecodeAllStep | reference_designs/utils/aietrace/aietrace/trace_frames.py:193-194 | the first frame is what one decode step reads, and the rest is the decoding of the bits after its width |
| TraceFrames.FramesAtCursor | reference_designs/utils/aietrace/aietrace/trace_frames.py:193-194 | frame `i` is exactly what one decode step reads at the sum of the widths of the frames before it |
| TraceFrames.EncodeAll | reference_designs/utils/aietrace/aietrace/trace_frames.py:42-108 | the stream for a list of frames is as long as their widths together |
| TraceFrames.StreamRoundTrip | reference_designs/utils/aietrace/aietrace/trace_frames.py:130-194 | a stream built from well-formed frames decodes to exactly those frames, which consume exactly the stream |
| TraceFrames.ResolveLabel | reference_designs/utils/aietrace/aietrace/trace_frames.py:122-128 | an index inside the list becomes that name; any other index stays the raw number; it never fails |
| TraceFrames.ResolveInjective | reference_designs/utils/aietrace/aietrace/trace_frames.py:122-128 | with distinct names, different indices resolve to different labels |
| TraceFrames.ResolveMask | reference_designs/utils/aietrace/aietrace/trace_frames.py:113-119 | one label per reported index, in order, each resolved like a single event; a raw number is among the labels exactly when it is a reported index past the end of the name list, and a name is among them exactly when some reported index inside the list holds it |
| TraceFrames.MaskLabelsDetermineMask | reference_designs/utils/aietrace/aietrace/trace_frames.py:110-120 | with distinct names, two eight-bit masks whose label lists are equal are the same mask, so no event is lost or merged in resolving |
| TraceFrames.ContinueStep | reference_designs/utils/aietrace/aietrace/trace_frames.py:133-194 | one step of the recursion behind `FramesOf` (the frames of a buffer's words) moves a decoded frame from the remaining stream to the output, and an unmatched cursor fails the whole buffer |
| TraceFrames.CursorStep | reference_designs/utils/aietrace/aietrace/trace_frames.py:193-194 | at a cursor where a frame decodes, the frames so far plus those of the rest equal the frames so far with this one added plus those after the cursor moves past its width, clamped to the end |
| TraceFrames.CursorFails | reference_designs/utils/aietrace/aietrace/trace_frames.py:189-191 | at a cursor where no opcode matches, the outcome of the whole buffer is that decoder error |
| TraceFrames.ParseFrames | reference_designs/utils/aietrace/aietrace/trace_frames.py:196-200 | the cursor loop returns exactly `FramesOf` of the words: the frames, or the failure, of the recursive descent over the word bits |
| Timeline.Copies | reference_designs/utils/aietrace/aietrace/perfetto_generation.py:29-35 | `n` copies of the labels at consecutive ticks right after the clock |
| Timeline.Emit | reference_designs/utils/aietrace/aietrace/perfetto_generation.py:16-23 | an event frame moves the clock forward, keeps the earlier entries, and keeps the timeline well formed |
| Timeline.Repeat | reference_designs/utils/aietrace/aietrace/perfetto_generation.py:24-40 | a repeat fails exactly when nothing was copied and `new_ts` was never assigned; otherwise the clock does not go back and earlier entries stay |
| Timeline.Step | reference_designs/utils/aietrace/aietrace/perfetto_generation.py:15-40 | one iteration fails exactly for a repeat before anything assigned `new_ts`; it never moves the clock back, only appends entries, and keeps the timeline well formed |
| Timeline.Run | reference_designs/utils/aietrace/aietrace/perfetto_generation.py:15-40 | from a well-formed state whose `new_ts` is unassigned, the loop fails exactly when the first frame is a repeat; the clock never goes back, entries only grow, and they stay strictly increasing points |
| Timeline.ConstructTimeline | reference_designs/utils/aietrace/aietrace/perfetto_generation.py:11-41 | fails exactly when the first frame is a repeat; otherwise every entry is a point and entries are strictly increasing in time |
| Timeline.RunAppend | reference_designs/utils/aietrace/aietrace/perfetto_generation.py:15-40 | running over two frame lists in turn is running over their concatenation |
| Timeline.EmitPlacesEntry | reference_designs/utils/aietrace/aietrace/perfetto_generation.py:16-23 | single and multiple(0/1) frames add one point at clock + cycles + 1 with their labels, and the clock moves there |
| Timeline.RepeatCopiesLast | reference_designs/utils/aietrace/aietrace/perfetto_generation.py:28-35 | after an entry, a repeat of `n` appends `n` copies of the last entry's labels one tick apart, and moves the clock by `n` |
| Timeline.RepeatOnEmptyTimeline | reference_designs/utils/aietrace/aietrace/perfetto_generation.py:24-40 | a repeat with no entry before it, once `new_ts` is assigned, changes nothing |
| Timeline.SyncAdvancesClock | reference_designs/utils/aietrace/aietrace/perfetto_generation.py:36-37 | a sync frame moves the clock by 0x3FFFF and adds no entry |
| Timeline.IgnoredFrameInvisible | reference_designs/utils/aietrace/aietrace/perfetto_generation.py:38-39 | a start, stop, filler or multiple(2) frame inserted anywhere but first leaves the timeline unchanged |
| Timeline.LeadingStartRescuesRepeat | reference_designs/utils/aietrace/aietrace/perfetto_generation.py:24-40 | a lone repeat fails, and the same repeat after a start frame gives an empty timeline |
| Timeline.MultipleThenRepeat | reference_designs/utils/aietrace/aietrace/perfetto_generation.py:20-35 | a two-event frame with 2 cycles then a repeat of 3 gives four points with those events at ticks 3, 4, 5, 6 |
| Timeline.TrailingStalls | reference_designs/utils/aietrace/aietrace/perfetto_generation.py:64-69 | counts the maximal run of `LOCK_STALL`-only entries at the end |
| Timeline.TrimTrailingStalls | reference_designs/utils/aietrace/aietrace/perfetto_generation.py:63-70 | the result is a prefix, everything removed is a stall entry, and the result does not end in one |
| Timeline.TrimIdempotent | reference_designs/utils/aietrace/aietrace/perfetto_generation.py:63-70 | trimming twice is trimming once |
| Timeline.TrimKeepsLastEvent | reference_designs/utils/aietrace/aietrace/perfetto_generation.py:63-70 | stalls after a non-stall entry are removed, and everything up to that entry is kept |
| Perfetto.Pid | reference_designs/utils/aietrace/aietrace/perfetto_generation.py:127-129 | the process id is below 1000, as the key's hash modulo 1000 is |
| Perfetto.ProcessAndEventThreads | reference_designs/utils/aietrace/aietrace/perfetto_generation.py:79-106 | one process record (`ProcessRecord`) named after the tile (`ProcessTitle`), then one thread record (`ThreadRecord`) per event name, numbered by position; all are metadata on the key's pid without a timestamp |
| Perfetto.MetadataRecords | reference_designs/utils/aietrace/aietrace/perfetto_generation.py:57-58 | (names + 1) metadata records per buffer, none with a timestamp |
| Perfetto.MetadataBlock | reference_designs/utils/aietrace/aietrace/perfetto_generation.py:57-58 | the metadata of buffer `i` in key order is exactly its process-and-threads block, preceded by the blocks of the buffers before it and followed by those after it |
| Perfetto.IndexOf | reference_designs/utils/aietrace/aietrace/perfetto_generation.py:118 | `list.index` finds a value exactly when it is present, and then returns its first position |
| Perfetto.EntryRecords | reference_designs/utils/aietrace/aietrace/perfetto_generation.py:109-125 | fails exactly when a label is not a listed name; otherwise each label gives a begin at the entry's start then an end at its end, with empty `args`, on the key's pid, on the thread at the first position in the event list holding the label's name |
| Perfetto.EntryPaired | reference_designs/utils/aietrace/aietrace/perfetto_generation.py:109-125 | a point entry's records form matching begin/end pairs with no duration |
| Perfetto.PairedAppend | reference_designs/utils/aietrace/aietrace/perfetto_generation.py:72-73 | appending paired records to paired records keeps them paired |
| Perfetto.TimelinePaired | reference_designs/utils/aietrace/aietrace/perfetto_generation.py:72-75 | the records of a timeline of points whose labels are all listed form matching begin/end pairs |
| Perfetto.EmitTimeline | reference_designs/utils/aietrace/aietrace/perfetto_generation.py:72-75 | on success every label was listed and the records are those already emitted followed by each entry's records in timeline order (pairs, for points); it succeeds exactly when every label is listed and the `ts` lookup after the first entry finds a timestamp (the records so far end with one, or that entry has labels); afterwards the records end with a timestamp when they did before or some entry was emitted; the failures are an unlisted label or a missing timestamp |
| Perfetto.KeptEntries | reference_designs/utils/aietrace/aietrace/perfetto_generation.py:61-70 | a buffer's kept entries (decoded, folded into a timeline, trailing stalls trimmed) are all points |
| Perfetto.BuffersPaired | reference_designs/utils/aietrace/aietrace/perfetto_generation.py:60-75 | when every buffer renders, all buffers' records together form matching begin/end pairs |
| Perfetto.EmitBuffers | reference_designs/utils/aietrace/aietrace/perfetto_generation.py:60-75 | on success every buffer rendered and the records are those already emitted followed by each buffer's entry records, buffer by buffer in key order (begin/end pairs); it succeeds exactly when every buffer renders and no buffer's first kept entry is unlabelled while the records before it end without a timestamp |
| Perfetto.GeneratePerfettoDict | reference_designs/utils/aietrace/aietrace/perfetto_generation.py:51-77 | on success the result is every buffer's metadata in key order followed by every buffer's entry records in key order, the latter forming begin/end pairs; it succeeds exactly when every buffer decodes, builds its timeline and keeps only listed labels, and the first buffer with kept entries starts with a labelled one |
| Perfetto.TitleDeterminesTile | reference_designs/utils/aietrace/aietrace/perfetto_generation.py:105 | two keys with the same process name have the same tile and packet type |

## Left out

- Reading the trace file, the command-line front end (`aietrace.py`), writing JSON (`generate_perfetto_json`, `json.dumps`) and the helpers in `utils.py` are left out. They are I/O around the pipeline.
- Perfetto.Pid: Python's `hash` of a `TraceIdent` is salted per process, so it becomes a parameter `hash: Ident -> int`. The contract states only the range that the reduction modulo 1000 gives.
- Perfetto.GeneratePerfettoDict: the running `ts = max(new_ts, ts)` is left out. The value is never used after the loop. Only the `d[-1]['ts']` lookup that can raise is modelled.
- Perfetto.EmitTimeline: when both an unlisted label and a missing timestamp could arise, the contract names the possible error kinds, not which one is reported.
- Digits.ParseDigits: Python's `int()` also accepts surrounding whitespace, a sign, `_` separators and, in base 16, a `0x` prefix. The model reads plain digit strings only.
- Bits.WordsToBitsLayout: `bin(w)[2:].zfill(32)` does not truncate, so a word at or above 2^32 contributes more than 32 bits. That behaviour is modelled, but the layout lemma is stated for words below 2^32 only.
- The frame fields typed `ctypes.c_uint32`/`c_uint64` in the source are plain Python integers at run time; they are modelled as unbounded naturals.
- `sys.setrecursionlimit` and the recursion depth of `parse_frames_bitvector` are not modelled. The stream decoder is a total function, and `ParseFrames` gives the same result with a loop.
- The debug printing of frames and timelines, `setup.py`, and the tests are not part of this model.
