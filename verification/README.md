# Verified models of the WebRTC base library and the profile file

The library under `libwebrtcaec/src/main/jni` is an echo canceller for Android built on a vendored part of
WebRTC. The files here model the self-contained logic of its `rtc` base library, and of the profile reader
and writer next to it, and prove what that logic is for.

| file | models | main results |
|---|---|---|
| `Crc32.dfy`, `Crc32Remainder.dfy`, `Crc32Words.dfy` | `crc32.cc` | the table form refines the bit form; streaming; every burst within 32 bits, at any bit offset, is detected; the checksum is the remainder by the generator polynomial of ITU-T V.42 and the only one, and has the published check value |
| `BitStrings.dfy`, `ExpGolomb.dfy`, `BitBuffer.dfy` | `bitbuffer.cc` | reads and writes refine a flat bit string; rows of fields written and read by the buffer read back; Exp-Golomb (section 9.1 of ITU-T H.264) is an exact two-way code at any offset |
| `HttpMachine.dfy`, `HttpParser.dfy`, `HttpReceiver.dfy`, `HttpFraming.dfy` | the parser and receive loop of `httpbase.cc` | any two cuttings of the input into calls give the same message and completion; the loop waits only when nothing complete was received; messages of given length, in chunks and of unknown length are delivered character by character, and malformed ones refused |
| `HttpWire.dfy`, `HttpSender.dfy` | the send pump of `httpbase.cc` | chunked coding (section 4.1 of RFC 7230) and whole messages, chunked or of given length, read back under partial writes |
| `Base64.dfy`, `Base64Standard.dfy`, `Base64Modes.dfy`, `Base64Flags.dfy` | `base64.cc` | the encoding is that of RFC 4648; strict decoding is its exact inverse; what every pad mode accepts, exactly; white space is skipped, with one exception; parse-any sees only the alphabet |
| `RotatingLog.dfy`, `RotatingLogReading.dfy` | `filerotatingstream.cc` | the beginning and the end of everything written survive, three quarters of the budget at least, and are what a reader returns; file names sort |
| `TcpFraming.dfy` | `asynctcpsocket.cc` | packets delivered are a prefix of packets sent (framing as in section 2 of RFC 4571) |
| `Profiles.dfy`, `ProfileReading.dfy`, `ProfileRoundTrip.dfy` | `profiles_management.c` | when reading fails and what it returns; read after write, if and only if the header comes first |
| `CacheAccounting.dfy`, `CacheStreams.dfy`, `CacheLimit.dfy`, `DiskCache.dfy`, `CacheRuns.dfy` | `diskcache.cc` | readers and writers exclude each other; sizes and counts add up; exactly when each step keeps sizes equal to the bytes on disk; the limit check has one outcome, and when it is success |
| `Common.dfy` | | definitions shared by the others |

`dafny verify dfyconfig.toml` checks everything.

## How the models are built

Classes of the source are classes here, with the same fields, and their loops are loops with invariants.
Each such method is proved against a specification function or predicate on plain values, and the main
theorems are lemmas about those. A part of a long method is a method of its own; its comment names the
lines.

- Machine words are sequences of booleans: least significant bit first for CRC-32, where the register is
  shifted right, and most significant first for the bit buffer. Shifts and truncations are slices, so width
  and wrap-around are explicit. Base64 bytes are 8-bit vectors.
- `unsigned long` and `size_t` are 64 bits wide in the HTTP parser. `strtoul` saturates and accepts leading
  space, a sign and `0x`; `%u` reduces modulo 2^32. The chunk size 2^64-1 is the same number as the mark for
  an unknown size, as in the source.
- The network, sockets, the document and the data sink are methods that choose any permitted outcome. Ghost
  fields record their answers, so that a loop that stops has to name the answer that stopped it. The leader
  and header-complete callbacks are functions. Times and whether a cache file opens are parameters, and the
  files that cannot be deleted are a field. Where C++ leaves the outcome undefined, the cache stops there
  and says so.
- A file is its contents, a profile file is a text without NUL characters, the log's files are a sequence
  indexed like their names, and the cache's files are a map from names to sizes.

## What the proofs brought up

- Profiles: `read_profile` looks for the bare token (line 125) and `write_profile` for the token with its
  bracket (line 269). If the token occurs earlier, in another section, the value just written is not found.
  `ReadAfterWrite` gives the exact condition and `WrittenValueIsLost` an instance.
- Profiles: the search goes on behind a whole match (line 157). A parameter that can overlap itself, as `aa`
  does, is missed where it is assigned behind its own beginning. `ReadingFails` is exact for all others, and
  `OverlapIsMissed` gives such a section for every parameter of this kind.
- Base64: the next quantum is begun for white space alone, and is then not padded (lines 242 to 249). So
  `DO_PARSE_WHITE` with `DO_PAD_YES` refuses a newline behind an encoding without pads and accepts it behind
  one with pads (`TrailingSpace`). `WhiteSpaceIsSkipped` says exactly when.
- Base64: a lone sextet of zeros counts as no data and has no unused bits, so that an additional letter A is
  accepted where pads are not required: `PadModesAcceptExactly` and `LoneLetterIsAccepted`.
- HTTP receiving: the close of the stream is handled before data is processed again that a sink had refused.
  After a clean close everything received was delivered if and only if the buffer is empty, and if it is
  not, it is what the call began with (`DoReceiveLoop`); `LostTail` is an instance.
- HTTP sending: headers that do not fit the buffer are dropped silently, and names and values end at a NUL.
  `HeadersAreSentUnchanged` gives the exact condition under which neither happens, `HeaderIsLost` instances
  of both. `SentMessageReadsBack` is about what is sent in their place.
- TCP framing: `Send` claims success for a packet it drops because the buffer is busy; such a packet is not
  among the sent ones.
- Disk cache, sizes: the sums over the entries hold on every run. Whether the sizes of the entries are the
  bytes on disk (`Matching`) is decided step by step. Opening a file for writing keeps it if and only if no
  open stream writes the same file, or the file or the entry is empty (`WriteResource`). Releasing a writer
  keeps it if and only if no other stream writes the file, or it is empty, because a file is counted once
  for each of its writers (`ReleasedSurplus`); `TwoWriters` is a run that ends with ten bytes for a file of
  five, and `TwoOpen` a state with two writers whose sizes still match. Erasing an entry keeps it if and
  only if all its files can be deleted (`DeleteResource`); `ForgottenFile` is a run in which one cannot.
- Disk cache, limit: `CheckLimit` advances its candidate with a post-increment (line 238). The victim is
  therefore the oldest entry from the first idle one on, in use or not, and the search reads behind the end
  of the map if the first idle entry is the last. So the limit is not always met when idle entries could be
  evicted: `LockFails` and `UnlockOneFile` are runs. `LimitIsDetermined` says that the outcome is a function
  of the state, `FailsOnlyWithoutIdle`, `AllIdleIsLimited` and `NewestDecides` when it is success.
- Disk cache, locking: the limit check made for a lock can evict the entry that is being locked, which is
  then written after it was freed. `LockEntry` says exactly when; `EvictedByItsLock` is a run.

## Model

| member | source | states |
|---|---|---|
| `Crc32.StepLinear` | `libwebrtcaec/src/main/jni/external/webrtc/base/crc32.cc:29-35` | One bit step of the register is linear over exclusive or. |
| `Crc32.StepInjective` | `libwebrtcaec/src/main/jni/external/webrtc/base/crc32.cc:30-34` | One bit step loses nothing, because the top bit of the polynomial is set: registers with the same successor are equal. |
| `Crc32.AbsorbWindow` | `libwebrtcaec/src/main/jni/external/webrtc/base/crc32.cc:43-47` | Up to 32 message bits absorbed one at a time equal one exclusive or of all of them followed by that many plain steps. |
| `Crc32.TableUpdateIsBitwise` | `libwebrtcaec/src/main/jni/external/webrtc/base/crc32.cc:46` | One table lookup per byte equals eight bit steps, for every register and byte. |
| `Crc32.EntryIsZeroOnlyAtZero` | `libwebrtcaec/src/main/jni/external/webrtc/base/crc32.cc:24-26` | A table entry is zero only for index 0, so the sentinel at index 255 is non-zero exactly when the table was filled. |
| `Crc32.Crc32Table.constructor` | `libwebrtcaec/src/main/jni/external/webrtc/base/crc32.cc:22` | The static table starts out untouched. |
| `Crc32.Crc32Table.ComputeEntry` | `libwebrtcaec/src/main/jni/external/webrtc/base/crc32.cc:27-36` | The inner loop computes the entry that the eight plain steps of the index define. |
| `Crc32.Crc32Table.FillTable` | `libwebrtcaec/src/main/jni/external/webrtc/base/crc32.cc:27-37` | All 256 entries hold their defining value. |
| `Crc32.Crc32Table.EnsureCrc32TableInited` | `libwebrtcaec/src/main/jni/external/webrtc/base/crc32.cc:24-38` | From an untouched or a filled table the table ends up filled, whichever branch is taken. |
| `Crc32.Crc32Table.UpdateCrc32` | `libwebrtcaec/src/main/jni/external/webrtc/base/crc32.cc:40-49` | The table-driven loop returns the checksum defined bit by bit, on every start value and input, also on first use. |
| `Crc32.ChecksumStreams` | `libwebrtcaec/src/main/jni/external/webrtc/base/crc32.cc:40-49` | Checksumming in two pieces, the second started with the result of the first, equals checksumming the concatenation. |
| `Crc32.AbsorbInjective` | `libwebrtcaec/src/main/jni/external/webrtc/base/crc32.cc:45-47` | For a fixed continuation, different registers stay different. |
| `Crc32.WindowInjective` | `libwebrtcaec/src/main/jni/external/webrtc/base/crc32.cc:45-47` | From one register, different inputs of at most 32 bits and equal length lead to different registers. |
| `Crc32.BitBurstIsDetected` | `libwebrtcaec/src/main/jni/external/webrtc/base/crc32.cc:40-49` | Two inputs of equal length that differ, but only inside some window of 32 consecutive bits at any bit offset, never have the same checksum. |
| `Crc32.BurstIsDetected` | `libwebrtcaec/src/main/jni/external/webrtc/base/crc32.cc:40-49` | In particular inputs that differ only inside four consecutive bytes have different checksums. |
| `Crc32Remainder.StepReduces` | `libwebrtcaec/src/main/jni/external/webrtc/base/crc32.cc:30-34` | A bit step is multiplication by x of the polynomial over GF(2) in the register, reduced by the generator. |
| `Crc32Remainder.RegisterIsARemainder` | `libwebrtcaec/src/main/jni/external/webrtc/base/crc32.cc:43-47` | There is a quotient with which the register is the remainder of the dividend of ITU-T V.42: message shifted by 32, initial register added on top. |
| `Crc32Remainder.RemainderIsUnique` | `libwebrtcaec/src/main/jni/external/webrtc/base/crc32.cc:19-21` | A remainder of degree below 32 is the same for every quotient. |
| `Crc32Remainder.GeneratorIsThatOfV42` | `libwebrtcaec/src/main/jni/external/webrtc/base/crc32.cc:21` | The constant stands for the generator of ITU-T V.42: the powers 32, 26, 23, 22, 16, 12, 11, 10, 8, 7, 5, 4, 2, 1 and 0. |
| `Crc32Remainder.ChecksumIsTheRemainder` | `libwebrtcaec/src/main/jni/external/webrtc/base/crc32.cc:40-49` | Whoever divides that dividend by the polynomial with exactly those fifteen powers, and gets a remainder of degree below 32, has found the complemented checksum, and nothing else. |
| `Crc32Words.PolynomialIsTheConstant` | `libwebrtcaec/src/main/jni/external/webrtc/base/crc32.cc:21` | As a 32-bit word the polynomial is 0xEDB88320. |
| `Crc32Words.ChecksumOfWord` | `libwebrtcaec/src/main/jni/external/webrtc/base/crc32.cc:40-49` | The checksum on 32-bit vectors: complement with 0xFFFFFFFF, per byte an exclusive or into the low bits and eight times a right shift with an exclusive or of 0xEDB88320 if a one falls out, complement again; for every start value and input. |
| `Crc32Words.CheckValue` | `libwebrtcaec/src/main/jni/external/webrtc/base/crc32.cc:40-49` | The published check value: the checksum of the characters 123456789 is 0xCBF43926. |
| `BitBuffers.LowestBits` | `libwebrtcaec/src/main/jni/external/webrtc/base/bitbuffer.cc:20-24` | The byte with only its low bits kept, as a bit string. |
| `BitBuffers.HighestBits` | `libwebrtcaec/src/main/jni/external/webrtc/base/bitbuffer.cc:26-33` | The high bits of a byte, moved to the low end. |
| `BitBuffers.WritePartialByte` | `libwebrtcaec/src/main/jni/external/webrtc/base/bitbuffer.cc:40-60` | Exactly the addressed bits of the target are replaced, provided the source is zero behind its bits or they reach the end of the byte. |
| `BitBuffers.BitBuffer.constructor` | `libwebrtcaec/src/main/jni/external/webrtc/base/bitbuffer.cc:76-80` | Reading and writing start at bit 0 of the given array. |
| `BitBuffers.BitBuffer.RemainingBitCount` | `libwebrtcaec/src/main/jni/external/webrtc/base/bitbuffer.cc:82-84` | Position and remaining count add up to the size of the array in bits. |
| `BitBuffers.BitBuffer.PeekBits` | `libwebrtcaec/src/main/jni/external/webrtc/base/bitbuffer.cc:110-138` | Succeeds exactly for at most 32 bits that are there, and returns the number formed by the next bits, most significant first. |
| `BitBuffers.BitBuffer.CollectBits` | `libwebrtcaec/src/main/jni/external/webrtc/base/bitbuffer.cc:124-135` | The byte loop and the last partial byte leave in the register exactly the bits between the two positions. |
| `BitBuffers.BitBuffer.ReadBits` | `libwebrtcaec/src/main/jni/external/webrtc/base/bitbuffer.cc:140-142` | As PeekBits, and moves past the bits only on success. |
| `BitBuffers.BitBuffer.ConsumeBits` | `libwebrtcaec/src/main/jni/external/webrtc/base/bitbuffer.cc:148-156` | Moves the position by the count, or not at all when too few bits are left. |
| `BitBuffers.BitBuffer.Seek` | `libwebrtcaec/src/main/jni/external/webrtc/base/bitbuffer.cc:211-219` | Accepts exactly the positions inside the array or at its end, and moves there. |
| `BitBuffers.BitBuffer.WriteBits` | `libwebrtcaec/src/main/jni/external/webrtc/base/bitbuffer.cc:237-280` | For 1 to 64 bits: the next bits become the value modulo the power of two, no other bit of the array changes, and a write that does not fit changes nothing. |
| `BitBuffers.BitBuffer.StoreRest` | `libwebrtcaec/src/main/jni/external/webrtc/base/bitbuffer.cc:261-276` | The byte loop and the last partial byte complete the field that the first byte began. |
| `BitBuffers.BitBuffer.StorePartial` | `libwebrtcaec/src/main/jni/external/webrtc/base/bitbuffer.cc:254-255` | One store puts the top bits of the register at a bit offset of one byte of the flat string. |
| `BitBuffers.BitBuffer.CountValueBits` | `libwebrtcaec/src/main/jni/external/webrtc/base/bitbuffer.cc:62-70` | The loop counts the bits of the binary form. |
| `BitBuffers.BitBuffer.WriteExponentialGolomb` | `libwebrtcaec/src/main/jni/external/webrtc/base/bitbuffer.cc:282-294` | Writes exactly the Exp-Golomb code of the value, refuses only the largest 32-bit value and codes that do not fit, and then changes nothing. |
| `BitBuffers.BitBuffer.ReadExponentialGolomb` | `libwebrtcaec/src/main/jni/external/webrtc/base/bitbuffer.cc:158-188` | Returns what decoding the flat string at the position gives, restores the position on failure, and its check on Seek never fires. |
| `BitBuffers.BitBuffer.ConsumeZeroRun` | `libwebrtcaec/src/main/jni/external/webrtc/base/bitbuffer.cc:167-173` | Counts and skips exactly the run of zero bits. |
| `BitBuffers.BitBuffer.ReadSignedExponentialGolomb` | `libwebrtcaec/src/main/jni/external/webrtc/base/bitbuffer.cc:190-201` | The signed value of the decoded one, within 32 bits: twice the value is the code plus one for odd codes, and minus the code for even ones. |
| `BitBuffers.PutFieldsKeepsPrefix` | `libwebrtcaec/src/main/jni/external/webrtc/base/bitbuffer.cc:237-280` | A row of writes changes nothing before or behind the row. |
| `BitBuffers.FieldsReadBack` | `libwebrtcaec/src/main/jni/external/webrtc/base/bitbuffer.cc:110-142` | Any row of fields, written at any bit offset and across byte boundaries, reads back as the same values. |
| `BitBuffers.BitBuffer.WriteFields` | `libwebrtcaec/src/main/jni/external/webrtc/base/bitbuffer.cc:237-280` | Any list of fields of 1 to 64 bits that fits is written by successive calls of WriteBits, and only its bits change. |
| `BitBuffers.BitBuffer.ReadFields` | `libwebrtcaec/src/main/jni/external/webrtc/base/bitbuffer.cc:140-142` | Successive calls of ReadBits return the fields that stand at the position. |
| `BitBuffers.BitBuffer.WriteAndReadBack` | `libwebrtcaec/src/main/jni/external/webrtc/base/bitbuffer.cc:110-280` | Any list of fields of 1 to 32 bits that fits, written by WriteBits from any position, is read back by ReadBits value by value. |
| `ExpGolomb.CodeIsOneField` | `libwebrtcaec/src/main/jni/external/webrtc/base/bitbuffer.cc:290-293` | Writing the value plus one in twice its bit count minus one bits is writing the zeros and then the value. |
| `ExpGolomb.FirstCodes` | `libwebrtcaec/src/main/jni/external/webrtc/base/bitbuffer.cc:290-293` | The codes of 0 to 3 are 1, 010, 011 and 00100, as in Table 9-2 of ITU-T H.264. |
| `ExpGolomb.CodeNumber` | `libwebrtcaec/src/main/jni/external/webrtc/base/bitbuffer.cc:158-188` | The formula of section 9.1: behind z zeros and a one, z further bits with the binary value i decode to 2^z - 1 + i, at any offset. |
| `ExpGolomb.CodeReadsBack` | `libwebrtcaec/src/main/jni/external/webrtc/base/bitbuffer.cc:158-188` | At any bit offset and before any further bits, the code of a value below the largest decodes to that value and to the position behind the code. |
| `ExpGolomb.ReadConsumedACode` | `libwebrtcaec/src/main/jni/external/webrtc/base/bitbuffer.cc:178-187` | Whatever decodes, decodes to a value whose code is exactly the bits consumed. |
| `ExpGolomb.ReadSucceedsExactlyOnCodes` | `libwebrtcaec/src/main/jni/external/webrtc/base/bitbuffer.cc:158-188` | Decoding succeeds if and only if the code of some writable value stands at the position. |
| `ExpGolomb.CodesReadBack` | `libwebrtcaec/src/main/jni/external/webrtc/base/bitbuffer.cc:158-188` | A row of codes decodes to the same row of values. |
| `ExpGolomb.SignedIsABijection` | `libwebrtcaec/src/main/jni/external/webrtc/base/bitbuffer.cc:190-201` | The signed mapping of section 9.1.1 of ITU-T H.264 pairs every decodable value with exactly one signed value. |
| `ExpGolomb.SignedTable` | `libwebrtcaec/src/main/jni/external/webrtc/base/bitbuffer.cc:190-201` | Table 9-3: code 2k is -k and code 2k + 1 is k + 1. |
| `HttpMachine.FeedConcat` | `libwebrtcaec/src/main/jni/external/webrtc/base/httpbase.cc:59-122` | Feeding a concatenation is feeding its parts one after the other, from any parser state. |
| `HttpMachine.FeedLine` | `libwebrtcaec/src/main/jni/external/webrtc/base/httpbase.cc:71-90` | In a line state, the characters up to a newline have the effect of one processed line. |
| `HttpMachine.FeedBody` | `libwebrtcaec/src/main/jni/external/webrtc/base/httpbase.cc:97-118` | In the body state, any amount of data up to the remaining size is appended and counted down. |
| `HttpMachine.FeedDone` | `libwebrtcaec/src/main/jni/external/webrtc/base/httpbase.cc:59-68` | After completion further input is left over and nothing else changes. |
| `HttpFraming.SpaceIs` | `libwebrtcaec/src/main/jni/external/webrtc/base/httpbase.cc:82-84` | The characters trimmed are blank, tab, newline, return, and the codes 11 and 12. |
| `HttpFraming.CaseIsIgnored` | `libwebrtcaec/src/main/jni/external/webrtc/base/httpbase.cc:31-35` | Names and codings match if they have equal length and equal letters up to case. |
| `HttpFraming.HexDigitsAre` | `libwebrtcaec/src/main/jni/external/webrtc/base/httpbase.cc:179-180` | The sixteen digits of either case and their values; no other character is one. |
| `HttpFraming.NumberInParts` | `libwebrtcaec/src/main/jni/external/webrtc/base/httpbase.cc:154-181` | Space, a sign, an optional 0x for base 16, and digits, followed by anything else, yield the value of the digits, with the sign, and the number of characters used. |
| `HttpFraming.NumberExamples` | `libwebrtcaec/src/main/jni/external/webrtc/base/httpbase.cc:154-181` | The lengths 12, +7 behind a blank, and -1, which is 2^32 - 1; and 0x1F. |
| `HttpFraming.LengthReadsBack` | `libwebrtcaec/src/main/jni/external/webrtc/base/httpbase.cc:154-158` | A length printed in decimal reads back modulo 2^32; from 2^64 on it reads as 2^32 - 1. |
| `HttpFraming.MessageOfKnownLength` | `libwebrtcaec/src/main/jni/external/webrtc/base/httpbase.cc:59-169` | For any body shorter than 2^32, leader, headers that say nothing about the body, Content-Length with the length of the body in decimal, an empty line and the body are delivered as this message, which ends exactly behind that many characters. |
| `HttpFraming.MessageInChunks` | `libwebrtcaec/src/main/jni/external/webrtc/base/httpbase.cc:59-213` | The same for a body in chunks, announced by Transfer-Encoding: chunked. |
| `HttpFraming.MessageOfUnknownLength` | `libwebrtcaec/src/main/jni/external/webrtc/base/httpbase.cc:97-175` | Without a framing header everything behind the empty line is the body, and the message stays open. |
| `HttpFraming.HeaderNeedsColon` | `libwebrtcaec/src/main/jni/external/webrtc/base/httpbase.cc:136-142` | A header line without a colon is a protocol error. |
| `HttpFraming.LengthIsRefused` | `libwebrtcaec/src/main/jni/external/webrtc/base/httpbase.cc:149-159` | So is a length without a digit. |
| `HttpFraming.CodingIsRefused` | `libwebrtcaec/src/main/jni/external/webrtc/base/httpbase.cc:160-168` | So is a transfer coding that is neither chunked nor identity. |
| `HttpFraming.ChunkSizeIsRefused` | `libwebrtcaec/src/main/jni/external/webrtc/base/httpbase.cc:176-189` | So is a chunk size that is missing or does not end in a hexadecimal digit. |
| `HttpFraming.ChunkEndIsRefused` | `libwebrtcaec/src/main/jni/external/webrtc/base/httpbase.cc:191-198` | So is anything but an empty line behind a chunk. |
| `HttpFraming.TrailersAreSkipped` | `libwebrtcaec/src/main/jni/external/webrtc/base/httpbase.cc:200-204` | Trailer lines are skipped up to an empty one, which ends the message. |
| `HttpParsing.HttpParser.constructor` | `libwebrtcaec/src/main/jni/external/webrtc/base/httpbase.cc:45-57` | The parser starts at the leader, not chunked, with unknown size. |
| `HttpParsing.HttpParser.ProcessLine` | `libwebrtcaec/src/main/jni/external/webrtc/base/httpbase.cc:124-213` | The switch over the states has the effect and result that the machine gives to a line. |
| `HttpParsing.HttpParser.ProcessHeaderLine` | `libwebrtcaec/src/main/jni/external/webrtc/base/httpbase.cc:136-169` | A header line is split at its first colon, changes size and chunking, is delivered, or is a protocol error, as in the machine. |
| `HttpParsing.HttpParser.Process` | `libwebrtcaec/src/main/jni/external/webrtc/base/httpbase.cc:59-122` | Whatever stops a call, feeding the unprocessed tail from the state reached is feeding the whole buffer from the state at the start; completion and its error are those of the machine. When more is needed, the machine too is left waiting with exactly that tail; a block or a failure is one that the sink reported. |
| `HttpParsing.HttpParser.ProcessOnce` | `libwebrtcaec/src/main/jni/external/webrtc/base/httpbase.cc:71-119` | One round of the loop keeps what feeding the rest of the buffer means, makes progress or stops, and stops for more data only when nothing there can be processed. |
| `HttpParsing.HttpParser.NextLine` | `libwebrtcaec/src/main/jni/external/webrtc/base/httpbase.cc:72-90` | The line branch of the round. |
| `HttpParsing.HttpParser.NextData` | `libwebrtcaec/src/main/jni/external/webrtc/base/httpbase.cc:98-118` | The data branch of the round. |
| `HttpParsing.HttpParser.TakeLine` | `libwebrtcaec/src/main/jni/external/webrtc/base/httpbase.cc:79-90` | One line of the buffer is consumed with exactly its effect. |
| `HttpParsing.HttpParser.EndOfData` | `libwebrtcaec/src/main/jni/external/webrtc/base/httpbase.cc:91-96` | With no data left the message is complete, or the chunk terminator is expected. |
| `HttpParsing.HttpParser.TakeData` | `libwebrtcaec/src/main/jni/external/webrtc/base/httpbase.cc:97-118` | What the sink took is consumed from the buffer and from the remaining size; nothing is consumed when it blocks or fails. |
| `HttpParsing.HttpParser.ProcessData` | `libwebrtcaec/src/main/jni/external/webrtc/base/httpbase.cc:851-874` | The sink takes a non-empty part, or blocks, or fails; only what it takes is added to the body. |
| `HttpParsing.HttpParser.FindNewline` | `libwebrtcaec/src/main/jni/external/webrtc/base/httpbase.cc:72-75` | The first newline at or behind the start, or the end of the buffer. |
| `HttpParsing.HttpParser.TrimLine` | `libwebrtcaec/src/main/jni/external/webrtc/base/httpbase.cc:80-84` | The line without trailing space. |
| `HttpParsing.HttpParser.TrimLeft` | `libwebrtcaec/src/main/jni/external/webrtc/base/httpbase.cc:144-146` | The loop skips exactly the leading space of the value. |
| `HttpReceiving.ProcessPieces` | `libwebrtcaec/src/main/jni/external/webrtc/base/httpbase.cc:59-122` | For any list of pieces, presented one after the other, each behind the tail that the call before left, and with a sink that accepts: the outcome is what the machine computes from their concatenation. |
| `HttpReceiving.FragmentationIsInvisible` | `libwebrtcaec/src/main/jni/external/webrtc/base/httpbase.cc:59-122` | Two runs of Process over any two cuttings of the same characters end with the same leader, headers, body, completion, error and left-over characters, and complete if and only if the characters contain a complete message. |
| `HttpReceiving.HttpReceiver.constructor` | `libwebrtcaec/src/main/jni/external/webrtc/base/httpbase.cc:439-460` | Receiving starts with an empty buffer and the initial parser state. |
| `HttpReceiving.HttpReceiver.Read` | `libwebrtcaec/src/main/jni/external/webrtc/base/httpbase.cc:515-541` | What the network delivers, if anything, goes behind the buffered characters; buffer and parser state still stand for everything received. |
| `HttpReceiving.HttpReceiver.HandleStreamClose` | `libwebrtcaec/src/main/jni/external/webrtc/base/httpbase.cc:479-496` | An end without error means that code 0 came while everything received is an open body with no end of its own; once everything in the buffer was processed, the converse holds too. The code of a refused access gives the authentication error, that of an expired certificate its own, and every other one the socket error. |
| `HttpReceiving.HttpReceiver.ProcessBuffered` | `libwebrtcaec/src/main/jni/external/webrtc/base/httpbase.cc:556-561` | One call of Process on the buffer: complete with what the machine computes from everything received, or waiting with nothing left to do, or stopped by the sink with buffer and parser state still standing for everything received. |
| `HttpReceiving.HttpReceiver.Discard` | `libwebrtcaec/src/main/jni/external/webrtc/base/httpbase.cc:559-561` | Exactly the processed characters leave the buffer. |
| `HttpReceiving.HttpReceiver.DoReceiveLoop` | `libwebrtcaec/src/main/jni/external/webrtc/base/httpbase.cc:498-578` | Over any reads, blocks and at most 21 rounds. A message finished by the parser is the one the machine computes from everything received. The loop waits for the network, or ends after its rounds, only if the machine has no complete message in everything received and nothing in the buffer can be processed; it waits for the sink only if that blocked. Overflow means one line filled the whole buffer. A clean close delivers everything, except what the call found in the buffer when it ended before that was presented again. |
| `HttpReceiving.HttpReceiver.ReadMore` | `libwebrtcaec/src/main/jni/external/webrtc/base/httpbase.cc:515-548` | One read, and when it stops the loop: the network blocked and more is needed, the stream ended, with the error that belongs to its code, or a full buffer needs more; otherwise what arrived is in step behind the buffer. |
| `HttpReceiving.HttpReceiver.ReceiveOnce` | `libwebrtcaec/src/main/jni/external/webrtc/base/httpbase.cc:515-576` | One round of the loop: it goes on only when nothing received is left to be processed, and every reason to stop is backed by the answer that caused it. |
| `HttpReceiving.LostTail` | `libwebrtcaec/src/main/jni/external/webrtc/base/httpbase.cc:479-496` | A state in which a clean close ends a message without error although its last character, refused by the sink before, is not delivered. |
| `HttpWire.HexReadsBack` | `libwebrtcaec/src/main/jni/external/webrtc/base/httpbase.cc:177-181` | The fixed-width hexadecimal chunk size reads back through the number parser completely. |
| `HttpWire.FeedChunk` | `libwebrtcaec/src/main/jni/external/webrtc/base/httpbase.cc:176-198` | One chunk is delivered as its data and leaves the parser expecting the next chunk size. |
| `HttpWire.FeedLastChunk` | `libwebrtcaec/src/main/jni/external/webrtc/base/httpbase.cc:184-203` | The last chunk completes the message and leaves what follows. |
| `HttpWire.ChunkedBodyReadsBack` | `libwebrtcaec/src/main/jni/external/webrtc/base/httpbase.cc:589-706` | Section 4.1 of RFC 7230: for any division of a document into non-empty pieces, the chunks and the last chunk drive the parser from the chunk-size state to completion, delivering exactly the document and stopping exactly behind it. |
| `HttpWire.HeaderTextSplits` | `libwebrtcaec/src/main/jni/external/webrtc/base/httpbase.cc:137-147` | A printed header splits into the same name and value. |
| `HttpWire.HeaderLineTrims` | `libwebrtcaec/src/main/jni/external/webrtc/base/httpbase.cc:82-84` | Trimming removes the carriage return, and the blank of an empty value, and nothing else. |
| `HttpWire.FeedHeaderLines` | `libwebrtcaec/src/main/jni/external/webrtc/base/httpbase.cc:135-169` | A row of printed headers is delivered as the same row, with its effect on size and chunking. |
| `HttpWire.MessageReadsBack` | `libwebrtcaec/src/main/jni/external/webrtc/base/httpbase.cc:59-213` | A whole chunked message, leader, headers and body, is delivered unchanged and completes exactly at its end. |
| `HttpFraming.WireExamples` | `libwebrtcaec/src/main/jni/external/webrtc/base/httpbase.cc:637-658` | A header line, a chunk and the last chunk in literal characters. |
| `HttpSending.Document.Read` | `libwebrtcaec/src/main/jni/external/webrtc/base/httpbase.cc:631-633` | The document yields a non-empty part of what is left, blocks, ends only when nothing is left, or fails. |
| `HttpSending.HttpSender.constructor` | `libwebrtcaec/src/main/jni/external/webrtc/base/httpbase.cc:402-437` | Sending starts with the leader line in the buffer, and with the end of the headers if there are none. |
| `HttpSending.HeadersAreSentUnchanged` | `libwebrtcaec/src/main/jni/external/webrtc/base/httpbase.cc:708-725` | The headers sent are the headers given if and only if in each of them name and value have together fewer than 32761 characters and contain no NUL. |
| `HttpSending.SentOrDropped` | `libwebrtcaec/src/main/jni/external/webrtc/base/httpbase.cc:712-725` | Each header in turn is sent as printed if its line has fewer than 32765 characters, and is dropped otherwise. |
| `HttpSending.PrintsUpToNul` | `libwebrtcaec/src/main/jni/external/webrtc/base/httpbase.cc:712-714` | Of a name or value with a NUL what stands before the first one is printed. |
| `HttpSending.HeaderIsLost` | `libwebrtcaec/src/main/jni/external/webrtc/base/httpbase.cc:712-720` | A header that is not sent at all, and one whose value is cut off at its NUL. |
| `HttpSending.HttpSender.Append` | `libwebrtcaec/src/main/jni/external/webrtc/base/httpbase.cc:640-647` | The characters go behind the buffered ones and nothing else changes. |
| `HttpSending.HttpSender.QueueHeaders` | `libwebrtcaec/src/main/jni/external/webrtc/base/httpbase.cc:708-730` | Headers are buffered in order, each printed up to a NUL in its name or value, until one does not fit; sent and buffered characters together are the message so far. |
| `HttpSending.HttpSender.QueueHeader` | `libwebrtcaec/src/main/jni/external/webrtc/base/httpbase.cc:712-725` | A line that fits behind the buffered characters, with three to spare, is buffered as printed; one that does not waits if the buffer is not empty and could hold it alone, and is discarded otherwise. |
| `HttpSending.HttpSender.QueueDocument` | `libwebrtcaec/src/main/jni/external/webrtc/base/httpbase.cc:611-673` | At most one read of the document is buffered, framed in chunk mode, within the buffer; sent and buffered characters together are the message so far. |
| `HttpSending.HttpSender.QueuePiece` | `libwebrtcaec/src/main/jni/external/webrtc/base/httpbase.cc:634-647` | A piece is framed with its size in chunk mode and goes behind what is buffered. |
| `HttpSending.HttpSender.QueueEnd` | `libwebrtcaec/src/main/jni/external/webrtc/base/httpbase.cc:651-658` | The empty chunk ends chunk mode and fits the buffer. |
| `HttpSending.HttpSender.Write` | `libwebrtcaec/src/main/jni/external/webrtc/base/httpbase.cc:684-704` | The network takes a non-empty part from the front of the buffer, or blocks, or fails; no character is lost or repeated. |
| `HttpSending.HttpSender.MoveToNetwork` | `libwebrtcaec/src/main/jni/external/webrtc/base/httpbase.cc:688-690` | Written characters leave the front of the buffer and become sent; sent and buffered characters together are unchanged. |
| `HttpSending.HttpSender.WriteOnce` | `libwebrtcaec/src/main/jni/external/webrtc/base/httpbase.cc:684-704` | A round goes on only if characters moved, or nothing had to be sent; it waits for the network only if that blocked with characters left, and closes only on an error. |
| `HttpSending.HttpSender.PumpOnce` | `libwebrtcaec/src/main/jni/external/webrtc/base/httpbase.cc:600-704` | One round of the pump: every outcome is the one its last network or document answer calls for, and a round that does not stop makes the rest of the work smaller. |
| `HttpSending.HttpSender.FillOrStop` | `libwebrtcaec/src/main/jni/external/webrtc/base/httpbase.cc:606-682` | What one round buffers before the write, and the reasons to stop there. |
| `HttpSending.HttpSender.Refill` | `libwebrtcaec/src/main/jni/external/webrtc/base/httpbase.cc:606-673` | What one round buffers, and which measure it makes smaller. |
| `HttpSending.HttpSender.FlushData` | `libwebrtcaec/src/main/jni/external/webrtc/base/httpbase.cc:588-706` | Over any partial writes, blocks and document reads the network gets a prefix of the message, in order and without loss. The pump finishes only when the network has all of it; it waits for the network only if that blocked with characters buffered, for the document only if that blocked with none buffered; every successful write moved characters. It terminates. |
| `HttpSending.SentMessageReadsBack` | `libwebrtcaec/src/main/jni/external/webrtc/base/httpbase.cc:588-706` | What a finished chunked send put on the wire drives the parser to exactly the leader, the headers as printed, less those that do not fit, and the document, and to nothing more. |
| `HttpSending.FinishedWire` | `libwebrtcaec/src/main/jni/external/webrtc/base/httpbase.cc:588-706` | What a finished send put on the wire: leader, the headers that were not dropped, an empty line, and the text, or its chunks and the last chunk. |
| `HttpSending.SentTextReadsBack` | `libwebrtcaec/src/main/jni/external/webrtc/base/httpbase.cc:588-706` | A finished send of a text behind headers that end with its length drives the parser to exactly this message. |
| `Base64.TablesAreInverse` | `libwebrtcaec/src/main/jni/external/webrtc/base/base64.cc:32-69` | The two tables are inverse on the alphabet, and nothing outside it decodes to a sextet. |
| `Base64Standard.AlphabetIs` | `libwebrtcaec/src/main/jni/external/webrtc/base/base64.cc:35-35` | The character of every index is that of the alphabet A to Z, a to z, 0 to 9, + and /. |
| `Base64Standard.DecodeTableIs` | `libwebrtcaec/src/main/jni/external/webrtc/base/base64.cc:41-69` | Only the equals sign is a pad, only six characters are white space, and alphabet characters have their index. |
| `Base64Standard.SameNumber` | `libwebrtcaec/src/main/jni/external/webrtc/base/base64.cc:109-134` | The four sextets of three bytes are the same 24-bit number: 2^18 q0 + 2^12 q1 + 2^6 q2 + q3 = 2^16 a + 2^8 b + c. |
| `Base64Standard.SameNumberBack` | `libwebrtcaec/src/main/jni/external/webrtc/base/base64.cc:228-240` | So are the three bytes of four sextets. |
| `Base64Standard.EncodingIsPositional` | `libwebrtcaec/src/main/jni/external/webrtc/base/base64.cc:98-136` | For any data and k: the k-th four characters of the encoding are alphabet characters with that number for the k-th three bytes, or for the one or two left, and then equals signs; the encoding has four characters for every three bytes begun. |
| `Base64Standard.TestVectors` | `libwebrtcaec/src/main/jni/external/webrtc/base/base64.cc:98-136` | The test vectors of section 10 of RFC 4648 for f, fo, foo and foobar. |
| `Base64.PackedBytes` | `libwebrtcaec/src/main/jni/external/webrtc/base/base64.cc:109-134` | Unpacking the four sextets of three bytes gives the bytes back. |
| `Base64.PackedSextets` | `libwebrtcaec/src/main/jni/external/webrtc/base/base64.cc:228-240` | Packing the three bytes of four sextets gives the sextets back. |
| `Base64.EncodeFromArray` | `libwebrtcaec/src/main/jni/external/webrtc/base/base64.cc:98-136` | The in-place loop fills the result with the encoding of section 4 of RFC 4648. |
| `Base64.EncodeQuantum` | `libwebrtcaec/src/main/jni/external/webrtc/base/base64.cc:108-135` | One round writes the four characters of the next one to three bytes. |
| `Base64.GetNextQuantum` | `libwebrtcaec/src/main/jni/external/webrtc/base/base64.cc:138-190` | The gathered sextets, the padded flag and the position, with illegal pads rolled back and the buffer zeroed behind the sextets, are those of the scan specification. |
| `Base64.ScanLoop` | `libwebrtcaec/src/main/jni/external/webrtc/base/base64.cc:143-176` | The loop computes the scan, character by character, in every parse mode. |
| `Base64.DecodeFromArray` | `libwebrtcaec/src/main/jni/external/webrtc/base/base64.cc:205-258` | Success, result and characters used are those of the specification, for every combination of flags. |
| `Base64.DecodeQuantum` | `libwebrtcaec/src/main/jni/external/webrtc/base/base64.cc:226-249` | One round contributes its bytes, and decides acceptability when it is the last. |
| `Base64.TakeBytes` | `libwebrtcaec/src/main/jni/external/webrtc/base/base64.cc:228-240` | The bytes of a quantum and the bits left over. |
| `Base64Modes.GroupDecodes` | `libwebrtcaec/src/main/jni/external/webrtc/base/base64.cc:226-240` | The sextets of a group decode to its bytes without unused bits. |
| `Base64Modes.EveryModeReadsEncodings` | `libwebrtcaec/src/main/jni/external/webrtc/base/base64.cc:205-258` | Every mode that allows pads reads encoder output completely and exactly; one that forbids them does so for lengths divisible by three. |
| `Base64Modes.EncodedDecodes` | `libwebrtcaec/src/main/jni/external/webrtc/base/base64.cc:205-258` | The same from any position of a text whose rest is encoder output. |
| `Base64Modes.StrictScanIsClean` | `libwebrtcaec/src/main/jni/external/webrtc/base/base64.cc:143-176` | The strict scan passes only data characters and then pads. |
| `Base64Modes.StrictSuccessIsEncoding` | `libwebrtcaec/src/main/jni/external/webrtc/base/base64.cc:205-258` | Whatever the strict mode accepts is the encoding of what it returns: canonical pads, no unused bits, nothing skipped. |
| `Base64Modes.StrictAcceptsExactlyEncodings` | `libwebrtcaec/src/main/jni/external/webrtc/base/base64.cc:205-258` | Strict decoding succeeds with a result if and only if the input is the encoding of that result. |
| `Base64Modes.EncodeInjective` | `libwebrtcaec/src/main/jni/external/webrtc/base/base64.cc:98-136` | Different data have different encodings. |
| `Base64Modes.AnyScanTakesAlphabet` | `libwebrtcaec/src/main/jni/external/webrtc/base/base64.cc:143-188` | The parse-any scan gathers the next four alphabet characters, wherever pads, space or illegal characters stand. |
| `Base64Modes.AnyModeSeesOnlyTheAlphabet` | `libwebrtcaec/src/main/jni/external/webrtc/base/base64.cc:205-258` | In parse-any mode two inputs with the same alphabet characters in the same order decode to the same bytes, also across quantum boundaries. |
| `Base64Modes.AnyModeFails` | `libwebrtcaec/src/main/jni/external/webrtc/base/base64.cc:205-258` | Where neither pads nor the end of the buffer are required, the parse-any mode fails if and only if the last alphabet characters leave bits over that are not zero, unless it may end inside a character. |
| `Base64Flags.WhiteScan` | `libwebrtcaec/src/main/jni/external/webrtc/base/base64.cc:143-176` | The scan that skips white space and the strict scan of the text without it gather the same sextets and pads and stop at the same character. |
| `Base64Flags.WhiteSpaceIsSkipped` | `libwebrtcaec/src/main/jni/external/webrtc/base/base64.cc:143-258` | For every pad and termination mode, decoding with white space allowed gives the bytes that strict decoding gives for the text without it, and succeeds if and only if that does, with one exception: if padding is required, a text without pads fails if it ends in white space. |
| `Base64Flags.TrailingSpace` | `libwebrtcaec/src/main/jni/external/webrtc/base/base64.cc:242-249` | White space behind an encoding: where padding is required, decoding succeeds if and only if the encoding has pads; where it is optional, always. |
| `Base64Flags.PadModesAcceptExactly` | `libwebrtcaec/src/main/jni/external/webrtc/base/base64.cc:205-258` | To the end of the buffer the strict parser accepts as an encoding of the data exactly: the encoding, unless pads are disallowed; the encoding without its pads, unless they are required; and, unless they are required, an encoding without pads followed by the letter A. |
| `Base64Flags.LoneLetterIsAccepted` | `libwebrtcaec/src/main/jni/external/webrtc/base/base64.cc:228-249` | The letter A alone is accepted, and is no encoding. |
| `Base64Flags.TermModes` | `libwebrtcaec/src/main/jni/external/webrtc/base/base64.cc:241-256` | The termination modes decode the same bytes from the same characters; the first succeeds if and only if the second does and all characters were used; the third does whenever the second does, and always if pads are not required. |
| `RotatingLog.NumRotatingLogFiles` | `libwebrtcaec/src/main/jni/external/webrtc/base/filerotatingstream.cc:392-398` | At least two files, and otherwise as many as fill half of the budget with files of 1048576 bytes. |
| `RotatingLog.RotatingFilesFit` | `libwebrtcaec/src/main/jni/external/webrtc/base/filerotatingstream.cc:383-398` | The rotating files are not empty and together fit half of the budget. |
| `RotatingLog.RotatingLogSize` | `libwebrtcaec/src/main/jni/external/webrtc/base/filerotatingstream.cc:383-390` | Below three megabytes for the rotating files two of them share half of the budget, to within a byte each; from there on each has 1048576 bytes. |
| `RotatingLog.FirstRotation` | `libwebrtcaec/src/main/jni/external/webrtc/base/filerotatingstream.cc:278-304` | The first full file becomes the last one of the ring. |
| `RotatingLog.LaterRotation` | `libwebrtcaec/src/main/jni/external/webrtc/base/filerotatingstream.cc:278-304` | A later rotation drops the oldest rotating file once the ring is full and never the first file. |
| `RotatingLog.RotationKeepsArrangement` | `libwebrtcaec/src/main/jni/external/webrtc/base/filerotatingstream.cc:278-304` | Whatever the number of rotations so far, rotating a full current file leads to the arrangement of one rotation more, with the same record of everything written. |
| `RotatingLog.CallSessionLog.constructor` | `libwebrtcaec/src/main/jni/external/webrtc/base/filerotatingstream.cc:354-364` | The log starts empty, with the first file sized half the budget. |
| `RotatingLog.CallSessionLog.Write` | `libwebrtcaec/src/main/jni/external/webrtc/base/filerotatingstream.cc:143-171` | Writes exactly what fits the current file, which makes progress, and rotates when that fills it; the arrangement of the files is kept over every run. |
| `RotatingLog.CallSessionLog.RotateFiles` | `libwebrtcaec/src/main/jni/external/webrtc/base/filerotatingstream.cc:278-304` | Rotation loses nothing that was written from the record and re-establishes the arrangement of the files. |
| `RotatingLog.CallSessionLog.RenameFiles` | `libwebrtcaec/src/main/jni/external/webrtc/base/filerotatingstream.cc:285-300` | The loop moves every file below the index up by one, drops the one at the index, and leaves the others. |
| `RotatingLog.CallSessionLog.OnRotation` | `libwebrtcaec/src/main/jni/external/webrtc/base/filerotatingstream.cc:370-381` | File size and rotation index follow the schedule given in closed form by the number of rotations. After the first one the size is the share of a rotating file in plain numbers, and it stays so; the index is the last one until the first file would be deleted, and one less from then on. |
| `RotatingLogReading.LogKeepsBeginningAndEnd` | `libwebrtcaec/src/main/jni/external/webrtc/base/filerotatingstream.cc:143-171` | With M the budget, N rotating files of size S and R what was written behind the first M/2 bytes: reading back returns the first M/2 bytes and then the last min(|R|, (N-1)*S + |R| mod S) bytes of R, in every reachable state; never more than M bytes. |
| `RotatingLogReading.WhatSurvives` | `libwebrtcaec/src/main/jni/external/webrtc/base/filerotatingstream.cc:143-171` | The same in plain numbers: for the N and S that the budget determines. |
| `RotatingLogReading.MostIsKept` | `libwebrtcaec/src/main/jni/external/webrtc/base/filerotatingstream.cc:143-171` | A text of up to three quarters of the budget is read back whole; of a longer one at least that much survives, with the first half of the budget and the last quarter. |
| `RotatingLogReading.FullRingReadsBack` | `libwebrtcaec/src/main/jni/external/webrtc/base/filerotatingstream.cc:278-304` | The same for the files of a full or filling ring. |
| `RotatingLogReading.TailOfRing` | `libwebrtcaec/src/main/jni/external/webrtc/base/filerotatingstream.cc:278-304` | The length of the tail kept is (N-1)*S plus the remainder modulo S, or everything if less was written. |
| `RotatingLogReading.LogReader.constructor` | `libwebrtcaec/src/main/jni/external/webrtc/base/filerotatingstream.cc:44-78` | A reader opened on the files has everything before it that reading back means. |
| `RotatingLogReading.LogReader.Read` | `libwebrtcaec/src/main/jni/external/webrtc/base/filerotatingstream.cc:93-141` | Reads never skip or repeat a byte, a read without data moves to the next file, and the end is reported only when everything was returned. |
| `RotatingLogReading.LogReader.ReadAll` | `libwebrtcaec/src/main/jni/external/webrtc/base/filerotatingstream.cc:93-141` | Reading to the end terminates and returns everything that was before the reader. |
| `RotatingLogReading.ReadLog` | `libwebrtcaec/src/main/jni/external/webrtc/base/filerotatingstream.cc:93-141` | Read to the end in portions of any size, a log of any history returns exactly the beginning and the end of everything written to it, and so all of it up to three quarters of the budget. |
| `RotatingLogReading.GetFilePath` | `libwebrtcaec/src/main/jni/external/webrtc/base/filerotatingstream.cc:326-345` | The loop builds the padded name. |
| `RotatingLogReading.FileNameExamples` | `libwebrtcaec/src/main/jni/external/webrtc/base/filerotatingstream.cc:326-345` | Names in logs of 10, 12, 13, 21 and 101 files, in literal characters. |
| `RotatingLogReading.FileNamesSort` | `libwebrtcaec/src/main/jni/external/webrtc/base/filerotatingstream.cc:326-345` | For any number of files, names sort like their indices, although the padding counts tens and not digits. |
| `TcpFraming.UnframeConcat` | `libwebrtcaec/src/main/jni/external/webrtc/base/asynctcpsocket.cc:278-297` | Later bytes never change a packet that is already complete: unframing a concatenation continues from the incomplete rest. |
| `TcpFraming.UnframeFrames` | `libwebrtcaec/src/main/jni/external/webrtc/base/asynctcpsocket.cc:249-261` | Framed packets unframe to the same packets with nothing left. |
| `TcpFraming.PrefixYieldsPrefix` | `libwebrtcaec/src/main/jni/external/webrtc/base/asynctcpsocket.cc:278-297` | A prefix of framed packets yields a prefix of the packets. |
| `TcpFraming.Sender.constructor` | `libwebrtcaec/src/main/jni/external/webrtc/base/asynctcpsocket.cc:51-74` | The sender starts with an empty buffer. |
| `TcpFraming.Sender.FlushOutBuffer` | `libwebrtcaec/src/main/jni/external/webrtc/base/asynctcpsocket.cc:151-166` | Bytes accepted by the socket leave the front of the buffer; accepted and buffered bytes together stay the same. |
| `TcpFraming.Sender.AppendToOutBuffer` | `libwebrtcaec/src/main/jni/external/webrtc/base/asynctcpsocket.cc:168-172` | The bytes go behind the buffered ones. |
| `TcpFraming.Sender.Send` | `libwebrtcaec/src/main/jni/external/webrtc/base/asynctcpsocket.cc:249-276` | Accepted and buffered bytes are always the frames of the packets signalled as sent; a packet is refused above 65538 bytes, dropped without effect while the buffer is busy or the socket refuses, or framed whole: its length in two bytes, the higher one first, and its bytes. |
| `TcpFraming.Sender.OnWriteEvent` | `libwebrtcaec/src/main/jni/external/webrtc/base/asynctcpsocket.cc:217-227` | Flushing keeps the frames; readiness is signalled exactly when the buffer is empty. |
| `TcpFraming.Receiver.constructor` | `libwebrtcaec/src/main/jni/external/webrtc/base/asynctcpsocket.cc:51-74` | The receiver starts with nothing received. |
| `TcpFraming.Receiver.OnReadEvent` | `libwebrtcaec/src/main/jni/external/webrtc/base/asynctcpsocket.cc:178-215` | For any read size everything received is accounted for as delivered packets and one incomplete frame; there is always room to read and the overflow branch is unreachable. |
| `TcpFraming.Receiver.ProcessInput` | `libwebrtcaec/src/main/jni/external/webrtc/base/asynctcpsocket.cc:278-297` | Delivers exactly the complete packets at the front, keeps the rest, which is a proper prefix of one frame, and terminates. |
| `TcpFraming.Receiver.DeliverPacket` | `libwebrtcaec/src/main/jni/external/webrtc/base/asynctcpsocket.cc:287-295` | One packet is delivered and its frame leaves the buffer. |
| `TcpFraming.Connection.constructor` | `libwebrtcaec/src/main/jni/external/webrtc/base/asynctcpsocket.cc:35-74` | A fresh connection has nothing sent, delivered or in flight. |
| `TcpFraming.Connection.Send` | `libwebrtcaec/src/main/jni/external/webrtc/base/asynctcpsocket.cc:249-276` | Sending keeps the two ends joined; at most this packet becomes sent, and none while the buffer is busy. |
| `TcpFraming.Connection.Writable` | `libwebrtcaec/src/main/jni/external/webrtc/base/asynctcpsocket.cc:217-227` | A write event keeps the two ends joined. |
| `TcpFraming.Connection.Readable` | `libwebrtcaec/src/main/jni/external/webrtc/base/asynctcpsocket.cc:178-215` | A read event of any size keeps the two ends joined, and delivered packets are never taken back. |
| `TcpFraming.DeliveredIsAPrefixOfSent` | `libwebrtcaec/src/main/jni/external/webrtc/base/asynctcpsocket.cc:151-297` | In every reachable state the packets delivered are a prefix of those sent, unaltered and in order, and all of them when nothing is buffered or in flight. |
| `Profiles.FindIsFirst` | `libwebrtcaec/src/main/jni/native/profiles_management.c:123-130` | The search yields the first match, or there is none. |
| `ProfileReading.ReadingFails` | `libwebrtcaec/src/main/jni/native/profiles_management.c:123-173` | Reading fails if the token does not occur, or no assignment to the parameter stands between its first occurrence and the next opening bracket; and only then, if no end of the parameter is its beginning. |
| `ProfileReading.OverlapIsMissed` | `libwebrtcaec/src/main/jni/native/profiles_management.c:153-173` | For every other parameter without an equals sign, a section that assigns it and in which it is not found. |
| `ProfileReading.ReadingSucceeds` | `libwebrtcaec/src/main/jni/native/profiles_management.c:176-187` | A value read stands behind an assignment to the parameter in the section at the first occurrence of the token: behind the first equals sign, up to the end of the line, of the section, or of the text. |
| `ProfileReading.WrittenText` | `libwebrtcaec/src/main/jni/native/profiles_management.c:233-281` | A new section in literal characters, alone and behind a text. |
| `Profiles.ProfileFile.constructor` | `libwebrtcaec/src/main/jni/native/profiles_management.c:233-236` | There is no file at first. |
| `Profiles.ProfileFile.ReadProfile` | `libwebrtcaec/src/main/jni/native/profiles_management.c:74-196` | Returns the value and its length, or -1, as the text defines it. |
| `Profiles.ProfileFile.SearchParameter` | `libwebrtcaec/src/main/jni/native/profiles_management.c:153-173` | The loop finds the first whole match followed by an equals sign, and terminates. |
| `Profiles.ProfileFile.WriteProfile` | `libwebrtcaec/src/main/jni/native/profiles_management.c:207-346` | The file becomes the updated text: line replaced, inserted at the end of the section, or in a new section or file. |
| `ProfileRoundTrip.ReplacedReadsBack` | `libwebrtcaec/src/main/jni/native/profiles_management.c:313-330` | A replaced line reads back. |
| `ProfileRoundTrip.InsertedReadsBack` | `libwebrtcaec/src/main/jni/native/profiles_management.c:333-346` | A line inserted at the end of the section reads back. |
| `ProfileRoundTrip.NewSectionReadsBack` | `libwebrtcaec/src/main/jni/native/profiles_management.c:271-281` | A new section reads back. |
| `ProfileRoundTrip.MisdirectedReadIsUnchanged` | `libwebrtcaec/src/main/jni/native/profiles_management.c:125-125` | When the token occurs before its header, in an earlier section, writing has no effect on what reading returns. |
| `ProfileRoundTrip.ReadAfterWrite` | `libwebrtcaec/src/main/jni/native/profiles_management.c:123-187` | Reading after writing returns the value if and only if the first occurrence of the token is that of its header, or the value was already what the other section returns; in all three cases of writing. |
| `ProfileRoundTrip.ReadBehindEarlierToken` | `libwebrtcaec/src/main/jni/native/profiles_management.c:125-125` | If the token occurs earlier in the section of its own header, the written value reads back when no occurrence of the parameter begins between the two. |
| `ProfileRoundTrip.WrittenValueIsLost` | `libwebrtcaec/src/main/jni/native/profiles_management.c:125-125` | A file and a token for which the value just written is not found. |
| `ProfileRoundTrip.OnlyOneLineChanges` | `libwebrtcaec/src/main/jni/native/profiles_management.c:264-346` | All text outside one line is unchanged. If the parameter is assigned in the section of the token, what is taken out is that assignment and what is put in is the line; otherwise nothing is taken out, and the line is put in at the end of the section, or a new section at the end of the text. |
| `CacheAccounting.SumWithout` | `libwebrtcaec/src/main/jni/external/webrtc/base/diskcache.cc:214-224` | The sum over the entries can be taken in any order. |
| `CacheAccounting.BytesWithoutStream` | `libwebrtcaec/src/main/jni/external/webrtc/base/diskcache.cc:118-134` | Taking one idle stream out of the account takes out exactly the size of its file. |
| `CacheStreams.AccessorsAreOpenStreams` | `libwebrtcaec/src/main/jni/external/webrtc/base/diskcache.cc:113-171` | The sum of the accessor counts is the number of streams handed out and not yet released. |
| `CacheStreams.NeverBoth` | `libwebrtcaec/src/main/jni/external/webrtc/base/diskcache.cc:99-171` | Readers and writers of one resource are never open together. |
| `CacheStreams.BytesTakenOut` | `libwebrtcaec/src/main/jni/external/webrtc/base/diskcache.cc:118-133` | Opening an idle stream for writing takes exactly the size of its file out of the bytes at rest. |
| `CacheStreams.OpenedSurplus` | `libwebrtcaec/src/main/jni/external/webrtc/base/diskcache.cc:118-133` | By how much a size exceeds the bytes on disk after a stream was opened for writing: unchanged if its bytes were in the account, and lowered by them if the file was being written already. |
| `CacheStreams.ReleasedSurplus` | `libwebrtcaec/src/main/jni/external/webrtc/base/diskcache.cc:323-335` | Releasing a writer raises the surplus by the size of its file exactly while another stream still writes that file: a file is counted once for each of its writers. |
| `CacheStreams.OpenedMatches` | `libwebrtcaec/src/main/jni/external/webrtc/base/diskcache.cc:113-134` | Sizes that match the bytes on disk still do after a stream was opened for writing, if and only if no open stream writes the same file, or the file or the entry is empty; in the first case the assertion of line 122 holds. |
| `CacheStreams.ReleasedMatches` | `libwebrtcaec/src/main/jni/external/webrtc/base/diskcache.cc:316-341` | They still do after a stream was released, if and only if it was a reader, or no other stream writes the file, or the file is empty. |
| `CacheStreams.ErasedMatches` | `libwebrtcaec/src/main/jni/external/webrtc/base/diskcache.cc:196-211` | They still do after an entry was erased, and no file is forgotten, if and only if all its files are gone. |
| `CacheLimiting.FindVictim` | `libwebrtcaec/src/main/jni/external/webrtc/base/diskcache.cc:226-242` | The search finds the oldest entry from the first idle one on, idle or not, with the tie rule of the post-increment; or no idle entry; or it reads behind the end, exactly if the first idle entry is the last of the map. |
| `CacheLimiting.OldestFrom` | `libwebrtcaec/src/main/jni/external/webrtc/base/diskcache.cc:238-242` | The second loop finds the oldest entry, beginning with the successor of the first idle one. |
| `CacheLimiting.SearchIsDetermined` | `libwebrtcaec/src/main/jni/external/webrtc/base/diskcache.cc:226-242` | The search has exactly one outcome for each state of the map. |
| `CacheLimiting.LimitIsDetermined` | `libwebrtcaec/src/main/jni/external/webrtc/base/diskcache.cc:214-249` | The whole check has one outcome: entries, order, times and the files that can be deleted determine the evictions, in order, and the result. |
| `CacheLimiting.EvictedWereIdle` | `libwebrtcaec/src/main/jni/external/webrtc/base/diskcache.cc:214-249` | Only unlocked entries without open streams are evicted, all others stay as they were, and the check succeeds if and only if the limit is met and every file was deleted. |
| `CacheLimiting.FailsOnlyWithoutIdle` | `libwebrtcaec/src/main/jni/external/webrtc/base/diskcache.cc:214-249` | If every entry in use is newer than every idle one and idle files can be deleted, the check fails only when no idle entry is left. |
| `CacheLimiting.AllIdleIsLimited` | `libwebrtcaec/src/main/jni/external/webrtc/base/diskcache.cc:214-249` | If all entries are idle and can be deleted, the check never fails, and reads behind the end if and only if it is left with one entry that alone is over the limit. |
| `CacheLimiting.NewestDecides` | `libwebrtcaec/src/main/jni/external/webrtc/base/diskcache.cc:214-249` | In such a cache with one newest entry, the check succeeds if and only if that entry is within the limit. |
| `CacheRuns.TwoWriters` | `libwebrtcaec/src/main/jni/external/webrtc/base/diskcache.cc:113-345` | A run after which a file of five bytes is counted as ten, with no stream open. |
| `CacheRuns.ForgottenFile` | `libwebrtcaec/src/main/jni/external/webrtc/base/diskcache.cc:188-212` | A run after which a file exists that belongs to no entry. |
| `CacheRuns.UnlockOneFile` | `libwebrtcaec/src/main/jni/external/webrtc/base/diskcache.cc:141-154` | A run with one file of five bytes, in which unlocking reads behind the end of the map if and only if the limit is below five. |
| `CacheRuns.LockFails` | `libwebrtcaec/src/main/jni/external/webrtc/base/diskcache.cc:99-111` | A run in which a lock is refused and nothing evicted, although an idle entry is over the limit, because the search prefers an entry in use. |
| `CacheRuns.EvictedByItsLock` | `libwebrtcaec/src/main/jni/external/webrtc/base/diskcache.cc:105-110` | A run in which the limit check evicts the entry that is being locked. |
| `DiskCaching.DiskCache.constructor` | `libwebrtcaec/src/main/jni/external/webrtc/base/diskcache.cc:62-63` | An empty cache satisfies the invariant. |
| `DiskCaching.DiskCache.LockResource` | `libwebrtcaec/src/main/jni/external/webrtc/base/diskcache.cc:99-111` | Refused, without any change, on locked entries and on entries being read; otherwise the outcome is that of LockEntry on the entries with a new one created for the id. A lock that is taken leaves the entry locked and otherwise as it was, or as new. Within the limit exactly the lock state changes. |
| `DiskCaching.DiskCache.LockEntry` | `libwebrtcaec/src/main/jni/external/webrtc/base/diskcache.cc:105-110` | The evictions and the result of the limit check; locked if and only if the limit is met and the entry was not evicted itself; not defined if and only if the check read behind the end, or evicted the entry and met the limit. The sizes stay right exactly if all files of evicted entries could be deleted. |
| `DiskCaching.DiskCache.WriteResource` | `libwebrtcaec/src/main/jni/external/webrtc/base/diskcache.cc:113-139` | Opens a stream if and only if the entry is locked and the file opens; one more accessor, the stream counted and the bytes of its file taken out; the file is empty, and the open streams have one more. Sizes that match the bytes on disk still match if and only if no open stream writes the same file, or the file or the entry is empty. |
| `DiskCaching.DiskCache.OpenWriter` | `libwebrtcaec/src/main/jni/external/webrtc/base/diskcache.cc:118-133` | The account and the counters of a stream opened for writing. |
| `DiskCaching.DiskCache.UnlockResource` | `libwebrtcaec/src/main/jni/external/webrtc/base/diskcache.cc:141-154` | The lock ends at once, with the evictions and the result of the limit check, or when the last writer is released. The sizes stay right exactly if all files of evicted entries could be deleted. |
| `DiskCaching.DiskCache.ReadResource` | `libwebrtcaec/src/main/jni/external/webrtc/base/diskcache.cc:156-171` | Opens a stream if and only if the entry is unlocked, the stream exists and the file opens; one more accessor, and the sizes match after it exactly if they did before. |
| `DiskCaching.DiskCache.DeleteResource` | `libwebrtcaec/src/main/jni/external/webrtc/base/diskcache.cc:188-212` | Only idle unlocked entries are erased, together with their files; nothing else changes. It succeeds if and only if there is no entry, or it is idle and all its files can be deleted; sizes that were right stay right, and no file is forgotten, exactly then. |
| `DiskCaching.DiskCache.DeleteFiles` | `libwebrtcaec/src/main/jni/external/webrtc/base/diskcache.cc:197-208` | The loop deletes files of this resource only, and all of them if and only if none of them refuses. |
| `DiskCaching.DiskCache.CheckLimit` | `libwebrtcaec/src/main/jni/external/webrtc/base/diskcache.cc:214-249` | Terminates, evicts exactly the entries that the search finds and that are idle, one after the other, while over the limit, and ends as the files, the search or the end of the map require; sizes stay right exactly if all files of evicted entries could be deleted. Within the limit it does nothing. |
| `DiskCaching.DiskCache.EvictNext` | `libwebrtcaec/src/main/jni/external/webrtc/base/diskcache.cc:226-246` | One round: it evicts one more entry, or ends the check with the reason that the state gives. |
| `DiskCaching.DiskCache.EvictFound` | `libwebrtcaec/src/main/jni/external/webrtc/base/diskcache.cc:243-246` | The victim found is evicted if and only if it is idle, and the round stops if and only if it is not, or a file of it cannot be deleted. |
| `DiskCaching.DiskCache.Store` | `libwebrtcaec/src/main/jni/external/webrtc/base/diskcache.cc:113-139` | Data written through an open stream changes its file and keeps the account exact. |
| `DiskCaching.DiskCache.ReleaseResource` | `libwebrtcaec/src/main/jni/external/webrtc/base/diskcache.cc:316-345` | The entry of an open stream is always there; counters and sizes are settled. After the last writer of an unlocking resource, its entry is unlocked, without accessors and with the present time, unless the limit check that follows evicted it; after any other stream it has one accessor less and the bytes written. Settled sizes match if and only if a reader was released, or no other stream writes the file, or the file is empty. |
| `DiskCaching.DiskCache.Settle` | `libwebrtcaec/src/main/jni/external/webrtc/base/diskcache.cc:324-341` | The counters, the size and the lock state after a stream is gone, and when the sizes still match. |

## Left out

- HTTP: an unconnected stream, the complete state and its callback, `DocumentStream`, and a send without a
  document. Without a document and with a blocked network the pump would not return, so `HttpSender` always
  has one.
- HttpParsing.HttpParser.ProcessData: a sink that succeeds and takes nothing is excluded; the source's loop
  would present the same data to it for ever.
- HttpSending.Document.Read: a document that succeeds and yields nothing is excluded, which in the source
  would be buffered as an empty chunk and so end the message early.
- HttpSending.HttpSender.Write: a network that succeeds and takes nothing is excluded; the source's pump
  need not end then.
- HTTP: a line is taken to be followed by its newline when the number parser runs over it; reading on behind
  an unterminated buffer is not modelled.
- HttpSending.HttpSender.constructor: requires the leader line and the end of the headers to fit the buffer,
  because the source truncates them silently.
- BitBuffers.BitBuffer.WriteBits: excludes counts of 0 and above 64, which shift by the register width or
  write outside the register. The byte-wise `ReadUInt` and `WriteUInt` wrappers add nothing.
- BitBuffers.BitBuffer.PeekBits: excludes no bits at the very end, where the source reads one byte too far.
- BitBuffers.BitBuffer.ReadBits: excludes the same call.
- TcpFraming.Sender.Send: excludes lengths of 65536 to 65538, which pass the size test and then break the
  source's own assertion. Listening sockets and `SendRaw` are left out.
- TcpFraming.Connection.Send: excludes the same lengths.
- RotatingLogReading.LogReader.Read: opening and reading a file that is there succeed.
- RotatingLog.CallSessionLog.Write: all file operations succeed, and the directory is not searched for
  foreign files with the same prefix; buffering and flushing are left out.
- Profiles.ProfileFile.WriteProfile: requires a newline behind a matched parameter, where the source would
  use a null pointer. The fixed buffers of 100 and 256 characters, allocation failures, locks and a text
  buffer without a terminating NUL are left out.
- ProfileRoundTrip.ReadAfterWrite: requires names and values that cannot be taken for structure (no bracket
  or newline in them, no equals sign in the name, no assignment to the parameter inside the token), a
  section that ends in a newline, and that an earlier occurrence of the token lies in an earlier section.
  For one in the section of the header itself `ReadBehindEarlierToken` gives a condition that is sufficient
  only.
- DiskCaching.DiskCache.LockResource: nothing is claimed about what happens after an outcome that C++ does
  not define. Unknown ids, which other operations dereference, are excluded by precondition there.
- DiskCaching.DiskCache.CheckLimit: sizes are unbounded. `Purge` clears the entries without the total and is
  left out, as are `Initialize`, file names and `CacheLock`.
- `bytebuffer.cc` and the URL functions of `httpcommon-inl.h`: their round trips are easier than the ones
  proved here.
- The native echo-canceller glue, real files, sockets, threads, clocks, logging and signal dispatch.
