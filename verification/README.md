# php-memcached: a verified model

A Dafny model of the parts of php-memcached that compress, encode, lock and stream, with proofs
of what they promise. `dafny verify dfyconfig.toml` checks the whole project.

**FastLZ.** `Lz77` gives a compressed stream its meaning: a list of tokens, each adding literal
bytes or an overlapping copy. `FastLzFormat` is the byte layout at both levels, with a parser that
is proved to invert the encoder. `FastLzScan` is the compressor's greedy search as a function to
tokens, for an arbitrary hash function; its tokens expand to the input, and `FastLzSize` bounds
their size. `FastLzCompressor` and `FastLzDecoder` are the imperative routines over arrays: hash
table updated in place, back-patched control bytes, three copy loops. Each is proved equal to its
specification, and `FastLz` joins them in the round trip.

**Values.** `GFmt` prints a float from its digits in three layouts and the text is proved to read
back as exactly that number. `Payload` and `PayloadCodec` turn a PHP value into payload and flag
word, with optional compression, and back; FastLZ is used concretely, while zlib, zstd, the
serializers and the float/digit conversions are abstract inverse pairs (`Payload.Sound`).
`CNumbers` models strtol and strtoull; `CasToken` carries 64-bit tokens through PHP values.

**Sessions.** `SessionProtocol` is a state machine of any number of clients over one store, one
server operation or local assignment at a time. Server operations may fail with or without having
taken effect, and entries may expire. `SessionHandler` holds the handlers themselves; their
operations are proved to be steps of the protocol's client, whatever the server answers.
`SessionSystem` puts the two together: any interleaving of handler logs that a server can answer is
a run of the protocol.

**Multi-get and writes.** `ResultStream` is the fetch-decode-callback loop, `MultiGet` the key list
and the result array, `WriteRetry` the write loop.

## Assumptions

- FastLZ: pointers are 64-bit; input lengths are at most INT_MAX. The decoder's 32-bit length
  counter wraps. Match bytes are read without comparing with the end of the input: such reads see
  the memory behind the input, given as part of `mem`, and zero beyond that. The byte behind the
  compressor's input is `pad`. The header asks for an output buffer of at least 66 bytes and five
  per cent more than the input; `n + n/32 + 1` bytes are proved enough.
- Sessions: every client locks; READ starts with `is_locked` clear; WRITE and DESTROY follow a
  successful READ of the same session, as PHP's session module calls them; session ids contain no dot.
  Exclusion is proved for runs in which no lock entry expires or is evicted while its client holds it
  (`SessionProtocol.Undisturbed`).
- Payloads: a float is infinite, not-a-number without sign, or finite with at most 17 digits and a
  three-digit exponent that round back to it. Real arithmetic stands for the C doubles of the
  buffer size and the compression factor.
- CAS tokens: a PHP integer is 64 bits.

## Where the code falls short of a natural reading

- The header calls FastLZ decompression memory safe. Nothing is written outside `maxout`, but a match
  token cut off by the end of the input is read from the memory behind it, and that memory can decide
  the answer (`FastLzDecoder.ByteBehindDecides`). Reading stays inside if and only if the input is not
  empty and no token met reaches past its end (`FastLzDecoder.ReadsInsideIff`); for input that is
  accepted these are all its tokens (`FastLzDecoder.AcceptedReadsInsideIff`), of which only the last
  can reach past (`FastLzFormat.WalkEndsAtEnd`). What the compressor writes always meets the condition
  (`FastLz.StreamReadsInside`).
- At level One the decoder reads at most two bytes behind its input (`FastLzDecoder.TopOneBound`); at
  level Two there is no limit (`FastLzDecoder.TopTwoUnbounded`).
- The compressor, too, can read behind its input: one byte, for a hash. It does so if and only if its
  level Two scan comes to stand thirteen bytes before the end and finds there a far match that covers
  all of them but the last (`FastLzScan.ReadsPastIff`, with an input in `FastLzScan.EncoreReadsPast`).
  The byte leaves no trace in the stream (`FastLzCompressor.BehindLeavesNoTrace`).
- When a lock entry expires under its holder, another client can come to hold the session too. After a
  run without such an accident the expiry of an entry makes that possible if and only if the entry was
  held (`SessionProtocol.ExpiryBreaksIff`). The first client's unlock, which does not ask whose entry it
  is, then removes that of the second (`SessionProtocol.ForeignDelete`, `SessionProtocol.ForeignDeleteRun`).
- A stored length above INT_MAX becomes a negative `maxout` for FastLZ, so such a payload is always
  refused (`Payload.HugeRefused`).
- Even when no lock expires under its holder: `is_locked` is cleared only after the server has answered
  the delete, so two clients can have it set for one session (`SessionProtocol.TwoFlags`, `SessionProtocol.FlagExclusion`). With another
  client idle, a flagged client can be joined by an owner of the same lock without doing anything
  itself if and only if it is between its delete and the assignment (`SessionProtocol.FlagSharedIff`);
  owning the lock entry itself is then exclusive at every step.
- A JSON or msgpack item that cannot be decoded is not reported as such: whatever the decoder left
  behind is returned. Failures are noticed if and only if the type code is that of PHP's own serializer
  or igbinary (`Payload.InterpretExact`).
- `fetch` takes a decodable result off the stream and returns false when an undecodable one came
  before it (`ResultStream.UndecodableHidesNext`) or when a return code up to it, its own included, is
  an error; it returns the result if and only if neither is the case (`ResultStream.FetchKeepsIffClean`).
- A retried by-key write loses its server key (`WriteRetry.KeyLost`): every request keeps it if and
  only if the first answer is no error, there are no servers, or no retry is allowed
  (`WriteRetry.KeyKeptIffNotRetried`).
- The CAS parser takes a leading zero for octal, so "010" is read as 8 and "08" is refused
  (`CasToken.LeadingZeroExamples`). A digit string is read as its decimal value if and only if that
  value fits 64 bits and the string has no leading zero or is below 8 (`CasToken.DecimalReadIff`).
  Tokens never print a leading zero.

## Model

| member | source | states |
|---|---|---|
| FastLz.LevelRoundTrip | fastlz/fastlz.h:76-91 | At either level, for every non-empty input, hash function and memory behind the stream, decoding (directly or by detected level) gives the input when it fits and is rejected when it does not |
| FastLz.RoundTrip | fastlz/fastlz.c:130-152 | The automatic-level compressor and decompressor invert each other with `maxout` equal to the input length, within the size bound |
| FastLz.EmptyStream | fastlz/fastlz.c:180-193 | Only the empty input compresses to zero bytes, and a zero-byte stream is always rejected |
| FastLz.Compress | fastlz/fastlz.c:130-138 | The level-1 stream below 65536 bytes and the level-2 stream from there on, in a buffer of only `n + n/32 + 1` bytes |
| FastLz.CompressLevel | fastlz/fastlz.c:154-162 | The chosen level's stream, or 0 and an untouched buffer for an unknown level |
| FastLz.FirstByte | fastlz/fastlz.c:143-193 | The first byte of a stream shows its level, except that fewer than four bytes are a bare literal at either level |
| FastLz.EqualBytesShrink | fastlz/fastlz.c:130-138 | For any hash, equal bytes shrink to three bytes in 262 below 65536 and one in 255 from there on, and ten more |
| FastLz.Decompress | fastlz/fastlz.c:140-152 | On arbitrary bytes: 0 or the exact positive count written, 0 for an unknown level, nothing outside the first `maxout` bytes changes, and how far the input and the memory behind it are read |
| FastLz.StreamReadsInside | fastlz/fastlz.h:58-67 | Decoding what the compressor wrote reads no byte behind it, at either level and for any room |
| FastLzCompressor.Compress | fastlz/fastlz.c:166-418 | The imperative compressor writes exactly the marked stream of the scan's tokens, stays within the bound, and tells whether the byte behind the input was read |
| FastLzCompressor.BehindLeavesNoTrace | fastlz/fastlz.c:371-375 | The stream is the same whatever byte lies behind the input |
| FastLzCompressor.Turn | fastlz/fastlz.c:206-391 | One iteration of the main loop is one step of the scan: same match or literal, same table, same bytes, and `ip` strictly advances |
| FastLzCompressor.Look | fastlz/fastlz.c:217-256 | Run check, table lookup and the 3- or 5-byte comparison agree with the scan's search |
| FastLzCompressor.ExtendMatch | fastlz/fastlz.c:274-289 | Eight comparisons and then up to two bytes before the end find the first byte that breaks the match; `ip` is one past it |
| FastLzCompressor.ExtendRun | fastlz/fastlz.c:267-273 | The single-byte comparison loop finds where the run ends, with the same overshoot |
| FastLzCompressor.EmitMatchOne | fastlz/fastlz.c:349-368 | Long level-1 matches go out as pieces of 262 bytes with one distance, then the rest |
| FastLzCompressor.EmitMatchTwo | fastlz/fastlz.c:307-346 | Level-2 matches near and far, short and 255-chained, are the token's encoding |
| FastLzCompressor.CloseRun | fastlz/fastlz.c:291-297 | The back-patched or cancelled control byte leaves exactly the encoding of the closed tokens |
| FastLzScan.MatchEndUnique | fastlz/fastlz.c:262-304 | The match end is the only position with everything before it repeating and, short of the cap, a break at it |
| FastLzScan.Find | fastlz/fastlz.c:214-256 | Under "every slot lies before `ip`", each hit has a distance in range, at least 3 bytes (5 if far) and bytes equal to those it refers to; the table keeps lying behind |
| FastLzScan.LiteralIff | fastlz/fastlz.c:214-256 | A byte becomes a literal exactly where nothing matches: no level-2 run, and the table's position out of reach, or different in three bytes, or far and different in the next two |
| FastLzScan.MatchIsLongest | fastlz/fastlz.c:262-304 | Any other step is a match of which every byte repeats, and which ends only at a byte that does not or at the comparison's limit near the end |
| FastLzScan.MatchTaken | fastlz/fastlz.c:291-369 | That match, at that distance, follows the closed literals |
| FastLzScan.MatchRecorded | fastlz/fastlz.c:230-376 | The table gains the match's start, unless it is a run, and the last two positions it covers |
| FastLzScan.MatchTokensAre | fastlz/fastlz.c:349-368 | One token at level 2; at level 1 pieces of 262 bytes and a rest of at most 264, all at one distance |
| FastLzScan.Step | fastlz/fastlz.c:206-391 | Every step keeps the scan valid and strictly advances, whatever the hash |
| FastLzScan.ReadsPastIff | fastlz/fastlz.c:371-375 | The byte behind the input is read if and only if the level-2 scan stops 13 bytes before the end at a far match covering all of them but the last |
| FastLzScan.StepReadsPastIff | fastlz/fastlz.c:262-375 | The same for one turn of the main loop, from any state of the table |
| FastLzScan.EncoreReadsPast | fastlz/fastlz.c:371-375 | An input of more than 65536 bytes and a hash function for which the byte is read |
| FastLzScan.TokensFaithful | fastlz/fastlz.c:195-410 | For every input, hash and level the tokens are encodable and expand to the input |
| FastLzScan.MatchTokensExpand | fastlz/fastlz.c:349-368 | Splitting a match into pieces does not change what it expands to |
| FastLzSize.MatchPays | fastlz/fastlz.c:306-369 | Every match is at least one byte longer than its encoding |
| FastLzSize.StepCompact | fastlz/fastlz.c:206-391 | Each step keeps the closed tokens within 33 output bytes per 32 input bytes |
| FastLzSize.PositionBound | fastlz/fastlz.c:199-410 | After any number of turns of the main loop and any number of trailing literals the write position is at most `i + i/32 + 1` for `i` bytes consumed |
| FastLzSize.TokensSize | php_memcached.c:913-925 | The whole stream fits in `n + n/32 + 1` bytes for every `n` |
| FastLzSize.EqualBytesShrink | fastlz/fastlz.c:206-391 | The size of equal bytes at each level, for any hash |
| FastLzFormat.ParseInverts | fastlz/fastlz.c:426-463 | Reading a finished stream gives back its tokens at both levels, marked or not, whatever lies behind it |
| FastLzFormat.WalkEndsAtEnd | fastlz/fastlz.c:472-546 | Of the tokens met only the last can reach the end of the input or past it |
| FastLzFormat.ReadNearInverts | fastlz/fastlz.c:455-458 | A near match is never mistaken for the far escape |
| FastLzFormat.ReadFarInverts | fastlz/fastlz.c:455-462 | A far match comes back with its full 16-bit remainder |
| FastLzFormat.ReadChainInverts | fastlz/fastlz.c:446-451 | A 255-chained length adds up to the length it was written from |
| FastLzFormat.LengthBytes | fastlz/fastlz.c:307-368 | The number and values of the bytes that hold an encoded match's length, at both levels |
| FastLzFormat.DistanceBytes | fastlz/fastlz.c:307-368 | The distance in 13 bits, or behind the escape as two bytes, high byte first |
| FastLzFormat.ReadChainIs | fastlz/fastlz.c:446-451 | On arbitrary bytes a chain ends at the first byte that is not 255 and adds up modulo 2^32 |
| FastLzFormat.ReadMatchOneIs | fastlz/fastlz.c:436-444 | Length, distance and next position of any level-1 match, from its bytes |
| FastLzFormat.ReadMatchTwoIs | fastlz/fastlz.c:436-463 | The same at level 2, with chain and escape |
| FastLzDecoder.Decompress | fastlz/fastlz.c:420-549 | For any bytes, level and room: the result is the expansion of the parsed tokens if that exists and fits, else 0; only the first `maxout` bytes are written; bytes are read exactly as far as `Top` says |
| FastLzDecoder.ReadsInsideIff | fastlz/fastlz.c:429-475 | No byte outside the input is read if and only if the input is not empty and no token the decoder meets reaches past its end |
| FastLzDecoder.AcceptedReadsInsideIff | fastlz/fastlz.c:429-475 | For input that decodes: if and only if no token of it reaches past the end |
| FastLzDecoder.TopOneBound | fastlz/fastlz.c:440-444 | At level 1 at most two bytes behind a non-empty input are read, for any bytes and room |
| FastLzDecoder.TopTwoUnbounded | fastlz/fastlz.c:446-451 | At level 2 a three-byte input can be read arbitrarily far past its end; at level 1 the same input is read exactly two bytes past it |
| FastLzDecoder.DecodeDependsOnRead | fastlz/fastlz.c:420-549 | Memories that agree on the bytes read give the same answer and are read equally far |
| FastLzDecoder.InputDecides | fastlz/fastlz.h:58-67 | When no met token reaches past the end, the answer is the same whatever lies behind the input |
| FastLzDecoder.ByteBehindDecides | fastlz/fastlz.c:440-454 | A three-byte input that is accepted or rejected according to the byte behind it |
| FastLzDecoder.ReadReference | fastlz/fastlz.c:440-463 | The in-place reading of length and distance bytes gives the parsed match |
| FastLzDecoder.CopyMatch | fastlz/fastlz.c:478-525 | Run fill, byte loop and word loop all equal the overlapping byte-by-byte copy |
| FastLzDecoder.CopyWords | fastlz/fastlz.c:500-520 | Sixteen bits at a time with an odd byte first is a byte-by-byte copy when the distance is at least 2 |
| FastLzDecoder.FillRun | fastlz/fastlz.c:478-487 | Filling with one byte is the copy at distance 1 |
| FastLzDecoder.DecodeNonEmpty | fastlz/fastlz.h:58-67 | Whatever decodes has at least one byte, so 0 always means rejection |
| Lz77.RepeatUnique | fastlz/fastlz.c:494-523 | Only one output repeats itself at a distance over a stretch, so equal periodicity means equal bytes |
| Lz77.ExpandConcat | fastlz/fastlz.c:429-546 | Expansion of a token list is expansion of its parts one after the other |
| GFmt.Format | g_fmt.c:32-106 | The buffer holds the text for the digits and point, then NUL |
| GFmt.TextExact | g_fmt.c:52-98 | In all layouts the text is a literal with the right sign and exactly the value 0.digits times ten to the decpt |
| GFmt.ScientificShape | g_fmt.c:52-83 | With `decpt` at most -4, or more than five above the digit count, there is an exponent: a signed one of two digits at least and no more than needed, behind the digits with a point after the first |
| GFmt.PlainShape | g_fmt.c:84-98 | Otherwise the digits are written out with zeros and a point as `decpt` says, and nothing else |
| GFmt.TextSize | php_memcached.c:1108-1113 | Text and terminator take at most eight bytes more than the digits for exponents under 1000 |
| GFmt.PutExponent | g_fmt.c:74-82 | The scaled-division loop prints the exponent in decimal with at least two digits |
| GFmt.ExponentDigit | g_fmt.c:75-81 | Dividing the scaled remainder by one power of ten yields exactly the next digit and remainder |
| Payload.ValueRoundTrip | php_memcached.c:1083-1164 | For every value and option setting, what was stored decodes to the value and the user flags come back |
| Payload.RawExact | php_memcached.c:1088-1139 | Bytes and type code of every kind of value; only a failing serializer stores nothing |
| Payload.EncodeExact | php_memcached.c:1141-1164 | Compression is tried for strings and serialized values of at least the threshold, and the item is the length and a copy that pays, or the bytes; the flag word is type, compression bits and user flags |
| Payload.ShrinkExact | php_memcached.c:978-1002 | A copy replaces the payload exactly when the algorithm produces one that the payload is more than the factor times as long as |
| Payload.SqueezeExact | php_memcached.c:918-981 | Which algorithm runs with which level, room and flag bit, and the comparison with the factor |
| Payload.LengthBytes | php_memcached.c:989-991 | The stored length is four bytes, the lowest first |
| Payload.InflatesExact | php_memcached.c:3728-3790 | Which decoder runs by the flag bits, and when nothing comes out |
| Payload.InterpretExact | php_memcached.c:3798-3929 | What the bytes of each type code mean; a failed unserialization is noticed only for PHP's own and igbinary |
| Payload.UnwrapsEncoded | php_memcached.c:3717-3790 | Decompression, by whichever algorithm the flags name, restores the uncompressed bytes |
| Payload.HugeRefused | php_memcached.c:3768-3770 | A FastLZ payload whose stored length exceeds INT_MAX is refused |
| Payload.EncodeFlags | php_memcached.c:95-128 | Type, compression and user fields of the flag word are each read back as set |
| Payload.Room | php_memcached.c:913-915 | The five-per-cent buffer is at least the FastLZ bound for every length |
| Payload.FloatReadsBack | php_memcached.c:3893-3907 | A printed finite float is a literal and parses to the same float |
| PayloadCodec.Item.CompressValue | php_memcached.c:905-1002 | The length and the compressed copy replace the payload, with their flags, exactly when a copy is produced that the payload is more than `factor` times as long as; else nothing changes |
| PayloadCodec.Item.ZvalToPayload | php_memcached.c:1082-1164 | The item is stored as its kind of value, the options and the threshold say; false only when the serializer fails |
| PayloadCodec.DecompressValue | php_memcached.c:3716-3790 | By flag bits and length bytes: the decoder that runs and its buffer of the stored length, or nothing |
| PayloadCodec.ResultToZval | php_memcached.c:3856-3929 | The fetched item is unwrapped if its compression bit is set and then means what its type code says |
| PayloadCodec.StoreAndFetch | php_memcached.c:1191-1213 | Storing then fetching through the routines returns the value and the user flags |
| CNumbers.LongRoundTrip | php_memcached.c:3889-3891 | Every 64-bit integer printed as text is read back by strtol |
| CNumbers.PrintLongIs | php_memcached.c:1095-1106 | The text of an integer is its digits without a leading zero, behind a minus sign if negative |
| CNumbers.StrtolIs | php_memcached.c:3889-3891 | White space, sign, digits and anything after them are read as the number, kept within 64 bits |
| CasToken.TokenRoundTrip | php_memcached.c:620-670 | Every 64-bit token survives the trip through a PHP value |
| CasToken.TokenForm | php_memcached.c:620-638 | Tokens below LONG_MAX are integers, the others strings of their digits |
| CasToken.NumbersRead | php_memcached.c:640-651 | What integers, doubles and other values are read as |
| CasToken.DigitsRead | php_memcached.c:653-666 | What every digit string is read as, decimal or octal, and when it is refused |
| CasToken.OtherStrings | php_memcached.c:653-666 | Hexadecimal, signed, trailing and empty strings |
| CasToken.DecimalReadIff | php_memcached.c:646-666 | A digit string is read as the number it denotes exactly when that fits 64 bits and there is no leading zero or the number is below 8 |
| CasToken.LeadingZeroIsOctal | php_memcached.c:653-666 | Digit strings with a leading zero and then 8 or 9 are refused |
| CasToken.LeadingZeroExamples | php_memcached.c:653-666 | Strings with a leading zero read as their decimal value, as another, and refused |
| SessionProtocol.MutualExclusion | php_memcached_session.c:122-176 | At every point of a run in which no held lock expired so far, at most one client holds a session, and its lock entry is on the server |
| SessionProtocol.ExpiryBreaksIff | php_memcached_session.c:138-176 | With an idle client about, the expiry of a lock entry lets two clients hold one session, without a further such accident, if and only if the entry was held |
| SessionProtocol.ForeignDelete | php_memcached_session.c:171-175 | After an expiry under its holder the holder's unlock removes the entry of the client that took over |
| SessionProtocol.ForeignDeleteRun | php_memcached_session.c:171-175 | A whole run in which that happens |
| SessionProtocol.StepKeepsInv | php_memcached_session.c:122-513 | Every step of any client or of the server, short of the expiry of a held lock, keeps exclusion, stored locks and current views |
| SessionProtocol.FlagExclusion | php_memcached_session.c:166-176 | Two clients have `is_locked` set for one session only while one is past its delete |
| SessionProtocol.FlagSharedIff | php_memcached_session.c:166-176 | With another client idle, a flagged client can be joined by a flagged owner of the same lock if and only if it is past its delete |
| SessionProtocol.EntryGoneLetsIn | php_memcached_session.c:138-176 | From any run in which a client is past its delete and the entry is gone, two steps set another idle client's flag |
| SessionProtocol.TwoFlags | php_memcached_session.c:171-174 | A run in which that happens |
| SessionProtocol.NoLostUpdate | php_memcached_session.c:428-513 | Between a locked READ and the client's next operation nobody writes or destroys the session, which still reads as what was read |
| SessionProtocol.ReadThenWrite | php_memcached_session.c:428-494 | Just before that client's WRITE the session reads as it read it, just after as it wrote it |
| SessionProtocol.FreshIds | php_memcached_session.c:520-541 | An id is handed out again only after its entry was removed |
| SessionSystem.RunOf | php_memcached_session.c:122-541 | Any interleaving of client operations that follow their own program, answered by a server store after store, is a run of the protocol |
| SessionSystem.HandlersExclude | php_memcached_session.c:122-176 | In every interleaving of handler logs without expiry of a held lock at most one client owns a session's lock, and its entry is stored |
| SessionSystem.HandlersLoseNothing | php_memcached_session.c:428-513 | In every interleaving of handler logs the server keeps what a locked READ returned until that client's next operation |
| SessionSystem.HandedOutIsNew | php_memcached_session.c:533-535 | An id in a handler's log with a successful add was absent from the server before that add and present after it |
| SessionSystem.HandedOutOnce | php_memcached_session.c:520-541 | Two handlers, or one twice, are handed out the same id only with its entry removed in between |
| SessionHandler.Session.LockSession | php_memcached_session.c:122-164 | From the answers alone: the adds sent, up to the first success or the limit, the flag and the key, and the pauses |
| SessionHandler.BackoffExact | php_memcached_session.c:135-163 | Under constant contention: retries + 1 adds, doubling pauses capped at the maximum, and the bound on their sum |
| SessionHandler.SleepsExact | php_memcached_session.c:135-163 | For every sequence of answers: a pause for each add but the last that found the entry, none for errors, the first of the minimum and each later one doubled up to the maximum |
| SessionHandler.AttemptsOutcome | php_memcached_session.c:138-163 | The lock is obtained by the first successful add within the retries and by nothing else |
| SessionHandler.Session.Read | php_memcached_session.c:428-462 | Lock, then data: the value found, the empty session when there is none, failure on an error or without the lock; a server with a given store makes it return what that store holds |
| SessionHandler.Session.Write | php_memcached_session.c:464-494 | Sets of the value until the first success or the limit of one, or of one and failure limit plus one for each replica; an active protocol client stays active |
| SessionHandler.Session.Destroy | php_memcached_session.c:496-513 | Data deleted, then the lock released; an active protocol client becomes idle |
| SessionHandler.Session.Close | php_memcached_session.c:404-426 | A held lock is released, under the key it was taken with, and nothing else is done; the protocol client becomes idle |
| SessionHandler.Session.CreateSid | php_memcached_session.c:520-541 | At most three adds, logged in order; the id of the first success, and none exactly when all three fail |
| SessionHandler.TriesFacts | php_memcached_session.c:485-493 | The write loop stops at the first success and uses the whole limit only when all fail |
| SessionHandler.ReadFollows | php_memcached_session.c:428-462 | READ is a path of the protocol client from idle to active, to stuck, or back |
| SessionHandler.DestroyFollows | php_memcached_session.c:496-513 | DESTROY is a path from active to idle |
| SessionHandler.UnlockFollows | php_memcached_session.c:404-426 | CLOSE is a path from any held state to idle |
| SessionHandler.DriveSets | php_memcached_session.c:464-494 | WRITE keeps the client active however often it is retried |
| ResultStream.Stream.ResultApply | php_memcached.c:677-744 | The imperative loop computes the run function: status, context and what is left on the stream |
| ResultStream.DeliveredOnce | php_memcached.c:685-743 | Each decodable result reaches the callback once and in order until it first answers false; then drained, or left in place when delayed |
| ResultStream.StatusExact | php_memcached.c:688-714 | Success is reported exactly when everything looked at was decodable and free of errors |
| ResultStream.StatusIs | php_memcached.c:685-714 | The status is that of the last event looked at that was undecodable or an error, success if there is none |
| ResultStream.FetchesMatchFetchAll | php_memcached.c:1831-1898 | On error-free streams one fetch per result returns what a single fetchAll does |
| ResultStream.FetchKeepsIffClean | php_memcached.c:1831-1862 | fetch takes everything up to the next decodable result off the stream and returns it exactly when all of that was decodable and free of errors |
| ResultStream.UndecodableHidesNext | php_memcached.c:707-715 | The input on which fetch loses a decodable result |
| MultiGet.GetMulti | php_memcached.c:1638-1695 | When the array is returned and what it is, with every string and array given back whatever the server answers |
| MultiGet.MultiReturnsIff | php_memcached.c:1661-1694 | The array is returned exactly for an empty request, or with a valid key when the last thing wrong, if any, is a missing or an unreadable result |
| MultiGet.UndecodableStillReturned | php_memcached.c:1687-1689 | Undecodable results alone never turn the array into false |
| MultiGet.MultiContents | php_memcached.c:1668-1689 | It holds the requested keys, or none, mapped to null, and on top every decodable reply unless the request failed |
| MultiGet.MultiOrderPreserved | php_memcached.c:1668-1689 | With preserved order: exactly the requested keys, in first-occurrence order, each with its reply or null |
| MultiGet.MultiReplyOrder | php_memcached.c:1612-1635 | Without it, end to end: the answered keys in reply order, each with its last reply |
| MultiGet.OrderPreserved | php_memcached.c:1455-1457 | Replies in any order change the values under requested keys and never their order |
| MultiGet.ReplyOrder | php_memcached.c:1612-1635 | Without it, whatever the replies, keys come in reply order and only with replies |
| MultiGet.FirstOccurrencesInOrder | php_memcached.c:1452-1457 | The key order is by first occurrence in the request |
| MultiGet.Keys.FromRequest | php_memcached.c:1436-1478 | Exactly the entries of 1 to 250 bytes in order, one reference held for each, three distinct arrays held only if there are any |
| MultiGet.Keys.Clear | php_memcached.c:1492-1507 | Every held string and each of the three arrays, told apart, is released exactly once |
| WriteRetry.Connection.WriteZval | php_memcached.c:1191-1295 | From the answers alone: how often the request is sent and which carry the key, the final status with END as success, and true exactly for the six codes that are no error |
| WriteRetry.AttemptsExact | php_memcached.c:1281-1283 | Attempts go on through answers that are errors and stop at the first that is not, or at the retries, or at once without servers |
| WriteRetry.KeyKeptIffNotRetried | php_memcached.c:1249-1283 | For every answer, server count and retry count: all requests keep the key if and only if the first answer is no error, there are no servers, or no retry is allowed |
| WriteRetry.KeyLost | php_memcached.c:1249-1283 | One refused answer with a retry allowed sends the second request without the key |

## Left out

- FastLzCompressor.Compress: the result is an unbounded count; the conversion of a result above INT_MAX to `int` (possible only for incompressible inputs above 2 GB) is not modelled.
- FastLzCompressor.ExtendMatch: the eight unrolled comparisons are a counted loop.
- FastLzScan.Find: the concrete hash computation is not modelled, since every result holds for any hash function.
- PayloadCodec.Item.CompressValue: rounding of the double products in the buffer size and the compression factor is not modelled.
- PayloadCodec.ResultToZval: a missing value pointer with a non-zero length, the sign of not-a-number, and the JSON object-or-array choice are not modelled.
- SessionHandler.Session.LockSession: overflow of the pause in machine integers is not modelled.
- ResultStream.Stream.ResultApply: exceptions thrown by callbacks and unserializers are not modelled.
- MultiGet.GetMulti: numeric-string keys are kept as strings, which PHP turns into integers one to one.
- Expiration helpers, session validation and timestamp updates: easy members without deeper properties.
- libmemcached, sockets, the server-side handlers, argument parsing, INI handling, SASL, statistics and server lists.
