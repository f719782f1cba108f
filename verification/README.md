# Models and proofs for algorithms of the Go tree

Proved here, for the Go 1.16 tree that the repository vendors: `math.FMA`, `Sqrt`, `Ldexp`, `Mod` and the
rounding functions give the correctly rounded or exact result; in every interleaving `io.Pipe` keeps order and
loses nothing, and cancelling a `context` reaches every descendant without deadlock; the buffered readers and
writers lose no byte of a stream however it is chunked; the MIME and HTML codecs undo each other; and the
searches, identifier tables and orders meet their specifications. Where a promise fails, the exact condition and
an input are given below.
Sections of standards are those of IEEE 754-2008, RFC 2045, RFC 2047, RFC 2231, RFC 3629 and RFC 6724.

**Floating point done in integers** (`Words`, `Float64`, `Fma`, `Sqrt`, `FloatMod`, `TrigReduce`, `Floor`).
A float64 is its 64-bit pattern. `Float64.Mag` is the exact magnitude as a natural number in units of 2^-1074,
and `Float64.RoundsTo` is rounding to nearest, ties to even, stated over all finite patterns: no other finite
value is nearer, a tie goes to the even pattern, and the result is infinite from the overflow threshold on
(section 4.3.1). `FMA`, `Ldexp` and `Sqrt` are proved correctly rounded for all finite arguments, `Mod` exact,
`trigReduce` within its error bound, `Round` and `RoundToEven` nearest integers. Shifts, masks and wrapping
additions on `uint64` are written out on naturals below 2^64.

**Concurrent protocols** (`Pipe`, `ContextTree`, `Expvar`). Each is a transition system whose steps are the
atomic actions of the calls in flight: channel rendezvous, lock, unlock, atomic map operations. Theorems
quantify over every run, that is, every interleaving of any number of calls, and rest on an inductive invariant.

**Buffered streams** (`Io`, `Lines`, `BufWriter`, `BufReader`, `Scanner`). Classes with the source's fields,
over an `Io.Sink` that may write short or fail and an `Io.Source` that hands a finite stream out as a schedule
says; every way of chunking, silent reads included, is some schedule. Their contracts speak of the whole stream,
so they do not depend on chunking, buffer size or buffer growth.

**Codecs** (`Utf8`, `Html`, `EncodedWord`, `Grammar`, `MediaFormat`, `MediaParse`, `MediaType`,
`MediaRoundTrip`, `MediaSemicolon`). Text is a sequence of bytes. `unescapeEntity` and `UnescapeString` work in place on an
array; the printers, parsers and decoders are methods proved against functions, and round-trip theorems
connect each printer with its parser.

**Search, identifiers, order** (`LastIndex`, `JsValues`, `AddrSelect`, `KeyOrder`). The rolling-hash search,
the reference-counted table of JavaScript values, and destination address selection.

What the proofs showed about the code:

- `expvar.Map`: a `Set` that races with `Delete` can leave a key in the map that the sorted list never names
  again. The list names exactly the stored keys if and only if no `Set` stored a key that was absent at that
  step (`Expvar.ListMatchesMap`); `Expvar.LostKey` is a run in which it happens. It cannot happen to callers that
  keep a `Delete` of a key from overlapping a `Set` of it (`Expvar.KeptApart`).
- `mime.ParseMediaType`: a trailing semicolon is accepted "and ignored", but the function returns before it
  stitches continuations. For every header that is read to its end, the one with a further semicolon gives the
  parameters without a '*' in their names, which is the same result if and only if no name with a '*' contributes
  a value (`MediaSemicolon.TrailingSemicolon`); `t; a*0=x; a*1=y` loses its parameter (`MediaSemicolon.PiecesLost`).
- `html.UnescapeString`: a numeric reference should be left alone exactly when it has no digit. It is, unless it is
  `&#` with a single decimal digit and no semicolon, which is left alone, or `&#x;` (`&#X;`), which is decoded
  (`Html.LeftWithoutDigits`; `Html.OneDigitLost` and `Html.NoDigitDecoded` are inputs).
- `html.UnescapeString` accumulates the number in 32 bits: above U+10FFFF it should give U+FFFD, and gives another
  character exactly when the number modulo 2^32 is one (`Html.DecodedIsDenoted`); `&#4294967361;` gives `A`
  (`Html.WrappedToA`).
- `bufio.Reader.ReadLine` drops `io.ErrNoProgress` when it has data. That happens exactly when 100 reads in a row
  deliver nothing while a piece without a newline waits in a buffer with room (`BufReader.StallsWithData`), and the
  piece is handed out as the line. No byte is lost, but the call delivers a whole line if and only if that did not
  happen or nothing is unread (`BufReader.Reader.ReadLine`); `BufReader.PieceAsLine` is a run that splits `ab`.
- `net`'s `Less` is a strict weak order because the policy table gives precedence 35 to IPv4 addresses and to
  nothing else; with arbitrary attributes it is not (`AddrSelect.OnlyByTheTable`).

## Model

| member | source | states |
|---|---|---|
| Float64.RoundIsNearest | Go/src/math/fma.go:93-95 | the reference rounding used for hardware operations meets the nearest-even specification for every exact value, with overflow to infinity |
| Float64.RoundsUnique | Go/src/math/fma.go:157-169 | that specification leaves one value: two results of rounding the same number denote the same value |
| Float64.SetExponent | Go/src/math/ldexp.go:42-43 | or-ing an exponent into a pattern whose exponent field is clear sets exactly that field |
| Float64.ClearExponent | Go/src/math/ldexp.go:42 | `x &^= mask << shift` keeps exactly the sign and the fraction |
| Fma.ShrCompressJams | Go/src/math/fma.go:39-63 | for every shift count, all five branches: the quotient by 2^n with its lowest bit set when any bit was lost |
| Fma.ShlExact | Go/src/math/fma.go:27-31 | a two-word left shift that fits 128 bits multiplies by 2^n, for counts below, at and above 64 |
| Fma.LzNormalizes | Go/src/math/fma.go:65-71 | shifting by the two-word leading-zero count brings the top bit to bit 127 |
| Fma.SplitValue | Go/src/math/fma.go:76-91 | sign, exponent and normalized 53-bit mantissa denote the number, subnormals included |
| Fma.ProductWords | Go/src/math/fma.go:116-128 | the two product words are the exact 106-bit product shifted left by 21, or by 22 to reach the 62nd bit |
| Fma.CombineFaithful | Go/src/math/fma.go:130-155 | after swap, alignment, addition or cancelling subtraction and normalization, the sticky significand stands for the exact sum |
| Fma.RoundPackCorrect | Go/src/math/fma.go:157-169 | from a faithful significand, overflow test, denormalization and tie-breaking give the correctly rounded pattern |
| Fma.FmaCorrect | Go/src/math/fma.go:93-170 | for all finite x, y, z, zeros included, the result is the single correct rounding of the real number x*y + z |
| Sqrt.Sqrt | Go/src/math/sqrt.go:99-144 | special cases as documented; for every finite positive x the result is strictly nearer to the real root than any other finite double, so no tie exists |
| Sqrt.Normalize | Go/src/math/sqrt.go:108-119 | the subnormal loop and the field rewriting keep the value of x |
| Sqrt.RootBits | Go/src/math/sqrt.go:124-137 | the digit loop returns the truncated integer root, and a remainder that is zero exactly for perfect squares |
| Sqrt.RootStep | Go/src/math/sqrt.go:129-136 | comparing 2q + r with the scaled remainder decides (q + r)^2 <= n |
| Sqrt.OddRoot | Go/src/math/sqrt.go:138-141 | an odd truncated root is never exact, so the halfway case cannot arise |
| Sqrt.RootNearest | Go/src/math/sqrt.go:138-143 | adding the extra bit and rebuilding the exponent gives the nearest double |
| FloatMod.NormalizeCorrect | Go/src/math/bits.go:54-62 | a finite non-zero number becomes a normal one with the same value and sign |
| FloatMod.FrexpExact | Go/src/math/frexp.go:18-33 | f == frac * 2^exp exactly, with frac in [1/2, 1) and the sign of f |
| FloatMod.LdexpCorrect | Go/src/math/ldexp.go:16-45 | frac * 2^exp correctly rounded for every finite frac and every exp, through gradual underflow and overflow |
| FloatMod.LdexpSubnormal | Go/src/math/ldexp.go:37-44 | results below 2^-1022 are rounded once, by the final multiplication |
| FloatMod.LdexpInvertsFrexp | Go/src/math/ldexp.go:8-13 | Ldexp undoes Frexp |
| FloatMod.ModShift | Go/src/math/mod.go:36-40 | the exponent chosen in the loop gives the multiple of y with y*2^k <= r < 2*y*2^k |
| FloatMod.ExactDifference | Go/src/math/mod.go:40 | such a subtraction never rounds |
| FloatMod.ModStep | Go/src/math/mod.go:35-41 | one turn of the loop shrinks r and keeps it congruent modulo y |
| FloatMod.Mod | Go/src/math/mod.go:23-46 | terminates; for finite x and finite non-zero y the magnitude is exactly the remainder of the magnitudes and the sign is that of x; NaN and infinity cases as documented |
| TrigReduce.WindowInTable | Go/src/math/trig_reduce.go:34-46 | for every finite x >= Pi/4 all table accesses are in range |
| TrigReduce.SignificandValue | Go/src/math/trig_reduce.go:34-39 | x is ix * 2^exp |
| TrigReduce.ProductTopValue | Go/src/math/trig_reduce.go:47-52 | hi:lo is the top of the 256-bit product modulo 2^128, less than two units too small |
| TrigReduce.ReduceError | Go/src/math/trig_reduce.go:40-52 | for any table of 20 words: hi:lo lies below the exact product of x with the tabulated number, modulo 8, by less than 2 units of 2^-125 |
| TrigReduce.ReduceByPi4 | Go/src/math/trig_reduce.go:34-99 | the same with the digits of 4/Pi, for x as significand and exponent |
| TrigReduce.ReduceInteger | Go/src/math/trig_reduce.go:53-54 | j is the integer part of that product modulo 8 unless the kept fraction is within one unit of the next integer |
| Floor.RoundCorrect | Go/src/math/floor.go:58-92 | for every finite x, subnormals included: the nearest integer, halves away from zero, with the sign of x; infinities and NaNs unchanged |
| Floor.RoundToEvenCorrect | Go/src/math/floor.go:95-131 | the same with halves to the even integer |
| Floor.LargeUnchanged | Go/src/math/floor.go:86-88 | from 2^52 on, and for infinities and NaNs, both functions return their argument |
| Pipe.InvStep | Go/src/io/pipe.go:50-121 | every step of every call keeps the protocol invariant |
| Pipe.StreamOrder | Go/src/io/pipe.go:50-104 | in every reachable state the bytes handed to readers in handoff order are the consumed prefixes of the writes in lock order, and one call at most holds the write lock |
| Pipe.WriteResult | Go/src/io/pipe.go:84-104 | a finished Write(b) returning n delivered exactly b[:n], and n < len(b) only with an error |
| Pipe.ReadResult | Go/src/io/pipe.go:50-65 | a finished Read without error returned exactly the bytes of one handoff, and different handoffs go to different reads |
| Pipe.HandoffNeverStuck | Go/src/io/pipe.go:57-61 | a reader owes an acknowledgement if and only if the lock holder awaits one, and that rendezvous is then enabled |
| Pipe.CloseResult | Go/src/io/pipe.go:67-82 | done is closed at most once, errors come only after closing and are the ones the closers left |
| Pipe.ErrorsKept | Go/src/io/pipe.go:15-33 | the first error stored on a side stays |
| Pipe.StepWorks | Go/src/io/pipe.go:93-102 | every step of a call in flight uses up work, so runs without new calls end |
| Pipe.ClosedMeansProgress | Go/src/io/pipe.go:114-121 | once the pipe is closed no call can block for ever |
| ContextTree.InvStep | Go/src/context/context.go:232-490 | every step of creation, cancel and timer keeps the tree invariant |
| ContextTree.DescendantsCancelled | Go/src/context/context.go:250-286 | once no call is in progress every descendant of a cancelled context is cancelled, whatever raced |
| ContextTree.CancelledReleased | Go/src/context/context.go:316-326 | once no call is in progress a parent lists exactly its uncancelled children |
| ContextTree.LockOrder | Go/src/context/context.go:394-419 | every lock a thread holds belongs to a proper ancestor of the context whose lock it takes next, and removeChild never runs with a lock held |
| ContextTree.NoDeadlock | Go/src/context/context.go:394-419 | while any call is in progress some call can take a step |
| ContextTree.StepWorks | Go/src/context/context.go:250-419 | every step of a call in progress uses up work, whatever the other calls do |
| ContextTree.CallsReturn | Go/src/context/context.go:250-419 | after any run the calls in progress take a bounded number of steps, and where no step is left all have returned |
| ContextTree.ClosedOnce | Go/src/context/context.go:398-410 | done is closed at most once and only after err is set, a returned timer cancel leaves a nil timer, and the goroutine fallback is never taken |
| ContextTree.WrittenOnce | Go/src/context/context.go:430-490 | err is written once, and afterwards the timer is never set again |
| Expvar.ListedKeysPresent | Go/src/expvar/expvar.go:141-229 | in every interleaving the list is strictly sorted, every listed key is in the map outside Delete's critical section, Do's type assertion never fails, and a pending addKey names a stored, unlisted key |
| Expvar.ListMatchesMap | Go/src/expvar/expvar.go:160-172 | at rest the list names exactly the stored keys if and only if no Set stored a key absent at that step |
| Expvar.KeptApart | Go/src/expvar/expvar.go:160-217 | if no Delete of a key is in flight between the Load and the Store of a Set of it, the list names exactly the stored keys at rest |
| Expvar.OrphansStay | Go/src/expvar/expvar.go:164-171 | a key stored that way stays in the map and unlisted for ever |
| Expvar.LostKey | Go/src/expvar/expvar.go:160-217 | a concrete run of one Set, one Set and one Delete that loses a key |
| Expvar.RemoveKeeps | Go/src/expvar/expvar.go:212-216 | deletion keeps the list sorted and removes exactly the key |
| KeyOrder.InsertKeeps | Go/src/expvar/expvar.go:144-151 | insertion keeps the list sorted and adds exactly the key |
| LastIndex.Search | Go/src/bytes/bytes.go:104-138 | exactly the greatest match position, or -1, for all s and sep |
| LastIndex.SearchRolling | Go/src/bytes/bytes.go:118-137 | the rolling-hash search skips no match and accepts no collision |
| LastIndex.RollHash | Go/src/bytes/bytes.go:129-133 | the 32-bit update turns the hash of one window into the hash of the next modulo 2^32 |
| LastIndex.HashStrRevBytes | Go/src/internal/bytealg/bytealg.go:69-82 | the hash of the reversed separator and the multiplier PrimeRK^len, both modulo 2^32 |
| LastIndex.RepeatedSquaring | Go/src/internal/bytealg/bytealg.go:74-80 | square-and-multiply computes the power modulo 2^32 |
| LastIndex.LastIndexByte | Go/src/bytes/bytes.go:141-148 | the last position of the byte, or -1 |
| LastIndex.LastMatchUnique | Go/src/bytes/bytes.go:103 | the specification has one answer |
| Io.Sink.Write | Go/src/io/io.go:80-98 | a writer that accepts a prefix, possibly short and possibly with an error |
| Io.Source.Read | Go/src/io/io.go:55-78 | a reader that delivers the next bytes of a finite stream as its schedule says: any amounts, none at all any number of times, and the end with or after the last bytes |
| BufWriter.Writer.Flush | Go/src/bufio/bufio.go:600-621 | sink plus buffer keep all accepted bytes whether the sink takes all, part or none; without error the buffer is empty; a sticky error or an empty buffer changes nothing |
| BufWriter.Writer.Write | Go/src/bufio/bufio.go:633-655 | accepts a prefix, all of it unless an error is reported, appended in order; a write that fits does not touch the sink; after an error nothing changes |
| BufWriter.Writer.WriteString | Go/src/bufio/bufio.go:703-719 | the same contract without the direct path |
| BufWriter.Writer.WriteByte | Go/src/bufio/bufio.go:658-668 | accepts the byte exactly when it reports no error |
| BufWriter.Run | Go/src/bufio/bufio.go:551-557 | over any sequence of calls, sink followed by buffer equals all accepted bytes in order, the first error sticks with nothing accepted or sent after it, and a Flush without error leaves everything in the sink |
| BufReader.Reader.Fill | Go/src/bufio/bufio.go:87-115 | slides the unread bytes to the front and adds at least one byte or an error, losing nothing |
| BufReader.GivesUp | Go/src/bufio/bufio.go:99-114 | fill reports io.ErrNoProgress exactly when the next 100 deliveries of the source are all silent |
| BufReader.Reader.ReadSlice | Go/src/bufio/bufio.go:331-373 | gives no error exactly when the line ends in its first delimiter; otherwise a full buffer or all that is left |
| BufReader.Sliced | Go/src/bufio/bufio.go:331-373 | for every buffer content, source and pending error: the slice followed by what stays unread is what was unread |
| BufReader.StallsWithData | Go/src/bufio/bufio.go:334-364 | io.ErrNoProgress comes together with data exactly when the source falls silent for 100 reads while a piece without a newline waits in a buffer with room |
| BufReader.Reader.ReadLine | Go/src/bufio/bufio.go:388-421 | for every source: a line or an error, never both; a fragment never parts "\r" from "\n"; no byte is lost; the result is a fragment or the completed line if and only if no complaint was dropped or nothing is unread, and a dropped one means a piece of the line |
| BufReader.TalkativeNeverStalls | Go/src/bufio/bufio.go:99-114 | a source that is never silent for 100 reads in a row never makes the reader give up |
| BufReader.SilentSource | Go/src/bufio/bufio.go:398-421 | over "ab\n" one byte, then 100 silent reads: ReadSlice gives "a" with io.ErrNoProgress |
| BufReader.PieceAsLine | Go/src/bufio/bufio.go:388-421 | the same run through ReadLine: "a" without an error as a whole line |
| Lines.PieceIsLine | Go/src/bufio/bufio.go:398-421 | a piece without a newline is the first line of what it starts exactly when the rest adds nothing to that line, and leaves what follows the line exactly when there is no rest |
| BufReader.NextLine | Go/src/bufio/bufio.go:375-387 | fragments up to the first with isPrefix false make exactly the stream's next line without its end, for every buffer size and chunking, if and only if no complaint was dropped or nothing is unread; otherwise a piece with nothing lost |
| BufReader.ReadAllLines | Go/src/bufio/bufio.go:375-421 | repeated to the end of the stream with no complaint dropped: every line in order; a source never silent for 100 reads always gets there |
| BufReader.Reader.CollectFragments | Go/src/bufio/bufio.go:430-453 | full buffers and final piece make up everything through the first delimiter, and the total is its length |
| BufReader.Reader.ReadBytes | Go/src/bufio/bufio.go:462-474 | the data through the first delimiter, or all that is left and an error |
| Lines.CutPiece | Go/src/bufio/bufio.go:390-404 | a piece without a newline can be cut off a line unless that parts "\r" from "\n" |
| Scanner.Scanner.Scan | Go/src/bufio/scan.go:135-235 | for every split function that does not change its mind: the next token of the whole stream, or the end, or ErrTooLong for a full buffer that holds no token; it does not panic |
| Scanner.Scanner.MakeRoom | Go/src/bufio/scan.go:179-207 | shifting and growing keep the data and leave space, except when a buffer of the greatest size is full |
| Scanner.Scanner.ReadMore | Go/src/bufio/scan.go:211-233 | delivers more data or the stream's end, losing nothing, and io.ErrNoProgress exactly when the next 101 deliveries are silent |
| Scanner.ScanAll | Go/src/bufio/scan.go:126-134 | scanning to the end gives the tokens of the whole stream and then only the error the stream ended with |
| Scanner.ScanLinesStable | Go/src/bufio/scan.go:350-364 | what ScanLines decides on part of the data it decides on all of it |
| Scanner.TokensAreLines | Go/src/bufio/scan.go:344-364 | the tokens are the stream's lines with a final "\r?\n" removed |
| Scanner.LinesFit | Go/src/bufio/scan.go:186-192 | the lines fit the buffer if and only if each is shorter than its greatest size |
| Scanner.ScanAllLines | Go/src/bufio/scan.go:135-256 | for every chunking with lines shorter than the limit: exactly the lines, then false without an error |
| Utf8.DecodeEncoded | Go/src/unicode/utf8/utf8.go:342-371 | decoding undoes encoding whatever follows (RFC 3629 section 3) |
| Utf8.EncodeDecoded | Go/src/unicode/utf8/utf8.go:151-196 | a decoded character was encoded there; width 1 above ASCII means U+FFFD |
| Utf8.RuneAtFront | Go/src/unicode/utf8/utf8.go:151-196 | a character encoded at the front is the one decoded, so errors are exactly the non-encodings |
| Html.NeverWider | Go/src/html/entity.go:2170-2172 | given that no table entry is wider than its name and ampersand, no replacement is wider than what it replaces |
| Html.ScanNumber | Go/src/html/escape.go:82-109 | the digit loop computes the number modulo 2^32 as an int32 and stops after the digits and one semicolon |
| Html.ScanPrefixes | Go/src/html/escape.go:155-164 | the prefix loop finds the longest proper prefix of at most six characters that names an entity |
| Html.UnescapeEntity | Go/src/html/escape.go:53-170 | in place: the replacement behind what was written, the unread bytes untouched, dst <= src |
| Html.UnescapeString | Go/src/html/escape.go:187-214 | the in-place decoder equals the out-of-place one for every input |
| Html.NumericLeftAlone | Go/src/html/escape.go:70-114 | the shapes in which a numeric reference is left as it is |
| Html.LeftWithoutDigits | Go/src/html/escape.go:111-114 | left alone exactly when no digit follows, if and only if the text is neither a single decimal digit without a semicolon nor an empty hexadecimal number |
| Html.OneDigitLost | Go/src/html/escape.go:111-114 | "&#1a" is left as it is |
| Html.NoDigitDecoded | Go/src/html/escape.go:111-124 | "&#x;" is decoded to U+FFFD |
| Html.DecodedIsDenoted | Go/src/html/escape.go:81-124 | the character is the one the unbounded number stands for if and only if the number is at most U+10FFFF or is no character modulo 2^32 either |
| Html.WrappedToA | Go/src/html/escape.go:81-124 | "&#4294967361;" is decoded to "A" |
| Html.UnescapeUndoesEscape | Go/src/html/escape.go:174-186 | UnescapeString(EscapeString(s)) == s for every byte string |
| EncodedWord.QRoundTrip | Go/src/mime/encodedword.go:372-398 | Q-decoding undoes Q-encoding for every byte string |
| EncodedWord.QDecode | Go/src/mime/encodedword.go:372-398 | the loop over a buffer of the text's length decodes it or rejects it |
| EncodedWord.QEncodeUTF8 | Go/src/mime/encodedword.go:114-141 | words whose text is at most 63 characters, cut only between characters of s, none able to take in the first character of the next |
| EncodedWord.EncLen | Go/src/mime/encodedword.go:121-132 | the loop's measure is the encoded length of the character |
| EncodedWord.DecodeHeader | Go/src/mime/encodedword.go:240-312 | the cursor loop computes the text of the header |
| EncodedWord.ReadWord | Go/src/mime/encodedword.go:289-304 | a word made by the encoder is read back, and the space between two words is dropped |
| EncodedWord.DecodeUndoesEncode | Go/src/mime/encodedword.go:238-312 | DecodeHeader gives back s byte for byte for any division of s into words |
| EncodedWord.NeedsEncoding | Go/src/mime/encodedword.go:42-49 | true exactly when some byte is neither printable ASCII nor a tab |
| EncodedWord.Encode | Go/src/mime/encodedword.go:35-78 | text that needs no encoding is unchanged; in UTF-8 the result is words of at most 75 characters that never split a character and that DecodeHeader turns back into s |
| Grammar.ConsumeOne | Go/src/mime/mediatype.go:267-280 | a token is consumed whole when something else follows |
| MediaFormat.FormatMediaType | Go/src/mime/mediatype.go:15-102 | empty for an invalid type or name; otherwise the type and the parameters in sorted order, each as token, quoted string or extended value |
| MediaParse.PercentHexUnescape | Go/src/mime/mediatype.go:354-391 | counts and checks, then fills a buffer of exactly the right size with the decoded bytes |
| MediaParse.ConsumeParams | Go/src/mime/mediatype.go:159-196 | the parameter loop with its continuation map, trailing semicolon, syntax error and duplicate exits |
| MediaType.Stitch | Go/src/mime/mediatype.go:201-235 | one name's pieces: the single extended value, or numbered pieces up to the first that is missing; it terminates |
| MediaType.PartsDiffer | Go/src/mime/mediatype.go:211-217 | names of pieces with different numbers or forms are different |
| MediaType.ParseMediaType | Go/src/mime/mediatype.go:140-238 | the whole parser, in any order of visiting the continuation map |
| MediaRoundTrip.UnhexPercent | Go/src/mime/mediatype.go:62-77 | percent-decoding undoes percent-encoding |
| MediaRoundTrip.ExtendedValue | Go/src/mime/mediatype.go:240-261 | an extended value is a token and decode2231Enc gives the value back (RFC 2231 sections 4 and 7) |
| MediaRoundTrip.QuotedRead | Go/src/mime/mediatype.go:287-324 | a quoted string is read back whatever follows it |
| MediaRoundTrip.ReadParam | Go/src/mime/mediatype.go:326-352 | one printed parameter is consumed as its name and carried value |
| MediaRoundTrip.ParseUndoesFormat | Go/src/mime/mediatype.go:123-140 | for every valid type and every map with lower-case token names without '*' and arbitrary values, the lower-case type and exactly the map |
| MediaRoundTrip.FormattedSemicolon | Go/src/mime/mediatype.go:166-173 | for printed text with a semicolon added exactly the parameters that need no encoding are returned, so the map survives if and only if none does |
| MediaSemicolon.ParamMore | Go/src/mime/mediatype.go:326-352 | a parameter that is read is read with a semicolon behind the text as well |
| MediaSemicolon.LoopMore | Go/src/mime/mediatype.go:159-173 | a loop that reaches the end of any text ends at the added semicolon instead, with the same parameters |
| MediaSemicolon.TrailingSemicolon | Go/src/mime/mediatype.go:140-238 | for every header read to its end: with a semicolon added, the type and the parameters without a '*' in their names; the same result if and only if stitching gives no name a new value |
| MediaSemicolon.PiecesLost | Go/src/mime/mediatype.go:166-238 | "t; a*0=x; a*1=y" gives a = "xy", and no parameter with a semicolon added |
| MediaRoundTrip.FormatThenParse | Go/src/mime/mediatype.go:20-238 | the round trip through the two methods |
| JsValues.Table.StoreValue | Go/misc/wasm/wasm_exec.js:185-228 | the reference encodes the value, every other reference keeps its meaning, and one more reference is counted |
| JsValues.Table.LoadValue | Go/misc/wasm/wasm_exec.js:172-183 | in a valid table with ids below 2^32, a reference that stands for a value gives back that value, with one zero and one NaN |
| JsValues.Table.FinalizeRef | Go/misc/wasm/wasm_exec.js:342-353 | one reference fewer is counted, and no other reference that is still held changes its meaning |
| JsValues.Inverse | Go/misc/wasm/wasm_exec.js:511-529 | ids and values are mutually inverse on the live allocated slots |
| JsValues.StoredNewValid | Go/misc/wasm/wasm_exec.js:204-213 | taking an id from the pool or appending one keeps pool and live ids disjoint and the pool without duplicates |
| JsValues.FinalizedValid | Go/misc/wasm/wasm_exec.js:344-352 | so does giving the last reference back |
| JsValues.LoadEncoded | Go/misc/wasm/wasm_exec.js:172-183 | with ids below 2^32 loadValue returns what was stored, with one zero and one NaN |
| JsValues.EqualRefs | Go/src/syscall/js/js.go:18-25 | references are equal exactly when the values are |
| JsValues.Run | Go/misc/wasm/wasm_exec.js:172-233 | over any run of stores and matching finalizers every count is stores minus finalizers and every held reference loads its value |
| AddrSelect.LongestMatch | Go/src/net/addrselect.go:304-315 | in a table sorted by mask length Classify returns the longest matching prefix |
| AddrSelect.FamilyOfPrecedence | Go/src/net/addrselect.go:225-272 | exactly the IPv4 addresses get precedence 35 |
| AddrSelect.LessIsRank | Go/src/net/addrselect.go:93-217 | Less compares lexicographic ranks, rule 9 included (RFC 6724 section 6) |
| AddrSelect.StrictWeakOrder | Go/src/net/addrselect.go:96-217 | Less is irreflexive, transitive, and transitive in its ties, for all addresses and sources |
| AddrSelect.OnlyByTheTable | Go/src/net/addrselect.go:190-217 | with arbitrary attributes ties are not transitive |
| AddrSelect.CommonPrefixLength | Go/src/net/addrselect.go:345-390 | the loops compute the longest common prefix in bits (RFC 6724 section 2.2) |

## Left out

- Scanner.Scanner.Scan: promises tokens only while the one error so far is the end of the stream and the source is never silent for 101 reads in a row; a further call after ErrTooLong hands out the data held.
- Scanner.ScanLinesStable: ScanWords and ScanRunes are not modelled; Scan itself is proved for any stable split function.
- BufReader.Reader.ReadSlice: returns a copy, so the aliasing of the buffer by its result is not captured, nor is the bookkeeping for UnreadByte and UnreadRune.
- BufWriter.Writer.Write: the sink may write short without an error only if it makes some progress; negative or excessive counts are not modelled.
- Fma.FmaCorrect: the sign of a zero result is left open, and products or sums with infinities or NaNs, which the code leaves to the hardware, are not modelled.
- FloatMod.LdexpCorrect: exponents are unbounded integers, so the wrap-around of int when exponents are added is not modelled.
- TrigReduce.ReduceError: ends at hi:lo and j; the conversion of the fraction to a float and the multiplication by Pi/4 are not modelled.
- Html.NeverWider: the 2231 entries of the table are a parameter with the width condition and the entries for amp, lt and gt.
- EncodedWord.Encode: the B encoding is not modelled, because its package is not part of this model; the decoder takes it as a parameter. A charset reader is not modelled either.
- MediaType.ParseMediaType: lower-casing and case folding cover ASCII letters; the few other characters that fold to ASCII letters, such as the Kelvin sign, are not modelled.
- JsValues.Table.StoreValue: the eight bytes are returned instead of written to memory at an address.
- Concurrency is modelled on values: in Pipe, ContextTree and Expvar the fields of the calls and the shared state are parts of one state value, not objects.
- ContextTree: custom Context implementations, value contexts, the goroutine fallback and wall-clock time; a timer may fire at any step.
- Expvar: Init during other operations, Get, JSON output and HTTP handlers.
- AddrSelect: the sort itself, and finding source addresses by connecting sockets.
- bytes: Index, Count, Split, Join and Replace, whose laws are easier than LastIndex and rest on it in no way.
- bufio: Peek, Discard, Read, ReadRune, WriteTo, ReadFrom, WriteRune and Reset; a constructor that is handed an already buffered object; the panics of Scanner.Buffer and Split after scanning has begun; the overflow guard on the buffer size.
- math: the transcendental functions, whose claims rest on polynomial approximation.
- fmt, image, log, flag, device runners, crawler and operating-system files.
