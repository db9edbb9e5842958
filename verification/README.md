# A verified model of the kernel loader's hard parts

The loader unpacks an LZMA-compressed kernel, finds properties in a flattened device
tree, prints with its own formatter, and hands the processor over with its caches off.
This project models the four pieces of code in which that can go wrong silently, in the
form the C sources give them, and proves what they compute.

**LZMA decoder** (`src/LzmaDecode.c`, in the configuration that the loader builds: flat
output buffer, input in one slice). Three machines stacked on each other.

- `LzmaContexts` names every adaptive context symbolically and gives its address in the
  flat probability array; no two contexts share an address.
- `LzmaRangeDecoder` is the 32-bit range decoder as a state machine that answers one
  question per decoded bit. `LzmaSymbols`, `LzmaDistances` and `LzmaPackets` decode
  literals, lengths, distances and packets by asking; beside every decoder stands the
  code (the list of questions with their answers) that it inverts.
- `LzmaStream` is the packet loop, with what two decodings have to do with each other.
- `Lz77` and `LzmaFormat` say what all this amounts to without stepping anything along:
  `Lz77` by positions in a packet list (which distance a packet uses, which byte stands
  where, which of the 12 states follows), `LzmaFormat` by positions in a packet's code
  (which context each decision is asked in and which bit it gives). Both use only the
  format's own numbers. `DecodedMeaning` and `EncodedMeaning` tie them to whole streams.
- `LzmaEncoder` is an independent reference: interval coding in unbounded integers, with
  contexts in an abstract map. It knows neither the array layout nor the 32-bit code word.
- `LzmaDecoder` is the imperative decoder: a class with the fields `range`, `code`,
  `buffer`, `state`, `rep0` to `rep3`, the probability array and the output array, one
  method per macro or block of the source. `LzmaDecode` returns exactly what `Decode` of
  `LzmaStream` says, and in success and in a data error alike leaves in the output exactly
  what `Written` says.

`Code < Range` is *not* an invariant of this decoder. It fails at the start of the
stream `00 FF FF FF FF`, and a direct bit can end it: after given decisions some stream
makes it do so if and only if the normalised range is odd (`DirectBitEndsRange`). It
holds throughout a run on exactly the streams that, with their first byte taken as 0, lie
in the interval the encoder reaches (`StaysInRange`); the decoder drops that byte. All
statements about `Range`, probabilities, addresses and history hold on every input.

**Flattened trees** (`src/fdt.c`, `ntohl` of `src/board.c`; Devicetree Specification
v0.3, sections 5.2, 5.4 and 5.5). `FdtFormat` has trees, lookup in a tree, flattening,
and the walk over a token stream with its single flag. `Fdt` has the reader over bytes;
`FdtFlattener` writes blobs. In any tree, properties and subnodes in whatever order, the
walk finds the first match among the properties that stand before the first subnode of
their node (`WalkMixed`); so it agrees with lookup exactly where `WalkAgrees` says, and
always where properties come first, as the specification wants them.

**Formatter** (`src/printf.c`). `PrintfSpec` says what numerals, fields and format
strings mean; `Printf` has division by ten from shifts and additions, padding and
reversal in place, and the format-string loop. `PrintfMeaning` says of every conversion
what its text reads back as, in which characters, and on which side it is padded. `%b`
and `%o` print only padding, since
the source makes digits for bases 10 and 16 alone.

**Data-cache maintenance** (`src/cpu.c`; set/way words as in the ARMv7-A Architecture
Reference Manual, DDI 0406C, section B4.2.1). `SetWay` has geometry and set/way words,
`CacheHardware` an abstract write-back cache of seven levels. Its lines hold the bytes of
a block; a written byte is merged into a copy of its whole block; a line cleaned from one
level is allocated in the next and may push out another there, at a slot that the hardware
chooses. `CacheMaintenance` has the effect of the maintenance loops, with lines arriving
between any two instructions; `CpuState` the runs of enabling, writing, reading and
cleaning up; `Cpu` the imperative code.

`enable_caches` invalidates nothing. A clean copy that is already in a cache when the data
cache goes on may be stale, and a later write to another byte of its block then carries
the stale bytes to memory (`StaleLineLosesWrite`). So no write is ever lost if and only if
no level holds, before the caches are first enabled, a copy of a block that a page table
could make cacheable (`NoWriteLost`); empty caches, as `cleanup_before_linux` leaves them,
meet this.

`Bits` defines the words and C's bit operators digit by digit. `Wrappers` has `Option`.

`dafny verify dfyconfig.toml` checks everything.

## Model

| member | source | states |
|---|---|---|
| Bits.OrOfDisjointIsSum | src/LzmaDecode.c:52 | `a \| b` of words that share no digit is `a + b`; from this follow the code-word shift, the distance updates and the set/way words |
| LzmaContexts.CellIndexInjective | src/LzmaDecode.c:80-114 | for every property byte, two well-formed contexts at one address of the flat array are the same context |
| LzmaContexts.CellInRegion | src/LzmaDecode.c:103-118 | every context lies inside the address range of its own family and below `Literal + (768 << (lc + lp))` |
| LzmaContexts.SpecPosTiles | src/LzmaDecode.c:475-483 | every address of the `SpecPos` range is a node of the tree of some slot from 4 to 13 (by `CellIndexInjective`, of only one): the blocks tile the range |
| LzmaRangeDecoder.Normalize | src/LzmaDecode.c:52 | one byte always brings a `Range` of at least 2^16 back to 2^24, changes no probability, and never reads past the input |
| LzmaRangeDecoder.Bound | src/LzmaDecode.c:54 | both parts of a split range keep at least 2^16, for every probability from 31 to 2017; the zero part is the share `p`/2048 of the range to within `p` |
| LzmaRangeDecoder.ZeroShare | src/LzmaDecode.c:54 | the zero part is that share rounded down: the greatest multiple of `p` that 2048 times over does not exceed `Range * p` |
| LzmaRangeDecoder.ShareMoves | src/LzmaDecode.c:54-56 | of every range, zero's share grows after a zero bit and shrinks after a one bit, until the cell stops at 2017 or 31 |
| LzmaRangeDecoder.ProbUp | src/LzmaDecode.c:55 | a probability never leaves 31..2017 upwards, and 2017 is the only value that a zero bit leaves as it is; the step is the whole 32nd of the way to 2048 |
| LzmaRangeDecoder.ProbDown | src/LzmaDecode.c:56 | a probability never leaves 31..2017 downwards, and 31 is the only value that a one bit leaves as it is; the step is the whole 32nd of the way to 0 |
| LzmaRangeDecoder.Ask | src/LzmaDecode.c:52-60 | on every input, corrupt ones included, every adaptive or direct bit leaves the machine able to normalise with one byte, and reads exactly what normalising reads |
| LzmaRangeDecoder.AskAdaptiveMeaning | src/LzmaDecode.c:54-56 | after normalising, zero is the lower part of the range and the rest is one; the part becomes the range, the code word its offset there, and only the cell asked moves, towards the answer |
| LzmaRangeDecoder.AskDirectMeaning | src/LzmaDecode.c:489-496 | a direct zero is the lower half of the range, rounded down, and moves no cell |
| LzmaRangeDecoder.ExecConcat | src/LzmaDecode.c:52-60 | running two decision lists one after the other is running their concatenation |
| LzmaRangeDecoder.ExecShared | src/LzmaDecode.c:46-52 | a run that ends at input position `k` is the same on every input with the same first `k` bytes |
| LzmaSymbols.TreeExec | src/LzmaDecode.c:64-67 | a bit tree decodes to a symbol if and only if the machine gives that symbol's decisions, most significant bit first, and both end in the same machine |
| LzmaSymbols.TreeCodeAt | src/LzmaDecode.c:64-67 | decision `i` of a tree gives the symbol's next bit at the node that the bits before it number |
| LzmaSymbols.RevExec | src/LzmaDecode.c:503-512 | the same equivalence for the reverse tree, least significant bit first |
| LzmaSymbols.DirectExec | src/LzmaDecode.c:487-498 | the same equivalence for direct bits appended to what is already decoded |
| LzmaSymbols.MatchedCodeAt | src/LzmaDecode.c:299-325 | decision `i` of a literal after a match gives the symbol's next bit, in a match-byte context if and only if all bits before it agree with the match byte, and in the plain tree otherwise |
| LzmaSymbols.MatchedSound | src/LzmaDecode.c:299-325 | whatever is decoded after a match, the machine gave exactly its decisions |
| LzmaSymbols.MatchedExec | src/LzmaDecode.c:299-326 | every symbol from 256 to 511 is decoded by exactly one list of eight decisions, for every match byte |
| LzmaSymbols.LenExec | src/LzmaDecode.c:434-465 | lengths 2 to 273 (here less the minimum 2) correspond one to one to the three-part length codes |
| LzmaDistances.LeadingBitsSlot | src/LzmaDecode.c:475-478 | a distance whose two leading bits are those of a slot has that slot and no other |
| LzmaDistances.DistExec | src/LzmaDecode.c:471-516 | slot, direct bits and low bits name every 32-bit distance word exactly once, and nothing outside 32 bits is ever decoded |
| LzmaPackets.CopyIsPeriodic | src/LzmaDecode.c:540-556 | byte `j` of an overlapping copy is byte `j mod distance` of the last `distance` bytes before it |
| LzmaPackets.Apply | src/LzmaDecode.c:326-556 | every packet that does not reach back past the start keeps the history invariant (`state` below 12, all four distances within the output) and lengthens the output; what it appends and leaves is in `ApplyMeaning` and `StateIsLastFour` |
| Lz77.ApplyMeaning | src/LzmaDecode.c:326-556 | a packet is refused exactly if its distance reaches back past the start; a literal appends its byte, any other packet as many bytes as its length says (a short repeat one), each equal to the byte its distance before; a match pushes its distance in front of the three latest, a repeat moves the one it uses to the front, the others keep their order |
| LzmaPackets.StateTellsLiteral | src/LzmaDecode.c:337-339 | `state` is 7 or more exactly when the last packet was not a literal |
| Lz77.StateIsLastFour | src/LzmaDecode.c:337-339 | after every valid packet list `state` is a function of the kinds of its last four packets: 0 after three literals; 1, 2, 3 and 4, 5, 6 after two literals or one after a match, repeat or short repeat; 7, 8, 9 after one of these behind a literal; 10 and 11 after a match or any repeat behind another; 4 and 5, 1 and 2 after a literal or two behind these |
| Lz77.ValidMeaning | src/LzmaDecode.c:529-531 | a packet list is valid if and only if every packet's distance, found from the packets before it, is no more than the bytes they stand for, and only the last is an end marker |
| Lz77.ExpandMeaning | src/LzmaDecode.c:273-557 | the expansion of a valid list is as long as its packets say, and each byte is the literal it stands for or the byte one distance before it, the distance found from the packets before |
| LzmaPackets.LitExec | src/LzmaDecode.c:288-328 | a literal is decoded, in the contexts that position, previous byte and `state` select, if and only if the machine gives its code |
| LzmaPackets.RepSelectExec | src/LzmaDecode.c:356-430 | each of the four repeated distances and the short repeat is selected by exactly its flags |
| LzmaPackets.PacketExec | src/LzmaDecode.c:275-523 | a packet, whatever its kind, is decoded if and only if the machine gives its code, and both end in the same machine |
| LzmaFormat.LiteralContext | src/LzmaDecode.c:290-297 | a literal's contexts are those of the `lp` low bits of its position and the `lc` high bits of the byte before it, 0 at the start |
| LzmaFormat.LiteralCodeMeaning | src/LzmaDecode.c:285-325 | a literal is a 0, then its eight bits, highest first: in the literal tree below state 7, else as `MatchedCodeAt` says beside the byte at the latest distance |
| LzmaFormat.MatchCodeMeaning | src/LzmaDecode.c:343-352 | a match is 1, 0, its length and its distance less 1, in the tree of the length's class; the end marker has distance word 2^32 - 1 |
| LzmaFormat.RepeatCodeMeaning | src/LzmaDecode.c:356-433 | a repeat is 1, 1 and flags: 0, 0 for one byte; 0, 1 for the latest distance; 1, 0 and 1, 1, 0 and 1, 1, 1 for the others; then its length in the coder of its own |
| LzmaFormat.LenCodeMeaning | src/LzmaDecode.c:434-465 | lengths 2 to 9 and 10 to 17 have three bits in trees that the position selects, lengths 18 to 273 eight bits in one tree, each behind its flags |
| LzmaFormat.LengthClass | src/LzmaDecode.c:471-473 | lengths 2, 3 and 4 have slot trees of their own, all longer ones share the fourth |
| LzmaFormat.DistCodeMeaning | src/LzmaDecode.c:469-516 | six bits of slot; then the bits below the two leading ones: for slots 4 to 13 in the slot's tree, lowest first; from 14 up all but four directly, highest first, and the four lowest in the align tree, lowest first |
| LzmaStream.StreamComplete | src/LzmaDecode.c:273-582 | a machine that gives the code of a valid packet list decodes to the list's LZ77 expansion cut at `outSize`, also where the list goes on beyond the cut |
| LzmaStream.StreamSound | src/LzmaDecode.c:273-582 | every successful decoding is that of a valid packet list, read to its end, with output and consumed length determined by it |
| LzmaStream.WrittenSound | src/LzmaDecode.c:273-582 | on a data error too, the bytes written are the expansion, cut at `outSize`, of valid packets whose code the machine gave |
| LzmaStream.OutputIsWritten | src/LzmaDecode.c:580-582 | a successful decoding's output is all that was written |
| LzmaStream.StartMeaning | src/LzmaDecode.c:33-34 | decoding starts on five bytes or more, with the full range, the code word that bytes 1 to 4 spell, and zero and one equally likely in every cell |
| LzmaStream.CutMeaning | src/LzmaDecode.c:556 | cutting at `outSize` keeps the first bytes, as many as there are or `outSize` |
| LzmaStream.UniquePackets | src/LzmaDecode.c:273-557 | one run gives the codes of two packet lists, both read to their ends by the same decoder, only if the lists are the same |
| Lz77.ReadMeaning | src/LzmaDecode.c:273 | packet `i` is read exactly if those before it stand for fewer than `outSize` bytes |
| LzmaStream.PrefixConsistency | src/LzmaDecode.c:540-582 | asking for fewer bytes of the same input succeeds, gives the same bytes cut short, and consumes no more, also inside a match |
| LzmaStream.DependsOnConsumedBytes | src/LzmaDecode.c:46-52 | a decoding that consumed `k` bytes gives the same result on every input with the same first `k` bytes |
| LzmaStream.ConsumedWithinInput | src/LzmaDecode.c:559-580 | a successful decoding consumes at least the five start bytes and no more than the input |
| LzmaStream.TruncationIsDataError | src/LzmaDecode.c:46 | cutting the input anywhere below the consumed length makes the decoding a data error |
| LzmaStream.FirstByteIgnored | src/LzmaDecode.c:33-34 | the first of the five start bytes falls out of the code word: it never influences the result |
| LzmaEncoder.EncodeNested | src/LzmaDecode.c:54-56 | encoding only ever narrows the interval of streams |
| LzmaEncoder.AskRefines | src/LzmaDecode.c:52-56 | one decoded bit against one narrowing of the exact interval: the machine gives the encoder's answer within its range exactly on the streams of the narrower interval, and code word, position and every probability agree afterwards |
| LzmaEncoder.RunRefines | src/LzmaDecode.c:33-60 | from any refined state, in range or not, the 32-bit machine answers a decision list with its code word below its range throughout if and only if the stream's value lies in the interval that encoding the list reaches; the code word is then the exact offset in it |
| LzmaEncoder.StaysInRange | src/LzmaDecode.c:33-60 | on every stream, from its start and for all decisions: the machine answers them with `Code < Range` throughout if and only if the stream, its first byte taken as 0, lies in the interval that encoding them reaches |
| LzmaEncoder.RoundTrip | src/LzmaDecode.c:155-584 | for every valid packet list and every stream that, its first byte taken as 0, lies inside its interval, decoding gives the packets' LZ77 expansion cut at `outSize`, and consumes exactly the interval's digits if it reads all packets |
| LzmaEncoder.DecodeOfEncode | src/LzmaDecode.c:155-584 | every valid packet list has a stream, and decoding that stream followed by anything gives back the expansion and consumes just the stream |
| LzmaEncoder.DecodedStreamInside | src/LzmaDecode.c:155-584 | conversely, every stream that decodes, its first byte taken as 0, lies in the interval of the packets it decodes to if and only if the code word stayed below its range all the way |
| LzmaEncoder.IntervalsDisjoint | src/LzmaDecode.c:155-584 | different packet lists, each read to its end by one decoder, have disjoint intervals: no stream stands for two |
| Lz77.DecodedMeaning | src/LzmaDecode.c:155-584 | every successful decoding writes, byte by byte, what some packets stand for that reach back only into what came before them, cut at `outSize`, and reads no packet without need |
| Lz77.EncodedMeaning | src/LzmaDecode.c:155-584 | every such packet list has a stream; decoding it, whatever follows, consumes just the stream and writes what the packets stand for |
| LzmaEncoder.DirectBitEscapes | src/LzmaDecode.c:489-496 | a direct bit keeps `Code < Range` unless the normalised range is odd and the code word is its last value; then the two become equal |
| LzmaEncoder.DirectBitEndsRange | src/LzmaDecode.c:489-496 | after any decisions, some stream makes a direct bit end `Code < Range` if and only if the normalised range is odd |
| LzmaEncoder.DirectBitEndsRangeAtStart | src/LzmaDecode.c:489-496 | the range is odd at the start: on 00 FF FF FF FE a direct bit asked there ends `Code < Range` |
| LzmaEncoder.CodeMayEqualRange | src/LzmaDecode.c:33-34 | `Code < Range` fails right after the start of the stream 00 FF FF FF FF |
| LzmaDecoder.LzmaDecodeProperties | src/LzmaDecode.c:120-151 | accepts exactly property bytes below 225, and returns the one `lc`, `lp`, `pb` that the byte combines |
| LzmaDecoder.OrAboveLow | src/LzmaDecode.c:509 | `rep0 \|= i` always meets a clear bit, so it adds `i` |
| LzmaDecoder.MatchBit | src/LzmaDecode.c:314-315 | the bit isolated from the shifted match byte is the one that faces the literal bit about to be decoded |
| LzmaDecoder.LzmaDecoder.Normalize | src/LzmaDecode.c:52 | the word operations compute the machine's normalisation: no bit of `Range` is lost |
| LzmaDecoder.LzmaDecoder.DecodeBit | src/LzmaDecode.c:54-60 | updating `Range`, `Code` and one cell in place gives the machine's answer and its next state (`AskAdaptiveMeaning`, `ZeroShare`) |
| LzmaDecoder.LzmaDecoder.DecodeTree | src/LzmaDecode.c:64-67 | the tree loop decodes the tree at its address |
| LzmaDecoder.LzmaDecoder.DecodeLowBits | src/LzmaDecode.c:503-512 | the reverse tree loop fills the low bits of `rep0` with what the reverse tree decodes |
| LzmaDecoder.LzmaDecoder.DecodeDirectBits | src/LzmaDecode.c:487-498 | the direct-bits loop appends the decoded bits to `rep0` |
| LzmaDecoder.LzmaDecoder.DecodeDistance | src/LzmaDecode.c:469-516 | leaves the decoded 32-bit distance word in `rep0` |
| LzmaDecoder.LzmaDecoder.DecodeLength | src/LzmaDecode.c:434-465 | decodes a length with the coder at the given address |
| LzmaDecoder.LzmaDecoder.SelectRep | src/LzmaDecode.c:356-430 | selects the repeated distance and rotates `rep0` to `rep3` as that packet does |
| LzmaDecoder.LzmaDecoder.DecodeCopy | src/LzmaDecode.c:344-525 | decodes a match or repeat and leaves `state` and the distances as that packet does |
| LzmaDecoder.LzmaDecoder.Copy | src/LzmaDecode.c:372-394 | applies the decoded packet to the output (`ApplyMeaning`), or fails, ends or continues exactly as it says |
| LzmaDecoder.LzmaDecoder.DecodeLiteral | src/LzmaDecode.c:288-326 | the two-phase literal loops decode the literal of this position and history |
| LzmaDecoder.LzmaDecoder.CopyBytes | src/LzmaDecode.c:540-556 | copies in place what an overlapping copy gives, cut at `outSize`, and touches nothing behind it |
| LzmaDecoder.LzmaDecoder.DecodePacket | src/LzmaDecode.c:273-557 | one round fails, ends or extends the history exactly as the packet says (`ApplyMeaning`; its state, `StateIsLastFour`); unless it ends, it emits at least one byte; it writes nothing past its output |
| LzmaDecoder.LzmaDecoder.LzmaDecode | src/LzmaDecode.c:155-584 | from a probability array with any contents: result code, consumed length, produced length and output bytes are exactly those of `Decode` (what that means, `DecodedMeaning`); on a data error too, the output holds exactly the bytes of `Written`, and nothing after them is touched; always terminates |
| FdtFormat.WalkIgnoresNops | src/fdt.c:132-133 | NOP tokens anywhere in the stream change nothing |
| FdtFormat.WalkMixed | src/fdt.c:90-139 | walking the flattening of any tree, properties and subnodes in any order, stops at the first match in stream order among properties before the first subnode of their node, or leaves the flag clear for what follows |
| FdtFormat.WalkAgrees | src/fdt.c:72-141 | on every encoding of every such tree, the walk agrees with lookup exactly if the first match in stream order stands before its node's first subnode, or the first match that does has the same data, or there is no match |
| FdtFormat.WalkIsLookup | src/fdt.c:72-141 | on every encoding of every tree with properties before subnodes, the walk finds the first property in pre-order of that name in a node of that name, or nothing when there is none |
| FdtFormat.PropertyAfterSubnodeMissed | src/fdt.c:130-131 | a property behind a subnode is missed where it is the only match |
| FdtFormat.EncodingEndsOnce | src/fdt.c:98-99 | in a structure block closed by END, that END is the only one |
| FdtFormat.TokenMeaning | src/include/uimage/fdt.h:45-67 | the bytes of every token: tags 1, 2, 3, 4 and 9, big-endian; a node's name and its NUL; a property's length, then its name's place in the strings block, then its data |
| FdtFormat.NextTokenMeaning | src/fdt.c:108-136 | the next token starts at the first multiple of four after name or data |
| Fdt.Ntohl | src/board.c:21-30 | the shift loop reverses the bytes of a word |
| Fdt.SwapOfLoad | src/board.c:21-30 | reversing the bytes of a little-endian load gives the big-endian number: `ntohl` inverts big-endian writing |
| Fdt.FdtStreq | src/fdt.c:27-34 | true exactly on equal C strings |
| Fdt.FdtStrlen | src/fdt.c:36-40 | the number of characters before the NUL |
| Fdt.FdtCheckHeader | src/fdt.c:45-66 | 0 only if all six demands on the header are met, else the negated number of the first that is not |
| Fdt.HeaderMeaning | src/include/uimage/fdt.h:21-38 | the six demands in their order, by the header's words: the magic's bytes, size at most `data_size`, version 16 or later, compatible with 17, structure and strings within the size |
| Fdt.TagAlignIsAlign4 | src/fdt.c:19-20 | the mask expression rounds up to a multiple of four wherever it does not wrap |
| Fdt.ReadToken | src/fdt.c:90-138 | one round of the loop stops, returns the property or moves on as the walk does on that token, with no wrap-around |
| Fdt.FdtGetProp | src/fdt.c:72-141 | on every well-formed blob, whatever its token stream: place and length of the bytes that the walk finds, or nothing and length 0; on every encoding of a tree, what lookup in the tree gives; always terminates |
| FdtFlattener.BlobHolds | src/fdt.c:72-84 | every token stream (with or without NOPs) whose sizes fit 32 bits is held by the blob that the flattener writes |
| FdtFlattener.TreeHasBlob | src/fdt.c:72-141 | every tree whose sizes fit 32 bits has a blob that meets the reader's precondition |
| PrintfSpec.NumeralDenotes | src/printf.c:273-318 | decimal and hexadecimal numerals are worth the number they were made from |
| PrintfMeaning.NumeralMeaning | src/printf.c:260-318 | a numeral ends in the character of the remainder, from 0 to 9 or 0 to f or F; before it stands the quotient's numeral |
| PrintfMeaning.NumeralShape | src/printf.c:260-318 | only the base's characters, in the case asked for, and no leading zero but in 0 itself |
| PrintfSpec.FieldWidth | src/printf.c:348-360 | a field has the larger of the asked width and the length of sign and digits |
| PrintfSpec.FieldRoundTrip | src/printf.c:321-385 | whatever width, adjustment and padding, stripping the padding and reading the field gives back the number and its sign |
| PrintfMeaning.NumberSides | src/printf.c:352-381 | on the left: sign and digits, then spaces; on the right: spaces before them, or the sign and then zeros before the digits |
| PrintfMeaning.DecimalMeaning | src/printf.c:138-151 | `%d` and `%D` print what reads back in base 10 as the signed argument, with a `-` exactly if it is negative, in digits 0 to 9, on the side and with the padding asked for |
| PrintfMeaning.UnsignedMeaning | src/printf.c:164-173 | `%u` and `%U`: in base 10 the argument modulo 2^32, without a sign |
| PrintfMeaning.HexadecimalMeaning | src/printf.c:175-193 | `%x` and `%X`: in base 16 the argument modulo 2^32, with small letters and with capitals |
| PrintfMeaning.TextMeaning | src/printf.c:195-205 | `%s` prints its text and `%c` its character, with spaces on the other side up to the width |
| PrintfMeaning.OthersPrintThemselves | src/printf.c:211-213 | every character but `bdDoOuUxXcs` prints itself |
| PrintfMeaning.ArgumentsInOrder | src/printf.c:127-205 | a conversion uses up the first argument left; any other character uses none |
| PrintfMeaning.FormatOfText | src/printf.c:69-78 | text before a directive, or at the end, is printed as it is |
| PrintfMeaning.WidthMeaning | src/printf.c:108-112 | a width is the number that its digits spell in base 10 |
| PrintfSpec.ParseOfWritten | src/printf.c:84-122 | every directive written by the grammar `%[l][-][0][width][.prec]conv` parses to its parts, and its precision leaves no trace |
| PrintfSpec.FormatOfWritten | src/printf.c:66-217 | formatting a written directive gives its text (by conversion, `DecimalMeaning` to `OthersPrintThemselves`), then the formatting of the rest with the remaining arguments |
| PrintfSpec.LonePercentDropped | src/printf.c:207-209 | a lone `%` at the end is dropped |
| PrintfSpec.BinaryAndOctalPrintPadding | src/printf.c:339-342 | `%b` and `%o` print no digit of any argument, only padding |
| Printf.EstimateBound | src/printf.c:287-291 | for every 32-bit word the shift-and-add estimate is the tenth or one less |
| Printf.CorrectedEstimate | src/printf.c:292-297 | so the one correction gives quotient and remainder |
| Printf.MyDec2Str | src/printf.c:273-303 | writes exactly the canonical decimal digits, least significant first, the special cases included |
| Printf.MyHex2Str | src/printf.c:306-318 | writes exactly the canonical hexadecimal digits, least significant first |
| Printf.ReverseInPlace | src/printf.c:374-380 | reverses the first `n` characters and leaves the others alone |
| Printf.FieldFromBuffer | src/printf.c:352-372 | each of the three padding layouts, reversed as the source reverses it, is the field |
| Printf.PrintNum | src/printf.c:321-385 | leaves exactly the field of the number in the buffer |
| Printf.PrintChar | src/printf.c:225-239 | leaves exactly the field of the character in the buffer |
| Printf.PrintString | src/printf.c:241-258 | leaves exactly the field of the text before the NUL in the buffer |
| Printf.ReadSpec | src/printf.c:84-122 | the flag, width and precision tests parse what the reference parser parses |
| Printf.PrintDirective | src/printf.c:81-216 | one directive prints its text (`DecimalMeaning` and the rows beside it) and leaves the rest of the string and of the arguments |
| Printf.LpPrint | src/printf.c:66-221 | prints what the reference formatter gives, for every format string and fitting arguments; always terminates |
| SetWay.CeilLog2Unique | src/cpu.c:97-111 | `CeilLog2(n)` is the only `k` with `2^(k-1) < n <= 2^k` (for n = 1, the `k` with `1 <= 2^k` that is 0) |
| SetWay.WordIsSum | src/cpu.c:156-157 | level, set and way fields are disjoint: `\|` adds them, and no bit is shifted out |
| SetWay.WordRoundTrip | src/cpu.c:156-157 | the hardware reads back from a word the level, set and way it was made of |
| SetWay.GeometryMeaning | src/cpu.c:204-212 | CCSIDR holds, from bit 0, three bits of line size above 16 bytes, ten bits of ways less 1 and fifteen of sets less 1 |
| SetWay.WordMeaning | src/cpu.c:156-157 | a word has its level from bit 1, its set from the bit that counts lines, and its way in the top bits, as many as number the ways |
| SetWay.LoopsCoverSlots | src/cpu.c:154-162 | for every geometry that fits a word, powers of two or not, the loops issue one word for each set and way, no two alike, and no other |
| CacheHardware.ViewIsNewest | src/cpu.c:385-394 | where clean copies agree with what lies below them, the processor sees what cleaning would leave in memory |
| CacheHardware.HasDataMeaning | src/cpu.c:236-240 | a level is maintained if its three bits of CLIDR are 2, 3 or 4: data, separate or unified |
| CacheHardware.PushEffect | src/cpu.c:385-394 | a whole line that arrives at a level becomes the newest of its block there, and no other block's newest bytes are lost, whatever lines this pushes out below |
| CacheHardware.EvictEffect | src/cpu.c:186-187 | cleaning a slot empties it, moves no other line of its level, and keeps every block's newest bytes |
| CacheHardware.FillEffect | src/cpu.c:480-489 | a line that the hardware brings in changes no newest byte, makes nothing dirty and leaves clean copies in agreement |
| CacheMaintenance.MaintLevelEffect | src/cpu.c:194-227 | maintaining a level undisturbed empties it and leaves the levels above alone |
| CacheMaintenance.CleanAllReachesMemory | src/cpu.c:230-244 | cleaning all levels upwards puts the newest bytes of every block into memory and leaves nothing dirty, whatever lines arrive between any two instructions |
| CacheMaintenance.CleanAllEmpties | src/cpu.c:230-244 | undisturbed, it leaves every cache empty |
| CacheMaintenance.InvalidateAllDiscards | src/cpu.c:378-383 | invalidating all levels empties them, leaves memory as it was, and discards the newest bytes of a block exactly where memory does not hold them already |
| CacheMaintenance.DownwardsLeavesDirty | src/cpu.c:236-243 | the order of levels matters: cleaning level 1 before level 0 leaves a lone dirty line dirty, and memory without its bytes |
| CpuState.InDramMeaning | src/cpu.c:316-318 | the loop's sections are those whose last byte lies in the region, if the region stays below 4 GB; a region that reaches 4 GB gets none |
| CpuState.PageTableMeaning | src/cpu.c:312-339 | every entry `i` is a section descriptor for section `i` itself, with full access, not for execution, domain and other attributes 0; bits C and B are both set or both clear; it is cacheable exactly if the region stays below 4 GB, holds the section's last byte, and the section is not the table's; so the last section never is |
| CpuState.TableOfRanges | src/cpu.c:307-310 | the table that is enabled is that of the region set last, start and size in this order; where the MMU runs already, the table stays |
| CpuState.ControlBits | src/cpu.c:27-29 | the three control bits are bit 0 (MMU), bit 2 (data cache) and bit 12 (instruction cache), each alone |
| CpuState.EnableSafe | src/cpu.c:359-376 | from a safe state enabling sets I, C and M, and brings no stale copy into use |
| CpuState.WriteSafe | src/cpu.c:359-413 | from a safe state a written byte, cached or not, becomes the newest of its address and of no other, not even in its own block |
| CpuState.StaleAfterStore | src/cpu.c:359-369 | a write past the caches leaves a stale copy exactly if some level holds one and the byte changes |
| CpuState.ReadsCurrent | src/cpu.c:359-413 | in a safe state the processor reads, of every address, the byte last written |
| CpuState.CleanupEffect | src/cpu.c:457-501 | from any state cleaning up empties the caches and leaves in memory the newest bytes, even where a stale copy had made them wrong |
| CpuState.CleanupSafe | src/cpu.c:457-501 | from a safe state cleaning up clears I, C and M and no other control bit, leaves every cache empty, and memory with the last byte written to every address |
| CpuState.StepSafe | src/cpu.c:359-501 | every event keeps: M is set exactly when C is, nothing is dirty while caches are off, only cacheable blocks are dirty or, of those a table could make cacheable, have copies, clean copies agree with what lies below, and every last written byte is the newest |
| CpuState.RunKeepsWrites | src/cpu.c:359-501 | from caches off without a usable copy: in every run reads give the last byte written, and a cleanup leaves it in memory for every address, every cache empty, and I, C and M clear |
| CpuState.StaleLineLosesWrite | src/cpu.c:359-376 | from caches off with a usable copy: writing a byte of its block, enabling, writing the next byte and cleaning up leaves the stale first byte in memory |
| CpuState.NoWriteLost | src/cpu.c:359-501 | from caches off, every run with a cleanup leaves the last byte written to every address in memory if and only if no level holds a copy of a block that a page table could make cacheable |
| CpuState.CleanupLeavesNoLine | src/cpu.c:457-501 | a cleanup leaves a state that meets that condition |
| Cpu.Log2NRoundUp | src/cpu.c:97-111 | the ceiling of log2 for every n of 1 or more, and -1 for 0 |
| Cpu.MaskedField | src/cpu.c:204-212 | masking in place and shifting down reads one field of CCSIDR |
| Cpu.Cpu.DcacheLevelSetway | src/cpu.c:143-192 | the nested countdown loops issue the words of the level in order |
| Cpu.Cpu.MaintDcacheLevelSetway | src/cpu.c:194-227 | maintains the whole level by the geometry that CCSIDR gives |
| Cpu.Cpu.MaintDcacheAll | src/cpu.c:230-244 | maintains the levels with a data or unified cache, upwards |
| Cpu.Cpu.MmuSetup | src/cpu.c:312-351 | fills the table in place with the entries that `PageTableMeaning` describes, every one of the 4096, and sets M |
| Cpu.Cpu.CacheEnable | src/cpu.c:359-369 | sets the bit, and sets up the table and M first if the data cache needs it |
| Cpu.Cpu.CacheDisable | src/cpu.c:397-413 | does nothing for a data cache that is off; else flushes before it clears C and M together |
| Cpu.Cpu.CleanupBeforeLinux | src/cpu.c:457-501 | is the cleanup event, with lines arriving during and after the flush, and from every safe state leaves memory with the last byte written to every address |

## Left out

- LzmaDecode with `_LZMA_OUT_READ` or `_LZMA_IN_CB` (circular dictionary, callback input): not compiled in this configuration.
- LzmaEncoder.DirectBitEndsRangeAtStart: the stream shown has the machine asked a direct bit first, which the packet loop does not do; for the loop's own decisions the condition is `DirectBitEndsRange`, and no complete stream of packets is exhibited.
- Lengths of input and output (`SizeT`) are unbounded here; the source's 32-bit counters never overflow because they are bounded by real buffers.
- `src/lzma.c` and `src/loader.c`: the 13-byte header and the calls around the decoder are glue; the header's size sum depends on an unspecified order of evaluation.
- Fdt.FdtGetProp: stated for well-formed blobs; on others `offset` may wrap and a tag is read before its range check (`src/fdt.c:93-96`, `src/fdt.c:127`). A null `lenp_ret` is not modelled.
- Printf.LpPrint: every piece of text and every field must fit the 256-character buffer (longer ones are fatal or overflow it), the arguments must suit the directives, and `%d` of the least integer is excluded since its negation overflows. Widths and precisions are unbounded integers. Arguments are a list; the mechanics of `va_arg` are not modelled.
- `printf_output` (carriage return after newline, silence on the closing lone NUL): only the text handed to it is modelled.
- Cpu.Cpu.DcacheLevelSetway: the source has the same loops twice, once per instruction; the model has them once, with the operation as a parameter.
- In `src/cpu.c`, barriers, `cp_delay`, outer-cache stubs, L2 error clearing, interrupt masking and instruction-cache invalidation are not modelled; coprocessor instructions are abstract operations on the cache model, one write to the control register is one step, and table walks by the MMU are not modelled.
- CpuState.NoWriteLost: all data caches have one common line size, and a write allocates its line in the first level that holds data. The caches are write-back; the write-through setting of the source's page table entries is not modelled. One processor only.
- UART, GPIO, MDIO, timer, watchdog and reset code: device registers with nothing decided by the code alone.
- `head.S`, `start.S`, linker scripts and shell scripts: build and relocation.
