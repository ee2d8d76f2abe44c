# dbcppp: signal codec, C generator, network cache, comparison, and DBC text

dbcppp describes the frames of a CAN bus. A *network* holds messages; a message holds *signals*, each a run of 1 to 64
bits somewhere in a frame, in one of two byte orders. This project models the parts of dbcppp in which a mistake would
silently give wrong values, and proves what they promise.

To verify: `dafny verify dfyconfig.toml`.

| file | models |
|---|---|
| `Bits.dfy` | 64-bit words as numbers below 2^64, with every wrap, shift, mask and complement written out; the bit view the codec proofs use |
| `SignalLayout.dfy` | where the bits of a signal lie in a frame, said without reference to how they are read or written; what a decoder should return (`Value`) and what an encoder should leave (`Encoded`) |
| `SignalImpl.dfy` | class `SignalImpl`: the constructor's masks, shifts, byte window and error flags; the fast decoder; the bit-by-bit encoder, changing an array in place |
| `CodecLaws.dfy` | what encoding and decoding promise together, for one signal and for all the signals of a frame |
| `ReferenceDecoder.dfy` | the slow decoder of the repository's own decoding test, and its agreement with the fast one |
| `NetworkToC.dfy` | the C generator as a compiler: emitted statements, their meaning, and agreement with the library's decoder |
| `CText.dfy`, `CReader.dfy` | the words of C and their characters; a reader of the C that is generated, and what running it does to a frame |
| `GeneratedText.dfy` | the text of the emitted statements, decoders and conversions, read back by that reader |
| `GeneratedFile.dfy` | the whole generated file: one decoder and one conversion for each signal, what its characters mean, and the names |
| `AstCache.dfy` | class `Cache`: the nested maps built from a parsed file, against plain scans of the parsed lists |
| `NetworkEquality.dfy` | `operator==` of every class of the object tree, and `Merge` |
| `MessageMux.dfy` | class `MessageImpl`: the pointer to the multiplexer switch through construction, copy and assignment |
| `Numerals.dfy`, `DbcTypes.dfy` | decimal numerals; values shared by the parsed file and the network |
| `NumberFormat.dfy` | how an output stream prints a number at its default precision of six digits |
| `RoundingLaws.dfy` | which number is printed for a number, and which text for a printed number |
| `DbcGrammar.dfy` | the grammar's skipper, quoted strings, identifiers, numbers, signals and messages, with its backtracking, its expectations and its error handlers |
| `DbcSpelling.dfy` | the spellings of gaps, comments, marks, numbers, names, strings and line ends, and that the terminals read exactly these |
| `DbcLanguage.dfy` | signals, messages and sections as relations between a text and what it spells, and that the grammar reads exactly these |
| `DbcPrinter.dfy` | the printers of messages and signals |
| `DbcTerminals.dfy` | reading back marks, numbers, names and quoted strings |
| `DbcRoundTrip.dfy` | printing the messages of a network and parsing them back |
| `DbcReading.dfy` | what any text of messages becomes in the network |
| `DbcReparse.dfy` | what holds of anything the grammar accepts; reading any text, printing it and reading it again |

How the pieces fit:

- A signal's precomputed fields mean what `SignalImpl.Valid` says; the constructor establishes it for every start bit,
  size and byte order. `Decode` and `Encode` are methods proved equal to `Value` and `Encoded`, so every law in
  `CodecLaws.dfy` about these two functions is a law about the methods. The byte positions of encoder and decoder are
  two different formulas in the source; `Place` and `Slot`, inverse to each other, tie them together.
- `alignment` stands for the `_decode` function pointer, which selects one of 36 instances of one template. The machine
  facts `is_iec559` are parameters of the constructor. The host is little-endian, as src/EndianConfig.h:9 fixes.
- The generator's output is a list of statements with a small-step meaning; `Undefined` is reading outside the frame or
  shifting by 64 or more, so agreement includes that neither happens. The characters of the file have a meaning of their
  own: they are split into words, parsed as C and run. `EmitNetwork` promises that so read, each function returns what
  `Decode` returns and each conversion multiplies and adds the signal's printed factor and offset.
- What is read is said twice: by the grammar, which is a function, and by relations (`SignalOf`, `MessagesOf`) that say
  how a signal may be spelled. `MessagesIff` and `LoadedIff` prove that they agree on every text, so they hold of files
  dbcppp has never written: comments, any line ends, any spelling of a number.
- The parser is a function from the text still to be read to `Ok`, `Fail` or `Throw`. `Throw` is an unmet expectation.
  The signal rule has an error handler, so a bad signal merely ends its message's list; the message rule has none, since
  src/DBCX3.cpp:401 declares the handler for a tag that no rule uses, so a bad message header abandons the whole file.
- Numbers are printed as C's `%g` does: rounded to six significant digits, ties to even, with an exponent outside -4..5.
  They are reals here, so the rounding of the binary format itself is not part of it.
- Precondition everywhere: a size of 1 to 64 bits; shifts are undefined otherwise. The constructor's error check is stated
  with its wrap-around, for every start bit and message size.

Where the code and what it says of itself part:

- include/dbcppp/Signal.h:102-103 promises that eight bytes, and as many as the signal needs, are enough to decode. The
  decoder reads whole words; `DocumentedLengthCoversWindow` gives the exact signals for which the promise holds.
- The generated C does not mask a Float read from one word (src/Network2C.cpp:91), so it agrees with `Decode` only on the
  low bits, and fully exactly when the signal ends its word. The generated text for a little-endian signal over nine bytes
  has an unbalanced parenthesis (src/Network2C.cpp:136), so the file does not compile.
- `operator==` asks that every part of the right object has an equal in the left one. It is a preorder and not symmetric;
  it does not look at new symbols of a network, the size of a message, the maximum of an environment variable or the byte
  order of a signal type. For enumerations of attribute definitions the direction is the other way round.
- Quoted strings are printed without escaping and read with it. A string that has no unescaped quote and does not end in
  an escaping backslash is read to its closing quote, unescaped: two backslashes come back as one, and the signal it
  belongs to is accepted with another unit. Any other string ends early or runs on, and what follows decides.
- A signal without receivers, whose unit is read to its own quote, is printed as a line the grammar does not accept. The
  list of signals silently ends there.
- A Double that lies in one word and is not 64 bits long is flagged as an error, but still decoded, as the whole loaded
  word. It is the only kind of signal for which decoding does not undo encoding.
- Two signals of different messages can get the same function name in the generated C.
- The error check on the frame size multiplies the message size by eight in 64 bits: sizes from 2^61 on are taken modulo
  2^61, and the end of a signal beyond the last 64-bit position starts from zero.

## Model

| member | source | states |
|---|---|---|
| `SignalLayout.SlotOfPlace` | src/SignalImpl.cpp:215-257 | The walk of the encoder visits bitSize different bits of the frame, all of them between the signal's first and last byte. |
| `SignalLayout.PlaceOfSlot` | src/SignalImpl.cpp:215-257 | Conversely every frame bit the signal owns is the place of exactly one raw bit. |
| `SignalLayout.EndBytesReached` | src/SignalImpl.cpp:215-257 | The walk does reach the first byte and the last byte of the signal, so the byte count of the constructor is not too large. |
| `SignalLayout.ByteCountBounds` | src/SignalImpl.cpp:427-435 | A signal of 1 to 64 bits touches at least one and at most nine bytes. |
| `SignalLayout.NextBig` | src/SignalImpl.cpp:229-236 | A step of the big-endian walk advances by one in the mirrored bit numbering, in which the signal is contiguous. |
| `SignalLayout.LoadOrderedBit` | src/Helper.h:52-65 | Bit i of the loaded word, after the byte-order conversion, is a definite bit of the frame, for both orders. |
| `SignalLayout.Bswap64Bit` | src/Helper.h:52-58 | The byte swap moves bit i of byte j to bit i of byte 7 - j. |
| `SignalLayout.AssembleBit` | src/SignalImpl.cpp:215-257 | The reference value of a signal has as bit k the frame bit at the place of k, and no bit beyond the size. |
| `SignalLayout.SignExtendBit` | src/SignalImpl.cpp:87-95 | Sign extension keeps the bits of the number and copies its top bit to every higher bit. |
| `SignalLayout.SignExtendMeaning` | src/SignalImpl.cpp:87-95 | Read as an int64_t, the extended word is the two's complement value of the signal's bits. |
| `SignalLayout.WindowCoversSignal` | src/SignalImpl.cpp:436-492 | In all four cases the bytes a decoder reads contain the whole signal, and end within the signal's last byte rounded up to a multiple of eight, or at the last byte itself when there are nine. |
| `SignalLayout.LittleLiesInWord` | src/SignalImpl.cpp:442-445 | A little-endian signal inside the word at byte w starts at bit start - 8w of the loaded word and lies there in order. |
| `SignalLayout.BigLiesInWord` | src/SignalImpl.cpp:446-449 | The big-endian shift formula never goes negative and is where the signal lies, in order, in the swapped word. |
| `SignalLayout.NineBytesLittle` | src/SignalImpl.cpp:485-491 | Over nine bytes the low bits of a little-endian signal end the word and the remaining 1 to 7 start the ninth byte. |
| `SignalLayout.NineBytesBig` | src/SignalImpl.cpp:478-484 | Over nine bytes the high bits of a big-endian signal end the word and the remaining 1 to 7 fill the ninth byte from its top; no subtraction wraps. |
| `SignalLayout.EncodedBit` | src/SignalImpl.cpp:211-258 | In the encoded frame exactly the signal's own bits are those of the raw value, and every other bit is unchanged. |
| `SignalCodec.ReportsMeansFlag` | src/SignalImpl.cpp:613-620 | Error reports a condition exactly when its flag was set, and NoError exactly when no flag was. |
| `SignalCodec.SignalImpl.SetError` | src/SignalImpl.cpp:617-620 | Sets the flag of one condition and keeps all the others. |
| `SignalCodec.ExceedsMeansEndByte` | src/SignalImpl.cpp:377-395 | Some bit of the signal lies outside n bytes exactly when its end byte does. |
| `SignalCodec.FrameTooSmallMeaning` | src/SignalImpl.cpp:379-395 | The constructor's test, one formula for each byte order, holds exactly when the signal's end byte, as 64-bit positions see it, is beyond the message size modulo 2^61. |
| `SignalCodec.FlagIsRightIff` | src/SignalImpl.cpp:377-395 | For messages below 2^61 bytes the test says whether a bit of the walk lies outside max(8, size) bytes exactly when the signal ends below the last 64-bit position; for larger ones the exact condition is given too. |
| `SignalCodec.NBytes` | src/SignalImpl.cpp:427-435 | The two byte-count formulas give the number of bytes the signal touches. |
| `SignalCodec.WordShiftLies` | src/SignalImpl.cpp:442-472 | For a word that holds the signal the computed shift is below 64, and the signal lies there in order, for both byte orders. |
| `SignalCodec.SignalImpl.constructor` | src/SignalImpl.cpp:336-494 | Establishes the meaning of every precomputed field, for every start bit, and sets each error exactly when its condition holds, written out: a bit of the signal lies beyond max(8, size) bytes (with the wrap-around of the check spelled out where it shows), a Float that is not 32 bits or a Double that is not 64, a machine without that floating-point format. |
| `SignalCodec.SignalImpl.Check` | src/SignalImpl.cpp:377-418 | The four error conditions, each in both directions, and NoError exactly when none holds, for every message size. |
| `SignalCodec.SignalImpl.CheckFrameSize` | src/SignalImpl.cpp:379-395 | Sets SignalExceedsMessageSize exactly when the test on the end byte fails, and no other flag, for every message size. |
| `SignalCodec.SignalImpl.CheckTypeSize` | src/SignalImpl.cpp:396-418 | Sets the size and machine flags exactly under their conditions, and no other flag. |
| `SignalCodec.SignalImpl.PrecomputeMasks` | src/SignalImpl.cpp:422-423 | The mask is 2^size - 1 for every size up to 64, and the sign mask holds the bits size - 1 to 63. |
| `SignalCodec.SignalImpl.Precompute` | src/SignalImpl.cpp:420-492 | In each window case the fields locate the signal: every shift below 64, and the window is the one the layout prescribes. |
| `SignalCodec.SignalImpl.PrecomputeNineBytes` | src/SignalImpl.cpp:475-492 | The two shifts and the partial mask split the signal between the word and the ninth byte; the ninth byte's shift is below 8 for a big-endian signal. |
| `SignalCodec.SignalImpl.PrecomputeWordShift` | src/SignalImpl.cpp:457-471 | The shift computed after the byte position may have been aligned locates the signal in that word. |
| `SignalCodec.WordHoldsSignal` | src/SignalImpl.cpp:80-82 | Shifting and masking the word gives the number spelled bit by bit along the encoder's walk, on any frame. |
| `SignalCodec.NineBytesHoldLittle` | src/SignalImpl.cpp:35-40 | So does joining the shifted word with the masked ninth byte, little-endian. |
| `SignalCodec.NineBytesHoldBig` | src/SignalImpl.cpp:26-31 | So does joining the masked word with the top of the ninth byte, big-endian. |
| `SignalCodec.SignExtendedByMask` | src/SignalImpl.cpp:87-95 | Testing and or-ing with the sign mask is sign extension. |
| `SignalCodec.SignalImpl.Decode` | src/SignalImpl.cpp:16-97 | On every frame that covers the window the fast decoder returns the value assembled along the encoder's walk, extended as the types say (for a Double in one word: the loaded word). |
| `SignalCodec.SignalImpl.DecodeNineBytes` | src/SignalImpl.cpp:20-55 | The same, for the word and ninth byte. |
| `SignalCodec.SignalImpl.DecodeWord` | src/SignalImpl.cpp:56-97 | The same, for the first word and for any other word. |
| `SignalCodec.SignalImpl.LoadWord` | src/SignalImpl.cpp:58-75 | The load and swap of the one-word instances give the word of the window, in the signal's byte order. |
| `SignalCodec.BigWalkStep` | src/SignalImpl.cpp:217-237 | The i-th bit of the big-endian walk is the place of raw bit size - 1 - i, at mirrored position mirror(start) + i, and the next step does not wrap. |
| `SignalCodec.BitWritten` | src/SignalImpl.cpp:221-228 | Writing one bit at its place extends the written run by that bit and changes no other bit of the frame. |
| `SignalCodec.SignalImpl.Encode` | src/SignalImpl.cpp:211-258 | Leaves in the buffer exactly the frame in which the signal's bits are those of the raw value and all others are as before. |
| `SignalCodec.SignalImpl.EncodeBig` | src/SignalImpl.cpp:215-239 | The same, by the walk down each byte and on to the top of the next. |
| `SignalCodec.SignalImpl.EncodeLittle` | src/SignalImpl.cpp:240-257 | The same, by the walk upwards. |
| `SignalCodec.SignalImpl.WriteBit` | src/SignalImpl.cpp:221-228 | One round of either loop: one more raw bit is in the frame, and nothing else has changed. |
| `CodecLaws.DecodeAfterEncode` | src/SignalImpl.cpp:16-97 | Decode after Encode returns raw modulo 2^size, sign-extended if Signed and zero-extended otherwise, for every frame, raw value and signal but a Double in one word that is not 64 bits long. |
| `CodecLaws.DecodeAfterEncodeIff` | src/SignalImpl.cpp:76-79 | For that remaining kind it fails on some frame: the round trip holds for all frames and raw values exactly for the other signals. |
| `CodecLaws.WriteThenRead` | include/dbcppp/Signal.h:115-116 | Constructing a signal, encoding a value into a buffer and decoding the buffer returns the value modulo 2^size, extended, and leaves the encoded frame. |
| `CodecLaws.FittingIntegerSurvives` | include/dbcppp/Signal.h:114-116 | Any integer in the range of the signal's type comes back as the same int64_t or uint64_t. |
| `CodecLaws.EncodeUsesLowBits` | src/SignalImpl.cpp:211-258 | Two raw values give the same frame exactly when they agree modulo 2^size. |
| `CodecLaws.EncodeAfterDecode` | src/SignalImpl.cpp:211-258 | Encoding the decoded value back leaves the frame unchanged, for the same signals. |
| `CodecLaws.EncodeAfterDecodeIff` | src/SignalImpl.cpp:76-79 | Of the remaining kind, exactly those that start their word can still be written back unchanged on every frame. |
| `CodecLaws.LastEncodeWins` | src/SignalImpl.cpp:211-258 | Encoding twice is encoding the second value. |
| `CodecLaws.AssembleEncoded` | src/SignalImpl.cpp:211-258 | The bits read back after encoding are the raw value modulo 2^size. |
| `CodecLaws.ValueIsAssembled` | src/SignalImpl.cpp:76-86 | The decoder's early return for Double makes no difference unless the Double lies in one word and is not 64 bits long: the value is the signal's bits, extended. |
| `CodecLaws.FloatingValueIsPlainBits` | src/SignalImpl.cpp:42-46 | A Float of any size, and a Double of 64 bits or over nine bytes, decodes to its plain bits whatever its value type. |
| `CodecLaws.UnmaskedDoubleExact` | src/SignalImpl.cpp:76-79 | The Double shortcut without shift and mask is right on every frame exactly when the signal has 64 bits (or lies over nine bytes). |
| `CodecLaws.DocumentedLengthCoversWindow` | include/dbcppp/Signal.h:102-107 | The documented frame length covers the bytes read exactly when the signal ends in the first eight bytes, ends at a multiple of eight bytes, or touches eight or nine bytes. |
| `CodecLaws.DocumentedLengthTooShort` | include/dbcppp/Signal.h:102-107 | An eight-bit signal at bit 64 needs nine bytes, and sixteen are read. |
| `CodecLaws.CommuteIffDisjoint` | src/SignalImpl.cpp:211-258 | Two signals can be encoded in either order, for all raw values, exactly when they share no bit. |
| `CodecLaws.EncodeAllBit` | src/SignalImpl.cpp:211-258 | After encoding pairwise disjoint signals each owned bit is its owner's, and every unowned bit is unchanged. |
| `CodecLaws.EncodingOrderIsIrrelevant` | src/SignalImpl.cpp:211-258 | Any permutation of pairwise disjoint signals, of mixed orders and sizes, gives the same frame. |
| `CodecLaws.EachSignalReadsItsOwn` | src/SignalImpl.cpp:16-97 | After encoding pairwise disjoint signals into one frame each decodes to its own value. |
| `CodecLaws.PermutedStillDisjoint` | src/SignalImpl.cpp:211-258 | Disjointness of a list of signals does not depend on its order, since no signal is disjoint from itself. |
| `ReferenceDecoder.EasyDecode` | tests/DecodingTest.cpp:85-143 | The test's bit-by-bit decoder computes the extended bits of the signal, and hence what the fast decoder returns on every frame that covers its window. |
| `ReferenceDecoder.GatherBig` | tests/DecodingTest.cpp:92-112 | Its big-endian loop gathers the signal's bits. |
| `ReferenceDecoder.GatherLittle` | tests/DecodingTest.cpp:113-126 | Its little-endian loop gathers the signal's bits. |
| `ReferenceDecoder.FillSign` | tests/DecodingTest.cpp:132-142 | Its sign loop is sign extension. |
| `NetworkToC.MacroIsByteSwap` | src/Network2C.cpp:13-20 | The nested byte-swap macros, with their truncating casts, reverse the eight bytes of every word. |
| `NetworkToC.MacroBswap32Bit` | src/Network2C.cpp:14-16 | The 32-bit macro reverses the four low bytes. |
| `NetworkToC.EmitDecoder` | src/Network2C.cpp:52-167 | The emitted decoder returns what Decode returns on every frame, for every Integer and Double signal; for Float in one word it agrees on the low bits, and fully exactly when the signal ends its word; it parses exactly when it is not the little-endian nine-byte one. |
| `NetworkToC.EmitWord` | src/Network2C.cpp:63-107 | The same, for a signal within one word. |
| `NetworkToC.EmitLoad` | src/Network2C.cpp:65-82 | The load and swap chosen from the possibly aligned byte position leave the word that the library's decoder loads. |
| `NetworkToC.WindowFromFields` | src/Network2C.cpp:61-74 | The generator's own case split, made after the constructor may have aligned the byte position, picks the decoder's word. |
| `NetworkToC.EmitNineBytes` | src/Network2C.cpp:108-167 | The same, for a word and its ninth byte. |
| `NetworkToC.MaskedInteger` | src/Network2C.cpp:89-105 | Shift, mask and conditional or, run on any frame, return the decoded value, the second return being dead. |
| `NetworkToC.UnmaskedFloat` | src/Network2C.cpp:89-105 | Without the mask the low bits are right, and all bits are exactly when the signal's top bit is the word's. |
| `NetworkToC.HighBitsLeak` | src/Network2C.cpp:91-105 | Otherwise a frame of ones makes the emitted Float decoder return a different word. |
| `GeneratedFile.EmitNetwork` | src/Network2C.cpp:38-180 | For names without spaces, the characters of the stream, read and run as C, are for each signal of each message, in order, a decoder under its name that returns what Decode returns on every frame long enough (with the case split of EmitDecoder), and a conversion that multiplies the rounded factor and adds the rounded offset; they cannot be read exactly when a signal is little-endian over nine bytes. |
| `GeneratedFile.VisitedInOrder` | src/Network2C.cpp:41-45 | The order of the functions is that of the messages, and within a message that of its signals. |
| `GeneratedFile.EmitMessage` | src/Network2C.cpp:43-177 | The inner loop appends those of one message, behind all that was written before. |
| `GeneratedFile.FileParsesIff` | src/Network2C.cpp:131-139 | The parentheses of the written text are balanced exactly when no signal is little-endian over nine bytes. |
| `GeneratedText.CodeNested` | src/Network2C.cpp:61-167 | The text of a decoder is balanced exactly when it lacks the stray parenthesis, and no text after it mends that. |
| `GeneratedText.FileNested` | src/Network2C.cpp:38-180 | A file of functions is balanced exactly when each decoder is. |
| `GeneratedText.StmtRead` | src/Network2C.cpp:67-139 | The tokens of any emitted statement but the stray one, in front of any others, are read as a statement that does the same to every frame and state. |
| `GeneratedText.CodeRead` | src/Network2C.cpp:52-167 | The tokens of a decoder's body are read up to its closing brace, and run as the emitted statements do, exactly when it lacks the stray parenthesis. |
| `GeneratedText.ConversionRead` | src/Network2C.cpp:168-176 | In the conversion the number after the multiplication reads back as the rounded factor and the one after the addition as the rounded offset. |
| `GeneratedText.FileRead` | src/Network2C.cpp:38-180 | A file of tokens is read back as the functions it was written for, in order, exactly when every decoder can be read. |
| `GeneratedText.TextMeansFile` | src/Network2C.cpp:38-180 | The same for the characters of the file, when no name holds a space. |
| `GeneratedText.LoadWords` | src/Network2C.cpp:65-74 | The words of the two loads, character by character, the byte position being the index. |
| `GeneratedText.LoadTailWords` | src/Network2C.cpp:114-116 | The words of the load of the ninth byte. |
| `GeneratedText.UpdateWords` | src/Network2C.cpp:89-93 | The words of the shifts and the mask of a word. |
| `GeneratedText.TailUpdateWords` | src/Network2C.cpp:119-139 | The words of the shifts and the mask of the ninth byte. |
| `GeneratedText.EndWords` | src/Network2C.cpp:96-105 | The words of the sign extension and of the return. |
| `GeneratedText.HeadWords` | src/Network2C.cpp:46-50 | The words of a decoder's head. |
| `GeneratedText.ConversionWords` | src/Network2C.cpp:168-176 | The words of a conversion. |
| `CText.TextRead` | src/Network2C.cpp:38-180 | Splitting the characters at the spaces and recognising each word gives back the tokens they were written for. |
| `GeneratedFile.SameNameIff` | src/Network2C.cpp:46-50 | When exactly two signals get the same function name: the same three parts, or one message name continuing the other's name and id while the signal names make up for it. |
| `GeneratedFile.NamesCollide` | src/Network2C.cpp:46-50 | Signal `_2_S` of message `M`, id 1, and signal `S` of message `M_1_`, id 2, get the same name. |
| `GeneratedFile.NamesDistinct` | src/Network2C.cpp:46-50 | If no message name continues the name and id of another, and no three parts are repeated, all function names differ. |
| `AstCache.LastMatchingMeaning` | src/DBCAST2Network.cpp:789-869 | The entry that overwriting leaves is the last one of its owner in the list, or there is none. |
| `AstCache.MatchingOwned` | src/DBCAST2Network.cpp:736-787 | Appending leaves all the entries of the owner, and only these. |
| `AstCache.MatchingInOrder` | src/DBCAST2Network.cpp:736-787 | The k-th entry that appending leaves is the one at the owner's k-th position in the list. |
| `AstCache.AllPositions` | src/DBCAST2Network.cpp:736-787 | These positions are strictly ascending, each is the owner's, and none of the owner's is missing. |
| `AstCache.AttributeKeys` | src/DBCAST2Network.cpp:738-786 | An attribute belongs to the node, message, signal or environment variable that its own keys name. |
| `AstCache.CommentKeys` | src/DBCAST2Network.cpp:823-868 | So does a comment. |
| `AstCache.DescriptionKeys` | src/DBCAST2Network.cpp:791-818 | So does a value description. |
| `AstCache.Cache.AddAttribute` | src/DBCAST2Network.cpp:738-786 | One round of the attribute loop appends the entry for its owner and changes no other look-up, at any nesting level. |
| `AstCache.Cache.AddDescription` | src/DBCAST2Network.cpp:791-818 | One round of the description loop overwrites its owner's description and changes nothing else. |
| `AstCache.Cache.AddComment` | src/DBCAST2Network.cpp:823-868 | One round of the comment loop overwrites its owner's comment and changes nothing else. |
| `AstCache.Cache.EnsureSignal` | src/DBCAST2Network.cpp:762-771 | Creating a missing message and signal entry changes no look-up. |
| `AstCache.Cache.Fill` | src/DBCAST2Network.cpp:736-869 | After the three loops every look-up is the plain scan of the parsed lists. |
| `AstCache.Cache.Build` | src/DBCAST2Network.cpp:732-869 | The built cache agrees with the scans, and every entry is stored under its own key. |
| `AstCache.Cache.HoldsIsWellKeyed` | src/DBCAST2Network.cpp:738-868 | At every point of the building loops each cached entry has the alternative and the key of the owner it is stored for, so no boost::get can throw. |
| `AstCache.Cache.GetAttributeValues` | src/DBCAST2Network.cpp:186-205 | The reader returns the cached attributes of the owner in order, with the owner's kind, and its boost::get is always of the right alternative. |
| `AstCache.Cache.ReadComment` | src/DBCAST2Network.cpp:206-218 | The reader returns the cached comment, or the empty string. |
| `AstCache.Cache.GetValueDescriptions` | src/DBCAST2Network.cpp:255-279 | The reader returns the values of the cached description in order, or none. |
| `AstCache.Load` | src/DBCAST2Network.cpp:732-869 | For every node, message, signal and environment variable the readers return one attribute for each entry of its own in the order of the file, none missing or repeated, and the text and values of the last comment and description of its own, or nothing when there is none. |
| `NetworkEquality.Find` | src/NetworkImpl.cpp:291-294 | The search succeeds exactly when some element compares equal. |
| `NetworkEquality.FindEach` | src/NetworkImpl.cpp:291-294 | The loop holds exactly when each element on the right has an equal one on the left. |
| `NetworkEquality.SignalsEqual` | src/SignalImpl.cpp:621-663 | The accumulated comparison of signals is the containment stated by EqualSignals. |
| `NetworkEquality.MessagesEqual` | src/MessageImpl.cpp:202-234 | The same for messages; the size is not compared. |
| `NetworkEquality.NetworkImpl.Equals` | src/NetworkImpl.cpp:282-321 | The same for networks; the loop over new symbols always succeeds. |
| `NetworkEquality.DefinitionsPreorder` | src/AttributeDefinitionImpl.cpp:39-81 | The comparison of attribute definitions is reflexive and transitive, although it runs the other way for enumerations. |
| `NetworkEquality.MultiplexerValuesPreorder` | src/SignalMultiplexerValueImpl.cpp:41-53 | Reflexive and transitive. |
| `NetworkEquality.GroupsPreorder` | src/SignalGroupImpl.cpp:56-69 | Reflexive and transitive. |
| `NetworkEquality.SignalsPreorder` | src/SignalImpl.cpp:621-663 | Reflexive and transitive, through the nested lists. |
| `NetworkEquality.MessagesPreorder` | src/MessageImpl.cpp:202-234 | Reflexive and transitive, through signals and groups. |
| `NetworkEquality.NodesPreorder` | src/NodeImpl.cpp:44-56 | Reflexive and transitive. |
| `NetworkEquality.ValueTablesPreorder` | src/ValueTableImpl.cpp:61-73 | Reflexive and transitive, the optional signal type included. |
| `NetworkEquality.EnvironmentVariablesPreorder` | src/EnvironmentVariableImpl.cpp:148-179 | Reflexive and transitive. |
| `NetworkEquality.NetworkReflexive` | src/NetworkImpl.cpp:282-321 | Every network compares equal to itself. |
| `NetworkEquality.NetworkTransitive` | src/NetworkImpl.cpp:282-321 | The comparison of networks is transitive. |
| `NetworkEquality.NetworkComparisonIsOneWay` | src/NetworkImpl.cpp:291-294 | A network without its nodes shows that the comparison is not symmetric, exactly when there was a node to drop. |
| `NetworkEquality.NewSymbolsIgnored` | src/NetworkImpl.cpp:286-289 | Changing the new symbols compares equal in both directions. |
| `NetworkEquality.MessageSizeIgnored` | src/MessageImpl.cpp:202-234 | So does changing the size of a message. |
| `NetworkEquality.MaximumIgnored` | src/EnvironmentVariableImpl.cpp:148-179 | So does changing the maximum of an environment variable. |
| `NetworkEquality.SignalTypeOrderIgnored` | src/SignalTypeImpl.cpp:106-120 | So does changing the byte order of a value table's signal type. |
| `NetworkEquality.DefinitionsEqualIff` | src/AttributeDefinitionImpl.cpp:39-81 | Two attribute definitions compare equal exactly when they agree in object type, name and kind of value, in the bounds of a number, and the right one holds every value of the left enumeration. |
| `NetworkEquality.MultiplexerValuesEqualIff` | src/SignalMultiplexerValueImpl.cpp:41-53 | Two multiplexer values compare equal exactly when the switch name is the same and the left one covers the right one's ranges. |
| `NetworkEquality.GroupsEqualIff` | src/SignalGroupImpl.cpp:56-69 | Two signal groups compare equal exactly when everything but the list of signal names is the same, and the left list covers the right one. |
| `NetworkEquality.SignalsEqualIff` | src/SignalImpl.cpp:621-663 | Two signals compare equal exactly when they are the same but for receivers, attributes, value descriptions and multiplexer values, and in each of these lists the left one covers the right one. |
| `NetworkEquality.MessagesEqualIff` | src/MessageImpl.cpp:202-234 | Two messages compare equal exactly when they are the same but for the size and the lists, and each list of the left one covers that of the right one. |
| `NetworkEquality.NodesEqualIff` | src/NodeImpl.cpp:44-56 | Two nodes compare equal exactly when they are the same but for the attributes, and the left ones cover the right ones. |
| `NetworkEquality.ValueTablesEqualIff` | src/ValueTableImpl.cpp:61-73 | Two value tables compare equal exactly when they are the same but for the byte order of the signal type and the descriptions, and the left descriptions cover the right ones. |
| `NetworkEquality.EnvironmentVariablesEqualIff` | src/EnvironmentVariableImpl.cpp:148-179 | Two environment variables compare equal exactly when they are the same but for the maximum and the lists, and each list of the left one covers that of the right one. |
| `NetworkEquality.NetworksEqualIff` | src/NetworkImpl.cpp:282-321 | Two networks compare equal exactly when version, bit timing and comment agree and each of the seven compared lists of the left one covers that of the right one; dropping any one list is therefore seen. |
| `NetworkEquality.NodesMutuallyEqualIff` | src/NodeImpl.cpp:44-56 | Two nodes compare equal in both directions exactly when name, comment and set of attributes are the same. |
| `NetworkEquality.NetworkImpl.Merge` | src/NetworkImpl.cpp:244-281 | Every list of the receiver, the new symbols included, is followed by the other's, in order; version, bit timing and comment stay. |
| `NetworkEquality.MergeIsUpperBound` | src/NetworkImpl.cpp:244-281 | The merged network compares equal to what it was before, and to the other network exactly when version, bit timing and comment agree. |
| `NetworkEquality.MergeIsLeast` | src/NetworkImpl.cpp:244-281 | Whatever compares equal to both compares equal to the merged network. |
| `NetworkEquality.MergeAbsorbs` | src/NetworkImpl.cpp:244-281 | Merging a network that already compares equal gives one equal to the original in both directions. |
| `MessageMux.MessageImpl.constructor` | src/MessageImpl.cpp:47-87 | The pointer is null exactly when no signal is a switch and is otherwise at the last switch of the message's own vector; the error is set exactly when there is a multiplexed signal but no switch. |
| `MessageMux.MessageImpl.Copy` | src/MessageImpl.cpp:88-109 | The same holds of the copy, whose pointer is into its own fresh vector; everything but the signal groups is copied. |
| `MessageMux.MessageImpl.Assign` | src/MessageImpl.cpp:110-132 | The same after assignment, also from itself; the target keeps its own signal groups. |
| `MessageMux.MessageImpl.FindSwitch` | src/MessageImpl.cpp:98-107 | The loop leaves the pointer at the last switch of this message's vector, or null. |
| `MessageMux.CopyComparesEqual` | src/MessageImpl.cpp:88-109 | A message compares equal to its copy, and the copy to the message exactly when there were no signal groups. |
| `Numerals.DecimalRead` | src/Network2DBC.cpp:505-507 | Reading the printed digits of a number gives the number. |
| `NumberFormat.RoundedIff` | src/Network2DBC.cpp:518-519 | A number is printed exactly if and only if it has at most six significant decimal digits. |
| `NumberFormat.ShownMeans` | src/Network2DBC.cpp:518-519 | The digits, point and exponent shown for any number spell the number it is rounded to, in all four layouts. |
| `RoundingLaws.RoundedToNearest` | src/Network2DBC.cpp:518-519 | A number between 10^e and 10^(e+1) in magnitude is rounded to a multiple of 10^(e-5), at most half of that away; no other multiple is nearer, and of two equally near ones it is the even one. |
| `RoundingLaws.DecadeOf` | src/Network2DBC.cpp:518-519 | Every number but zero lies in one of these decades, and zero stays zero (`ZeroStays`). |
| `RoundingLaws.ExponentShownIff` | src/Network2DBC.cpp:518-519 | An exponent is shown exactly when the printed number is not zero and below 0.0001 or at least 1000000 in magnitude, and a minus sign exactly for negative numbers. |
| `RoundingLaws.ShownCanonically` | src/Network2DBC.cpp:518-519 | The text has no zero at the end of a fraction, none in front of other digits before the point, and a single digit other than zero there when there is an exponent. |
| `RoundingLaws.CanonicalIsUnique` | src/Network2DBC.cpp:518-519 | Only one such text has a given meaning and exponent, so these laws determine the digits printed. |
| `RoundingLaws.TwoDigitsShape` | src/Network2DBC.cpp:518-519 | The exponent is shown with at least two digits, and no zero in front of more. |
| `RoundingLaws.PlaceValue` | src/Network2DBC.cpp:505-507 | Digits are worth what the decimal system says (`DigitTable` for a single one). |
| `DbcPrinter.PrintSignal` | src/Network2DBC.cpp:499-535 | Appends the line of the signal to the stream, for any signal. |
| `DbcPrinter.SignalLine` | src/Network2DBC.cpp:499-535 | That line is the tab and keyword, the name, the multiplexer indicator, start bit, size, byte order, sign, factor, offset, minimum, maximum, unit and receivers, in this order, with these marks and spaces and nothing else between them. |
| `DbcPrinter.ReceiverList` | src/Network2DBC.cpp:521-531 | Appending a separator after each receiver and erasing the last two characters gives the list joined by separators. |
| `DbcPrinter.PrintMessage` | src/Network2DBC.cpp:261-269 | Appends the message line and then its signals in order. |
| `DbcPrinter.MessageLine` | src/Network2DBC.cpp:261-269 | The message line is the keyword, id, name, size and transmitter with these marks between them. |
| `DbcPrinter.PrintMessages` | src/Network2DBC.cpp:294-297 | The messages section is the messages one after another, in order. |
| `DbcPrinter.SignalTail` | src/Network2DBC.cpp:499-535 | The line of a signal in front of any text is its parts in front of that text, nested as the grammar reads them. |
| `DbcTerminals.QuotedBodyIs` | src/DBCX3.cpp:142 | What is read of any string printed between quotes, whatever follows: itself unescaped, a part of it up to an unescaped quote, or more than it if its last backslash takes the closing quote. |
| `DbcTerminals.SafeReading` | src/DBCX3.cpp:142 | The string is read as itself exactly when it has no quote, no two adjacent backslashes and no backslash at the end. |
| `DbcTerminals.QuotedBodyRead` | src/DBCX3.cpp:142 | Between quotes a string is read back whole, with the rest of the text left, exactly when it is such a string, whatever follows. |
| `DbcTerminals.QuotedStringRead` | src/DBCX3.cpp:142 | The same for the whole rule, quotes included, and its unescaped value when it is read to its own closing quote. |
| `DbcTerminals.RunsElsewhere` | src/DBCX3.cpp:142 | What is read beyond the closing quote never starts the string printed. |
| `DbcTerminals.UnsafeReadings` | src/DBCX3.cpp:142 | Examples: two backslashes come back as one, a quote ends the string, a last backslash takes the quote with it. |
| `DbcTerminals.IdentifierRead` | src/DBCX3.cpp:143 | An identifier in front of a character that cannot continue it is read back whole. |
| `DbcTerminals.UintRead` | src/DBCX3.cpp:135 | A printed number below 2^64 is read back. |
| `DbcTerminals.NumberRead` | src/DBCX3.cpp:146-149 | Any printed number is read back by double_ as the number it was rounded to, when no digit, point or exponent follows. |
| `DbcRoundTrip.MuxRead` | src/DBCX3.cpp:214 | The optional multiplexer indicator is read back, and absent exactly when there was none. |
| `DbcRoundTrip.IndicatorConverts` | src/DBCAST2Network.cpp:352-365 | Converting a printed indicator gives the multiplexer kind, and the switch value when it is a value; `DbcReading.IndicatesIff` says it of any indicator. |
| `DbcRoundTrip.NumbersRead` | src/DBCX3.cpp:212 | Two numbers between their marks are read back, rounded. |
| `DbcRoundTrip.MoreReceiversRead` | src/DBCX3.cpp:212 | The printed list of receivers is read back in order, up to the end of the line. |
| `DbcRoundTrip.SignalIsRead` | src/DBCX3.cpp:210-212 | What is read of a printed signal is decided by its unit and receivers alone: all else comes back as printed, or the rule fails. |
| `DbcRoundTrip.SignalRead` | src/DBCX3.cpp:210-212 | If the unit is read to its own quote, the signal comes back unescaped and rounded when it has a receiver, and is not accepted when it has none; otherwise no signal with that unit comes back. |
| `DbcRoundTrip.SignalComesBack` | src/DBCX3.cpp:210-212 | A printed signal, parsed and converted, is the same signal, with the following text left, exactly when it has a receiver, a quote-safe unit and numbers of at most six digits. |
| `DbcRoundTrip.SignalsReadAs` | src/DBCX3.cpp:203-204 | Of a list of signals whose units are read to their own quotes come back those before the first one without receivers, unescaped and rounded; there the list ends. |
| `DbcRoundTrip.SignalsRead` | src/DBCX3.cpp:203-204 | A list of signals comes back the same exactly when each of them does. |
| `DbcRoundTrip.MessageRead` | src/DBCX3.cpp:203-208 | A printed message comes back the same exactly when each of its signals does. |
| `DbcRoundTrip.SectionRoundTrip` | src/Network2DBC.cpp:261-269 | Printing the messages of a network and parsing and converting the text gives the same messages and signals, and leaves the rest of the file, exactly when every signal has a receiver, a quote-safe unit and numbers of at most six digits. |
| `DbcRoundTrip.SectionReadsAs` | src/Network2DBC.cpp:261-269 | If only every unit is read to its own quote and every signal has a receiver, the section is read to its end and the same messages come back, unescaped and rounded. |
| `DbcRoundTrip.LaterSectionsEnd` | src/Network2DBC.cpp:298-498 | Each of the twelve ways in which a printed file can go on after its messages ends the list of signals and of messages, those that start with BO_ or on a new line included. |
| `DbcRoundTrip.FileEnds` | src/DBCX3.cpp:112-133 | So does the end of the file. |
| `DbcSpelling.SkipIff` | src/DBCX3.cpp:138-140 | The skipper skips any spaces, closed line comments with any line end and closed block comments nested to any depth, all of them and nothing else; an open block comment is not skipped. |
| `DbcSpelling.UintIff` | src/DBCX3.cpp:135 | A whole number is read exactly from a gap and digits of a number below 2^64, zeros in front included, up to the first other character. |
| `DbcSpelling.IdentifierIff` | src/DBCX3.cpp:143 | A name is read exactly from a gap, a letter or underscore and the letters, digits and underscores after it, all of them. |
| `DbcSpelling.OptionalIdentifierIff` | src/DBCX3.cpp:214 | The optional indicator is absent exactly when no name can start after the gap. |
| `DbcSpelling.RealIff` | src/DBCX3.cpp:146-149 | A number is read exactly from a gap, an optional sign, digits before or after an optional point and an optional exponent with `e` or `E` and an optional sign, as far as they go; its value is the one they spell. |
| `DbcSpelling.UpperCaseExponent` | src/DBCX3.cpp:146-149 | In particular 3.4E+038, as in tests/test_files/dbc/multiplex_2.dbc, is read as 34 times 10^37. |
| `DbcSpelling.QuotedIff` | src/DBCX3.cpp:142 | A string is read exactly from a quote, characters of which a quote must and a backslash may be escaped, and a closing quote; its value is those characters unescaped. |
| `DbcSpelling.LineEndIff` | src/DBCX3.cpp:204 | A line ends at a line feed, a carriage return, the two together or the end of the file, behind blanks. |
| `DbcSpelling.LineEndAfterBlanks` | src/DBCX3.cpp:204 | In particular a line feed, a carriage return and a line feed, and a carriage return alone each end a line behind any blanks. |
| `DbcSpelling.KeywordIff` | src/DBCX3.cpp:210 | The keyword of a signal is read exactly from a gap, its letters and one space. |
| `DbcSpelling.MessageKeywordIff` | src/DBCX3.cpp:203 | The keyword of a message is read exactly from a gap, its letters and one space or closed comment. |
| `DbcLanguage.SignalIff` | src/DBCX3.cpp:210-216 | The signal rule reads a signal exactly from its keyword, name, indicator, start bit, size, byte order, sign, factor, offset, minimum, maximum, unit and receivers, with any gaps between them and any spelling of each. |
| `DbcLanguage.StopsIff` | src/DBCX3.cpp:204 | The list of signals ends exactly where no signal is spelled; before a text without the keyword it takes nothing (`NothingTaken`). |
| `DbcLanguage.SignalsIff` | src/DBCX3.cpp:204 | The list holds exactly the signals that follow one another up to there. |
| `DbcLanguage.MessageIff` | src/DBCX3.cpp:203-208 | The message rule reads a message exactly from its keyword, id, name, size, transmitter and line end, and its signals. |
| `DbcLanguage.MessagesIff` | src/DBCX3.cpp:118 | A section is read as exactly the messages it spells, one after another, up to a text without the keyword of a message. |
| `DbcLanguage.SectionFails` | src/DBCX3.cpp:203-208 | A section that is not so spelled makes the whole file fail, and only such a section does. |
| `DbcReading.IndicatesIff` | src/DBCAST2Network.cpp:352-365 | An indicator becomes no multiplexing when absent, the switch when it starts with an upper-case M, and otherwise the value of the digits behind its first letter, whatever follows them; a value that does not fit an int is not converted. |
| `DbcReading.ExtendedIndicator` | src/DBCAST2Network.cpp:361-364 | The indicator m3M of tests/test_files/dbc/multiplex_2.dbc becomes the switch value 3. |
| `DbcReading.BecomesIff` | src/DBCAST2Network.cpp:352-393 | The network's signal has each field of the parsed one; byte order 0 is big-endian and 1 little-endian, + is unsigned and - signed. |
| `DbcReading.LoadedIff` | src/DBCX3.cpp:203-216 | Any text whatever is loaded as exactly the messages and signals it spells, field by field, and leaves exactly what follows them; nothing is loaded from a text that spells none. |
| `DbcReparse.SignalBodyParsed` | src/DBCX3.cpp:210-216 | Any signal the grammar accepts has identifiers for name and receivers, at least one receiver, numbers of 64 bits and one of the two marks for order and sign. |
| `DbcReparse.MessagesParsed` | src/DBCX3.cpp:203-216 | The same for all the messages and signals read from any text whatever. |
| `DbcReparse.SignalsConverted` | src/DBCAST2Network.cpp:336-393 | The signals converted from them are as the printer needs them, and come back the same exactly when their units are quote-safe and their numbers short. |
| `DbcReparse.ReparseIsStable` | src/DBCX3.cpp:203-216 | What was read from any text, printed and read again, is the same exactly when every unit is quote-safe and no number has more than six digits. |

## Left out

- SignalCodec.SignalImpl.constructor: requires 1 to 64 bits; outside these the source shifts by 64 or more, which is undefined.
- SignalCodec.SignalImpl.Encode: requires that every bit of the signal has a position of 64 bits, which any buffer in memory gives; beyond it the walk would go on at the first byte. Bytes are numbers 0 to 255; the source updates them through `char`, whose promotion to 64 bits before the final truncation is not modelled.
- CodecLaws.EachSignalReadsItsOwn: leaves out a Double in one word that is not 64 bits long, which decodes to the whole word; `DecodeAfterEncodeIff` says why.
- NetworkToC.EmitDecoder: the meaning of the emitted statements is given here; the type punning of the load and the reference parameters of the two helper functions are not modelled.
- GeneratedFile.EmitNetwork: the text is words with a space after each, without the layout in lines; the fixed header before the functions is not part of it, only its byte-swap macros are modelled. The reader knows the part of C that the generator writes and rejects everything else; a conversion is read as its factor and offset, and the floating-point result of applying them is not stated.
- GeneratedFile.FileParsesIff: balanced parentheses are what any C parser needs at least; `EmitNetwork` speaks of the reader of `CReader.dfy`.
- AstCache.Cache.Build: the source caches pointers into the parsed lists; the model caches the entries. The order of the hash maps is not modelled and does not show.
- NetworkEquality.SignalsEqual: numbers are reals, so a NaN, which is not equal to itself, is not modelled; comparisons nested in a search are predicates.
- NetworkEquality.NetworkImpl.Merge: the elements are copied and the other network is left as it was; in the source they are moved out and it is destroyed.
- MessageMux.MessageImpl.Assign: the signals get fresh storage; the source may reuse the target's own. Move construction and move assignment are not modelled.
- NumberFormat.RoundedIff: numbers are reals; infinities, NaN, negative zero and the rounding of decimal text to a double are not modelled.
- DbcReading.LoadedIff: the messages and signals only, apart from what other sections say of them; a switch value beyond an int, undefined for std::atoi, is no result. Where a broken signal is left is as `Stops` says, through the grammar.
- DbcRoundTrip.SectionRoundTrip: multiplexer values are below 2^31, since std::atoi is undefined beyond; names are identifiers, since the printer does not check them.
- DbcRoundTrip.SignalRead: for a unit with an unescaped quote or an escaping last backslash it states only that no signal with that unit comes back; `SignalIsRead` and `QuotedBodyIs` say what is read, which depends on the text that follows.
- The other sections of a DBC file, in both directions: attributes, value tables, comments, environment variables, signal groups and signal types. Attribute integers are read as doubles and signal types are not printed back, so a round trip of whole files does not hold.
- `raw_to_phys` and `phys_to_raw`, and the emitted `dbcppp_rawToPhys`: floating-point rounding decides their results.
- The table of 36 decoder instances, the C API, creation and getters: dispatch and forwarding.
- The KCD reader, the human-readable printer, extended multiplexing in the command-line tool, file loading and the warnings printed while loading.
