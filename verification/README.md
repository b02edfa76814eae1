# Verification of the Wire SDK's binary layer

A model, in Dafny, of the parts of the Wire TypeScript libraries whose correctness is hardest to see by
reading: the type-directed ABI serializer and the resolver behind it, the codec for ABI definitions, frame
reassembly on peer connections, fixed-width integers with C++ conversions, the text codecs, signing requests,
the wallet's locking state machine, and a few bounded or rounding kernels.

Code that updates state in place is modelled as classes and methods with loops, each proved against a function
of its inputs or of the old state; what the code is for is then proved about those functions, over all inputs
or all runs. Bytes are numbers below 256, text is the bytes of its UTF-8 form where it is serialized, and
exceptions are the error cases of result types.

| files | what they model |
|---|---|
| `Bytes`, `Varint`, `Radix` | little-endian numbers, varints, positional numbers |
| `Encoder`, `Decoder`, `Writer` | the growing output buffer, the cursor over the input, the second writer |
| `Types`, `Leaf` | resolved types as a graph of ids, values, the builtin leaf codecs |
| `Serializer` | what `encodeAny` writes and `decodeBinary` reads, as functions |
| `WireFormat`, `ReadFormat` | the format itself, as relations, and that those functions meet it in both directions |
| `Coding` | the same two as they run: one buffer or cursor, one coding path, pushed and popped |
| `RoundTrip`, `Canonical`, `Reencoding` | when decoding undoes encoding, bounds on everything decoded, exactly what re-encodes |
| `AliasBudget` | that a circular alias is the only thing the encoder's recursion can overflow on |
| `Abi`, `Resolve`, `Resolution` | ABI definitions, `resolve` with its memo table, what its finished table is |
| `AbiFormat`, `AbiReading`, `AbiWriting`, `AbiSample` | `toABI` and `fromABI`: layout and round trips, the loops, a definition spelled out |
| `P2p` | length-prefixed frames over a stream cut anyhow |
| `Integer`, `FixedPoint` | truncation, promotion, conversion, wrapping operators; 256-bit fixed point |
| `Base58`, `Base58Check`, `Base64u`, `Names`, `Slugs`, `Assets` | text codecs |
| `SigningRequest`, `RequestTypes` | requests as URIs; their concrete types and classes |
| `Wallet` | the background worker's session over every interleaving |
| `ResponseBody`, `Quotes` | the bounded response buffer; RAM prices and deposit fees |

Properties that turned out not to hold of the code, each with a concrete case and the exact condition under
which the code does meet it:

- Re-encoding a decoded value does not always give it back: an optional extension after an omitted one is read
  into the wrong field (`Canonical.OptionalExtensionShifts`). It does exactly when every null in the value is
  kept: no extension left out is an array or an alias of a type that refuses null, and none that writes no byte
  has one written after it (`Reencoding.ReencodeExactly`, with `Reencoding.Kept` the condition).
- The wrapping operators are congruent to the exact result unless a negative result's two's complement has a
  zero top byte that is refilled with 255: `uint32` 0 - 4294967295 gives 4294967041 instead of 1
  (`Integer.OperateExact`, `Integer.SubtractionMisfills`).
- Multiplying a quotient by its divisor gives the dividend back exactly when dividing left no remainder, and
  falls short by that remainder, rounded up, otherwise (`FixedPoint.MultiplyDivide`,
  `FixedPoint.MultiplyDivideFalls`).
- A definition of a 1.x ABI, read in front of other bytes, takes them for trailers; the others stop at their end
  (`AbiFormat.StopsAtEnd`, `AbiFormat.TakenForTrailer`).
- An identity request whose broadcast flag is set later is written as a URI that is refused; a request comes
  back from its URI exactly when it is not such a one, and its values and size pass the codec and the inflate
  limit (`SigningRequest.FromEncode`, `RequestTypes.BroadcastIdentity`).
- A `SAVE_STATE` that completes after the wallet was locked leaves a deadline without a session
  (`Wallet.DeadlineWhileLocked`, `Wallet.LateSave`).
- The second writer's varints differ from the encoder's exactly on numbers that coercion to 32 bits moves across
  128, as it does 2^32 (`Writer.PushedIsVaruint`, `Writer.PushedTwo32`).
- An asset's precision counts the characters behind the point before the amount is checked, so a minus there is
  counted with the digits (`Assets.FromStringSpelled`, `Assets.MinusBehindPoint`).
- `divCeil` rounds away from zero rather than up, and a quotient between -1 and 0 to 1 (`Quotes.DivCeilAway`).

## Model

| member | source | states |
|---|---|---|
| Canonical.ExactRoundTrip | packages/sdk-core/src/serializer/Decoder.ts:197-314 | over any closed, possibly cyclic type graph whose structs do not repeat a field name, what `encodeAny` wrote in front of any bytes decodes to the same value and stops exactly at those bytes, if and only if the value meets the decoder's guards |
| RoundTrip.DecodeEncode | packages/sdk-core/src/serializer/Encoder.ts:172-326 | the same at every coding depth and alias budget, both directions |
| WireFormat.WrittenEncoded | packages/sdk-core/src/serializer/Encoder.ts:172-326 | a declarative wire format, relating type, value and bytes by concatenation of parts: `encodeAny` succeeds with given bytes if and only if they are that form of the value, an optional being one byte 0, or 1 and the value, an array its count and its elements |
| WireFormat.LeafSpelled | packages/sdk-core/src/serializer/Encoder.ts:366-420 | the same for builtin leaves: a boolean is exactly 0 or 1, an integer its two's complement in its width |
| ReadFormat.DecodedIsRead | packages/sdk-core/src/serializer/Decoder.ts:197-314 | the same for reading: `decodeBinary` returns a value and a rest if and only if they are a reading of the input, nonzero presence bytes and repeated fields included |
| ReadFormat.LeafIsRead | packages/sdk-core/src/serializer/Decoder.ts:578-641 | the same for builtin leaves |
| RoundTrip.DecodeFieldsFrame | packages/sdk-core/src/serializer/Decoder.ts:263-269 | reading fields into an object keeps the properties it had, except those named like a field |
| Canonical.DecodeBounds | packages/sdk-core/src/serializer/Decoder.ts:202-237 | on every input the position never goes back nor past the end, and no array at any level of the decoded value has more elements than bytes were consumed |
| Canonical.EncodingUnambiguous | packages/sdk-core/src/serializer/Encoder.ts:172-326 | two restorable values of a type with equal encodings, even as beginnings of longer inputs, are equal |
| Reencoding.ReencodeExactly | packages/sdk-core/src/serializer/Decoder.ts:206-214 | what was decoded, on any input, can be encoded and decodes to the same value and rest if and only if every null in it is kept, which its types and it alone decide |
| Reencoding.KeptRestored | packages/sdk-core/src/serializer/Encoder.ts:179-224 | the same at every depth and alias budget, whatever is written after the value |
| Reencoding.LoneOptionalExtension | packages/sdk-core/src/serializer/Encoder.ts:179-185 | a struct whose only extension is optional re-encodes: left out, it comes back as a null in one byte |
| Reencoding.ShiftedNotKept | packages/sdk-core/src/serializer/Encoder.ts:213-216 | the two nulls of the shifted extensions fail the condition |
| Canonical.ReencodeDecoded | packages/sdk-core/src/serializer/Decoder.ts:244-312 | what was decoded in front of more input, or with plain extensions only, also re-encodes in no more bytes than it came in |
| Canonical.OptionalExtensionShifts | packages/sdk-core/src/serializer/Encoder.ts:179-224 | with an optional extension behind a plain one, two omitted fields are written as one byte that decodes into the first of them |
| AliasBudget.LargerEncodes | packages/sdk-core/src/serializer/Encoder.ts:207-211 | a larger budget for following aliases changes no result but an overflow |
| AliasBudget.OverflowIsCircular | packages/sdk-core/src/serializer/Encoder.ts:207-211 | with a budget of as many links as there are types, encoding overflows only where an alias leads back to itself |
| Coding.EncodingContext.EncodeAny | packages/sdk-core/src/serializer/Encoder.ts:172-202 | appends to the buffer exactly the specified bytes and restores the coding path, or fails with the specified error and the path of the failure |
| Coding.EncodingContext.WriteInner | packages/sdk-core/src/serializer/Encoder.ts:204-325 | the same for one value without its array or optional wrapping |
| Coding.EncodingContext.WriteEach | packages/sdk-core/src/serializer/Encoder.ts:195-199 | the loop over array elements writes their encodings in order, pushing and popping the path |
| Coding.EncodingContext.WriteFields | packages/sdk-core/src/serializer/Encoder.ts:247-251 | the loop over struct fields writes their encodings in order, pushing and popping the path |
| Coding.EncodingContext.WriteEnum | packages/sdk-core/src/serializer/Encoder.ts:252-273 | an enum given by name or number is written as its integer, with each way it is refused |
| Coding.DecodingContext.DecodeBinary | packages/sdk-core/src/serializer/Decoder.ts:197-242 | consumes what the specification consumes and returns its value, with the path restored, or fails with its error, on every input and graph |
| Coding.DecodingContext.ReadEach | packages/sdk-core/src/serializer/Decoder.ts:226-237 | the loop over array elements, with the check that each consumed something |
| Coding.DecodingContext.ReadInner | packages/sdk-core/src/serializer/Decoder.ts:244-313 | one value without its array or optional wrapping, through aliases, structs, enums and variants |
| Coding.DecodingContext.ReadStruct | packages/sdk-core/src/serializer/Decoder.ts:256-276 | the loop over fields, a repeated name overwriting the earlier one |
| Coding.DecodingContext.ReadEnum | packages/sdk-core/src/serializer/Decoder.ts:277-285 | the name of an enum's number, or the number itself |
| Types.CollectFields | packages/sdk-core/src/chain/Abi.ts:730-754 | the getter's upward loop yields the fields base first, or nothing for a broken or circular base chain |
| Types.AllFieldsAlong | packages/sdk-core/src/chain/Abi.ts:730-754 | the fields of a struct are those along the chain of bases from the last base down, exactly when the chain ends and repeats nothing |
| Leaf.LeafRoundTrip | packages/sdk-core/src/chain/Integer.ts:230-237 | a builtin leaf reads back as itself exactly when it fits what its layout can carry |
| Leaf.LeafCanonical | packages/sdk-core/src/chain/Integer.ts:445-447 | whatever a leaf decoder returns its encoder accepts, in no more bytes |
| Encoder.ABIEncoder.Ensure | packages/sdk-core/src/serializer/Encoder.ts:351-364 | makes room for any number of bytes by whole pages and keeps the contents |
| Encoder.ABIEncoder.WriteArray | packages/sdk-core/src/serializer/Encoder.ts:373-378 | the contents grow by exactly those bytes |
| Encoder.ABIEncoder.WriteVaruint32 | packages/sdk-core/src/serializer/Encoder.ts:397-410 | for any number appends the shortest base-128 form of its value modulo 2^32, within the five bytes reserved |
| Encoder.ABIEncoder.WriteVarint32 | packages/sdk-core/src/serializer/Encoder.ts:412-414 | the bit trick appends the zigzag form of the number coerced to 32 bits |
| Encoder.ABIEncoder.WriteString | packages/sdk-core/src/serializer/Encoder.ts:416-420 | a length and the bytes |
| Decoder.ABIDecoder.ReadVaruint32 | packages/sdk-core/src/serializer/Decoder.ts:604-619 | the shift-and-or loop computes the specified number, taking at most five bytes and dropping bits past the 32nd |
| Decoder.ABIDecoder.ReadVarint32 | packages/sdk-core/src/serializer/Decoder.ts:621-629 | undoes zigzag through a complement and a forced sign bit |
| Decoder.ABIDecoder.ReadArray | packages/sdk-core/src/serializer/Decoder.ts:631-636 | exactly the next bytes, or an error when there are fewer |
| Decoder.ABIDecoder.ReadString | packages/sdk-core/src/serializer/Decoder.ts:638-641 | a length and that many bytes |
| Decoder.ABIDecoder.SetPosition | packages/sdk-core/src/serializer/Decoder.ts:561-567 | moves exactly within the buffer, or changes nothing |
| Decoder.ABIDecoder.Advance | packages/sdk-core/src/serializer/Decoder.ts:573-576 | skips bytes that are there, or changes nothing |
| Varint.ReadVaruintOfVaruint | packages/sdk-core/src/serializer/Decoder.ts:604-619 | every uint32 reads back as itself in front of any bytes |
| Varint.VaruintLength | packages/sdk-core/src/serializer/Varuint.ts:2 | a uint32 takes one to five bytes |
| Varint.VaruintShortest | packages/sdk-core/src/serializer/Encoder.ts:397-410 | no accepted encoding of a number is shorter than the one written |
| Varint.VaruintSpelled | packages/sdk-core/src/serializer/Encoder.ts:397-410 | what is written is the number's groups of seven bits, low first, the top bit set on all but the last, which is not zero unless it is alone |
| Varint.ReadVaruintSpelled | packages/sdk-core/src/serializer/Decoder.ts:604-619 | what is read is the sum of the groups up to the first byte below 128 or the fifth, modulo 2^32 |
| Bytes.ToLeAt | packages/sdk-core/src/chain/Integer.ts:445-447 | byte i of a written integer is its digit for 256^i |
| Varint.UnZigZagOfZigZag | packages/sdk-core/src/serializer/Encoder.ts:412-414 | zigzag is undone on every int32 |
| Varint.ZigZagOfUnZigZag | packages/sdk-core/src/serializer/Decoder.ts:621-629 | undoing zigzag and doing it again gives back every uint32 |
| Varint.OrIsSum | packages/sdk-core/src/serializer/Decoder.ts:610 | OR-ing in bits above all those set is addition |
| Varint.OrGroupIs | packages/sdk-core/src/serializer/Decoder.ts:610 | what the loop ORs in is the seven-bit group at its place, less the bits past the 32nd |
| Writer.ManualWriter.WriteVarUint32 | packages/sdk-core/src/serializer/Writer.ts:20-27 | the loop pushes base-128 groups, coercing to 32 bits only when it shifts |
| Writer.PushedIsVaruint | packages/sdk-core/src/serializer/Writer.ts:20-27 | they are the encoder's exactly when coercion to 32 bits does not move the number across 128 |
| Writer.PushedTwo32 | packages/sdk-core/src/serializer/Writer.ts:20-27 | 2^32 is one byte to the encoder and two here |
| Resolve.ParsedParts | packages/sdk-core/src/chain/Abi.ts:680-727 | parts are what a type name is taken apart into if and only if they make it up and no suffix that is absent could have been taken off: `$` last, then `?`, then `[]` |
| Resolve.ParseName | packages/sdk-core/src/chain/Abi.ts:680-727 | the parts always make up the name, for every text |
| Resolve.Resolver.Resolve | packages/sdk-core/src/chain/Abi.ts:470-529 | terminates on every ABI; keeps every finished entry; leaves a table in which all entries but those under way are what the ABI says, links included; adds only names reachable from the one asked for |
| Resolve.ResolveType | packages/sdk-core/src/chain/Abi.ts:448-451 | a fresh table holds exactly one faithful entry for each name it has, numbered 1 to their count, and is contained in every set of names closed under mention |
| Resolve.ResolveAll | packages/sdk-core/src/chain/Abi.ts:453-468 | the same table for all defined names, with the entry of each returned in order |
| Resolution.CompleteClosed | packages/sdk-core/src/chain/Abi.ts:483-525 | no link of a finished table leads out of it and no name has two entries |
| Resolution.EntryName | packages/sdk-core/src/chain/Abi.ts:470-484 | the table maps the name of an entry, suffixes included, to it, and the entry's suffixes are taken off |
| Resolution.AliasEntry | packages/sdk-core/src/chain/Abi.ts:486-492 | a name defined as an alias links to the entry of the first such definition's target |
| Resolution.StructEntry | packages/sdk-core/src/chain/Abi.ts:494-507 | a name that is no alias and is defined as a struct links its base, when it has one, and its fields in order, by the first such definition |
| Resolution.VariantEntry | packages/sdk-core/src/chain/Abi.ts:509-516 | after those, a variant links its cases in order |
| Resolution.EnumEntry | packages/sdk-core/src/chain/Abi.ts:518-524 | after those, an enum has its integer type's name and its values, and any other name is bare |
| Resolution.ResolvedNames | packages/sdk-core/src/chain/Abi.ts:470-529 | the names in it are the least set around the root that is closed under what definitions mention |
| Resolution.CompleteRenumbered | packages/sdk-core/src/chain/Abi.ts:477-484 | two finished tables agree, up to the numbers, on every type both have |
| Resolution.CodingByName | packages/sdk-core/src/chain/Abi.ts:448-468 | what a type name reads and writes depends on the ABI alone, not on what was resolved before it |
| Resolution.CodingFromAnyRoot | packages/sdk-core/src/chain/Abi.ts:448-451 | nor on which type was asked for, in the tables of two roots that both reach it |
| AbiFormat.FromToAbi | packages/sdk-core/src/chain/Abi.ts:65-389 | a definition with uint16 ids and safe enum values, written in front of any bytes, reads back with omitted ids as 0 and omitted indexes empty; a 1.x reader then drains what follows as texts |
| AbiFormat.DefinitionBack | packages/sdk-core/src/chain/Abi.ts:65-389 | reading up to the trailers what was written, with any error messages and extensions in their places, passes over those and leaves exactly `[0]` in front of what follows when the version starts with `sysio::abi/1.`, and exactly what follows otherwise |
| AbiFormat.SectionsOptional | packages/sdk-core/src/chain/Abi.ts:177-229 | a definition may end before its variants, its action results or its enums, which are then empty |
| AbiSample.SampleBytes | packages/sdk-core/src/chain/Abi.ts:264-389 | a definition with one of everything, byte for byte: order and width of every part |
| AbiFormat.StopsAtEnd | packages/sdk-core/src/chain/Abi.ts:231-249 | it stops exactly at its end if and only if its version is not 1.x or nothing follows |
| AbiFormat.TakenForTrailer | packages/sdk-core/src/chain/Abi.ts:231-249 | an empty definition of the default version takes a zero byte behind it for a trailer |
| AbiFormat.ListRoundTrip | packages/sdk-core/src/chain/Abi.ts:65-75 | a counted list reads back when each item does in front of anything |
| AbiFormat.AbiGood | packages/sdk-core/src/chain/Abi.ts:65-262 | on every input, what `fromABI` accepts is filled in, in range, and can be written |
| AbiFormat.ReadAgain | packages/sdk-core/src/chain/Abi.ts:65-389 | writing and reading it again gives the same definition |
| AbiReading.ReadAbi | packages/sdk-core/src/chain/Abi.ts:65-262 | the loops consume and return exactly what the format specifies, the trailers by version included, or its error |
| AbiReading.ReadTable | packages/sdk-core/src/chain/Abi.ts:106-150 | one table definition, indexes included |
| AbiReading.ReadSections | packages/sdk-core/src/chain/Abi.ts:177-229 | the optional sections, each only while input remains |
| AbiReading.SkipErrorMessages | packages/sdk-core/src/chain/Abi.ts:161-167 | passes over error messages |
| AbiReading.SkipExtensions | packages/sdk-core/src/chain/Abi.ts:169-175 | passes over extensions |
| AbiWriting.WriteAbi | packages/sdk-core/src/chain/Abi.ts:264-389 | appends exactly the specified bytes when all ids are uint16 and all enum values safe, and otherwise fails, ids first |
| AbiWriting.WriteTable | packages/sdk-core/src/chain/Abi.ts:296-335 | one table definition, refused exactly when an id is out of range |
| AbiWriting.WriteEnums | packages/sdk-core/src/chain/Abi.ts:364-380 | the enums, refused exactly when a value is not a safe integer |
| P2p.SimpleEnvelopeP2PProvider.OnData | packages/sdk-core/src/p2p/Provider.ts:52-90 | one chunk takes the stream from its state to the specified one, for any handlers, including ones that close the provider |
| P2p.SimpleEnvelopeP2PProvider.DestroyWithError | packages/sdk-core/src/p2p/Provider.ts:153-161 | fails closed: destroyed, and nothing kept |
| P2p.SimpleEnvelopeP2PProvider.Write | packages/sdk-core/src/p2p/Provider.ts:102-110 | sends the frame of the message and changes nothing else |
| P2p.FrameLayout | packages/sdk-core/src/p2p/Provider.ts:102-110 | a message of less than 2^32 bytes goes out behind its length in four bytes, least significant first |
| P2p.ChunkingIrrelevant | packages/sdk-core/src/p2p/Provider.ts:44-90 | two ways of cutting the same bytes give the same messages, leftover and end |
| P2p.FeedAllConcat | packages/sdk-core/src/p2p/Provider.ts:52-90 | any run over chunks is one step on their concatenation |
| P2p.BytesConserved | packages/sdk-core/src/p2p/Provider.ts:57-88 | on every run the frames delivered are a prefix of the bytes received, and while open, with the leftover, all of them, no complete frame being held back |
| P2p.MessagesArrive | packages/sdk-core/src/p2p/Provider.ts:102-110 | the buffers written for messages up to 8 MiB, cut anyhow, deliver exactly those messages, up to where the handlers close |
| P2p.OversizedCloses | packages/sdk-core/src/p2p/Provider.ts:64-100 | once a header declares more than 8 MiB, whatever the cut and whatever follows, the messages before it are all that is ever delivered and the provider is closed with an error, unless the handlers closed it earlier |
| Integer.TruncateExact | packages/sdk-core/src/chain/Integer.ts:894-903 | truncation keeps the low bit pattern, sign extended, if and only if no zero byte on top of a complement is refilled |
| Integer.Truncate | packages/sdk-core/src/chain/Integer.ts:894-903 | the byte-array form computes it |
| Integer.PatternUnique | packages/sdk-core/src/chain/Integer.ts:894-903 | a pattern has one value in a type's range |
| Integer.Cast | packages/sdk-core/src/chain/Integer.ts:281-294 | a cast is in range, keeps the pattern, and keeps the value when it fits |
| Integer.ConvertStandard | packages/sdk-core/src/chain/Integer.ts:906-999 | both operands end up in the standard's common type, at least four bytes wide, with their values, or congruent ones for a negative going to unsigned; the commented-out branch is never reached |
| Integer.CommonKindRule | packages/sdk-core/src/chain/Integer.ts:906-999 | that type is four bytes or one of the operands' widths, at least either, and unsigned if and only if an operand of its width is |
| Integer.OperateExact | packages/sdk-core/src/chain/Integer.ts:413-423 | sum, difference and product are the exact result modulo 2^(8 x width of the left operand) if and only if the result is not negative or its complement reaches the last byte kept |
| Integer.LowExact | packages/sdk-core/src/chain/Integer.ts:152-162 | patterns of results depend on patterns of operands only |
| Integer.SubtractionMisfills | packages/sdk-core/src/chain/Integer.ts:894-903 | a uint32 difference that is not the wrapped one |
| Integer.MutableInt.Apply | packages/sdk-core/src/chain/Integer.ts:330-353 | in place, the new value is congruent to the exact result of the old one and the operand exactly when the result wraps, and is that result when it fits as well |
| FixedPoint.FromRaw | packages/sdk-core/src/chain/Integer.ts:657-670 | accepts exactly the numbers below 2^256, in two limbs that hold the number |
| FixedPoint.FromToText | packages/sdk-core/src/chain/Integer.ts:687-703 | every number prints as a literal that reads back as itself |
| FixedPoint.TextMeans | packages/sdk-core/src/chain/Integer.ts:687-703 | the literal is the quotient by 10^18 without needless zeros in front and, unless it is zero, the remainder's digits without zeros behind |
| FixedPoint.RoundedDown | packages/sdk-core/src/chain/Integer.ts:775-796 | products and quotients are rounded down, refused if and only if they do not fit or the divisor is zero |
| FixedPoint.MultiplyDivide | packages/sdk-core/src/chain/Integer.ts:775-796 | a quotient multiplied back never overflows and is the dividend less the remainder dropped, rounded up to a unit: at most the dividend, less than b / 10^18 + 1 units short, and exact if and only if nothing was dropped |
| FixedPoint.MultiplyDivideFalls | packages/sdk-core/src/chain/Integer.ts:775-796 | one divided by three and multiplied by three is one unit short |
| Base58.Encode | packages/sdk-core/src/Base58.ts:110-139 | the digit loops compute a `1` for each leading zero byte, then the value in base 58 |
| Base58.DecodeVar | packages/sdk-core/src/Base58.ts:154-189 | succeeds exactly on texts over the alphabet, with the bytes of their value |
| Base58.BytesOfBase58Of | packages/sdk-core/src/Base58.ts:110-189 | decoding undoes encoding on every byte string |
| Base58.Base58OfBytesOf | packages/sdk-core/src/Base58.ts:110-189 | encoding undoes decoding on every text over the alphabet |
| Base58.Alphabet | packages/sdk-core/src/Base58.ts:24-28 | digits are the characters of the alphabet in the order of their codes, which are letters and digits other than `0`, `I`, `O` and `l` |
| Base58Check.DecodeFixed | packages/sdk-core/src/Base58.ts:31-65 | succeeds exactly when the value is below 256^size, with its padded bytes; the two errors are told apart by what comes first |
| Base58Check.FixedAgrees | packages/sdk-core/src/Base58.ts:31-65 | agrees with variable-size decoding up to zero bytes in front |
| Base58Check.DecodeCheck | packages/sdk-core/src/Base58.ts:68-84 | for any checksum function, accepts exactly the texts `encodeCheck` writes, each giving back its data |
| Base58Check.DecodeCheckFixed | packages/sdk-core/src/Base58.ts:68-84 | with a size, accepts exactly the texts whose value is that of data of that size with its checksum |
| Base58Check.CheckedDataFits | packages/sdk-core/src/Base58.ts:141-145 | the text `encodeCheck` writes for data has that value, so it decodes at the data's own size |
| Base64u.Encode | packages/sdk-core/src/signing/Base64u.ts:16-67 | the loop over 24-bit chunks computes the six-bit groups |
| Base64u.Decode | packages/sdk-core/src/signing/Base64u.ts:69-91 | the loop stores the bytes the characters hold, losing stores past the end |
| Base64u.DecodeEncode | packages/sdk-core/src/signing/Base64u.ts:16-91 | decoding undoes encoding at every length, in both alphabets |
| Base64u.EncodedAt | packages/sdk-core/src/signing/Base64u.ts:16-67 | each character is that of its six bits of its group of three bytes, counted from the top |
| Base64u.DecodedAt | packages/sdk-core/src/signing/Base64u.ts:69-91 | each byte is that of its eight bits of its group of four characters |
| Base64u.CharsetOrder | packages/sdk-core/src/signing/Base64u.ts:6-20 | the characters are `A` to `Z`, `a` to `z`, `0` to `9` and the two of the alphabet, in order |
| Names.StringToName | packages/sdk-core/src/chain/Name.ts:90-122 | the loop over bits packs five for each symbol from the top, and the low four of the thirteenth |
| Names.NameToString | packages/sdk-core/src/chain/Name.ts:124-152 | the loop reads them back and drops trailing dots |
| Names.NameOfPacked | packages/sdk-core/src/chain/Name.ts:90-152 | packing loses nothing of a string that matches the canonical pattern |
| Names.PackedNameOf | packages/sdk-core/src/chain/Name.ts:90-152 | each of the 2^64 words prints as such a string, and only that word packs it |
| Names.PatternIsRoundTrip | packages/sdk-core/src/chain/Name.ts:52-56 | a string survives packing if and only if it matches the pattern |
| Names.PackedNumber | packages/sdk-core/src/chain/Name.ts:90-122 | the packed word is the number whose base-32 digits are the first twelve symbols, and 16 times that plus the thirteenth |
| Names.SymbolOrder | packages/sdk-core/src/chain/Name.ts:91-152 | the symbols are `.`, `1` to `5` and `a` to `z` in order, and any other character counts as `.` |
| Names.IsValid | packages/sdk-core/src/chain/Name.ts:52-56 | the method's round-trip comparison never changes the pattern's verdict |
| Slugs.From | packages/sdk-core/src/SlugName.ts:54-92 | packs exactly the legal texts, below 2^48, the first character highest |
| Slugs.ToString | packages/sdk-core/src/SlugName.ts:103-123 | the loop reads slots up to the first that has no character |
| Slugs.ToStringFrom | packages/sdk-core/src/SlugName.ts:54-124 | unpacking a packed slug gives it back |
| Slugs.SlotOrder | packages/sdk-core/src/SlugName.ts:54-92 | the slots are 1 to 26 for letters, 27 to 36 for digits and 37 for `_` |
| Assets.FormatUnits | packages/sdk-core/src/chain/Asset.ts:100-124 | the loop that pads and points the digits computes the specified text |
| Assets.FormattedMeans | packages/sdk-core/src/chain/Asset.ts:100-124 | the text is a sign, the quotient of the units by 10^precision without needless zeros in front and, when there are decimals, a point and exactly that many digits of the remainder |
| Assets.SymbolParts | packages/sdk-core/src/chain/Asset.ts:186-212 | the name and precision read from any valid packed symbol make that symbol again |
| Assets.SymbolLetters | packages/sdk-core/src/chain/Asset.ts:405-443 | letter i of a symbol's name is byte i + 1 of its number |
| Assets.FromToString | packages/sdk-core/src/chain/Asset.ts:68-79 | every int64 amount, the least included, of every valid packed symbol parses from its text as itself |
| Assets.FromStringSpelled | packages/sdk-core/src/chain/Asset.ts:68-79 | a text parses, on all texts, if and only if it is digits behind at most a minus with at most one point among them, an amount that fits int64, then one space and a name of at most seven capitals; the precision is the number of characters behind the point, at most 18 |
| Assets.MinusBehindPoint | packages/sdk-core/src/chain/Asset.ts:75-76 | `.-5 A` parses as -5 units of precision 2 |
| Assets.SymbolUnique | packages/sdk-core/src/chain/Asset.ts:405-443 | the packed symbol fits 64 bits, passes the constructor's checks, and determines and is determined by code and precision |
| SigningRequest.FromEncode | packages/sdk-core/src/signing/SigningRequest.ts:594-650 | `from` undoes `encode`, compressed or not, with slashes or not, if and only if the values come back through the codec, the request is not an identity to broadcast, and what was deflated is within the limit |
| SigningRequest.EncodeUri | packages/sdk-core/src/signing/SigningRequest.ts:740-776 | the URI written, or none without a compressor or when the data cannot be encoded |
| SigningRequest.BroadcastIdentityRefused | packages/sdk-core/src/signing/SigningRequest.ts:668-683 | an identity request with the broadcast flag is refused however it was written |
| RequestTypes.BroadcastIdentity | packages/sdk-core/src/signing/SigningRequest.ts:723-729 | such a request, of the concrete request types |
| SigningRequest.FromUri | packages/sdk-core/src/signing/SigningRequest.ts:594-650 | the request read from any text, or none |
| SigningRequest.FromPacked | packages/sdk-core/src/signing/SigningRequest.ts:605-631 | header and payload are unpacked in every mode |
| SigningRequest.DataRead | packages/sdk-core/src/signing/SigningRequest.ts:605-650 | a request is read from bytes if and only if they are a version, 2 or 3, and its payload, or that version plus 128 and bytes that inflate to it within the limit; the payload decodes in the version's type, and a signature follows unless it ends; and it is not an identity to broadcast |
| SigningRequest.PathIs | packages/sdk-core/src/signing/SigningRequest.ts:594-603 | the path is what stands behind the first colon up to the next or the end, and a text without a colon has none |
| SigningRequest.PackedShortest | packages/sdk-core/src/signing/SigningRequest.ts:740-776 | what goes out is the shorter of payload and deflated payload, told apart by the header |
| SigningRequest.HandLaid | packages/sdk-core/src/signing/SigningRequest.ts:573-592 | the bytes laid by hand are what the type-directed encoder writes for the same request |
| RequestTypes.RequestsLaidOut | packages/sdk-core/src/signing/Abi.ts:91-107 | the types of requests, with the flags' and chain ids' classes coding themselves, are ones the hand-laid bytes are proved for |
| RequestTypes.FieldsNamed | packages/sdk-core/src/signing/Abi.ts:91-107 | the names of the fields of request data, in order |
| SigningRequest.TransactionBytes | packages/sdk-core/src/signing/SigningRequest.ts:581-589 | the sequence of writes yields those bytes |
| SigningRequest.FromTransactionData | packages/sdk-core/src/signing/SigningRequest.ts:573-592 | `fromTransaction` returns the request with that data exactly when it is readable |
| Wallet.RunSound | packages/wallet-browser-ext/src/background/Background.ts:16-163 | on every interleaving of messages, resumptions, alarms and restarts: state is held if and only if a password is, an unlocked session has a deadline, and a deadline has its alarm armed or about to be delivered |
| Wallet.UnlockedSince | packages/wallet-browser-ext/src/background/Background.ts:59-163 | the wallet is unlocked if and only if a SETUP or UNLOCK completed and nothing closed the session since |
| Wallet.StateLastWritten | packages/wallet-browser-ext/src/background/Background.ts:74-116 | the state held is the one last written |
| Wallet.PasswordSince | packages/wallet-browser-ext/src/background/Background.ts:74-116 | the password states are saved with is the one the session was last opened with |
| Wallet.DeadlineSince | packages/wallet-browser-ext/src/background/Background.ts:25-28 | the deadline is 15 minutes after the last restart of the inactivity window in the session |
| Wallet.DisclosureInSession | packages/wallet-browser-ext/src/background/Background.ts:59-163 | state, accounts and signatures are given away only before the deadline and in a session opened by a SETUP or UNLOCK and not closed since |
| Wallet.DisclosedData | packages/wallet-browser-ext/src/background/Background.ts:74-157 | what a message is answered with is the state held, the ids and names of its accounts in order, or a signature of the requested digest by the key that signs for the account: the active key when the account asked for is the active one, otherwise the account's first key |
| Wallet.SignedBy | packages/wallet-browser-ext/src/background/Background.ts:129-157 | that key, the first with its id, and it alone signs for the first account with the requested id |
| Wallet.SignRefused | packages/wallet-browser-ext/src/background/Background.ts:129-148 | signing answers "Account not found" if and only if no account has the id, and "Key not found" if and only if the first that has it has no such key |
| Wallet.LockedRefuses | packages/wallet-browser-ext/src/background/Background.ts:94-132 | requests for state, accounts or a signature are refused as locked if and only if no state is held, saves if and only if no password is or it is empty; IS_UNLOCKED tells which and changes nothing |
| Wallet.WaitsWith | packages/wallet-browser-ext/src/background/Background.ts:59-116 | which messages wait for storage, and with what: their own data and, for a save, the password of the session |
| Wallet.FulfilledAnswers | packages/wallet-browser-ext/src/background/Background.ts:64-116 | a handler whose storage succeeds answers with what was found or put in memory |
| Wallet.RejectedChangesNothing | packages/wallet-browser-ext/src/background/Background.ts:74-116 | a handler whose storage fails leaves the session as it is |
| Wallet.DeadlineWhileLocked | packages/wallet-browser-ext/src/background/Background.ts:108-116 | a locked wallet has a deadline if and only if a SAVE_STATE completed while it was locked and it was neither opened nor closed since |
| Wallet.LateSave | packages/wallet-browser-ext/src/background/Background.ts:108-116 | a run, with a save still under way when the wallet is locked, that ends locked with a deadline |
| Wallet.Background.HandleMessage | packages/wallet-browser-ext/src/background/Background.ts:59-163 | each message, up to its first `await`, takes the session to the specified one with the specified response |
| Wallet.Background.Resume | packages/wallet-browser-ext/src/background/Background.ts:74-116 | each handler goes on after its `await` as specified, whatever happened meanwhile |
| Wallet.Background.HandleLockAlarm | packages/wallet-browser-ext/src/background/Background.ts:46-56 | a stale alarm arms the current deadline again |
| Wallet.Background.SignRequest | packages/wallet-browser-ext/src/background/Background.ts:129-157 | signing, with each way it is refused |
| ResponseBody.ResponseBodyBuffer.Append | packages/sdk-core/src/api/Provider.ts:479-490 | a chunk is refused, and changes nothing, exactly when it would exceed the limit; otherwise the contents grow by it; bytes copied stay within twice the limit |
| ResponseBody.ResponseBodyBuffer.EnsureCapacity | packages/sdk-core/src/api/Provider.ts:493-505 | growth keeps the contents and the amortised bound |
| ResponseBody.ReadBody | packages/sdk-core/src/api/Provider.ts:247-276 | a body read in any chunks is returned whole when within the limit and refused otherwise |
| Quotes.RamPrice | packages/sdk-core/src/resources/Ram.ts:37-40 | when the product does not overflow int64, the price is the least that keeps the product of the balances from falling |
| Quotes.OperateFits | packages/sdk-core/src/chain/Integer.ts:413-423 | a step whose result is not negative and fits int64 is exact |
| Quotes.DivCeilCovers | packages/sdk-core/src/chain/Integer.ts:116-126 | `divCeil` of non-negative numbers gives a number of divisors that covers the dividend with less than one to spare |
| Quotes.DivCeilAway | packages/sdk-core/src/chain/Integer.ts:116-126 | on all integers it rounds away from zero with the sign of the quotient, except that a quotient between -1 and 0 becomes 1 |
| Quotes.CoversLeast | packages/sdk-core/src/resources/Ram.ts:39 | such a number is the least that covers it |
| Quotes.RingIndexes | packages/sdk-outpost/src/clients/solana/SolanaSyndicationClient.ts:235-246 | every averaged entry is in the ring, the first is the newest, each next one is the one written before it, and no two are the same |
| Quotes.RatesAveraged | packages/sdk-outpost/src/clients/solana/SolanaSyndicationClient.ts:235-247 | the averaged rates are the positive ones, in order and each once, of the entries at the ring's places from the newest back, an entry that is missing counting as 0 |
| Quotes.QuoteExactly | packages/sdk-outpost/src/clients/solana/SolanaSyndicationClient.ts:224-263 | the quote is the amount, the least fee that covers average x multiplier x amount over 10^12 and their sum, and is refused if and only if the amount is not a positive u64, that product is past u128 or the sum is past u64 |
| Quotes.FeeMonotone | packages/sdk-outpost/src/clients/solana/SolanaSyndicationClient.ts:224-263 | a smaller deposit can be quoted whenever a larger one can, for no higher a fee |
| Quotes.AverageBetween | packages/sdk-outpost/src/clients/solana/SolanaSyndicationClient.ts:248-254 | the rounded average lies between the rates |

## Left out

- Serializer.Encode: plain objects, tagged variants and leaf values only; guessing the case of an untagged variant, class instances that encode themselves and `null` elements of string or boolean arrays are dynamic JavaScript typing.
- Serializer.Decode: `strictExtensions` with default values, `decodeObject` and JSON input, custom classes built from decoded structs.
- Serializer.Codec: the builtin classes are a map from names to leaf layouts; composite builtins (assets, keys, floats) are not in it, and signatures are of a fixed size. `hops` stands for the JavaScript stack.
- Serializer.EncodeEnum: the integer type of an enum is a fixed-width integer builtin named without suffix.
- Types.Value: text is the byte sequence of its UTF-8 form; invalid UTF-8, on which the reader throws, is not modelled.
- Types.ResolvedType: links are ids into a map; a name that collides with a property of JavaScript's object prototype is not modelled.
- AbiFormat.FromAbi: JSON definitions and enum values given as text; enum values that are not integers.
- Integer.TruncateExact: negative values at or below -2^(8 x width of the source type), for the reason given for Integer.OperateExact.
- Integer.Truncate: the same values.
- Integer.OperateExact: results at or below -2^(8 x width of the common type), where bn.js's complement is not a two's complement (bn.js is not part of this model); `clamp` and `throw` overflow, rounded division.
- Quotes.GetInput: a price whose product overflows int64 wraps; operands for which the product is below the bound given for Integer.OperateExact are excluded.
- Assets.FromString: conversion from and to floating point, extended assets, symbols as text.
- FixedPoint.FromText: a literal is its two digit strings; conversion to a JavaScript number and from other number classes.
- Base58.CharMap: characters with codes of 255 and more, which the table does not cover and whose lookup is not negative.
- Base58Check.Verify: the hash functions are one abstract checksum of four bytes.
- SigningRequest.FromEncode: compression is an abstract pair of functions assumed inverse; the request and signature types are any resolved types of the codec; creating, resolving and signing requests.
- P2p.Feed: the data handlers are a predicate on the messages delivered so far that tells whether they close the provider; `end`, which also closes it, removing handlers, and passing on the lower transport's errors.
- Wallet.Step: scheduling and clearing an alarm take effect at once; storage and encryption succeed or fail at any later time with any state; the browser's alarm goes off at its time or later and is delivered later still; a message's malformed payload, and key text that is not a key beyond the signing error.
- ResponseBody.ReadBody: what the stream yields is a sequence of chunks; decoding the body as text, headers.
- Quotes.QuoteDeposit: the fetched account data are parameters.
- Powerup and REX pricing, which are floating point.
- Contract proxies, RPC clients, the popup and its store, logging, generated types.
