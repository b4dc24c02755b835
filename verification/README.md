# Verification models

Models, in Dafny, of the algorithms the coin takes from two vendored libraries, Crypto++
and cpp-httplib, with proofs of what those algorithms are for. `dafny verify dfyconfig.toml`
checks all of it.

Each module follows one component of the source:

| module | component |
|---|---|
| `SlidingWindow`, `ScalarMultiply`, `CascadeMultiply`, `BosCoster` | scalar multiplication in an arbitrary group: recoding of exponents into signed windows, buckets, two-exponent tables, the division chain on a heap |
| `Euclid` | greatest common divisor and inverse in a quotient ring, on three rotating slots |
| `BlumBlumShub` (with `NumberTheory`) | the Blum-Blum-Shub generator and its random access |
| `CcmSpec`, `CcmVector`, `Ccm` | CCM of RFC 3610 in one shot and at the bytes printed there, and the authenticated-encryption state machine |
| `BaseN`, `BaseNDecoder`, `BaseNExact`, `Base64` (with `BitStrings`) | base-N encoder, decoder, decoding table and grouper; exactly which tables decode; base 64 against RFC 4648 |
| `Der`, `Reencode`, `DerKnown` | BER and DER lengths, object identifiers, unsigned integers; re-encoding of indefinite lengths |
| `WideBlocks`, `WideExact`, `Modes` | the SSE driver that processes six, two and one block at a time; exactly when the groups do what one block at a time does; the ECB, CTR and CBC modes that call it |
| `Blake2b`, `Blake2Hash`, `Blake2Known` | BLAKE2b compression on words and on registers; the streaming hash; its tables and layout at the values of RFC 7693 |
| `Feistel`, `FeistelKnown` | CAST-128, CAST-256 and Blowfish |
| `Chunked`, `ChunkedGrammar` | chunked bodies over HTTP: writer and reader, and the grammar of RFC 7230 |
| `Adler32`, `AdlerKnown` | the checksum with deferred reductions |

`Groups`, `NatBits`, `Bytes`, `Pieces` and `Options` hold the group laws, shifts, byte
strings, data cut into pieces, and the option type. Where the source throws, a method
returns `None`, `false` or an outcome; where it works in place on a buffer, an array or the
fields of an object, so does the model, with ghost fields for what has been consumed.
Integers are unbounded; `% LWORD`, `% WORD32` and subset types mark the machine widths.
Shifts by k places are the functions `Shl`, `Shr` and `Low`.

Findings, each stated as a lemma or contract below:

- `QuotientRing::MultiplicativeInverse` stops when a remainder is zero in the quotient ring,
  not only when it is zero, so it answers zero for every argument of at least the size of the
  modulus (`Euclid.InverseExact`, `Euclid.InverseFailsUnreduced`).
- `BlumBlumShub::Seek` reduces an exponent modulo (p-1)(q-1). This is wrong exactly when the
  exponent becomes zero while the seed shares a factor with the modulus; for the primes the
  class is documented for, that never happens (`BlumBlumShub.SeekExact`,
  `BlumBlumShub.BlumAlwaysReaches`). With the primes 3 and 5 and seed 3, seeking byte 1 gives
  another byte (`BlumBlumShub.SeekMisses`).
- `DEREncodeUnsigned` with the tag of a boolean writes 255 for every nonzero value, so only 0
  and 255 come back (`Der.UnsignedRoundTrip`, `Der.BooleanFails`). An object identifier comes
  back exactly when its first two values share an octet (`Der.OidRoundTrip`, `Der.OidFails`).
- `BERDecodeUnsigned` reads contents octets as an unsigned number. For an integer this is the
  value X.690 gives them exactly when the first bit is clear (`Der.DecodedIsInteger`,
  `Der.NegativeFails`).
- `DERReencode` copies the contents of an element of definite length. Its output has definite
  lengths throughout exactly when what was copied had (`Reencode.ReencodeDefinite`,
  `Reencode.IndefiniteStays`).
- The reader of chunked bodies keeps sizes in an `int`: a chunk is read back exactly when its
  size is below 2^31 (`Chunked.ReadWritten`, `Chunked.LargeChunkFails`). It answers true for a
  body that breaks off at a chunk without its line end, or at a negative size; otherwise true
  means a well-formed body (`Chunked.OkExact`, `Chunked.BrokenAccepted`). Its size lines are
  those of RFC 7230 exactly when nothing but extensions stands around the digits
  (`ChunkedGrammar.GrammarExact`, `ChunkedGrammar.LooseSizes`). Every body of that grammar is
  read exactly when its sizes fit an `int` and it has no trailer
  (`ChunkedGrammar.GrammarRead`).
- Header data given to `Update` before `SpecifyDataLengths`, in any number of calls, is
  counted and is not in the MAC. What goes through the buffer is written over the nonce that
  the first block is made of: the bytes of those blocks of 16 that do not lie within one call.
  The first block is the intended one exactly when the last such byte at each place agrees
  with the nonce (`Ccm.HeaderBeforeLengths`, `Ccm.EarlyHeaderExact`, `Ccm.EarlyHeaderFails`).
- A decoder given a table with values wider than its digits lets their high bits fall over the
  digits before them. Every text is decoded exactly when those bits fall on bits that are set,
  whichever values follow each other (`BaseNExact.TableExact`, `BaseNExact.WideValueFails`).
- The grouped loops of `AdvancedProcessBlocks128_6x2_SSE` agree with its one-block loop, for
  every cipher and memory, exactly when inside each group no block is read after an earlier
  one was written over it and the XOR blocks are clear of the counter byte, with the two
  harmless exceptions `LaneSafe` names (`WideExact.ScheduleExact`). Without XOR blocks and
  counter: exactly when the output is not ahead of the input by less than a group, and then
  for permutations of blocks as for all functions (`WideExact.PlainExact`). This is for calls
  that advance their output; a chained register at one address fails
  (`WideBlocks.ChainingNotParallel`), and a fixed output can hide a difference
  (`WideExact.FixedOutputHides`).

## Model

| member | source | states |
|---|---|---|
| SlidingWindow.WordCountCovers | external/cryptopp/algebra.cpp:222-233 | the word count that bounds the scan for a set bit covers every bit of the exponent |
| SlidingWindow.DigitAndRest | external/cryptopp/algebra.cpp:235-246 | taking a window off an exponent, negated or not, conserves its value |
| SlidingWindow.DigitOdd | external/cryptopp/algebra.cpp:237-246 | a window taken at an odd exponent is odd and smaller in size than the window modulus |
| SlidingWindow.RecodeValue | external/cryptopp/algebra.cpp:206-253 | the signed digits at their positions add up to the exponent, for every width and with or without fast negation |
| SlidingWindow.RecodeSeparated | external/cryptopp/algebra.cpp:206-253 | the digits are odd, within range and at least a window apart |
| SlidingWindow.WindowSlider.constructor | external/cryptopp/algebra.cpp:208-218 | the slider starts with the whole recoding of the exponent ahead, for the given or the chosen width |
| SlidingWindow.WindowSlider.FindNextWindow | external/cryptopp/algebra.cpp:220-247 | each call drops exactly the current digit of the recoding, moves on by at least a window, and finishes exactly when no digit is left |
| ScalarMultiply.SweepIdentity | external/cryptopp/algebra.cpp:299-313 | the running sums of the bucket sweep amount to the sum of (2j+1) times bucket j |
| ScalarMultiply.AccumulateWindow | external/cryptopp/algebra.cpp:280-288 | adding or subtracting the current power in the bucket of a window accounts for that window in the total |
| ScalarMultiply.Step | external/cryptopp/algebra.cpp:280-289 | one step of one exponent: its window goes to the bucket with an index in range, and the slider moves on |
| ScalarMultiply.Sweep | external/cryptopp/algebra.cpp:299-313 | the sweep over complete buckets gives exponent times base |
| ScalarMultiply.ScatterAll | external/cryptopp/algebra.cpp:271-297 | the doubling loop terminates although negated windows enlarge the exponent, and leaves complete buckets for every exponent |
| ScalarMultiply.SimultaneousMultiply | external/cryptopp/algebra.cpp:255-314 | every result is its exponent times the base, in any group, for any list of exponents |
| ScalarMultiply.Multiply | external/cryptopp/algebra.cpp:90-95 | exponent times base, in any group |
| CascadeMultiply.FillTable | external/cryptopp/algebra.cpp:103-129 | every table entry whose indexes are not both even holds p1*x + p2*y |
| CascadeMultiply.Halve | external/cryptopp/algebra.cpp:142-151 | halving both powers moves squarings after the lookup without going below zero and ends with powers not both even |
| CascadeMultiply.Flush | external/cryptopp/algebra.cpp:142-166 | the end of a window brings the result to both exponents read so far, from a filled entry only |
| CascadeMultiply.Scan | external/cryptopp/algebra.cpp:131-169 | the scan over all bits gives e1*x + e2*y |
| CascadeMultiply.CascadeScalarMultiply | external/cryptopp/algebra.cpp:97-170 | e1*x + e2*y in any commutative group, for all exponents and each table width |
| BosCoster.SumPermutes | external/cryptopp/algebra.cpp:184-199 | rearranging the list leaves the sum of its terms unchanged |
| BosCoster.StepConserves | external/cryptopp/algebra.cpp:190-196 | a division step conserves the sum of exponent times base and lowers the total of the exponents |
| BosCoster.DivideLast | external/cryptopp/algebra.cpp:190-196 | the division step in place does both and keeps the heap |
| BosCoster.BosCosterLoop | external/cryptopp/algebra.cpp:179-203 | the loop ends, and only when all other exponents are zero, with the sum of the terms |
| BosCoster.GeneralCascadeMultiplication | external/cryptopp/algebra.cpp:172-204 | the sum of exponent times base over any non-empty list, through all three branches |
| Euclid.Gcd | external/cryptopp/algebra.cpp:56-68 | the result divides both numbers and every common divisor divides it |
| Euclid.GcdUnique | external/cryptopp/algebra.cpp:56-68 | which determines it up to sign |
| Euclid.IsUnit | external/cryptopp/algebra.h:425-426 | true exactly when the numbers are coprime |
| Euclid.MultiplicativeInverse | external/cryptopp/algebra.cpp:70-88 | the result is an inverse for units and zero otherwise, exactly when the argument is smaller in size than the modulus or not a unit |
| Euclid.InverseExact | external/cryptopp/algebra.cpp:70-88 | that condition, both ways, for every modulus of at least two |
| Euclid.LargeArgument | external/cryptopp/algebra.cpp:76-86 | for arguments of at least the size of the modulus the answer is zero |
| Euclid.InverseFailsUnreduced | external/cryptopp/algebra.cpp:70-88 | 4 modulo 3 is a unit and gets no inverse |
| NumberTheory.Fermat | external/cryptopp/blumshub.cpp:55-62 | x^(p-1) is 1 modulo a prime p that does not divide x |
| NumberTheory.ReducedPower | external/cryptopp/blumshub.cpp:55-62 | an exponent may be reduced modulo (p-1)(q-1) exactly when it stays nonzero or the base is coprime to the modulus |
| BlumBlumShub.Generator.constructor | external/cryptopp/blumshub.cpp:9-53 | the generator starts at bit 0 of the stream of its seed |
| BlumBlumShub.Generator.GenerateBit | external/cryptopp/blumshub.cpp:17-26 | the next bit of the stream, squaring when the bits of a state are used up |
| BlumBlumShub.Generator.GenerateByte | external/cryptopp/blumshub.cpp:28-34 | the next eight bits, most significant first |
| BlumBlumShub.Generator.GenerateBlock | external/cryptopp/blumshub.cpp:36-40 | the next bytes of the stream |
| BlumBlumShub.Generator.ProcessData | external/cryptopp/blumshub.cpp:42-46 | the input combined with the next bytes of the stream |
| BlumBlumShub.StateShare | external/cryptopp/blumshub.cpp:17-26 | every state gives the stream its remainder modulo 2^maxBits, first bit highest |
| BlumBlumShub.KnownByte | external/cryptopp/blumshub.cpp:9-34 | the first byte for the primes 7 and 11 and seed 2 is 20: two bits each of 16, 25, 9 and 4 |
| BlumBlumShub.Generator.Seek | external/cryptopp/blumshub.cpp:55-62 | the position is reached exactly under the condition of `Reaches` |
| BlumBlumShub.SeekExact | external/cryptopp/blumshub.cpp:55-62 | the power with the reduced exponent is the state at the position, exactly under that condition |
| BlumBlumShub.BlumAlwaysReaches | external/cryptopp/blumshub.h:37-56 | for distinct Blum primes every seed and every position meets the condition |
| BlumBlumShub.NotReached | external/cryptopp/blumshub.cpp:55-62 | 3 and 5 are primes, and for the square 9 the condition fails at exponent 2^5 |
| BlumBlumShub.SeekMisses | external/cryptopp/blumshub.cpp:9-62 | a generator with the primes 3 and 5 and seed 3 is in the wrong state after seeking byte 1, and the byte it then gives is not byte 1 of the stream |
| BlumBlumShub.OutputDrop | external/cryptopp/blumshub.cpp:36-40 | output from a byte position is sequential output with the bytes before it dropped |
| BlumBlumShub.SeekThenGenerate | external/cryptopp/blumshub.cpp:36-62 | seeking and generating gives what sequential generation gives after dropping |
| CcmSpec.CryptTwice | external/cryptopp/authenc.cpp:109-139 | combining twice with the blocks S_1, S_2, ... of RFC 3610 restores the data |
| Bytes.XorAt | external/cryptopp/misc.cpp:46-77 | bit i of the exclusive or of two bytes is the sum of their bits without carry |
| CcmSpec.CounterIsA | external/cryptopp/ccm.cpp:31-45 | the counter block incremented by i is the block A_i of RFC 3610 |
| CcmSpec.CounterIsStream | external/cryptopp/ccm.cpp:31-45 | for every message of an admissible length the key stream of the incremented counter is S_1, S_2, ... of section 2.3 of RFC 3610 |
| CcmSpec.CounterIsFirst | external/cryptopp/authenc.cpp:141-184 | and its first block is S_0, which enciphers the tag |
| CcmSpec.CounterBlocksDifferFromFirst | external/cryptopp/ccm.cpp:36-64 | no counter block equals a first MAC block |
| CcmSpec.HeaderPrefixDecodes | external/cryptopp/ccm.cpp:66-89 | the three encodings of the header length are told apart and read back |
| CcmSpec.MacInputInjective | external/cryptopp/ccm.cpp:50-129 | equal MAC inputs come from equal digest sizes, nonces, headers and messages |
| CcmVector.FlagFields | external/cryptopp/ccm.cpp:61-61 | the bit fields of section 2.2 of RFC 3610 read back from the first octet: header flag, digest size and length size, with the reserved bit clear |
| CcmVector.HeaderLengths | external/cryptopp/ccm.cpp:66-89 | the encoded header length on both sides of each limit |
| CcmVector.TagIsMac | external/cryptopp/ccm.cpp:92-135 | the tag is the CBC-MAC of all blocks from a chain of zeros, combined with the cipher of A_0 |
| CcmVector.PacketBlocks | external/cryptopp/ccm.cpp:50-129 | the blocks given to CBC-MAC for packet vector 1 of RFC 3610 |
| CcmVector.PacketCounters | external/cryptopp/ccm.cpp:31-45 | the counter blocks of that packet |
| Ccm.CcmCipher.AuthenticateBlocks | external/cryptopp/ccm.cpp:92-97 | whole blocks are chained into the MAC and the rest is reported |
| Ccm.CcmCipher.AuthenticateData | external/cryptopp/authenc.cpp:11-51 | the data fed to the MAC grows by the input, whatever was buffered, and what every branch leaves in the buffer |
| Ccm.CcmCipher.AuthenticateLastBlock | external/cryptopp/ccm.cpp:99-129 | the data fed is completed by zeros to whole blocks |
| Ccm.CcmCipher.SetKey | external/cryptopp/authenc.cpp:53-65 | the digest size is accepted exactly when even and 4 to 16, and a nonce starts a message |
| Ccm.CcmCipher.Resynchronize | external/cryptopp/authenc.cpp:67-78 | a message starts in every state but the first, with counters cleared and the counter block of the nonce |
| Ccm.CcmCipher.Resync | external/cryptopp/ccm.cpp:27-48 | the counter block of the nonce, positioned after its first block |
| Ccm.CcmCipher.SpecifyDataLengths | external/cryptopp/ccm.cpp:50-90 | the chain restarts from the first block of RFC 3610 and the encoded header length is fed; the error cases change nothing |
| Ccm.CcmCipher.Update | external/cryptopp/authenc.cpp:80-107 | in each state: header data, the change to footer data, or the exception |
| Ccm.CcmCipher.ProcessData | external/cryptopp/authenc.cpp:109-139 | the header is closed once, the plaintext side is fed to the MAC, the key stream is applied from where it was; each exception and what it leaves unchanged |
| Ccm.CcmCipher.TruncatedFinal | external/cryptopp/authenc.cpp:141-184 | the declared lengths are checked and the tag is that of the data fed, in every state; after an exception the MAC is unchanged, but for a header already closed when the message length is found wrong |
| Ccm.Process | external/cryptopp/authenc.cpp:11-184 | for every cut of header and message into calls and in both directions, output and tag are those of section 2 of RFC 3610, with the blocks A_i of section 2.3 |
| Ccm.EncryptThenDecrypt | external/cryptopp/authenc.cpp:11-184 | decryption of an encryption returns the message and computes the same tag, with independent cuts on the two sides |
| Ccm.HeaderBeforeLengths | external/cryptopp/ccm.cpp:50-90 | header data given before the lengths, in any number of calls, is counted and left out of the MAC, and the first block takes its nonce from the buffer those calls have written over |
| Ccm.BufferByte | external/cryptopp/authenc.cpp:11-51 | each byte of the buffer is the last byte of data in its place whose block of 16 did not lie within one call, or what it was before |
| Ccm.EarlyHeaderExact | external/cryptopp/ccm.cpp:50-64 | that first block is the intended one exactly when each of those last bytes over the nonce agrees with it |
| Ccm.EarlyHeaderFails | external/cryptopp/ccm.cpp:50-64 | three bytes and then thirteen leave no incomplete block and a changed nonce |
| BitStrings.Regroup | external/cryptopp/basecode.cpp:48-176 | bytes regrouped into digits of w bits, zero-filled, and back are the bytes |
| BaseN.Encoder.constructor | external/cryptopp/basecode.cpp:22-46 | an encoder before its first message |
| BaseN.NewEncoder | external/cryptopp/basecode.cpp:22-46 | the width is accepted exactly from 1 to 7, and the block is the least number of characters that holds whole bytes |
| BaseN.BlockSize | external/cryptopp/basecode.cpp:40-43 | the least number of units that is a whole number of steps |
| BaseN.Encoder.PutByte | external/cryptopp/basecode.cpp:56-79 | the eight bits of a byte follow the bits held, with every buffer index in range |
| BaseN.Encoder.PutOne | external/cryptopp/basecode.cpp:51-94 | one byte: the buffer is cleared only when it holds nothing, and a full block is written |
| BaseN.Encoder.EndMessage | external/cryptopp/basecode.cpp:95-111 | the output of the message is its encoding with padding |
| BaseN.Encoder.Put2 | external/cryptopp/basecode.cpp:48-113 | for every cut of the message the output is its encoding |
| BaseNDecoder.Decoder.PutValue | external/cryptopp/basecode.cpp:146-162 | the bits of a value are turned on in at most two bytes in range, for any value of the table |
| BaseNDecoder.Decoder.PutOne | external/cryptopp/basecode.cpp:136-169 | one character: skipped if not in the table, never erasing bits held |
| BaseNDecoder.Decoder.EndMessage | external/cryptopp/basecode.cpp:170-175 | the output is the whole bytes that the values of the significant characters overlay; for a table of digits, the whole bytes in their bits |
| BaseNDecoder.Decoder.Put2 | external/cryptopp/basecode.cpp:133-176 | for every cut of the text and every table the output is that overlay, and for a table of digits the decoding |
| BaseNDecoder.OverlayIsDigits | external/cryptopp/basecode.cpp:146-162 | values that fit their width fill the bytes with exactly their bits |
| BaseNExact.OverlaidBit | external/cryptopp/basecode.cpp:146-162 | if the bits that values have beyond their width fall on bits that are set, every bit of the output is that of the value it belongs to |
| BaseNExact.UncoveredDiffers | external/cryptopp/basecode.cpp:146-162 | and if one does not, a few copies of the one value before the other give a wrong first byte |
| BaseNExact.TableExact | external/cryptopp/basecode.cpp:133-176 | a table decodes every text exactly when each bit beyond the width, in any value, falls on a bit that is set in every value |
| BaseNExact.DigitsCover | external/cryptopp/basecode.cpp:133-176 | a table of digits meets that condition |
| BaseNExact.WideValueFails | external/cryptopp/basecode.cpp:133-176 | with 0 and 31 as digits of four bits the text 01 gives 31 and not 15 |
| BaseNExact.WideValueHarmless | external/cryptopp/basecode.cpp:133-176 | with 31 alone every text is decoded, though it is no digit |
| BaseNDecoder.NewDecoder | external/cryptopp/basecode.cpp:115-131 | the width is accepted exactly from 1 to 7, and the block is the least number of bytes that holds whole characters |
| BaseNDecoder.InitializeDecodingLookupArray | external/cryptopp/basecode.cpp:178-197 | each entry is the last letter the character stands for, of either case if so asked, or -1 |
| BaseNDecoder.LookupInverts | external/cryptopp/basecode.cpp:178-197 | the table inverts the alphabet exactly when no two letters share an entry |
| BaseNDecoder.ExtendGroup | external/cryptopp/basecode.cpp:219-232 | characters that fit the last group follow it directly |
| BaseNDecoder.NewGroup | external/cryptopp/basecode.cpp:219-232 | after a full group the separator comes first |
| BaseNDecoder.Grouper.Put2 | external/cryptopp/basecode.cpp:214-243 | for every cut of the text the output is the text in groups, and the terminator at its end |
| BaseNDecoder.DecodeEncode | external/cryptopp/basecode.cpp:22-243 | decoding the padded, grouped and terminated encoding gives the message, if padding, separator and terminator are not in the table |
| BaseNDecoder.RoundTripExact | external/cryptopp/basecode.cpp:22-243 | with the table made for an alphabet, every message comes back exactly when no two letters share an entry |
| BaseNDecoder.RoundTrip | external/cryptopp/basecode.cpp:22-243 | the same through the three objects, each fed with its own cut of the data, for every alphabet without colliding letters |
| Base64.EncodeIsQuanta | external/cryptopp/base64.cpp:10-12 | the encoding with six bits, this alphabet and padding is that of section 4 of RFC 4648: three bytes give four characters, the rest is completed by zero bits and padded |
| Base64.QuantaLength | external/cryptopp/base64.cpp:52-67 | the text of m has 4 * ((|m| + 2) / 3) characters |
| Base64.Encode64 | external/cryptopp/base64.cpp:52-67 | the object gives that text for every cut of the message, in lines if so asked |
| Base64.GroupedAt | external/cryptopp/basecode.cpp:214-243 | character i of a text in lines stands after i / size separators |
| Base64.DecodeQuanta | external/cryptopp/base64.cpp:13-30 | the constant decoding table undoes the encoding, with or without line breaks |
| Base64.Foobar | external/cryptopp/base64.cpp:10-12 | vectors of section 10 of RFC 4648 |
| Der.BytePrecision | external/cryptopp/misc.h:799-815 | the number of bytes of a 64-bit number |
| Der.BitPrecision | external/cryptopp/misc.h:822-839 | the number of bits of a 32-bit number |
| Der.DERLengthEncode | external/cryptopp/asn.cpp:20-39 | the short or the long form of section 8.1.3 of X.690 is appended |
| Der.BERLengthDecode | external/cryptopp/asn.cpp:41-77 | the length is accepted exactly when its octets are there and its value fits 64 bits, and is that value; the exception comes exactly when a bit would be lost, `false` when the octets end before that |
| Der.LengthRoundTrip | external/cryptopp/asn.cpp:20-77 | a written length is read back, whatever follows |
| Der.LengthIsMinimal | external/cryptopp/asn.cpp:20-77 | no accepted form of a length is shorter than the written one |
| Der.OidEncodeValue | external/cryptopp/asn.cpp:307-312 | groups of seven bits, all but the last marked, are appended |
| Der.OidDecodeValue | external/cryptopp/asn.cpp:314-331 | a value is accepted exactly when an unmarked octet ends it and it fits 32 bits, and is that value |
| Der.ValueRoundTrip | external/cryptopp/asn.cpp:307-331 | a written value is read back, whatever follows |
| Der.ValueIsMinimal | external/cryptopp/asn.cpp:307-331 | no accepted form of a value is shorter than the written one |
| Der.Oid.DEREncode | external/cryptopp/asn.cpp:333-343 | tag, length and contents of the identifier are appended |
| Der.Oid.BERDecode | external/cryptopp/asn.cpp:345-372 | the values are those of `DecodeOid`, exactly one element is consumed, and failure means `DecodeOid` has none |
| Der.OidRoundTrip | external/cryptopp/asn.cpp:333-372 | an identifier comes back exactly when its second value is below 40 and 40 times the first plus the second is below 256 |
| Der.OidFails | external/cryptopp/asn.cpp:333-372 | 2.999 is written as one octet and comes back as 1.15 |
| Der.DEREncodeUnsigned | external/cryptopp/asn.h:819-844 | a boolean, or the shortest non-negative two's complement form, is appended |
| Der.BERDecodeUnsigned | external/cryptopp/asn.h:855-899 | a number is accepted exactly when its octets are there, its value fits the type and lies in the range, and is that value |
| Der.UnsignedRoundTrip | external/cryptopp/asn.h:819-899 | a number comes back exactly when it is in range and, for a boolean, 0 or 255 |
| Der.BooleanFails | external/cryptopp/asn.h:819-899 | a boolean written from 1 comes back as 255 |
| Der.UnsignedIsMinimal | external/cryptopp/asn.h:829-839 | no non-negative two's complement form of a number is shorter |
| Der.DecodedIsInteger | external/cryptopp/asn.h:855-899 | the number read is the integer of section 8.3.3 of X.690 exactly when the first bit of the contents is clear |
| Der.NegativeFails | external/cryptopp/asn.h:855-899 | minus one is read as 255 |
| Der.EncodedIsInteger | external/cryptopp/asn.h:819-844 | the contents written for a number are that integer in two's complement |
| DerKnown.KnownLengths | external/cryptopp/asn.cpp:20-39 | the octets of lengths on both sides of each limit |
| DerKnown.KnownIntegers | external/cryptopp/asn.h:819-844 | the octets of small integers, with a leading zero where the sign bit would be set, of a boolean and of an enumerated value |
| DerKnown.KnownIdentifier | external/cryptopp/asn.cpp:333-343 | the octets of 1.2.840.113549 |
| Reencode.BERGeneralDecoder.Init | external/cryptopp/asn.cpp:501-512 | the header is accepted exactly when the tag matches, the length is good and an indefinite length belongs to a constructed tag |
| Reencode.BERGeneralDecoder.EndReached | external/cryptopp/asn.cpp:527-536 | no length left, or end-of-contents octets ahead |
| Reencode.BERGeneralDecoder.TransferRemaining | external/cryptopp/asn.cpp:569-594 | what is there of the remaining length moves on and is counted |
| Reencode.BERGeneralDecoder.MessageEnd | external/cryptopp/asn.cpp:553-567 | success exactly when nothing is left, or the end-of-contents octets are there and removed |
| Reencode.DERGeneralEncoder.MessageEnd | external/cryptopp/asn.cpp:624-631 | the collected contents leave with tag and length |
| Reencode.DERReencode | external/cryptopp/asn.cpp:271-286 | it terminates, succeeds exactly on `ParseItem`, consumes exactly one element and appends its definite form |
| Reencode.ReencodeItems | external/cryptopp/asn.cpp:279-283 | the elements up to the end-of-contents octets are re-encoded in order |
| Reencode.TreePreserved | external/cryptopp/asn.cpp:271-286 | the element and its definite form denote the same tree, or neither denotes one |
| Reencode.TreeAccepted | external/cryptopp/asn.cpp:271-286 | whatever denotes a tree is accepted, to the same length |
| Reencode.ReencodeDenotesSame | external/cryptopp/asn.cpp:271-286 | the output is one element of definite length that denotes the same tree and that re-encoding leaves as it is |
| Reencode.ReencodeDefinite | external/cryptopp/asn.cpp:271-286 | the output has definite lengths down to its leaves exactly when the contents that were copied had |
| Reencode.IndefiniteStays | external/cryptopp/asn.cpp:271-286 | an empty element of indefinite length inside one of definite length is output as it was |
| DerKnown.ConstructedBit | external/cryptopp/asn.h:94-94 | the constructed tags are those with bit 6 set, 30 but not 10 in hexadecimal |
| DerKnown.KnownReencoding | external/cryptopp/asn.cpp:271-286 | 30 80 02 01 05 00 00 becomes 30 03 02 01 05 |
| WideBlocks.AddOneIsBump | external/cryptopp/adv_simd.h:670-681 | adding to the top lane increments the last byte of the counter block and drops the carry |
| WideBlocks.LoadGroup | external/cryptopp/adv_simd.h:669-697 | the registers of a group hold successive counter blocks or input blocks |
| WideBlocks.ProcessGroup | external/cryptopp/adv_simd.h:667-791 | a group loads all its inputs before any store, advances a counter at once, and moves the pointers on, for every layout of the blocks |
| WideBlocks.GroupIsRun | external/cryptopp/adv_simd.h:667-816 | a safe group of any size leaves the memory as that many rounds of the one-block loop do |
| WideBlocks.ScheduleIsRun | external/cryptopp/adv_simd.h:667-819 | if every group is safe, sixes, twos and ones together leave the memory of the one-block loop, whether or not the output advances |
| WideBlocks.OneBlock | external/cryptopp/adv_simd.h:794-816 | one round of the one-block loop, the counter incremented between load and store |
| WideBlocks.AdvancedProcessBlocks | external/cryptopp/adv_simd.h:635-819 | for every layout of the blocks and in both directions: the memory of the schedule of sixes, twos and ones, or of the one-block loop where groups are not allowed, and the length left over; `Modes.SafeCall` says what each block then is |
| WideBlocks.SafeWhen | external/cryptopp/adv_simd.h:647-665 | every group is safe when input and XOR blocks are equal to or separate from the output, and a counter block is away from both |
| WideBlocks.SafeBackwards | external/cryptopp/adv_simd.h:655-665 | and for in-place decryption from the end, each block combined with the one before it |
| WideBlocks.ChainingNotParallel | external/cryptopp/adv_simd.h:647-665 | for a register that is input and output at one address the call differs when groups are allowed |
| WideExact.Witness | external/cryptopp/adv_simd.h:667-819 | for every unsafe group of a call that advances its output there are a cipher and a memory for which a block it stores differs from that of the one-block loop |
| WideExact.Differs | external/cryptopp/adv_simd.h:667-819 | such a difference is still there when the call ends |
| WideExact.ScheduleExact | external/cryptopp/adv_simd.h:635-819 | for calls that advance their output: groups and one block at a time leave the same memory, for every cipher and memory, exactly when every group is safe |
| WideExact.PlainExact | external/cryptopp/adv_simd.h:635-819 | without XOR blocks and counter: exactly when there are fewer than two blocks or the output is not ahead of the input by 1 to 95 bytes (31 if there are fewer than six blocks); permutations of blocks tell as much as all functions |
| WideExact.FixedOutputHides | external/cryptopp/adv_simd.h:647-665 | with a fixed output an unsafe group can do no harm, because a later store covers it |
| WideBlocks.MacIsChain | external/cryptopp/ccm.cpp:92-97 | the driver called with a register that is input and output, and data as XOR blocks, chains the data as CBC-MAC and changes nothing else |
| Modes.CallBlock | external/cryptopp/adv_simd.h:635-819 | block i of a safe call in either direction is the cipher of the input block, or of the counter increased by i, with the XOR block combined before or after it |
| Modes.SafeCall | external/cryptopp/adv_simd.h:635-819 | that for every block, and nothing else changes but the last byte of a counter, which counts the blocks |
| Modes.Ecb | external/cryptopp/modes.cpp:191-195 | every block is the cipher of its input, in place or not |
| Modes.IncrementCounterByOne | external/cryptopp/misc.h:1278-1289 | one is added over all bytes, with carry |
| Modes.CounterValue | external/cryptopp/modes.cpp:123-138 | adding to a counter is addition of numbers modulo 256 to its size |
| Modes.OperateKeystream | external/cryptopp/modes.cpp:140-161 | block i is the input combined with the cipher of the counter plus i, counted over all sixteen bytes although the driver counts in the last one only; the counter ends at plus the count |
| Modes.SeekToIteration | external/cryptopp/modes.cpp:123-133 | the counter of the given block, so that the key stream continues there |
| Modes.CbcEncrypt | external/cryptopp/modes.cpp:197-208 | c_i is the cipher of p_i combined with c_{i-1}, the register before the first and the last block after, in place or not; nothing else changes |
| Modes.CbcDecrypt | external/cryptopp/modes.cpp:249-261 | p_i is the deciphered c_i combined with c_{i-1}, through the backward call in groups, in place or not; the register ends as the last block of ciphertext; nothing else changes |
| Modes.CbcRoundTrip | external/cryptopp/modes.cpp:197-261 | deciphering in place what was enciphered in place restores the message, and both registers agree |
| Blake2b.ShufflesRotate | external/cryptopp/blake2b_simd.cpp:376-379 | the word and byte shuffles rotate right by 32, 24 and 16 |
| Blake2b.Shift63Rotates | external/cryptopp/blake2b_simd.cpp:380-380 | a shift combined with a sum rotates right by 63 |
| Blake2b.LoadsFollowSigma | external/cryptopp/blake2b_simd.cpp:84-370 | the packed loads of all twelve rounds bring the message words of the sigma table |
| Blake2b.MixLanes | external/cryptopp/blake2b_simd.cpp:384-420 | both halves of a mix on registers are four mixes of section 3.1 of RFC 7693 |
| Blake2b.DiagonalsAreLanes | external/cryptopp/blake2b_simd.cpp:422-442 | diagonals are lanes between diagonalizing and its inverse |
| Blake2b.SseRoundIsRound | external/cryptopp/blake2b_simd.cpp:444-454 | a round on registers is a round of columns and diagonals on words |
| Blake2b.MixInPlace | external/cryptopp/blake2.cpp:115-126 | the mix of section 3.1 of RFC 7693, in place |
| Blake2b.RoundInPlace | external/cryptopp/blake2.cpp:128-139 | a round of columns and diagonals, in place |
| Blake2b.CompressCxx | external/cryptopp/blake2.cpp:721-758 | the chaining words of section 3.2 of RFC 7693, counter and flags unchanged |
| Blake2b.CompressSse4 | external/cryptopp/blake2b_simd.cpp:82-505 | the same chaining words from the registers |
| Blake2Hash.PlainStart | external/cryptopp/blake2.cpp:505-534 | without salt and personalization only the first word of the initial vector changes, as in section 3.3 of RFC 7693 |
| Blake2Hash.OneShotLast | external/cryptopp/blake2.cpp:573-659 | compressing whole blocks first and the last block later is the one-shot hash, if the last is empty only when all is |
| Blake2Hash.CarryStep | external/cryptopp/blake2.cpp:668-673 | the comparison finds the carry of the two-word counter |
| Blake2Hash.Blake2bHash.constructor | external/cryptopp/blake2.cpp:430-460 | parameter block and key block, and a hash restarted with them |
| Blake2Hash.Blake2bHash.IncrementCounter | external/cryptopp/blake2.cpp:668-673 | the two words count bytes modulo 2^128 |
| Blake2Hash.Blake2bHash.CompressBlock | external/cryptopp/blake2.cpp:698-719 | the same result from either engine |
| Blake2Hash.Blake2bHash.Update | external/cryptopp/blake2.cpp:573-609 | the data fed grows by the input; the last block is held back |
| Blake2Hash.Blake2bHash.TruncatedFinal | external/cryptopp/blake2.cpp:636-659 | a prefix of the one-shot hash of the data fed, and a restart; or the exception, and no change |
| Blake2Hash.Blake2bHash.Restart | external/cryptopp/blake2.cpp:505-534 | the state of the parameter block, counter and key |
| Blake2Hash.Hash | external/cryptopp/blake2.cpp:505-719 | for every cut of the message, with or without key, and from either engine: the hash of section 3.3 of RFC 7693 |
| Blake2Known.InitialVector | external/cryptopp/blake2.cpp:69-74 | section 2.6 of RFC 7693: the fractional parts of the square roots of the first eight primes |
| Blake2Known.MessageSchedule | external/cryptopp/blake2.cpp:100-113 | section 2.7 of RFC 7693: the rows of the schedule, read as hexadecimal numbers |
| Blake2Known.SchedulePermutes | external/cryptopp/blake2.cpp:100-113 | every message word is mixed in each round |
| Blake2Known.MixFirst | external/cryptopp/blake2.cpp:115-126 | the mix of zeros with one bit in the first message word |
| Blake2Known.MixSecond | external/cryptopp/blake2.cpp:115-126 | and in the second |
| Blake2Known.TwelveRounds | external/cryptopp/blake2.cpp:721-758 | section 3.2 of RFC 7693: twelve rounds, each through its own row, and both halves combined with the chaining words |
| Blake2Known.AbcState | external/cryptopp/blake2.cpp:505-534 | appendix A of RFC 7693: the first chaining word |
| Blake2Known.AbcStart | external/cryptopp/blake2.cpp:721-740 | appendix A of RFC 7693: the start vector with count and flag |
| Blake2Known.ParameterLayout | external/cryptopp/blake2.cpp:297-308 | every byte of the parameter block by its offset |
| Blake2Known.WordOrder | external/cryptopp/blake2.cpp:721-740 | the words of a block are its bytes in order, little-endian |
| Blake2Known.DigestOrder | external/cryptopp/blake2.cpp:636-659 | appendix A of RFC 7693: the first bytes of the digest from its first word |
| Blake2Known.TwoBlocks | external/cryptopp/blake2.cpp:573-659 | a message of two blocks: both compressions with their counts and flags |
| Blake2Known.NoData | external/cryptopp/blake2.cpp:573-659 | the empty message: one block of zeros, counted as none |
| Feistel.Cast128Enc | external/cryptopp/cast.cpp:36-64 | the 12 or 16 rounds in order, halves exchanged at the end |
| Feistel.Cast128Dec | external/cryptopp/cast.cpp:66-93 | the same rounds backwards |
| Feistel.UnroundsUndo | external/cryptopp/cast.cpp:36-93 | rounds backwards undo rounds, for any S-boxes and keys |
| Feistel.Cast128RoundTrip | external/cryptopp/cast.cpp:36-93 | decryption of an encryption is the block, in both forms |
| Feistel.Cast256Process | external/cryptopp/cast.cpp:212-235 | six forward and six reverse quad-rounds |
| Feistel.SwapKeyGroups | external/cryptopp/cast.cpp:274-289 | key group j becomes key group 11-j, for all twelve |
| Feistel.MirrorUndoes | external/cryptopp/cast.cpp:197-235 | with mirrored key groups the rounds undo themselves one by one |
| Feistel.Cast256RoundTrip | external/cryptopp/cast.cpp:197-289 | decryption of an encryption is the block |
| Feistel.BlowfishProcess | external/cryptopp/blowfish.cpp:71-97 | whitening, rounds and output in order, for any even number of rounds |
| Feistel.ReverseBox | external/cryptopp/blowfish.cpp:38-40 | the words of the box in reverse order, in place |
| Feistel.BlowfishUndoes | external/cryptopp/blowfish.cpp:38-97 | with the box reversed a block is restored, for any S-boxes and any even number of rounds |
| Feistel.BlowfishRoundTrip | external/cryptopp/blowfish.cpp:38-97 | decryption of an encryption is the block |
| FeistelKnown.BoxOrder | external/cryptopp/cast.cpp:11-28 | with one box at a time: which octet each box takes, how the masking key is combined, and where each round function subtracts |
| FeistelKnown.ConstantRounds | external/cryptopp/cast.cpp:17-28 | with constant boxes: the order of the operations in the three round functions and in that of Blowfish |
| FeistelKnown.Rotates | external/cryptopp/cast.cpp:17-28 | the rotation moves a bit up by its distance |
| FeistelKnown.ConstantHalves | external/cryptopp/cast.cpp:36-64 | the first three rounds take the three functions in turn, on alternating halves |
| FeistelKnown.ConstantQuad | external/cryptopp/cast.cpp:197-202 | which round function reaches which word in a quad-round |
| FeistelKnown.BlowfishKeys | external/cryptopp/blowfish.cpp:71-97 | which key word reaches which half, and the exchange at the end |
| Chunked.LineReader.Append | external/cpp-httplib/httplib.h:483-494 | the line grows by the character, in the fixed buffer or in the growing one |
| Chunked.LineReader.Text | external/cpp-httplib/httplib.h:445-451 | the string is the line up to a zero, whichever buffer holds it |
| Chunked.LineReader.GetLine | external/cpp-httplib/httplib.h:453-481 | the bytes up to the first line feed, or all that is left; false exactly at the end |
| Chunked.FromIToHex | external/cpp-httplib/httplib.h:1222-1231 | the hexadecimal digits of the number |
| Chunked.StoiHex | external/cpp-httplib/httplib.h:1090-1111 | a size line is read back exactly when the size fits an `int` |
| Chunked.ReadContentWithLength | external/cpp-httplib/httplib.h:1041-1061 | exactly that many bytes, however the connection delivers them; false exactly when there are fewer |
| Chunked.ReadContentChunked | external/cpp-httplib/httplib.h:1079-1122 | the outcome, body and rest of `ReadBody`, on any data |
| Chunked.WriteChunks | external/cpp-httplib/httplib.h:1941-1954 | a frame for every answer of the callback up to and with the first empty one |
| Chunked.KnownText | external/cpp-httplib/httplib.h:1941-1954 | the bytes of two chunks and of the end |
| Chunked.ReadWritten | external/cpp-httplib/httplib.h:1041-1122 | what was written is read back and the bytes after it are left, exactly when all sizes fit an `int`; otherwise an exception |
| Chunked.LargeChunkFails | external/cpp-httplib/httplib.h:1079-1122 | a chunk of 2^31 bytes is written and ends reading with an exception |
| Chunked.WellFormedRead | external/cpp-httplib/httplib.h:1079-1122 | every well-formed body is read as what it is, to its end |
| Chunked.OkExact | external/cpp-httplib/httplib.h:1079-1122 | when the answer is true the body was well formed, with size lines as `std::stoi` reads them, exactly when no chunk lacked its line end and no size was negative |
| Chunked.BrokenAccepted | external/cpp-httplib/httplib.h:1079-1122 | a chunk without its line end and a negative size both end in true with an empty body |
| ChunkedGrammar.ChunkLineRead | external/cpp-httplib/httplib.h:1090-1111 | a size line of RFC 7230, extensions included, is read as its size exactly when that fits an `int` |
| ChunkedGrammar.SizeExact | external/cpp-httplib/httplib.h:1090-1111 | a line read as a size is one of RFC 7230 exactly when it starts with digits and goes on with extensions |
| ChunkedGrammar.GrammarRead | external/cpp-httplib/httplib.h:1079-1122 | a body of RFC 7230 is read to its end exactly when its sizes fit an `int` and it has no trailer; otherwise an exception, or false |
| ChunkedGrammar.GrammarExact | external/cpp-httplib/httplib.h:1079-1122 | when the answer is true the body was one of RFC 7230 exactly when it was not broken and its size lines were such |
| ChunkedGrammar.LooseSizes | external/cpp-httplib/httplib.h:1090-1111 | a sign before the size and letters after it are read and are not in the grammar |
| Chunked.RoundTrip | external/cpp-httplib/httplib.h:1941-1954 | the same through writer, connection and reader |
| Adler32.NextByte | external/cryptopp/adler32.cpp:19-21 | one more byte keeps both sums congruent to their definition |
| Adler32.Odd | external/cryptopp/adler32.cpp:15-27 | the bytes before a multiple of eight, then both sums reduced |
| Adler32.Sums | external/cryptopp/adler32.cpp:10-50 | no sum leaves 32 bits between reductions, one subtraction reduces the first, and both end reduced |
| Adler32.Checker.Update | external/cryptopp/adler32.cpp:8-54 | the sums of section 2.2 of RFC 1950 over all data fed |
| Adler32.Checker.TruncatedFinal | external/cryptopp/adler32.cpp:56-79 | a prefix of the checksum, and a restart; or the exception, and no change |
| Adler32.Hash | external/cryptopp/adler32.cpp:8-79 | the checksum for every cut of the message |
| AdlerKnown.BaseIsLargestPrime | external/cryptopp/adler32.cpp:10-10 | the modulus is the largest prime below 65536 |
| AdlerKnown.Wikipedia | external/cryptopp/adler32.cpp:8-79 | the checksum of a known text |

## Left out

- The first-party sources: plain records, interfaces, JSON and RPC glue.
- Sockets, threads, TLS, regular expressions, compression and multipart parsing in httplib.h; failing reads and writes, a failing progress callback, and the branch of `write_response` that writes no chunks.
- `std::push_heap`, `std::pop_heap` and `std::make_heap`: replaced by implementations of their contract; `std::stoi` is modelled after the C standard.
- `Integer`: unbounded numbers. Its remainders are taken non-negative; moduli are at least two. `power1`, `power2` and the table size are not bounded by a machine word.
- The group operations return values; the object that holds a result is not modelled. Uninitialised elements of tables and results are the arbitrary value `blank`.
- The block cipher in CCM is an arbitrary function of blocks. Counter mode is a position in a key stream; its buffered remainder and `AllowsInPlace` are not modelled.
- CCM after `Resynchronize` without `SpecifyDataLengths` continues an old chain; the contracts describe it, and the theorems about whole messages begin with the lengths declared.
- Debug assertions, such as the one against buffered data in `UncheckedSpecifyDataLengths`.
- Resumption of blocked filters, channels, alignment, memory wiping and exceptions inside destructors.
- A queue after a failed decoding holds an unspecified rest; what encoders leave behind when an exception unwinds them is not described.
- Reencode.DERReencode: an indefinite-length decoder passes reads through unchanged, so nested elements are read from the underlying queue; a source that is itself a decoder of definite length is a queue of that length.
- WideBlocks: memory is one array of bytes; the functions for two and six blocks are any that transform each block by itself. Key schedules, the driver for groups of four and the NEON, POWER8 and Altivec variants are not modelled.
- WideExact.ScheduleExact: where the output stays fixed only one direction holds, that of `WideBlocks.ScheduleIsRun`. The ciphers that tell an unsafe call are functions of blocks; that permutations suffice is shown without XOR blocks and counter only.
- The modes CFB, OFB and ciphertext stealing; `Modes` takes blocks of 16 bytes, and input and output that are the same or do not overlap.
- Blake2Known: a round function, the tables and the layout have known values; no digest of a whole message is computed.
- BLAKE2s, which repeats BLAKE2b with 32-bit words, and the machines that are not little-endian.
- Feistel: blocks are words; byte order, the optional XOR block and the key schedules, but for the exchange of keys for decryption, are not modelled.
- `EncodedObjectFilter`, the string, date and bit string codecs, and the X.509 and PKCS #8 wrappers in asn.cpp; Camellia, ARIA, 3-Way, ARC4 and CBC-MAC, whose arguments repeat the ones here.
