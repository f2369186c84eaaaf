# Verified models of the repository's arithmetic, codecs and parsers

This project models, in Dafny, the parts of the repository that compute something a mathematical
statement can pin down, and proves those statements for all inputs:

- the multi-precision integers of `bignum.c`: carry and borrow arithmetic, long division with
  digit estimation, Montgomery multiplication, sliding-window exponentiation, binary gcd and
  inverse, binary and radix text (`Mpi`, `Compare`, `Shift`, `AddSub`, `Multiply`, `Divide`,
  `Modulo`, `Montgomery`, `ExpMod`, `BinaryGcd`, `InvMod`, `Bytes`, `RadixText`);
- the quote-free encoding of `CppSQLite3.cpp` and the class that holds a blob in either form
  (`QuoteFree`, `BinaryHolder`);
- printing and parsing of JSON (`Json`, `JsonPrinter`, `JsonParser`, `JsonGrammar`, `JsonRoundTrip`)
  and of XML (`CharRef`, `XmlText`, `Xml`, `XmlPieces`, `XmlPrinter`, `XmlParser`, `XmlGrammar`,
  `XmlRoundTrip`), and the pool allocator (`Pool`);
- the DER writer and reader (`Der`), Blowfish and its modes (`Blowfish`, `CipherModes`) and
  Base64 (`Base64`).

`Arith`, `Bits`, `Limbs`, `Modular`, `Divisors`, `Octets`, `Text` and `CodePoints` hold what these share.
`dafny verify dfyconfig.toml` checks everything.

## How to read it

Code that changes things step by step is a method with the same loops and branches, on arrays or on
objects whose fields it updates, and its `ensures` ties the result to a function or predicate that
says what is meant. The lemmas are about those functions.

`JsonGrammar` and `XmlGrammar` describe texts from the outside, by how they may be written, and prove what
the parsers find in each of them; that printed trees are read back follows. Tables and constants are
tied to literal characters, or to the numbers of the standard they come from, by lemmas of their own.

A number is an object with a sign and a sequence of limbs, least significant first, and its contract
speaks of the integer it stands for. The width of a limb is left open: 1, 2, 4 or 8 bytes. Machine
arithmetic on limbs wraps around at that width. Texts are sequences of bytes, read as zero behind
their end.

Where the source does not do what its interface suggests, the model does what the source does, and a
lemma says exactly when that is right:

- `mpi_add_abs` with all three arguments the same object loses carries (`DoubledIff`);
- `mpi_mul_int` reads a negative multiplier as unsigned (`MulIntIff`);
- `mpi_div_mpi` with the quotient over an operand takes signs, and for a small dividend the
  remainder too, after overwriting it (`InPlaceQuotientIff`, `OverDivisorIff`, `RemainderOverIff`);
- `mpi_mod_int` is wrong for divisors above half a limb that do not divide W (`RunningIff`);
- `mpi_exp_mod` corrects a negative base without looking at the parity of the exponent
  (`NegativeBaseIff`, `CoprimeNegativeBaseIff`);
- `mpi_gcd` gives 0 for B = 0 (`GcdIff`);
- `mpi_write_string` asks for one character too few for some negative hexadecimal numbers
  (`SizeIff`);
- `print_object` allocates one byte too few for an empty formatted object at depth 0
  (`JsonPrinter.SizeIff`);
- `asn1_write_len` drops the high bits of lengths above 65535 (`LengthIff`), and `asn1_write_mpi`
  drops the sign (`MpiRoundTrip`);
- `base64_decode` accepts a CRLF inserted anywhere except behind a carriage return (`LineBreakIff`);
- `CppSQLite3Binary` given text that includes the quote may lack the room to encode again what it
  decoded (`ReencodingIff`, `QuoteCounterexample`);
- `StrPair::GetStr` leaves in place of an unknown entity's ampersand whatever byte the write pointer
  has come to (`UnknownEntityIff`, `UnknownEntityCounterexample`);
- `XMLUtil::GetCharacterRef` computes numbers with factors that wrap around at 32 bits
  (`ReferenceIff`, `HexReferenceIff`, `ReferenceCounterexample`);
- `XMLDocument::Parse` does not read back adjacent text nodes, or text at the end of a document
  (`RoundTripIff`).

A comment in `XMLElement::ParseAttributes` says that a repeated attribute is not detected; the code
does detect it, and so does the model. The comment in front of `sqlite3_encode_binary` has the
offset added on encoding and subtracted on decoding; the code does it the other way round, and so
does the model.

## Model

| member | source | states |
|---|---|---|
| `MpiBase.Mpi.Grow` | third-party/polarssl/library/bignum.c:87-113 | more limbs, the same number: the new ones are zero and the old ones keep their place |
| `MpiBase.Mpi.Copy` | third-party/polarssl/library/bignum.c:118-141 | the number and the sign of Y, with only its significant limbs; copying onto itself changes nothing |
| `MpiBase.Mpi.Swap` | third-party/polarssl/library/bignum.c:146-153 | the two numbers change places |
| `MpiBase.Mpi.Lset` | third-party/polarssl/library/bignum.c:158-171 | the number becomes the signed machine integer |
| `MpiBase.Mpi.Lsb` | third-party/polarssl/library/bignum.c:214-224 | the index of the lowest set bit: all bits below it are clear |
| `MpiBase.Mpi.Msb` | third-party/polarssl/library/bignum.c:229-242 | the bit length of the magnitude |
| `Compare.CmpAbs` | third-party/polarssl/library/bignum.c:649-674 | the sign of the difference of the magnitudes, whatever leading zero limbs either has |
| `Compare.CmpMpi` | third-party/polarssl/library/bignum.c:679-707 | the sign of the difference of the integers; zero and negative zero compare equal |
| `Compare.CmpInt` | third-party/polarssl/library/bignum.c:712-723 | the same against a machine integer |
| `Shift.ShiftL` | third-party/polarssl/library/bignum.c:556-601 | exact multiplication by a power of two, in just enough limbs |
| `Shift.ShiftR` | third-party/polarssl/library/bignum.c:606-644 | division by a power of two, rounded down, for every count |
| `AddSub.AddAbs` | third-party/polarssl/library/bignum.c:728-775 | the sum of the magnitudes under all aliasing except X, A and B being one object, where each limb is doubled without carry; the carry ends inside the grown buffer |
| `AddSub.DoubledIff` | third-party/polarssl/library/bignum.c:757-758 | adding a number to itself in place is right exactly when every limb is below half its range |
| `AddSub.DoubledCounterexample` | third-party/polarssl/library/bignum.c:757-758 | a one-limb number for which the carry is lost |
| `AddSub.SubHlp` | third-party/polarssl/library/bignum.c:780-796 | a subtrahend not above the number is taken away exactly and the borrow ends inside the number |
| `AddSub.SubAbs` | third-party/polarssl/library/bignum.c:801-839 | the difference of the magnitudes under all aliasing, refused without effect exactly when it would be negative |
| `AddSub.AddMpi` | third-party/polarssl/library/bignum.c:844-870 | signed addition equals integer addition under all aliasing but the one case of AddAbs |
| `AddSub.SubMpi` | third-party/polarssl/library/bignum.c:875-901 | signed subtraction equals integer subtraction under all aliasing |
| `AddSub.AddInt` | third-party/polarssl/library/bignum.c:906-917 | addition of a machine integer |
| `AddSub.SubInt` | third-party/polarssl/library/bignum.c:922-933 | subtraction of a machine integer |
| `Multiply.MulAddCore` | third-party/polarssl/include/polarssl/bn_mul.h:820-834 | one step of the inner product fits two limbs: a * b + c + d = r0 + r1 * W |
| `Multiply.MulHlp` | third-party/polarssl/library/bignum.c:938-997 | a shifted multiple is added exactly; limbs below the offset are untouched and the last carry stays inside the buffer |
| `Multiply.MulMpi` | third-party/polarssl/library/bignum.c:1002-1034 | the product of the integers, whichever of the three are one object |
| `Multiply.MulInt` | third-party/polarssl/library/bignum.c:1039-1050 | the product with the multiplier read as unsigned |
| `Multiply.MulIntIff` | third-party/polarssl/library/bignum.c:1046-1049 | that reading gives the signed product exactly when the multiplier is not negative or nothing is multiplied |
| `Divide.DivMpi` | third-party/polarssl/library/bignum.c:1055-1214 | truncated quotient and remainder for every non-zero divisor, either of them absent or both one object; what comes out when the quotient is stored over an operand |
| `Divide.TruncatedDivision` | third-party/polarssl/library/bignum.c:1055-1060 | A = Q * B + R, the remainder smaller than the divisor and of the sign of A |
| `Divide.InPlaceQuotientIff` | third-party/polarssl/library/bignum.c:1192-1196 | a quotient stored over A is right exactly when A is not negative or the quotient is zero |
| `Divide.OverDivisorIff` | third-party/polarssl/library/bignum.c:1192-1196 | a quotient stored over B is right exactly when B is positive or the quotient is zero |
| `Divide.RemainderOverIff` | third-party/polarssl/library/bignum.c:1192-1206 | the remainder beside a quotient stored over A is right exactly when A is zero, or not below B and divisible by it or of its sign |
| `Divide.OverwrittenCounterexample` | third-party/polarssl/library/bignum.c:1192-1206 | 7 by -2 and -7 by 2, where these come out wrong |
| `Divide.Normalise` | third-party/polarssl/library/bignum.c:1083-1093 | both operands scaled by one power of two so that the divisor fills its top limb to a quarter |
| `Divide.FirstDigit` | third-party/polarssl/library/bignum.c:1094-1101 | the first subtract loop runs at most three times and leaves the dividend below the shifted divisor |
| `Divide.OneDigit` | third-party/polarssl/library/bignum.c:1103-1190 | one round settles one more digit: the dividend is the digits so far times the divisor plus a remainder below the next place |
| `Divide.NeverLow` | third-party/polarssl/library/bignum.c:1162-1177 | a digit rejected by the three-limb test is above the true digit |
| `Divide.OneOff` | third-party/polarssl/library/bignum.c:1162-1189 | a digit that passes the test is the true one or one more, so one add-back suffices |
| `Divide.DivInt` | third-party/polarssl/library/bignum.c:1219-1230 | division by a machine integer |
| `Modulo.ModMpi` | third-party/polarssl/library/bignum.c:1235-1253 | the remainder in [0, B) for every A; negative and zero moduli refused without effect |
| `Modulo.ModInt` | third-party/polarssl/library/bignum.c:1258-1310 | the remainder by a machine integer wherever the half-limb method is exact, and what it gives elsewhere |
| `Modulo.RunningIff` | third-party/polarssl/library/bignum.c:1287-1298 | the half-limb method is right for all numbers exactly when the divisor fits half a limb or divides W |
| `Modulo.LostHalf` | third-party/polarssl/library/bignum.c:1287-1298 | for any other divisor the number W is a counterexample |
| `Montgomery.MontgInit` | third-party/polarssl/library/bignum.c:1315-1328 | minus the inverse modulo W of every odd limb, for every limb width |
| `Montgomery.NewtonDoubles` | third-party/polarssl/library/bignum.c:1321-1325 | each step doubles the number of correct low bits |
| `Montgomery.MontRound` | third-party/polarssl/library/bignum.c:1344-1355 | one round keeps the window below N + B inside the buffer and divides exactly by W |
| `Montgomery.MontMul` | third-party/polarssl/library/bignum.c:1333-1365 | r * W^n = A * B modulo N with 0 <= r < N, also when A and B are one object; the dummy subtraction stays inside T |
| `Montgomery.MontRed` | third-party/polarssl/library/bignum.c:1370-1379 | r * W^n = A modulo N with 0 <= r < N |
| `ExpMod.BuildTable` | third-party/polarssl/library/bignum.c:1463-1486 | every entry the scan can use holds its power of A in Montgomery form, for every window size |
| `ExpMod.Scan` | third-party/polarssl/library/bignum.c:1488-1548 | the whole scan over the exponent bits: X is always A to the bits consumed, in Montgomery form, and the window holds the rest |
| `ExpMod.OneBit` | third-party/polarssl/library/bignum.c:1508-1547 | one bit skipped, squared or shifted into the window keeps that invariant |
| `ExpMod.ExpModMpi` | third-party/polarssl/library/bignum.c:1384-1585 | A^E mod N for every A and E and odd N, with or without a cached W^2n mod N, which is left behind for the next call |
| `ExpMod.NegativeBaseIff` | third-party/polarssl/library/bignum.c:1568-1572 | the correction for a negative base is right exactly when the exponent is odd and the power is not a multiple of N |
| `ExpMod.CoprimeNegativeBaseIff` | third-party/polarssl/library/bignum.c:1568-1572 | so for a base coprime to N it is right exactly when the exponent is odd |
| `ExpMod.NegativeBaseCounterexample` | third-party/polarssl/library/bignum.c:1568-1572 | (-2)^2 modulo 5 comes out as 1 |
| `BinaryGcd.GcdMpi` | third-party/polarssl/library/bignum.c:1590-1637 | the greatest common divisor of the magnitudes, common power of two restored, for every B but zero |
| `BinaryGcd.Reduce` | third-party/polarssl/library/bignum.c:1612-1627 | a round keeps the gcd and one operand odd, and lowers the sum |
| `BinaryGcd.GcdIff` | third-party/polarssl/library/bignum.c:1612-1630 | the result for B = 0 is right only when A is zero too |
| `InvMod.Invert` | third-party/polarssl/library/bignum.c:1657-1747 | X * A = 1 modulo N with 0 <= X < N exactly when A and N are coprime; otherwise refused without effect |
| `InvMod.Round` | third-party/polarssl/library/bignum.c:1687-1730 | both combinations of A and N are kept, the operands stay coprime and their sum falls |
| `InvMod.HalveCombination` | third-party/polarssl/library/bignum.c:1689-1701 | every halving is exact |
| `Bytes.ReadBinary` | third-party/polarssl/library/bignum.c:513-531 | the number the big-endian bytes spell, leading zeros or not |
| `Bytes.ByteAbove` | third-party/polarssl/library/bignum.c:513-531 | a byte in front counts for the power of 256 that its place says |
| `Bytes.WriteBinary` | third-party/polarssl/library/bignum.c:536-551 | bytes that spell the magnitude, refused without effect exactly when they are too few |
| `Bytes.RoundTrip` | third-party/polarssl/library/bignum.c:513-551 | writing and reading back gives the magnitude |
| `RadixText.ReadString` | third-party/polarssl/library/bignum.c:272-336 | the number spelled in radix 2 to 16, every malformed text and radix refused |
| `RadixText.DigitCharacters` | third-party/polarssl/library/bignum.c:255-267 | each of the sixteen digits is spelled by its character of 0123456789ABCDEF or 0123456789abcdef, and written as the former |
| `RadixText.OtherCharacters` | third-party/polarssl/library/bignum.c:255-267 | and no other character spells a digit |
| `RadixText.CaseIgnored` | third-party/polarssl/library/bignum.c:255-336 | lower-case letters spell what upper-case ones do |
| `RadixText.FirstPlace` | third-party/polarssl/library/bignum.c:272-336 | a digit in front counts for the power of the radix that its place says |
| `RadixText.WriteString` | third-party/polarssl/library/bignum.c:368-433 | text that spells the number with its sign, the size it takes, and the size asked for when refused |
| `RadixText.RoundTrip` | third-party/polarssl/library/bignum.c:272-433 | reading what was written gives the number back, for every radix |
| `RadixText.SizeIff` | third-party/polarssl/library/bignum.c:378-381 | the size asked for is enough unless a minus sign precedes a hexadecimal number whose top byte has one to three bits |
| `RadixText.SizeCounterexample` | third-party/polarssl/library/bignum.c:378-381 | -1 in radix 16 takes four characters where three are asked for |
| `QuoteFree.Encode` | src/CppSQLite3.cpp:1426-1466 | the text of the first of the cheapest of the 254 offsets, inside any buffer that takes some offset's text |
| `QuoteFree.ChooseOffset` | src/CppSQLite3.cpp:1436-1447 | for non-empty input an offset is always chosen, and it is the first that needs the fewest escapes |
| `QuoteFree.Pigeonhole` | src/CppSQLite3.cpp:1416-1421 | no bound below the costs of all 254 offsets exceeds three escapes in 254 bytes |
| `QuoteFree.DocumentedSize` | src/CppSQLite3.cpp:1416-1421 | 2 + 257 n / 254 bytes are always enough |
| `QuoteFree.EncodedSize` | src/CppSQLite3.cpp:1416-1421 | text and terminator never take more |
| `QuoteFree.EncodedPrintable` | src/CppSQLite3.cpp:1410-1415 | the text contains neither 0x00 nor 0x27 |
| `QuoteFree.EncodedUnique` | src/CppSQLite3.cpp:1426-1466 | the encoding of given data is unique |
| `QuoteFree.PieceOfDistance` | src/CppSQLite3.cpp:1449-1463 | the escapes of the bytes at distance 0, 1 and 39 from the offset, and all others as their distance |
| `QuoteFree.BodyBoth` | src/CppSQLite3.cpp:1426-1466 | the text of data one behind the other is that of the parts |
| `QuoteFree.DecodeInto` | src/CppSQLite3.cpp:1478-1498 | the decoded bytes or -1 on a bad escape, into another buffer or in place without overwriting unread text |
| `QuoteFree.RoundTrip` | src/CppSQLite3.cpp:1468-1477 | decoding an encoding gives the data back |
| `QuoteFree.Canonical` | src/CppSQLite3.cpp:1468-1477 | quote-free text that decodes is the encoding of the result at its own offset |
| `QuoteFree.QuotesSaved` | src/CppSQLite3.cpp:1426-1498 | text that decodes is shorter than the encoding of its data at its own offset by exactly the quotes in it |
| `QuoteFree.ReencodingIff` | src/CppSQLite3.cpp:164-197 | the data can be encoded again in the buffer of the text exactly when some offset saves at least as many escapes as the text has quotes |
| `QuoteFree.ReencodedLength` | src/CppSQLite3.cpp:185-197 | exactly then the new text is no longer than the old one |
| `QuoteFree.ReencodingFits` | src/CppSQLite3.cpp:164-197 | in particular for quote-free text |
| `QuoteFree.QuoteCounterexample` | src/CppSQLite3.cpp:164-197 | a text with the quote as offset for which there is no such offset |
| `BinaryHolder.Binary.AllocBuffer` | src/CppSQLite3.cpp:228-250 | room for the text of whatever the caller stores |
| `BinaryHolder.Binary.SetBinary` | src/CppSQLite3.cpp:157-161 | the holder stands for the bytes given |
| `BinaryHolder.Binary.SetEncoded` | src/CppSQLite3.cpp:164-182 | the holder has the text, and stands for what it decodes to, with room for it, exactly when the data can be encoded again there |
| `BinaryHolder.Binary.GetEncoded` | src/CppSQLite3.cpp:185-197 | the same blob as text, written inside the buffer |
| `BinaryHolder.Binary.GetBinary` | src/CppSQLite3.cpp:200-218 | the same blob as bytes, decoded in place; on malformed text the exact buffer left behind |
| `BinaryHolder.Binary.GetBinaryLength` | src/CppSQLite3.cpp:221-225 | the length of the blob |
| `BinaryHolder.Run` | src/CppSQLite3.cpp:157-225 | any calls in any order keep answering for the same blob in the same buffer |
| `BinaryHolder.SetThenRun` | src/CppSQLite3.cpp:157-225 | after setBinary every later call answers for the bytes that were set |
| `BinaryHolder.SetEncodedThenRun` | src/CppSQLite3.cpp:164-225 | after setEncoded of text that can be encoded again every later call answers for what it decodes to |
| `JsonPrinter.SizeIff` | src/imp/cJSON.c:345-504 | the computed size covers every byte written, except for an empty object printed with formatting at depth 0 |
| `JsonPrinter.PrintStringPtr` | src/imp/cJSON.c:210-243 | the escaped string fills its buffer exactly |
| `JsonPrinter.PrintValue` | src/imp/cJSON.c:299-314 | the printed tree, as a C string, in a buffer of the computed size |
| `JsonPrinter.PrintArray` | src/imp/cJSON.c:345-400 | the two passes over an array: sizes added up, then every byte inside the buffer |
| `JsonPrinter.PrintObject` | src/imp/cJSON.c:439-504 | the same for objects, with tabs and line breaks when formatted |
| `JsonPrinter.PrintNulFree` | src/imp/cJSON.c:210-504 | printed text contains no terminator, so its length is what strlen finds |
| `JsonParser.ParseString` | src/imp/cJSON.c:148-207 | quoted strings and bare words, every escape included, in a buffer sized by a first pass |
| `JsonParser.RoomForChars` | src/imp/cJSON.c:155-157 | the first pass counts at least as many bytes as the second one writes |
| `CodePoints.PutUtf8` | src/imp/cJSON.c:185-194 | the bytes of a code point, written from the last to the first |
| `CodePoints.Utf8Back` | src/imp/cJSON.c:185-194 | they are well-formed UTF-8 for that code point |
| `CodePoints.Utf8Table` | src/imp/cJSON.c:185-194 | which bits of a number go into which byte |
| `JsonParser.ParseNumber` | src/imp/cJSON.c:95-115 | optional sign and digits of a 32-bit integer |
| `JsonParser.ParseValue` | src/imp/cJSON.c:282-296 | the value that stands at the cursor, or where the error pointer is left |
| `JsonParser.ParseArray` | src/imp/cJSON.c:317-342 | the items in order |
| `JsonParser.ParseObject` | src/imp/cJSON.c:403-436 | the named members in order |
| `JsonParser.ParseDocument` | src/imp/cJSON.c:259-275 | one value and, on request, nothing but white space behind it |
| `JsonGrammar.EscapeRead` | src/imp/cJSON.c:175-194 | an escape of four hexadecimal digits in either case gives well-formed bytes for their number, and none for zero and surrogates |
| `JsonGrammar.PairRead` | src/imp/cJSON.c:178-194 | two surrogates give the code point they stand for together |
| `JsonGrammar.StringRead` | src/imp/cJSON.c:148-204 | a string written with any mixture of characters, letters behind a backslash and u escapes |
| `JsonGrammar.BareRead` | src/imp/cJSON.c:148-204 | a bare word is read as a string |
| `JsonGrammar.NumeralRead` | src/imp/cJSON.c:95-114 | a sign, a zero in front and digits spell their decimal number |
| `JsonGrammar.ItemsRead` | src/imp/cJSON.c:317-342 | items with any white space around them, up to the closing bracket or to a character that must not follow |
| `JsonGrammar.FieldsRead` | src/imp/cJSON.c:403-436 | names, colons and values with any white space between them, up to the closing brace or to a character that must not follow |
| `JsonGrammar.ValueRead` | src/imp/cJSON.c:284-297 | every value of the grammar is read as what it means |
| `JsonGrammar.DocumentRead` | src/imp/cJSON.c:259-275 | and so is a document, with white space around it |
| `JsonGrammar.NoValue` | src/imp/cJSON.c:284-297 | where no value can start the error pointer is left there |
| `JsonGrammar.ListUnended` | src/imp/cJSON.c:317-342 | an array without comma or closing bracket fails where one of them should stand |
| `JsonGrammar.RecordUnended` | src/imp/cJSON.c:403-436 | so does an object |
| `JsonGrammar.NoColon` | src/imp/cJSON.c:417-419 | and a member without colon |
| `JsonGrammar.TrailingText` | src/imp/cJSON.c:266-272 | text behind the value is refused on request, at its first character |
| `JsonRoundTrip.RoundTrip` | src/imp/cJSON.c:256-504 | parsing a printed tree gives the tree, formatted or not, at any depth |
| `JsonRoundTrip.PrintInjective` | src/imp/cJSON.c:299-504 | different trees never print alike, in whatever format |
| `JsonRoundTrip.PrintedValue` | src/imp/cJSON.c:206-243 | a printed tree is a text of the grammar that means the tree |
| `JsonRoundTrip.ShortEscapes` | src/imp/cJSON.c:212-238 | the characters that are printed with a letter behind a backslash |
| `JsonRoundTrip.NewLineText` | src/imp/cJSON.c:362-504 | a line feed and one tab for every level |
| `JsonRoundTrip.PrintAndParse` | src/imp/cJSON.c:259-314 | the printer and the parser run one after the other |
| `XmlText.DecodeInPlace` | src/tinyxml2.cpp:186-252 | the two-pointer loop leaves the decoded text and never overtakes unread text |
| `XmlText.StrPair.GetStr` | src/tinyxml2.cpp:178-260 | the piece decoded once, written only inside itself and the byte behind it; later calls change nothing |
| `XmlText.ReadInAnyOrder` | src/tinyxml2.cpp:178-260 | pieces that are apart can be read in any order and any number of times |
| `XmlText.EntityDecoded` | src/tinyxml2.cpp:74-80 | wherever one of the five entities of XML 1.0 stands, its character is written and just the entity read |
| `XmlText.NoOtherEntity` | src/tinyxml2.cpp:222-239 | any other ampersand that starts no numeric reference is unknown |
| `XmlText.EntitiesWritten` | src/tinyxml2.cpp:1799-1834 | the five characters are written as their entities, the quotes only in attributes, and every other byte as itself |
| `CharRef.GetCharacterRef` | src/tinyxml2.cpp:330-405 | where a numeric reference ends and the bytes it gives, or the null pointer exactly when it is malformed |
| `CharRef.ReadDigits` | src/tinyxml2.cpp:354-398 | the digits read backwards, with the wrap-around of the weights and products |
| `CharRef.DigitIff` | src/tinyxml2.cpp:357-392 | digits are those of the base, letters in either case |
| `CharRef.ConvertUtf32` | src/tinyxml2.cpp:282-327 | the UTF-8 bytes of a number below 2^21, and none for a larger one |
| `CharRef.WrappedExact` | src/tinyxml2.cpp:354-398 | numbers below 2^32 are computed exactly |
| `CharRef.HexWrapped` | src/tinyxml2.cpp:354-371 | of a hexadecimal number the rest modulo 2^32 is taken |
| `CharRef.ReferenceIff` | src/tinyxml2.cpp:330-405 | a reference gives the bytes of its number exactly when that is below 2^32, or its rest modulo 2^32 is no code point of 21 bits, or a digit in front of the last seven contributes no multiple of 2^32 |
| `CharRef.HexReferenceIff` | src/tinyxml2.cpp:354-371 | for a hexadecimal number exactly when it is below 2^32 or its rest is too large |
| `CharRef.WrappedCases` | src/tinyxml2.cpp:354-398 | what is computed is the rest of the number modulo 2^32, or at least 2^21 |
| `CharRef.OneInFront` | src/tinyxml2.cpp:354-398 | a one far enough in front of any number below 2^32 changes nothing but the number |
| `CharRef.ReferenceCounterexample` | src/tinyxml2.cpp:354-398 | 0x100000041 and 10^32 + 65 both come out as the letter A |
| `CharRef.ReferenceRead` | src/tinyxml2.cpp:330-405 | a written reference is found with its digits, whatever follows |
| `XmlText.ReferencesBack` | src/tinyxml2.cpp:216-225 | references to numbers below 2^32, decimal or hexadecimal, are decoded to the UTF-8 bytes of the numbers |
| `XmlText.NothingMalformed` | src/tinyxml2.cpp:216-225 | text without a reference never meets the null pointer |
| `XmlText.DecodeEscaped` | src/tinyxml2.cpp:178-260 | decoding is the identity on printed text without NUL and CR, with either set of entities |
| `XmlText.UnknownEntityIff` | src/tinyxml2.cpp:222-239 | every unknown entity is kept exactly when, for each that is read, the bytes written before it number the place of an ampersand in the text |
| `XmlText.UnknownEntitiesKept` | src/tinyxml2.cpp:222-239 | in particular where no ampersand starts a known entity or a reference |
| `XmlText.UnknownEntityCounterexample` | src/tinyxml2.cpp:222-239 | a text in which an unknown entity behind a known one is not kept |
| `XmlText.NoReturnLeft` | src/tinyxml2.cpp:191-212 | where unknown entities are kept, no carriage return is left but those that references ask for |
| `XmlText.BreaksUnified` | src/tinyxml2.cpp:191-212 | CRLF, LFCR, CR and LF each become one line feed, and the lines between them are unescaped |
| `XmlText.RawBreaksUnified` | src/tinyxml2.cpp:191-212 | the same where entities are left alone |
| `XmlPrinter.Printer.PrintString` | src/tinyxml2.cpp:1799-1834 | the escaped string, printed run by run |
| `XmlPrinter.Printer.OpenElement` | src/tinyxml2.cpp:1849-1865 | the tag before it sealed, the name pushed and printed |
| `XmlPrinter.Printer.CloseElement` | src/tinyxml2.cpp:1909-1932 | an empty tag or the closing tag of the innermost open element |
| `XmlPrinter.NewLineText` | src/tinyxml2.cpp:1791-1796 | a line feed and four blanks for every level |
| `XmlPrinter.Printer.PushText` | src/tinyxml2.cpp:1942-1957 | text or CDATA behind the sealed tag |
| `XmlPrinter.Printer.AcceptDocument` | src/tinyxml2.cpp:565-575 | in compact mode the byte order mark if there is one and the text of all nodes |
| `XmlPrinter.Printer.Accept` | src/tinyxml2.cpp:1472-1482 | in compact mode a node adds exactly its text and leaves stack and depth as they were |
| `XmlParser.ParseText` | src/tinyxml2.cpp:111-128 | the first occurrence of the end tag, or none |
| `XmlParser.ParseName` | src/tinyxml2.cpp:131-148 | the longest name at the cursor |
| `XmlParser.ParseAttribute` | src/tinyxml2.cpp:1042-1065 | name, equals sign and quoted value, as two pieces of the buffer in this order |
| `XmlParser.ParseAttributes` | src/tinyxml2.cpp:1341-1395 | attributes in order up to the end of the tag, a repeated name refused; names are ended in place behind the cursor |
| `XmlParser.ParseElement` | src/tinyxml2.cpp:1402-1430 | an element, or the closing tag that belongs one level up; its pieces lie in text order behind the start and in front of the cursor |
| `XmlParser.CompareNames` | src/tinyxml2.cpp:820-829 | end tag and element name are ended in place and compared, and no other piece is disturbed |
| `XmlParser.ParseLevel` | src/tinyxml2.cpp:772-848 | siblings in order until a closing tag, which is handed to the element that opened the level, the end, or an error; every piece found still shows the text that stood there |
| `XmlParser.Parse` | src/tinyxml2.cpp:1664-1688 | the nodes of the document and its error; the pieces of all nodes lie apart in one buffer, in text order |
| `XmlPieces.NodeRead` | src/tinyxml2.cpp:178-260 | reading the pieces of a node as it is found gives the strings of the node as it is seen |
| `XmlPieces.SameNode` | src/tinyxml2.cpp:772-848 | the pieces and what they read as determine the tree |
| `XmlGrammar.AttributeRead` | src/tinyxml2.cpp:1042-1065 | a name, any white space around the equals sign and a value in either kind of quotes are read as name and value, up to the closing quote |
| `XmlGrammar.AttributeIff` | src/tinyxml2.cpp:1042-1065 | and nothing else is taken for an attribute |
| `XmlGrammar.TagRead` | src/tinyxml2.cpp:1341-1395 | attributes with any white space between them are read in order |
| `XmlGrammar.RepeatedName` | src/tinyxml2.cpp:1352-1362 | a name that was there before is refused |
| `XmlGrammar.BadAttribute` | src/tinyxml2.cpp:1352-1362 | what starts like a name but is no attribute is refused |
| `XmlGrammar.ValuedRead` | src/tinyxml2.cpp:111-128 | comments, declarations, CDATA and unknown nodes reach to the first place of their end |
| `XmlGrammar.Unended` | src/tinyxml2.cpp:111-128 | one without its end is an error of its own kind |
| `XmlGrammar.ItemRead` | src/tinyxml2.cpp:772-848 | every node of the grammar, however it is spaced and quoted, is read as what it means, and the parser goes on behind it |
| `XmlGrammar.ContentRead` | src/tinyxml2.cpp:797-805 | the children are read and their closing tag is handed up with its name |
| `XmlGrammar.DocumentRead` | src/tinyxml2.cpp:1664-1688 | and so is every document of the grammar |
| `XmlGrammar.EmptyDocuments` | src/tinyxml2.cpp:1664-1688 | white space, with or without a byte order mark behind it, is an empty document |
| `XmlGrammar.Mismatched` | src/tinyxml2.cpp:806-829 | a closing tag with another name is refused |
| `XmlGrammar.Unclosed` | src/tinyxml2.cpp:806-829 | so is an element that the document leaves open |
| `XmlGrammar.StringsInterpreted` | src/tinyxml2.cpp:178-260 | line breaks are unified in all strings, entities replaced in text and attribute values only |
| `XmlRoundTrip.PrintedItem` | src/tinyxml2.cpp:1472-1482 | a printed node is a text of the grammar, without white space but one blank in front of every attribute |
| `XmlRoundTrip.NodeBack` | src/tinyxml2.cpp:772-848 | a printed node is read back and the parser goes on behind it |
| `XmlRoundTrip.InterpretedRaw` | src/tinyxml2.cpp:178-260 | reading the strings of a printed tree gives the tree |
| `XmlRoundTrip.RoundTrip` | src/tinyxml2.cpp:490-1430 | every legal document whose last node is not plain text is found as it was printed and read back as it was |
| `XmlRoundTrip.RoundTripIff` | src/tinyxml2.cpp:772-875 | legal nodes are read back exactly when there are some, no two plain texts are side by side and the last is not plain text |
| `XmlRoundTrip.LevelSeparated` | src/tinyxml2.cpp:772-848 | the parser never makes two nodes of adjacent text |
| `XmlRoundTrip.RootRoundTrip` | src/tinyxml2.cpp:772-848 | in particular every legal root element |
| `XmlRoundTrip.PrintParseRead` | src/tinyxml2.cpp:178-1688 | a printed document is parsed into pieces of a buffer which, read in any order and any number of times, give its strings |
| `Pool.MemPool.Alloc` | include/tinyxml2.h:314-336 | a chunk not in use; a new block exactly when all chunks are |
| `Pool.MemPool.Free` | include/tinyxml2.h:337-348 | the chunk goes to the front of the free list |
| `Pool.MemPool.Use` | include/tinyxml2.h:374-377 | whatever the user writes into a live chunk, the free list is intact |
| `Pool.MemPool.SetTracked` | include/tinyxml2.h:354-356 | one chunk fewer counted as untracked |
| `Pool.PeakReached` | include/tinyxml2.h:329-332 | the peak bounds the number of chunks held at every point of a run and is reached at one |
| `Pool.Run` | include/tinyxml2.h:295-388 | after any run the chunks held are distinct and none is free, live and free fill the blocks, and the blocks are exactly as many as the largest number of chunks held at once needs |
| `Der.WriteLen` | third-party/polarssl/library/asn1write.c:32-63 | the length octets in front of the cursor, or failure for want of room without effect |
| `Der.WriteMpi` | third-party/polarssl/library/asn1write.c:75-106 | tag, length and contents of the number, never below start; fails exactly when they do not fit |
| `Der.ContentsValue` | third-party/polarssl/library/asn1write.c:92-100 | the contents spell the number; those of a positive one read as non-negative and are as short as can be |
| `Der.WriteNull` | third-party/polarssl/library/asn1write.c:108-119 | the two octets of a null |
| `Der.WriteOid` | third-party/polarssl/library/asn1write.c:121-140 | tag, length and octets of the identifier |
| `Der.WriteAlgorithmIdentifier` | third-party/polarssl/library/asn1write.c:142-164 | a sequence of identifier and null, or failure exactly when it does not fit |
| `Der.LengthIff` | third-party/polarssl/library/asn1parse.c:43-97 | written length octets are read back exactly up to 65535 |
| `Der.LongLength` | third-party/polarssl/library/asn1parse.c:43-97 | one to four length octets behind their number are found, or refused where they claim more than there is |
| `Der.ShortLength` | third-party/polarssl/library/asn1parse.c:43-97 | a length below 128 is its own octet; other forms and what is cut off are refused |
| `Der.TlvBack` | third-party/polarssl/library/asn1parse.c:99-112 | what was written is found again: its contents and nothing more |
| `Der.TlvOctets` | third-party/polarssl/library/asn1write.c:32-73 | tags and length octets as ITU-T X.690 has them |
| `Der.AlgorithmBack` | third-party/polarssl/library/asn1write.c:142-164 | a written algorithm identifier reads as identifier and null with no octets left |
| `Der.GetMpi` | third-party/polarssl/library/asn1parse.c:158-171 | the number the contents spell, with the cursor behind them |
| `Der.MpiRoundTrip` | third-party/polarssl/library/asn1parse.c:158-171 | a written number reads back as its magnitude, so as itself exactly when it is not negative |
| `Der.GetSequenceOf` | third-party/polarssl/library/asn1parse.c:210-258 | entries that tile the contents, or the first failure |
| `Der.TilesIff` | third-party/polarssl/library/asn1parse.c:230-252 | reading finds a tiling exactly when there is one, and there is only one |
| `Der.ElementsBack` | third-party/polarssl/library/asn1parse.c:210-258 | the entries of written elements are their contents, in order |
| `Blowfish.Encipher` | third-party/polarssl/library/blowfish.c:91-118 | the sixteen rounds and the last subkeys |
| `Blowfish.Decipher` | third-party/polarssl/library/blowfish.c:120-147 | the same network with the subkeys reversed |
| `Blowfish.FValue` | third-party/polarssl/library/blowfish.c:70-89 | F sends the bytes of a word, from the top, through the four boxes in order |
| `Blowfish.OneBox` | third-party/polarssl/library/blowfish.c:70-89 | so with three boxes empty it is the entry of the remaining one |
| `Blowfish.TraceEnciphered` | third-party/polarssl/library/blowfish.c:91-118 | halves that follow one another as the network says end as those enciphered |
| `Blowfish.NoBoxes` | third-party/polarssl/library/blowfish.c:91-118 | without boxes the even subkeys go into the right half and the odd ones into the left |
| `Blowfish.WordIs` | third-party/polarssl/library/blowfish.c:37-58 | words are read from the highest byte to the lowest |
| `Blowfish.EcbIs` | third-party/polarssl/library/blowfish.c:209-231 | a block is its left half and its right half, in both directions |
| `Blowfish.FeistelBack` | third-party/polarssl/library/blowfish.c:91-147 | for every context deciphering undoes enciphering |
| `Blowfish.CryptEcb` | third-party/polarssl/library/blowfish.c:209-231 | one block of bytes |
| `Blowfish.EcbBack` | third-party/polarssl/library/blowfish.c:209-231 | either direction undoes the other on blocks |
| `CipherModes.CryptCbc` | third-party/polarssl/library/blowfish.c:237-284 | chained blocks, in place or not, with the chaining block for the next call |
| `CipherModes.CbcBack` | third-party/polarssl/library/blowfish.c:237-284 | CBC decryption inverts CBC encryption on every whole number of blocks |
| `CipherModes.CbcBlock` | third-party/polarssl/library/blowfish.c:263-279 | every ciphertext block is the encryption of its block combined with the ciphertext block in front of it |
| `CipherModes.CbcDecryptBlock` | third-party/polarssl/library/blowfish.c:246-262 | every block is its ciphertext block deciphered and combined with the one in front of it |
| `CipherModes.XorBlockBytes` | third-party/polarssl/library/blowfish.c:246-279 | combined by exclusive or of the bytes |
| `CipherModes.CbcSplit` | third-party/polarssl/library/blowfish.c:237-284 | encryption calls split between blocks equal one call |
| `CipherModes.CbcDecryptSplit` | third-party/polarssl/library/blowfish.c:237-284 | so do decryption calls |
| `CipherModes.CryptCfb64` | third-party/polarssl/library/blowfish.c:290-332 | cipher feedback from any offset, in place or not, with the state it leaves |
| `CipherModes.CfbSplit` | third-party/polarssl/library/blowfish.c:290-332 | calls split at any point equal one call |
| `CipherModes.CfbBack` | third-party/polarssl/library/blowfish.c:290-332 | decryption inverts encryption and leaves the same state |
| `CipherModes.CfbStream` | third-party/polarssl/library/blowfish.c:290-332 | byte k is combined with byte k mod 8 of the encryption of the ciphertext block in front of its own |
| `CipherModes.CryptCtr` | third-party/polarssl/library/blowfish.c:338-367 | counter mode from any offset, in place or not, with the state it leaves |
| `CipherModes.CtrSplit` | third-party/polarssl/library/blowfish.c:338-367 | calls split at any point equal one call |
| `CipherModes.CtrBack` | third-party/polarssl/library/blowfish.c:338-367 | the same call again gives the input back |
| `CipherModes.KeyStream` | third-party/polarssl/library/blowfish.c:338-367 | byte k is combined with the encryption of the counter plus k / 8 |
| `CipherModes.PlusValue` | third-party/polarssl/library/blowfish.c:353-355 | and that addition is modulo the width of the counter |
| `CipherModes.CounterWidth` | third-party/polarssl/library/blowfish.c:353-355 | which is 2^64 |
| `CipherModes.CounterValue` | third-party/polarssl/library/blowfish.c:353-355 | and its bytes are read from the highest to the lowest |
| `Base64.Encode` | third-party/polarssl/library/base64.c:70-128 | 4 letters for every 3 bytes begun and a terminator; refused with the size needed |
| `Base64.Decode` | third-party/polarssl/library/base64.c:133-192 | the bytes of accepted text, never more than the size reported; every other text refused without effect |
| `Base64.Check` | third-party/polarssl/library/base64.c:141-161 | accepted are known letters followed by at most two paddings, line breaks aside |
| `Base64.AlphabetLetter` | third-party/polarssl/library/base64.c:39-48 | the alphabet of RFC 4648 |
| `Base64.AlphabetDigit` | third-party/polarssl/library/base64.c:50-65 | letters stand for their place in it, and nothing else but the padding is accepted |
| `Base64.FourLetters` | third-party/polarssl/library/base64.c:89-103 | three bytes are the four letters of their 24 bits |
| `Base64.EncodedParts` | third-party/polarssl/library/base64.c:105-121 | one or two bytes left over are padded |
| `Base64.GroupDecoded` | third-party/polarssl/library/base64.c:165-187 | four letters, the last perhaps paddings, are the bytes that their bits fill |
| `Base64.RoundTrip` | third-party/polarssl/library/base64.c:70-192 | encoded text is accepted and decodes to what it was made from |
| `Base64.LineFeedInserted` | third-party/polarssl/library/base64.c:143-149 | a line feed inserted anywhere in accepted text changes nothing |
| `Base64.LineBreakIff` | third-party/polarssl/library/base64.c:143-149 | a CRLF inserted changes nothing exactly when it does not stand behind a carriage return |

## Left out

- Memory: failing allocation and `POLARSSL_MPI_MAX_LIMBS`; growing always succeeds. Limbs live in a
  sequence field, so reallocation and sharing of limb storage are not visible. Sizes and indices are
  unbounded, so an overflowing `int` length is not modelled.
- `bignum.c`: the quotient estimate without a double-length type, primality and prime generation,
  file input and output, `mpi_get_bit` and `mpi_set_bit`. Of the
  multiply-and-add macro the double-length form is modelled, not the assembly and half-limb ones.
- InvMod.Invert: N = 1 is excluded, because the source then halves zero forever.
- Modulo.ModMpi: R and B must not be one object, because the source then never ends.
- ExpMod.ExpModMpi: X must be neither E nor N, and a cached helper must belong to the same N, as the
  source documents.
- RadixText.WriteString: the caller must have the room that `SizeIff` says may be missing.
- QuoteFree.DecodeInto: the text must have an offset byte in front of its terminator; on an empty
  text the source reads behind it.
- BinaryHolder: the holder must have a buffer before it is asked for text or bytes, and a caller must
  not pass it its own buffer, which it frees first.
- BinaryHolder.Binary.GetEncoded: the blob must fit the buffer as text, which `ReencodingIff` decides
  for a blob that came as text; otherwise the source writes behind the buffer.
- SQLite access itself, and every other class of `CppSQLite3.cpp`: thin wrappers.
- JsonParser.ParseNumber: fractions, exponents and integers beyond 32 bits end in `Outside`, because
  they need floating point.
- JsonParser.ParseString: a u escape without four hexadecimal digits ends in `Outside`. The source
  scans it with the format `%4x`, which also takes white space, a sign, a prefix 0x or fewer digits and
  leaves the value unset when it finds none, and goes on four characters later, if need be behind the
  quote or the terminator. So does a backslash at the end of the text, behind which the source reads.
- JsonParser.ParseValue: inherits both.
- JSON: references, hooks, and the functions that edit a tree. A node's children are a sequence
  rather than a linked list.
- JsonPrinter.PrintObject: an empty object with formatting at depth 0 is excluded, as `SizeIff` says.
- JsonRoundTrip.PrintAndParse: excludes it too.
- JsonPrinter.PrintValue: an empty object with formatting at depth 0 is excluded, as `SizeIff` says.
- XmlText.StrPair.GetStr: text in which a malformed numeric reference is come across (`Readable` says
  when) is excluded, because the source then goes on from a null pointer.
- XmlText.DecodeInPlace: excludes it too.
- XmlText.UnknownEntityIff: for such text it speaks of the model only.
- CharRef.GetCharacterRef: `unsigned long` is taken to have 64 bits.
- XML: whitespace collapsing, entities left alone on request, reading a file, numeric attributes, and
  editing the tree. Nodes are values that hold pieces of the buffer, so the links between them and
  their pools are not modelled. Strings that are read only to report an error are not read.
- XmlGrammar.ItemRead: closing tags that hold attributes, which the parser takes, are not in the grammar.
- JsonGrammar.ValueRead: bare words that hold backslashes or end at a quote, and empty names, are not in
  the grammar.
- XmlPrinter.Printer.Accept: states the text in compact mode and with entities only; the parts it is
  made of are stated for both modes.
- XmlPrinter.Printer.AcceptDocument: the same.
- `DynArray`: easy.
- ASN.1: booleans, small integers, bit strings and the string writers, which repeat what is here.
- Der.MpiRoundTrip: for zero there must be an octet behind the place written to, because the source
  looks at it.
- Der.LengthIff: lengths are read as by a machine with a 64-bit `size_t`, where four length octets from
  2^31 on are sign-extended.
- Der.WriteMpi: the magnitude is written to a buffer of its own and copied, where the source writes
  it in place.
- Blowfish: the key schedule; every statement holds for all subkeys and boxes.
- AES and the other ciphers, hashes, certificates and entropy sources of the library; the network
  code and the string helpers of the repository.
