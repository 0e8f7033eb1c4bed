# Arithmetic, cipher plumbing and client protocol: a verified model

This project models, in Dafny, the parts of an IoT device client in which a wrong carry, index or state would do the
most harm, and proves what those parts are for. `dafny verify dfyconfig.toml` verifies it.

- **Multi-precision integers.** The class `MpiCore.Mpi` has a sign and a limb buffer that the routines rewrite in place,
  with aliasing as in the C code. Every routine is proved against the number it stands for: addition, subtraction,
  multiplication, shifts, long division, reduction, Montgomery multiplication, sliding-window exponentiation, binary
  gcd, modular inverse, and text and binary conversion.
- **Cipher modes and streaming.** AES is an abstract permutation of 16-byte blocks with its inverse. CBC, XTS with
  ciphertext stealing, CTR, OFB, CFB128 and CFB8 work on byte arrays and are proved against their standards'
  definitions; the cipher layer's update and finish are proved to give one-shot CBC of the padded message for every way
  of cutting the input. SHA-256, HMAC and Base64 are treated in the same way. CBC,
  XTS, SHA-256 and HMAC are also tied to the equations of their standards, block by block and bit by bit, and the
  constants of SHA-256 to the roots of the primes they come from.
- **The MQTT client.** Length fields, PUBLISH packets, topic filters, the intrusive ring of unacknowledged packets, and
  the QoS 1 retransmission protocol as a state machine. Over every run its list is what the events leave outstanding.
- **JSON helpers and the IDE lease.** An escaper and a scanner that agree, array items, and the timed ownership of the
  device by one IDE.

Where a routine does not do what its documentation or the standard says, the model follows the code. It is then proved
exactly when the result is right, and for what input it is not:

- `mbedtls_mpi_gcd` gives 0 when B is 0 (`MpiGcd.GreatestCommonDivisor`).
- `mbedtls_mpi_exp_mod` gives N instead of 0 when the sign flag of A is set, which it may be on a zero, the exponent is
  odd and N divides the power; whether it does is decided by dividing out common factors (`MpiExp.ExpMod`,
  `MpiExp.ExpModExact`, `MpiExp.PowerMultiple`, `MpiExp.ExpModFails`).
- `mbedtls_mpi_div_mpi` reads the signs of A and B after Q has been written in the place of one of them
  (`MpiDivide.Divide`, `MpiDivide.StoredQuotient`, `MpiDivide.StoredRemainder`, `MpiDivide.AliasedFails`).
- `mbedtls_mpi_mod_int` loses bits for divisors above 2^32 that do not divide 2^64 (`MpiDivide.ModIntExact`,
  `MpiDivide.ModIntFails`).
- XTS in place with leftover bytes overwrites them before it reads them (`AesXts.OverwrittenIsXts`,
  `AesXts.OverwrittenFails`).
- Zero padding gives the message back exactly when it is made of whole blocks or ends in a byte other than zero
  (`CipherStream.ZerosRoundTrip`, `CipherStream.ZerosFail`).
- The topic matcher does not let a wildcard match an empty last level (`MqttTopic.PassesByLevels`,
  `MqttTopic.EmptyLastLevelFails`).
- The list of unacknowledged packets holds up to its limit and two more (`MqttRetransmit.ScanMeaning`,
  `MqttRetransmit.BoundReached`).
- HMAC does nothing for a key of more than 64 bytes (`Sha256Stream.HmacBuffer`).
- A write of which the network takes only a part leaves the connection open, and the packets after it are misread
  (`MqttRetransmit.WireFramed`, `MqttNetwork.ShortWriteMisframes`).
- An escape of four hexadecimal digits in a JSON string is copied as five characters (`Json.UnescapeMeaning`,
  `Json.UnescapeFails`), and control characters other than line feed, carriage return and tab are not escaped
  (`Json.EscapeIsStringText`).
- A blank piece between the commas of a JSON array is extracted as an item but not counted (`JsonArray.PiecesAgree`,
  `JsonArray.SizeIsItems`, `JsonArray.SizeFails`).
- IDE clients whose names agree in their first 127 characters are one client (`IdeLease.NamesCollide`,
  `IdeLease.NamesFail`).

## Model

| member | source | states |
|---|---|---|
| `MpiAddSub.AddAbs` | external/mbedtls/library/bignum.c:899-950 | the limb loop and its carry propagation give the exact sum of the absolute values for every aliasing of X, A and B |
| `MpiAddSub.SubAbs` | external/mbedtls/library/bignum.c:955-1014 | exact difference of the absolute values for every aliasing; fails, changing nothing, exactly when it would be negative; the borrow loop stays inside the buffer |
| `MpiAddSub.Add` | external/mbedtls/library/bignum.c:1019-1045 | exact signed sum for every aliasing |
| `MpiAddSub.Sub` | external/mbedtls/library/bignum.c:1050-1076 | exact signed difference for every aliasing |
| `MpiMul.MulAddWide` | external/mbedtls/include/mbedtls/bn_mul.h:849-860 | one multiply-accumulate step loses nothing: new limb and carry together are s*b + d + c |
| `MpiMul.MulAddHalves` | external/mbedtls/include/mbedtls/bn_mul.h:866-885 | the step built from half-limb products refines the same equation |
| `MpiMul.MulHelper` | external/mbedtls/library/bignum.c:1113-1178 | adds s*b to the limbs from an offset on and touches nothing below it; the closing carry loop ends inside the buffer |
| `MpiMul.Mul` | external/mbedtls/library/bignum.c:1183-1215 | exact signed product for every aliasing |
| `MpiShift.ShiftLeft` | external/mbedtls/library/bignum.c:727-772 | multiplies by the power of two, with the buffer grown exactly as far as the bit length needs |
| `MpiShift.ShiftRight` | external/mbedtls/library/bignum.c:777-815 | divides the absolute value by the power of two, and resets the sign only of a zero |
| `LimbDivide.DivideWide` | external/mbedtls/library/bignum.c:1237-1270 | floor quotient and remainder of two limbs by one when the quotient fits, all ones when it does not |
| `LimbDivide.DivideHalves` | external/mbedtls/library/bignum.c:1271-1327 | the half-limb form with its corrected digit estimates gives the same quotient and remainder |
| `MpiDivide.EstimateDigit` | external/mbedtls/library/bignum.c:1380-1405 | after the 3-by-2 correction the digit estimate is never too small and at most one too large |
| `MpiDivide.SubtractTopDigit` | external/mbedtls/library/bignum.c:1373-1377 | the top digit is found by at most three subtractions, which leave the remainder below the divisor |
| `MpiDivide.Divide` | external/mbedtls/library/bignum.c:1332-1442 | quotient and remainder truncating towards zero, also with R in the place of A or B; with Q there, what is stored and the exact condition for it to be right; fails exactly for B = 0 and then writes nothing |
| `MpiDivide.TruncUnique` | external/mbedtls/library/bignum.c:1329-1331 | the pair it computes is the only one with A = Q*B + R, R smaller than B, and R zero or of A's sign |
| `MpiDivide.StoredQuotient` | external/mbedtls/library/bignum.c:1420-1424 | the stored quotient is right with Q in the place of one operand if and only if that operand is positive (for A: not negative) or A is smaller than B, and always when Q, A and B are one object |
| `MpiDivide.StoredRemainder` | external/mbedtls/library/bignum.c:1426-1434 | with Q in the place of A the remainder is right exactly when it is zero or A and B have one sign, and below the divisor only for A = 0 |
| `MpiDivide.AliasedFails` | external/mbedtls/library/bignum.c:1420-1434 | -7 by 2 onto A stores 3 and 1, and 7 by -2 onto B stores 3 |
| `MpiDivide.Mod` | external/mbedtls/library/bignum.c:1463-1481 | the residue in [0, B) of a number of either sign, R not being a positive B; the error cases leave R alone |
| `MpiDivide.ModInt` | external/mbedtls/library/bignum.c:1486-1538 | the residue by half-limb steps as the code computes it, and the true residue for every exact divisor |
| `MpiDivide.ModIntExact` | external/mbedtls/library/bignum.c:1515-1527 | the steps are right for all numbers if and only if the divisor is at most 2^32 or divides 2^64 |
| `MpiDivide.ModIntFails` | external/mbedtls/library/bignum.c:1515-1527 | 2^96 modulo 2^32 + 1 is 2^32, the steps give 0 |
| `MpiMontgomery.MontgomeryInit` | external/mbedtls/library/bignum.c:1543-1555 | Newton lifting from four correct bits gives the negated inverse of an odd limb |
| `MpiMontgomery.MontgomeryMul` | external/mbedtls/library/bignum.c:1560-1598 | the result is below N and its product with R is A*B modulo N, with all carries inside the scratch buffer |
| `MpiExp.Windows` | external/mbedtls/library/bignum.c:1721-1783 | the window loop keeps the accumulator at the power of the bits consumed, and the pending bits make up the rest of E |
| `MpiExp.ExpMod` | external/mbedtls/library/bignum.c:1617-1820 | sliding-window exponentiation gives \|A\|^E mod N corrected by the sign flag of A, with and without a cached R^2; it is A^E mod N if and only if the flag is not set, E is even or N does not divide the power; fails exactly for N not positive or even and for negative E |
| `MpiExp.ExpModExact` | external/mbedtls/library/bignum.c:1803-1807 | the corrected residue is that of A^E unless the flag is set, E odd and N divides \|A\|^E, and then it is N, also for a zero whose flag is set |
| `MpiExp.PowerMultiple` | external/mbedtls/library/bignum.c:1803-1807 | N divides A^E if and only if dividing out of N what it shares with A, E times, leaves 1 |
| `MpiExp.ExpModRight` | external/mbedtls/library/bignum.c:1803-1807 | it is A^E mod N whenever the flag is not set, E is even, or A is coprime to N > 1 |
| `MpiExp.ExpModFails` | external/mbedtls/library/bignum.c:1803-1807 | for -3 to the third modulo 9 the code gives 9, and for a negative zero to the first modulo 3 it gives 3 |
| `MpiGcd.GreatestCommonDivisor` | external/mbedtls/library/bignum.c:1825-1872 | binary gcd ends and gives the greatest common divisor of the absolute values under any aliasing, and 0 when B is 0 |
| `MpiInverse.HalveRow` | external/mbedtls/library/bignum.c:1934-1960 | halving a row keeps T = C1*TA + C2*TB with every halving exact |
| `MpiInverse.InverseMod` | external/mbedtls/library/bignum.c:1902-1992 | succeeds exactly for N > 1 coprime to A, and then X is the inverse in [0, N), also when X is A or N |
| `MpiText.ReadBinary` | external/mbedtls/library/bignum.c:680-702 | the number of the big-endian bytes, in as few limbs as they need |
| `MpiText.WriteBinary` | external/mbedtls/library/bignum.c:707-722 | the buffer's big-endian number becomes \|X\|; fails, writing nothing, exactly when it does not fit |
| `MpiString.ReadString` | external/mbedtls/library/bignum.c:432-499 | accepts exactly the well-formed texts of the radix and gives the number they denote, for radix 2 to 16 |
| `MpiString.WriteString` | external/mbedtls/library/bignum.c:531-602 | writes the text of X and a terminator inside the computed room, or reports the room needed and writes nothing; a number without limbs gives no digits in radix 16 |
| `MpiString.TextDenotes` | external/mbedtls/library/bignum.c:432-602 | what is written for a number is well formed and denotes that number, in every radix |
| `MpiString.ShownDenotes` | external/mbedtls/library/bignum.c:432-602 | so it is for a number without limbs |
| `MpiString.RoomSuffices` | external/mbedtls/library/bignum.c:531-556 | the room computed from the bit length is enough for sign, digits and terminator |
| `MpiString.DigitTable` | external/mbedtls/library/bignum.c:415-427 | the sixteen digits, read in both cases and written in upper case; no other character is a digit |
| `MpiString.TextShortest` | external/mbedtls/library/bignum.c:531-602 | a written number has a minus sign only if its sign is -1 and no leading zero, in radix 16 no leading zero byte |
| `AesCbc.CryptCbc` | external/mbedtls/library/aes.c:1010-1069 | the loop computes CBC and carries the last ciphertext block on, also in place |
| `AesCbc.CbcSplit` | external/mbedtls/library/aes.c:1010-1069 | a call that continues from the carried block continues the message |
| `AesCbc.CbcInverse` | external/mbedtls/library/aes.c:1010-1069 | decryption undoes encryption |
| `CipherStandard.CbcEncryptBlock` | external/mbedtls/library/aes.c:1044-1062 | ciphertext block j is the encryption of plaintext block j with ciphertext block j - 1, or the vector, added bit by bit |
| `CipherStandard.CbcDecryptBlock` | external/mbedtls/library/aes.c:1027-1042 | plaintext block j is the decryption of ciphertext block j with ciphertext block j - 1, or the vector, added bit by bit |
| `AesXts.MultiplyByX` | external/mbedtls/library/aes.c:1113-1126 | the two-word code is multiplication by x in GF(2^128), bytes in little-endian order |
| `CipherStandard.AlphaBits` | external/mbedtls/library/aes.c:1113-1126 | the next tweak has every bit moved up by one, and the bit that leaves at the top added to the bits 0, 1, 2 and 7 |
| `AesXts.CryptXts` | external/mbedtls/library/aes.c:1131-1228 | XTS with ciphertext stealing for every length from 16 to 2^24 bytes; other lengths are refused and nothing is written |
| `CipherStandard.XtsFull` | external/mbedtls/library/aes.c:1151-1195 | full blocks are encrypted or decrypted between two bitwise additions of their own tweak, each tweak being the one before it times alpha |
| `CipherStandard.XtsStolen` | external/mbedtls/library/aes.c:1197-1225 | the last full block and the leftover bytes: which tweak each of the two last blocks gets, and which bytes are moved |
| `CipherStandard.XtsEnd` | external/mbedtls/library/aes.c:1151-1225 | of a longer text with leftover bytes the end is treated as such a text under the tweak of its place |
| `AesXts.XtsInverse` | external/mbedtls/library/aes.c:1131-1228 | decryption undoes encryption and the other way round for every length from 16 on, the last two tweaks being swapped |
| `AesXts.OverwrittenIsXts` | external/mbedtls/library/aes.c:1206-1210 | in place with leftover bytes the result is right if and only if these are the head of the last full block's result |
| `AesXts.OverwrittenLosesTail` | external/mbedtls/library/aes.c:1206-1210 | in place the leftover bytes do not influence the result, so they cannot be recovered |
| `AesXts.OverwrittenFails` | external/mbedtls/library/aes.c:1206-1210 | for every message of whole blocks and every number of leftover bytes there is a tail for which the result in place is wrong |
| `AesStream.CryptCtr` | external/mbedtls/library/aes.c:1349-1381 | output, offset, counter and stream block are those of the byte-by-byte keystream machine |
| `AesStream.CryptOfb` | external/mbedtls/library/aes.c:1315-1342 | output, offset and register are those of the OFB machine |
| `AesStream.CryptCfb128` | external/mbedtls/library/aes.c:1235-1276 | output, offset and register are those of the CFB128 machine in either direction |
| `AesStream.CryptCfb8` | external/mbedtls/library/aes.c:1281-1308 | output and shift register are those of the CFB8 machine in either direction |
| `AesStream.RunSplit` | external/mbedtls/library/aes.c:1235-1381 | for each of these modes two calls that carry the state over are one call on the joined data |
| `AesStream.RunInverse` | external/mbedtls/library/aes.c:1235-1381 | for each of these modes decryption from the same state restores the data and ends in the same state |
| `AesStream.NextValue` | external/mbedtls/library/aes.c:1366-1368 | the ripple increment adds one modulo 2^128 |
| `AesStream.CtrBlocks` | external/mbedtls/library/aes.c:1349-1381 | byte i is masked with the encryption of counter plus i/16 |
| `AesStream.CtrTwice` | external/mbedtls/library/aes.c:1349-1381 | CTR applied twice from one state restores the data and the state |
| `AesStream.OfbBlocks` | external/mbedtls/library/aes.c:1315-1342 | output block j is the initialisation vector encrypted j + 1 times |
| `AesStream.CfbSegments` | external/mbedtls/library/aes.c:1235-1276 | a segment is masked with the encryption of the ciphertext segment before it, and its ciphertext takes that place |
| `AesStream.Cfb8Window` | external/mbedtls/library/aes.c:1281-1308 | each byte is masked with the first byte of the encryption of the 16 ciphertext bytes before it |
| `AesStream.Cfb8Resynchronises` | external/mbedtls/library/aes.c:1281-1308 | after 16 bytes of ciphertext decryption no longer depends on what came before |
| `CipherPadding.AddPadding` | external/mbedtls/library/cipher.c:571-697 | each scheme fills the block behind the data with its padding and changes nothing else |
| `CipherPadding.GetPadding` | external/mbedtls/library/cipher.c:581-735 | the branch-free checks accept a block exactly when its data end somewhere under the scheme, and report where |
| `CipherStream.CipherContext.Update` | external/mbedtls/library/cipher.c:327-477 | one call caches or processes exactly what the stream specification says, also in place, and the error case changes nothing |
| `CipherStream.CipherContext.Finish` | external/mbedtls/library/cipher.c:738-817 | succeeds exactly when the specification gives a last piece of output, and writes that piece |
| `CipherStream.FeedSplit` | external/mbedtls/library/cipher.c:386-477 | two update calls are one call on the joined input, for encryption, and decryption with and without a block held back |
| `CipherStream.AnyChopping` | external/mbedtls/library/cipher.c:386-477 | so is any list of calls |
| `CipherStream.EncryptedStream` | external/mbedtls/library/cipher.c:386-477 | encryption in any pieces gives exactly one-shot CBC of the padded message |
| `CipherStream.DecryptedStream` | external/mbedtls/library/cipher.c:386-477 | decryption in any pieces succeeds exactly for ciphertexts whose last block ends in padding, and gives the data before it |
| `CipherStream.StreamRoundTrip` | external/mbedtls/library/cipher.c:738-817 | what was encrypted in any pieces is decrypted to the message in any other pieces, for every padding that carries its length |
| `CipherStream.ZerosRoundTrip` | external/mbedtls/library/cipher.c:690-717 | with zero padding the message comes back if and only if it is made of whole blocks or does not end in a zero byte |
| `CipherStream.ZerosFail` | external/mbedtls/library/cipher.c:699-717 | a message of one zero byte does not come back |
| `Sha256.Process` | core/utils/core_sha256.c:118-179 | the loop over eight rotated registers is the compression function of section 6.2.2 of FIPS 180-4 |
| `Sha256.CodeForms` | core/utils/core_sha256.c:102-103 | the coded forms of choice and majority are the standard's functions, bit for bit |
| `Sha256Constants.FirstPrimes` | core/utils/core_sha256.c:75-92 | the list used for the constants has every prime up to 311 once, in ascending order, and nothing else |
| `Sha256Constants.RoundConstants` | core/utils/core_sha256.c:75-92 | constant t is the first 32 bits of the fractional part of the cube root of prime t, for all 64 |
| `Sha256Constants.InitialWords` | core/utils/core_sha256.c:52-69 | word i of the initial value is the first 32 bits of the fractional part of the square root of prime i, for all eight |
| `Sha256Standard.SigmaBits` | core/utils/core_sha256.c:94-101 | bit i of each of the four functions is the sum modulo 2 of the three bits of the argument that the standard names |
| `Sha256Standard.ChoiceBits` | core/utils/core_sha256.c:103-104 | bit i of choice is selected by bit i of the first word, and bit i of majority is what two of the three bits are |
| `Sha256Standard.CompressIsStandard` | core/utils/core_sha256.c:106-179 | the compression function satisfies the equations of section 6.2.2 of FIPS 180-4: message schedule, 64 turns of eight named registers, and the final sums |
| `Sha256Stream.Context.Update` | core/utils/core_sha256.c:180-216 | the context stands for the message so far, extended by the input, wherever the calls cut it |
| `Sha256Stream.Context.Finish` | core/utils/core_sha256.c:225-255 | the output is the hash of the whole message, with padding and the 64-bit length from two words |
| `Sha256Standard.PaddedShape` | core/utils/core_sha256.c:218-241 | what is hashed is the message, the byte 80, fewest zeros, and its length in bits as 64 bits with the highest byte first |
| `Sha256Standard.HashIsStandard` | core/utils/core_sha256.c:180-255 | the hash values follow each other block by block from the initial one, and the digest is the words of the last, highest byte first |
| `Sha256Standard.HmacIsStandard` | core/utils/core_sha256.c:268-308 | the inner block is the key filled up with zeros, each byte with 36 added, and the outer block with 5C |
| `Sha256Stream.HmacBuffer` | core/utils/core_sha256.c:268-308 | HMAC of section 2 of RFC 2104 for keys of at most one block, no output at all for longer ones |
| `Base64.Encode` | external/mbedtls/library/base64.c:77-139 | writes the encoding and a terminator inside the computed room, or reports that room |
| `Base64.TablesAreAlphabet` | external/mbedtls/library/base64.c:44-70 | the two tables hold the alphabet of table 1 of RFC 2045; padding is 64 and every other character 127 |
| `Base64.EncodedStandard` | external/mbedtls/library/base64.c:107-133 | the four symbols of a group are the digits to the base 64 of the number its three bytes make up, and the missing symbols of a last group are padding |
| `Base64.FirstPass` | external/mbedtls/library/base64.c:151-203 | accepts exactly the admissible texts and counts their symbols and padding |
| `Base64.AdmissibleTexts` | external/mbedtls/library/base64.c:151-193 | the admissible texts are exactly lines of symbols with spaces at their ends alone, whose symbols end in at most two padding characters and have no other |
| `Base64.Decode` | external/mbedtls/library/base64.c:144-228 | writes the bytes that the symbols stand for, or reports the bound that the first pass computed; malformed texts write nothing |
| `Base64.WritesWithinBound` | external/mbedtls/library/base64.c:195-226 | the second pass never writes more than the first pass computed, and that length is never negative |
| `Base64.RoundTrip` | external/mbedtls/library/base64.c:77-228 | an encoding decodes to what was encoded, for every byte string |
| `Base64.LineBreakInserted` | external/mbedtls/library/base64.c:166-176 | one more line break in an accepted text, except inside another one, changes neither acceptance nor symbols |
| `Base64.LinesRoundTrip` | external/mbedtls/library/base64.c:144-228 | however an encoding is cut into lines, with either line end, it is accepted and decodes to what was encoded |
| `MqttPacket.RemainRoundTrip` | core/aiot_mqtt_api.c:342-356 | a length field decodes to the length it was made from |
| `MqttPacket.RemainLength` | core/aiot_mqtt_api.c:342-356 | it has at most four bytes if and only if the length is below 2^28 |
| `MqttPacket.RemainByteAt` | core/aiot_mqtt_api.c:342-356 | byte i of a length field is digit i to the base 128, with its top bit set exactly when another byte follows |
| `MqttPacket.CompletePrefixFree` | core/aiot_mqtt_api.c:1167-1189 | no complete length field begins another one |
| `MqttPacket.ReadRemainLen` | core/aiot_mqtt_api.c:1167-1189 | reads a complete field of at most four bytes with its value, and fails exactly when five bytes or the end of the data are reached first |
| `MqttPacket.BuildPublish` | core/aiot_mqtt_api.c:2058-2102 | the buffer holds exactly the packet of section 3.3 of MQTT 3.1.1 |
| `MqttPacket.PacketLayout` | core/aiot_mqtt_api.c:2058-2102 | type and QoS, the length of the rest, topic length, topic, identifier and payload stand where section 3.3 of MQTT 3.1.1 has them, byte by byte |
| `MqttPacket.ParsePublish` | core/aiot_mqtt_api.c:1405-1453 | accepts exactly the bodies long enough for what they announce; all positions stay inside the buffer |
| `MqttPacket.ReadPartitions` | core/aiot_mqtt_api.c:1421-1453 | topic, identifier and payload make up every accepted body again, without gap or overlap |
| `MqttPacket.ReadFrame` | core/aiot_mqtt_api.c:1167-1216 | a packet is read exactly when its header, length field and all announced bytes are there, and every other case is an error or no data |
| `MqttPacket.HandlePublish` | core/aiot_mqtt_api.c:1405-1453 | the handler accepts exactly the readable bodies and gives their message |
| `MqttPacket.SentIsReceived` | core/aiot_mqtt_api.c:2058-2102 | every packet that is built is received as the same topic, payload, QoS and identifier, and what follows it is left |
| `MqttPacket.ReceivedOnce` | core/aiot_mqtt_api.c:1167-1216 | at most one message can be received at a position |
| `MqttNetwork.FramesDecode` | core/aiot_mqtt_api.c:342-356 | a stream of whole packets can be cut into packets in one way only |
| `MqttNetwork.ShortWriteMisframes` | core/aiot_mqtt_api.c:2116-2130 | after a write of which one byte was taken the connection stays open and the stream can no longer be cut into packets |
| `MqttTopic.TopicIsValid` | core/aiot_mqtt_api.c:246-272 | the character checks accept a filter that begins with a slash exactly when its wildcards are whole levels and '#' is the last one |
| `MqttTopic.TopicCompare` | core/aiot_mqtt_api.c:1279-1325 | the loop decides the single-pass relation on the remaining characters |
| `MqttTopic.PassesByLevels` | core/aiot_mqtt_api.c:1279-1325 | the single pass is level-by-level matching in which a wildcard does not match an empty last level |
| `MqttTopic.LevelsJoin` | core/aiot_mqtt_api.c:1279-1325 | the levels hold no slash and make up the topic again with slashes between them |
| `MqttTopic.MatchesByPosition` | core/aiot_mqtt_api.c:1279-1325 | level-by-level matching is: equal or '+' at every position, and a last '#' for any number of levels from there on |
| `MqttTopic.MatcherCorrect` | core/aiot_mqtt_api.c:1279-1325 | for accepted filters and all topic names that do not end in a slash, it is the matching of section 4.7.1 of MQTT 3.1.1, level by level and by position |
| `MqttTopic.EmptyLastLevelFails` | core/aiot_mqtt_api.c:1279-1325 | for every name that begins and ends with a slash the filter made by adding '+' is accepted and matched by the standard, and refused by the matcher |
| `MqttRetransmit.ScanMeaning` | core/aiot_mqtt_api.c:833-841 | an insertion is allowed exactly when the identifier is not listed and at most limit + 1 packets are, or the limit is 65535 |
| `MqttRetransmit.StepKeeps` | core/aiot_mqtt_api.c:813-878 | every step, publication, incoming packet, retransmission or loss of the connection, keeps identifiers non-zero and distinct, the bound, and each packet carrying its identifier |
| `MqttRetransmit.RunsKeep` | core/aiot_mqtt_api.c:813-1019 | so does every run from the empty list |
| `MqttRetransmit.AcceptedPacketsStay` | core/aiot_mqtt_api.c:865-878 | over every run an accepted packet is still listed byte for byte, or a PUBACK with its identifier has come in since |
| `MqttRetransmit.ResentAreDue` | core/aiot_mqtt_api.c:984-1019 | a retransmission pass writes exactly the listed packets for which the timeout is 0 or the reading is at least the last time plus the timeout, unchanged and in order, up to the first that the network does not take whole; which entries get which time |
| `MqttRetransmit.WireFramed` | core/aiot_mqtt_api.c:2058-2140 | over every run in which no write is short the stream is made of whole packets, and can be cut into them in one way only |
| `MqttRetransmit.BoundReached` | core/aiot_mqtt_api.c:833-841 | limit + 2 packets can be listed |
| `MqttDelivery.ListIsOutstanding` | core/aiot_mqtt_api.c:827-878 | in every state of every run the list is exactly the accepted publications not acknowledged since, in order of acceptance, as told from the events alone; identifiers count 1 to 65535 and start again |
| `MqttDelivery.AcknowledgedLeaves` | core/aiot_mqtt_api.c:1479-1497 | over every run, after a PUBACK no listed packet has its identifier and all others are there in order |
| `MqttDelivery.PublishedIsWritten` | core/aiot_mqtt_api.c:2058-2140 | over every run an accepted publication is listed with the time of the call and extends the stream by its packet, and a refused one changes neither |
| `MqttDelivery.RepubWritesDue` | core/aiot_mqtt_api.c:984-1019 | the retransmission step is that pass on the client's list and connection |
| `MqttDelivery.WholePass` | core/aiot_mqtt_api.c:991-1002 | on an open connection that takes what it is given, the step extends the stream by exactly the due packets in list order |
| `MqttDelivery.ArrivedIsAnswered` | core/aiot_mqtt_api.c:2505-2561 | which packets close the connection, by their type and body, and the four bytes that answer a QoS 1 message |
| `MqttDelivery.AckIsAck` | core/aiot_mqtt_api.c:1245-1262 | the acknowledgement that is sent is one packet, and is taken for the acknowledgement of its identifier and no other |
| `MqttDelivery.OfflineIsSilent` | core/aiot_mqtt_api.c:2454-2502 | over every run nothing is written after a failed read until the client connects again, and then to an empty stream |
| `MqttList.AddTail` | core/utils/core_list.h:51-85 | the ring then represents the sequence with the node at its end, all records unchanged |
| `MqttList.Del` | core/utils/core_list.h:94-116 | the ring then represents the sequence without the node, all records unchanged |
| `MqttClient.Handle.Write` | core/aiot_mqtt_api.c:466-482 | the network takes the packet, its beginning or nothing, with the status that says which; only a failed write closes the connection |
| `MqttClient.Handle.Publish` | core/aiot_mqtt_api.c:2058-2140 | ring, counter and connection take the protocol's publish step, and the result tells a refused packet from a short, failed or impossible write |
| `MqttClient.Handle.OnPubAck` | core/aiot_mqtt_api.c:1479-1497 | an acknowledgement removes the packet with its identifier from the ring; malformed ones change nothing |
| `MqttClient.Handle.OnPublish` | core/aiot_mqtt_api.c:1405-1476 | a readable message is delivered, and for QoS 1 acknowledged with its identifier whatever the network does |
| `MqttClient.Handle.Dispatch` | core/aiot_mqtt_api.c:2505-2561 | every packet type takes the protocol's step, malformed or unknown packets close the connection, and the result tells which |
| `MqttClient.Handle.Receive` | core/aiot_mqtt_api.c:2454-2561 | the packet at the position is read whole and handled, a message is delivered exactly when a PUBLISH packet is there, and a failing read closes the connection |
| `MqttClient.Handle.Repub` | core/aiot_mqtt_api.c:984-1019 | the pass over the ring writes what the protocol's retransmission step writes |
| `Json.EndIsFirstBareQuote` | src/json_utils.c:40-55 | the scanner stops at a position if and only if that is the first quote outside an escape |
| `Json.EscapeEnds` | src/json_utils.c:383-420 | the scanner finds exactly the closing quote behind every escaped string |
| `Json.UnescapeEscape` | src/json_utils.c:118-151 | copying an escaped string gives the string back |
| `Json.UnescapeMeaning` | src/json_utils.c:118-151 | copying the text of a string gives the codes that section 7 of RFC 8259 gives its escapes if and only if it has no escape of four digits |
| `Json.UnescapeFails` | src/json_utils.c:118-151 | the letter A written with four digits is copied as u0041 |
| `Json.EscapeMeaning` | src/json_utils.c:383-420 | what the escaper writes has the meaning of the string it was given, by the codes of section 7 |
| `Json.EscapedLength` | src/json_utils.c:383-420 | it takes one character more for every quote, backslash, line feed, carriage return and tab, and for no other |
| `Json.EscapeIsStringText` | src/json_utils.c:383-420 | the escaper writes a text of section 7 if and only if the only control characters are line feed, carriage return and tab |
| `Json.EscapeString` | src/json_utils.c:383-420 | succeeds exactly when the text fits with two characters to spare, and writes it with its terminator |
| `Json.CopyStringValue` | src/json_utils.c:118-151 | succeeds exactly when the value fits and writes it with its terminator, else writes as much of it as fits, without one |
| `JsonArray.ArraySize` | src/json_utils.c:241-314 | the loop counts what the scanner's specification counts, -1 for a text that is no complete array |
| `JsonArray.ArrayGetItem` | src/json_utils.c:316-381 | extracts the specification's trimmed item if it exists and fits, else writes nothing |
| `JsonArray.ValueIsItem` | src/json_utils.c:241-381 | every JSON text of section 2 of RFC 8259 is passed over as one item, and trimming it leaves the value's text alone |
| `JsonArray.ArrayAgrees` | src/json_utils.c:241-381 | for the text of every JSON array, nested to any depth and with any space, the size is the number of values and item i is the text of value i, or missing from there on |
| `JsonArray.PiecesAgree` | src/json_utils.c:241-381 | for pieces between commas that need not be JSON texts, the size counts those that are not blank and item i is piece i |
| `JsonArray.SizeIsItems` | src/json_utils.c:241-381 | the size is the number of items that can be extracted if and only if no piece is blank |
| `JsonArray.SizeFails` | src/json_utils.c:241-381 | for 1, nothing and 2 between commas the size is 2 while items 1 and 2 are the empty text and 2 |
| `JsonArray.NoSize` | src/json_utils.c:241-314 | the size is -1 exactly for a text that begins with no bracket or never closes it |
| `IdeLease.ReadClientName` | src/ide_connection_manager.c:247-257 | the client of a request is the text found for its name, unescaped and cut to 127 characters, or "unknown" |
| `IdeLease.NamesCollide` | src/ide_connection_manager.c:247-257 | two names are one client if and only if they are the same up to 127 characters |
| `IdeLease.NamesFail` | src/ide_connection_manager.c:247-257 | two different names of 128 characters are one client, and a missing name is the client called unknown |
| `IdeLease.Manager.RequestConnect` | src/ide_connection_manager.c:246-292 | one atomic step of the lease; the answer is yes exactly when it is free, the client's own, or its stamp is more than 120000 ms back |
| `IdeLease.Manager.HandleDisconnect` | src/ide_connection_manager.c:294-326 | one atomic step of the lease, releasing it for its owner alone |
| `IdeLease.Manager.HandleHeartbeat` | src/ide_connection_manager.c:328-357 | one atomic step of the lease, accepted from the owner alone |
| `IdeLease.LeaseHeld` | src/ide_connection_manager.c:246-357 | over every run, a client that connects to a free lease, to its own, or more than 120000 ms after its stamp holds it, with its latest reading as the stamp, until an event takes it; all other requests change nothing |
| `IdeLease.LeaseTaken` | src/ide_connection_manager.c:146-357 | over every run, the owner's disconnect, a clear, and a check more than 120000 ms after its latest reading free the lease, and another client's connect as late takes it over |
| `IdeLease.StampIsLatest` | src/ide_connection_manager.c:246-357 | over every run the stamp of a held lease is that of the owner's latest accepted connect or heartbeat |
| `IdeLease.OwnershipMoves` | src/ide_connection_manager.c:146-357 | over every run ownership ends only by the owner's disconnect, a clear, or a clock reading more than 120000 ms after that stamp |
| `IdeLease.HeartbeatKeepsLease` | src/ide_connection_manager.c:153-187 | an owner that is neither released nor late keeps the lease |

## Left out

- MpiDivide.Mod: excludes R = B for a positive B, for which the code's last loop compares B with itself and never ends.
- MpiExp.ExpMod: X must not be N or E, which the code reads after writing X; A must have a limb, because the table entry copied from it has to; the cache, when filled, must hold R^2 mod N.
- MpiMontgomery.MontgomeryMul: the subtraction that only evens out timing is modelled, constant time is not.
- MpiString.WriteString: a number without limbs is excluded in radix 2, where the code reads the lowest limb.
- MpiString.ReadString: lengths are unbounded, so the overflow check on the text length is not modelled; the inner loop over a limb's bytes in hexadecimal output is one loop over byte positions.
- CipherStream.CipherContext.Update: the block size is 16 and the mode is CBC; ECB, GCM and the stream modes of the cipher layer are not modelled.
- AesXts.CryptXts: a missing key and failures of the block function are not modelled.
- Sha256Stream.Context.Update: total lengths from 2^64 bytes on, where the two counting words wrap, are excluded.
- MqttClient.Handle.Publish: the checks of topic, payload and connection made before it, topic suffixes and payload compression are not modelled.
- MqttClient.Handle.Receive: reconnecting before the read, decompression, calls of user handlers and the contents of subscription acknowledgements are not modelled.
- MqttRetransmit.WireFramed: the packets for connecting, subscribing and the heartbeat are not among those written.
- IdeLease.Manager.RequestConnect: the lock makes each step atomic; the text of the client's name and its information are what the lookup in the request found, and the reply texts and cloud reports are not modelled.
- Json.Meaning: an escape of four digits is one 16-bit unit; pairs of surrogates are not combined.
- Allocation failures and the limit on the number of limbs: allocation succeeds and buffers are unbounded.
- Limbs of other widths than 64 bits, the assembly forms of the multiply-accumulate step, and the unrolling of its loop.
- Prime generation, random numbers, file input and output of numbers, conditional assignment and swap.
- The AES key schedule, round functions and hardware paths: the block function and its inverse are parameters.
- The 224-bit form of SHA-256: the code's switch for it is always off.
- Null pointers, except where a missing buffer changes what a routine does.
- The lookup of a JSON key by substring search, and the extraction of objects and arrays after it.
- The duplicate flag of MQTT: the client writes stored packets again unchanged.
- Threads and mutexes: each protocol step is atomic.
- Self tests, error texts, logging and zeroisation.
