# Verified model of the FIDO2 key firmware

The firmware of this repository is a USB security key for the CH32X035 microcontroller:
elliptic-curve arithmetic (micro-ecc), a C library (ch32fun), the CTAPHID transport, CBOR,
the PIN protocols, a credential store in flash, AES and SHA-256.  The modules here model
that code in Dafny and prove what it is for.  Where the code updates words, buffers,
registers or global state in place, the model does too: methods over arrays and classes,
each tied to a specification whose properties are then proved as lemmas.

| files | what they model |
|---|---|
| `Arith`, `Words`, `Bytes`, `Options` | shared arithmetic, numbers as 32-bit words, bytes |
| `Vli`, `VliMult`, `VliInv` | multi-word integers: carries, products, reduction, inversion |
| `PrimeField`, `FieldWords` | arithmetic modulo a prime, on numbers and on words |
| `CoZ`, `Cusp`, `Ladder`, `ScalarBits`, `EccRounds`, `EccPoint`, `Regularize`, `SmallCurve` | the co-Z Montgomery ladder |
| `Bits2Int`, `Ecdsa` | message hashes as numbers, signing |
| `Factorization`, `SuffixScan`, `Strstr` | substring search |
| `Cbor`, `Rfc8949`, `CborWalk`, `CborMap`, `CborName` | the CBOR writer, the standard's reader, the walker, map lookups |
| `CtapHid`, `HidReplies`, `Ring` | fragments to messages; the packet ring between interrupt and main loop |
| `Flash`, `ResidentKey`, `Credentials`, `Store`, `CredMgmt`, `CmRequest` | the credential store, its enumeration, and the host that drives it |
| `AesBytes`, `AesField`, `Aes`, `AesState`, `AesCbc`, `Fips197` | AES-256-CBC, and its standard byte by byte |
| `Sha256`, `Sha256Constants`, `Sha256Bits`, `Sha256Bytes`, `Fips180`, `Sha256Unique` | SHA-256 and HMAC, and the equations of their standards |
| `PinCrypto`, `PinPage`, `ClientPin`, `PinProtocol`, `PinRules`, `PinStandard` | the PIN protocols, device and host |

## What was found

Each of these is stated exactly by a lemma or method contract named in the table.

- **Scalars the ladder cannot use.** The regularised ladder meets two opposite points for
  k = n - 1, k = n - 2, and k = 1 when n + 1 has no more bits than n.  Its registers then
  collapse and the result is (0, 0), so that no public key comes out and signing is refused.
  For all other k the result is k P (`Regularize.ExceptionExactly`, `Ecdsa.SignWithK`).
- **Hashes at least as large as the order.** `bits2int` reduces only hashes it has shifted, and
  `modAdd` is documented for reduced operands; the signature equation holds all the same
  (`Ecdsa.SignWithK`).
- **The ring can hold 13 packets.** The main loop tests the counter and the stop flag one after
  the other with interrupts on.  If the ring fills up to 12 packets between the two tests, which
  takes seven packets in a row (`Ring.SevenPackets`), the endpoint is opened with 12 waiting and
  takes a 13th (`Ring.TestsCanBeSplit`).  That is the only way: a run can go over 12 packets if
  and only if it fills up there (`Ring.OverTwelveExactly`, `Ring.OpenWhenFullExactly`).  No packet
  is lost even then (`Ring.RunsAreSafe`).
- **User ids longer than 64 bytes.** They are compared in full but stored cut, so that saving
  such an account twice occupies two slots (`Credentials.LongUserIdsDuplicate`); with ids of at
  most 64 bytes there is one record per account in every run
  (`Credentials.RunsKeepOnePerAccount`).
- **deleteCredential and the host disagree.** The device looks for the credential id under the
  number 1 of the descriptor, the host sends it under "id": no delete request of
  `key_manager.py` finds a credential (`CmRequest.HostDeleteFindsNothing`; what would,
  `CmRequest.DeletesExactly`).
- **An assertion nobody touched for is skipped.** getNextAssertion moves on before it asks for
  a touch (`CredMgmt.WalkVisitsEachOnce`).
- **Keys above 255 read as 0**, so that a lookup of key 0 is right if and only if none of them
  comes first (`CborMap.LookupExactly`); the numeric keys that are told from all others are
  exactly 1 to 255 and -1 to -24 (`CborMap.OnlyItself`), and with them lookups in a whole map are
  right (`CborMap.LookupInUse`).
- **Text keys are compared by the low byte of their length.** A lookup is right if and only if no
  longer key that starts with the name and has the same low byte of length comes first
  (`CborName.NamesExactly`, `CborName.LookupNameExactly`; such a key, `CborName.LongKeyIsTaken`).

## Assumptions

The curve enters through the multiples of its base point: coordinates modulo a prime that
obey the chord law, the negation law and the order law (`Ladder.Multiples.Valid`), and a
doubling routine that doubles.  `SmallCurve` shows that these laws, and the doubling, can be
met.  Random numbers, the ECDH secret, the touch of the user, the replies of the CBOR commands, how
many frames the host takes and the outcome of each interrupt race are inputs, and everything is
proved for all of them.  A shift by k bits is written as a product or quotient by 2^k.

## Model

| member | source | states |
|---|---|---|
| Vli.Clear | micro-ecc/uECC.c:212-217 | The low n words become zero and the rest keep their values. |
| Vli.IsZero | micro-ecc/uECC.c:222-229 | True exactly if the number in the n words is zero. |
| Vli.NumDigits | micro-ecc/uECC.c:237-245 | The shortest prefix of words with the same value. |
| Vli.NumBits | micro-ecc/uECC.c:248-263 | The b with 2^(b-1) <= value < 2^b, and 0 for zero. |
| Vli.Set | micro-ecc/uECC.c:267-272 | Copies n words, also between overlapping operands, and changes no others. |
| Vli.CmpUnsafe | micro-ecc/uECC.c:276-288 | The sign of the difference of the two numbers. |
| Vli.Cmp | micro-ecc/uECC.c:309-316 | The same sign, from a subtraction and a zero test. |
| Vli.Rshift1 | micro-ecc/uECC.c:320-330 | The number is halved in place. |
| Vli.Add | micro-ecc/uECC.c:335-349 | Sum plus the weight of the carry equals left + right, for any aliasing. |
| Vli.Sub | micro-ecc/uECC.c:354-368 | Difference minus the weight of the borrow equals left - right, for any aliasing. |
| Vli.ModAdd | micro-ecc/uECC.c:540-550 | left + right less the modulus at most once, for operands that are not reduced too. |
| Vli.AddOnceIsMod | micro-ecc/uECC.c:538-539 | That is congruent to the sum, and is the reduced sum for reduced operands. |
| Vli.ModSub | micro-ecc/uECC.c:554-565 | left - right plus the modulus at most once. |
| Vli.SubOnceIsMod | micro-ecc/uECC.c:552-553 | That is congruent to the difference, and reduced for reduced operands. |
| Vli.ShiftToTop | micro-ecc/uECC.c:578-591 | The modulus times 2^shift, exactly, in 2n words. |
| Vli.HalveModMultiple | micro-ecc/uECC.c:604-606 | The 2n words are halved as one number although they are shifted in two parts. |
| Vli.ReduceRound | micro-ecc/uECC.c:593-607 | A round keeps the value congruent to the product and below twice the next multiple of the modulus. |
| Vli.Mmod | micro-ecc/uECC.c:569-609 | The remainder of any 2n-word product by a modulus with its top word set. |
| VliMult.MulAdd | micro-ecc/uECC.c:374-412 | The three-word accumulator grows by the product of two words, modulo 2^96. |
| VliMult.Mul2Add | micro-ecc/uECC.c:451-496 | The same by twice the product. |
| VliMult.ColumnsAreProduct | micro-ecc/uECC.c:425-443 | The sum of all columns is the product of the two numbers. |
| VliMult.Mult | micro-ecc/uECC.c:416-445 | The 2n words hold exactly the product; no accumulator overflows on the way. |
| VliMult.SquareColumn | micro-ecc/uECC.c:508-515 | Doubled mirrored terms add up to the full column. |
| VliMult.Square | micro-ecc/uECC.c:498-523 | The 2n words hold exactly the square. |
| VliMult.SquareAgreesWithMult | micro-ecc/uECC.c:498-534 | Both routines produce the same words. |
| VliMult.ModMult | micro-ecc/uECC.c:612-620 | The product modulo mod, for any operands and any aliasing. |
| VliInv.ModInvUpdate | micro-ecc/uECC.c:681-692 | The operand is divided by 2 modulo mod, with the carry out of the top word kept. |
| VliInv.SubUpdate | micro-ecc/uECC.c:723-727 | (u - v) / 2 modulo mod, although a carry is dropped. |
| VliInv.Round | micro-ecc/uECC.c:713-736 | A round keeps a = u x and b = v x modulo mod and the common divisors, and a + b falls. |
| VliInv.Rounds | micro-ecc/uECC.c:713-737 | The loop ends with a = b, the greatest common divisor so far expressed as a multiple of x. |
| VliInv.ModInv | micro-ecc/uECC.c:696-739 | Terminates with r x congruent to gcd(x, mod), and 0 for 0. |
| VliInv.InverseIffCoprime | micro-ecc/uECC.c:694-695 | The result is the inverse if and only if x is coprime to mod. |
| FieldWords.FieldMult | micro-ecc/uECC.c:622-633 | The reduced product in the field, in place. |
| FieldWords.FieldSquare | micro-ecc/uECC.c:672-676 | The reduced square in the field, in place. |
| FieldWords.FieldInv | micro-ecc/uECC.c:901 | Inverse modulo a prime in place; zero goes to zero. |
| CoZ.ApplyZ | micro-ecc/uECC.c:753-763 | The registers become co-Z coordinates of the point for z. |
| CoZ.XYcZAdd | micro-ecc/uECC.c:794-820 | The register program of the sum on words, every register reduced. |
| CoZ.SumProgramMeans | micro-ecc/uECC.c:789-793 | The program computes the sum and the scaled first point as polynomials of its input. |
| CoZ.XYcZAddC | micro-ecc/uECC.c:826-861 | The register program of difference and sum on words, every register reduced. |
| CoZ.DifferenceProgramMeans | micro-ecc/uECC.c:822-825 | The program computes difference and sum as polynomials of its input and `sub`. |
| CoZ.SumIsChord | micro-ecc/uECC.c:789-793 | Those polynomials are the chord construction on the affine points, with Z3 = Z^3 (x2 - x1), that is Z (X2 - X1). |
| Cusp.OppositeCollapses | micro-ecc/uECC.c:826-861 | After opposite points the difference is (0, 0) and the other register lies on a cusp. |
| Cusp.CollapsedSumIsZero | micro-ecc/uECC.c:838-860 | From a collapsed pair of registers, the difference or sum that is formed next is (0, 0). |
| Ladder.AddCOnMultiples | micro-ecc/uECC.c:826-861 | From i P and j P under one Z, (i - j) P and (i + j) P under the next Z. |
| Ladder.AddOnMultiples | micro-ecc/uECC.c:794-820 | From i P and j P under one Z, i P and (i + j) P under the next Z. |
| ScalarBits.TestBit | micro-ecc/uECC.c:232-234 | The bit of the number, found in one word. |
| EccRounds.ClosingFactor | micro-ecc/uECC.c:897-904 | The closing formula yields exactly 1 / Z3, with the right sign for either last bit. |
| EccRounds.ClosingVanishes | micro-ecc/uECC.c:898-901 | The number that is inverted is zero exactly if a round was exceptional or P has a zero coordinate. |
| EccPoint.FirstZ | micro-ecc/uECC.c:772-779 | The random Z if one is given, and otherwise 1; never zero. |
| EccPoint.FirstRegisters | micro-ecc/uECC.c:879-883 | R0 = P and R1 = 2 P under one nonzero Z, and `sub` is their difference up to sign. |
| EccPoint.DifferenceAndSum | micro-ecc/uECC.c:890-895 | R[1-nb] becomes P or -P, R[nb] the sum, unless the round is exceptional. |
| EccPoint.SumAgain | micro-ecc/uECC.c:891 | The registers are neighbouring multiples again, with `sub` their difference. |
| EccPoint.Rounds | micro-ecc/uECC.c:887-892 | After the rounds R0 and R1 hold k P and (k + 1) P for the prefix k, if no round was exceptional; otherwise they have collapsed. |
| EccPoint.ClosingZ | micro-ecc/uECC.c:897-904 | The factor undoes the Z that the last addition will produce, or is zero. |
| EccPoint.Finish | micro-ecc/uECC.c:906-907 | Affine coordinates of the last multiple, or (0, 0). |
| EccPoint.EccPointMult | micro-ecc/uECC.c:864-911 | k P in affine coordinates whatever the initial Z is, or (0, 0) exactly if a round is exceptional or P has a zero coordinate. |
| Regularize.RegularizeK | micro-ecc/uECC.c:913-924 | The selected scalar, with the bit above the order taken as set, is k + n or k + 2n. |
| Regularize.ExceptionExactly | micro-ecc/uECC.c:864-924 | The ladder on a regularised scalar meets no exception if and only if k is none of n - 1, n - 2, and 1 if n + 1 < 2^bits. |
| Regularize.ComputePoint | micro-ecc/uECC.c:952-979 | The affine point k P for every k in range but those, for which it is (0, 0). |
| Bits2Int.BytesToNative | micro-ecc/uECC.c:1010-1020 | The words hold the big-endian number. |
| Bits2Int.ShiftWordsRight | micro-ecc/uECC.c:1237-1244 | The number is divided by 2^shift, from the top word down. |
| Bits2Int.Bits2int | micro-ecc/uECC.c:1214-1250 | The leading bits of the hash, less the order once if a shift was needed; always below 2^bits. |
| Bits2Int.HashIntBound | micro-ecc/uECC.c:1224-1236 | The number fits the bits of the order, reduced or not. |
| Bits2Int.HashIntIsHash | micro-ecc/uECC.c:1224-1249 | It is the number in the leftmost bits of the whole hash, exactly, or that less the order once where the code reduces; always congruent to it modulo the order. |
| Ecdsa.NativeToBytes | micro-ecc/uECC.c:1000-1008 | The bytes read back big-endian as the number; the rest of the buffer is unchanged. |
| Ecdsa.BlindedInverse | micro-ecc/uECC.c:1301-1305 | k becomes its inverse whatever the blinding number is. |
| Ecdsa.ComputeS | micro-ecc/uECC.c:1311-1323 | s k is congruent to e + r d modulo n, for every hash and key, with e the number in the leftmost bits of the hash. |
| Ecdsa.SignWithK | micro-ecc/uECC.c:1252-1333 | Succeeds exactly if k is in range, not one of the scalars above, r is not zero and s fits its bytes; then the bytes are r and s, r is the x coordinate of k P and s k = e + r d modulo n, with e the number in the leftmost bits of the hash. |
| Ecdsa.UsualScalarsAccepted | micro-ecc/uECC.c:1273-1295 | No k from 2 to n - 3 is refused unless its multiple has x = 0. |
| Ecdsa.VerifierFindsR | micro-ecc/uECC.c:1315-1325 | The point that a verifier computes from such a signature has x coordinate r. |
| Factorization.CriticalFactorization | ch32fun/ch32fun/ch32fun.c:315-353 | The later of the two maximal suffixes starts at a critical position of the needle. |
| Strstr.MaximalSuffix | ch32fun/ch32fun/ch32fun.c:315-351 | The scan finds the maximal suffix for either order, and its smallest period. |
| Strstr.FillTables | ch32fun/ch32fun/ch32fun.c:310-313 | The set of bytes and the last place of each, or that the haystack is shorter than the needle. |
| Strstr.Prepare | ch32fun/ch32fun/ch32fun.c:315-359 | A critical position, and a shift that no period of the needle undercuts. |
| Strstr.SkipByPeriod | ch32fun/ch32fun/ch32fun.c:400-404 | After a match of the right part alone no occurrence starts before the shift. |
| Strstr.SkipByRightPart | ch32fun/ch32fun/ch32fun.c:393-399 | A mismatch in the right part excludes every start up to it. |
| Strstr.SkipByMemory | ch32fun/ch32fun/ch32fun.c:379-386 | The longer skip with a remembered prefix misses no occurrence. |
| Strstr.Window | ch32fun/ch32fun/ch32fun.c:378-405 | One window reports an occurrence, or moves on without passing one. |
| Strstr.TwowayStrstr | ch32fun/ch32fun/ch32fun.c:303-406 | The leftmost occurrence, or none, for every needle and haystack; it terminates. |
| Strstr.TwobyteStrstr | ch32fun/ch32fun/ch32fun.c:274-279 | The leftmost occurrence of two bytes, by a rolling 16-bit window. |
| Strstr.ThreebyteStrstr | ch32fun/ch32fun/ch32fun.c:281-287 | The same for three bytes. |
| Strstr.FourbyteStrstr | ch32fun/ch32fun/ch32fun.c:289-295 | The same for four bytes. |
| Strstr.Strchr | ch32fun/ch32fun/ch32fun.c:408-418 | The first place of a byte, or that there is none. |
| Strstr.Memchr | ch32fun/ch32fun/ch32fun.c:484-490 | The first place of a byte in a range, reading nothing behind it. |
| Strstr.Strstr | ch32fun/ch32fun/ch32fun.c:420-436 | The leftmost occurrence of any NUL-terminated needle in any NUL-terminated haystack, or none. |
| Cbor.Encoder.EncodeHead | usb_hid_fido2/cbor.c:10-32 | The head is appended whole or not at all; earlier bytes and the capacity are respected. |
| Cbor.Encoder.EncodeBool | usb_hid_fido2/cbor.c:46-49 | The same for a boolean. |
| Cbor.Encoder.EncodeString | usb_hid_fido2/cbor.c:51-68 | The head and the bytes are each appended whole or not at all. |
| Cbor.Encoder.Write | usb_hid_fido2/cbor.c:34-76 | For any tree of items: exactly its encoding is appended if it fits, and nothing written before changes. |
| Rfc8949.HeadDecodes | usb_hid_fido2/cbor.c:10-32 | A head of any 32-bit argument is read back by the standard's reader, with nothing of what follows. |
| Rfc8949.DecodesEncoded | usb_hid_fido2/cbor.c:10-76 | What is written for any tree of items, the standard's reader reads as that tree, whatever follows it. |
| CborWalk.SkipCborItem | usb_hid_fido2/fido2.c:219-249 | The recursive walker, with its 16-bit offsets, computes the walk specification. |
| CborWalk.SkipExact | usb_hid_fido2/fido2.c:219-249 | On an encoded item followed by anything, the walk ends exactly at the end of the item. |
| CborMap.FindExact | usb_hid_fido2/fido2.c:303-336 | A search over the entries finds the first match at its exact offset, or nothing if there is none. |
| CborMap.MatchesExactly | usb_hid_fido2/fido2.c:311-320 | A positive key below 256 or a negative one down to -24 matches only itself; key 0 also matches every key above 255. |
| CborMap.OnlyItself | usb_hid_fido2/fido2.c:441-444 | The keys that match themselves and nothing else are exactly 1 to 255 and -1 to -24. |
| CborMap.LookupExactly | usb_hid_fido2/fido2.c:303-336 | A lookup of a non-negative key finds its first entry in the whole map if and only if no other key is taken for it before. |
| CborMap.LookupInUse | usb_hid_fido2/fido2.c:303-336 | For the keys 1 to 255 and -1 to -24 it always does. |
| CborMap.GetMapValue | usb_hid_fido2/fido2.c:295-338 | Type, position and length of the first matching value; on any other data, what the search and the head found give. |
| CborMap.GetMapInt | usb_hid_fido2/fido2.c:340-386 | The number under the key, if the first match is an unsigned number; on any other data, what the search found gives. |
| CborMap.GetMapItem | usb_hid_fido2/fido2.c:388-421 | The exact slice of the first matching value, head included. |
| CborMap.GetMapString | usb_hid_fido2/fido2.c:423-429 | The bytes of the first matching value, if it is a string; on any other data, what the search found gives. |
| CborMap.FindEntry | usb_hid_fido2/fido2.c:431-466 | The loops over the entries, for positive and negative keys alike, compute the search specification. |
| CborName.FindNamedEntry | usb_hid_fido2/fido2.c:253-293 | The loop over text keys computes its search specification. |
| CborName.FindNameExact | usb_hid_fido2/fido2.c:262-291 | A search for a text key finds the first match at its exact offset, or nothing. |
| CborName.NamesExactly | usb_hid_fido2/fido2.c:268-273 | The test of a key is right if and only if the key is not a longer one that starts with the name and has the same low byte of length, and the name is not longer than 255 bytes itself. |
| CborName.LongKeyIsTaken | usb_hid_fido2/fido2.c:269-273 | Every name of up to 255 bytes followed by 256 more bytes is taken for the name. |
| CborName.LookupNameExactly | usb_hid_fido2/fido2.c:262-291 | A lookup finds the first entry of the name in the whole map if and only if no such key comes before it. |
| CborName.GetNamedString | usb_hid_fido2/fido2.c:273-286 | The bytes under the first matching key with the low byte of their length, if they are a string; on any other data, what the search found gives. |
| CtapHid.Device.SendResponse | usb_hid_fido2/main.c:49-117 | The host gets exactly the frames of the message up to the first it does not take in time. |
| CtapHid.Device.OpenMessage | usb_hid_fido2/main.c:145-158 | A first frame opens a transaction and replaces any other. |
| CtapHid.Device.ExtendMessage | usb_hid_fido2/main.c:160-171 | A later frame adds its bytes behind those already there. |
| CtapHid.Device.Accept | usb_hid_fido2/main.c:145-172 | A frame either goes into the transaction, or is dropped with the state the receiver specification gives. |
| CtapHid.Device.HandOver | usb_hid_fido2/main.c:174-214 | A complete message is answered once, and the transaction is closed. |
| CtapHid.Device.ProcessCTAPHID | usb_hid_fido2/main.c:132-215 | Any frame takes the transaction, the messages handed over, the frames sent, the channel and the cancel flag to their specified next values. |
| CtapHid.RoundTrip | usb_hid_fido2/main.c:132-215 | The frames of any payload up to 1024 bytes, from any state, hand over that one message at the last frame. |
| CtapHid.CancelsDoNotDisturb | usb_hid_fido2/main.c:137-143 | Leaving out all CANCEL frames and frames too short to have a command changes neither messages nor final state. |
| CtapHid.DeliveredDespiteCancels | usb_hid_fido2/main.c:137-143 | A message arrives with such frames inserted anywhere. |
| CtapHid.GapDropsMessage | usb_hid_fido2/main.c:160-165 | Without an earlier frame the later frames of a message hand over nothing, whatever transaction is open that does not expect them. |
| CtapHid.InitNamesChannel | usb_hid_fido2/main.c:180-200 | INIT echoes the nonce and names the request's channel, or the last one named for a broadcast, and a later broadcast is given the same. |
| CtapHid.PingEchoes | usb_hid_fido2/main.c:201-202 | PING is answered with its own frames. |
| HidReplies.MessageInFrames | usb_hid_fido2/main.c:64-102 | Every frame of a message of up to 1024 bytes, byte by byte, and how many there are. |
| HidReplies.DeliveredAmongOthers | usb_hid_fido2/main.c:137-165 | A message arrives with later frames of other channels, CANCEL and malformed frames anywhere in between. |
| HidReplies.AnswerReachesHost | usb_hid_fido2/main.c:174-214 | Each message handed over is answered with exactly one message on its channel, which reaches a host in any state: the reply for CBOR, the payload for PING, nothing for WINK and LOCK, nonce and channel for INIT, error 1 for all others. |
| HidReplies.CborReplyReachesHost | usb_hid_fido2/main.c:176-179 | The frames sent for a CBOR message hand over exactly its reply to a host in any state. |
| Ring.Endpoint.OnPacket | usb_hid_fido2/ch32x035_usbfs_device.c:260-279 | The interrupt step on the ring, its DMA pointer and flow control. |
| Ring.Endpoint.RemoveOldest | usb_hid_fido2/main.c:242-249 | The oldest packet leaves. |
| Ring.Endpoint.ProcessOobCommands | usb_hid_fido2/main.c:272-336 | Takes out the oldest packet exactly if it is WINK, LOCK, CANCEL or INIT. |
| Ring.ServedWhileWaiting | usb_hid_fido2/main.c:272-336 | While a command waits, the oldest first frame is taken out exactly if its command is CANCEL, WINK, LOCK or INIT. |
| Ring.LaterFramesWait | usb_hid_fido2/main.c:272-336 | A later frame of a message stays in the ring. |
| Ring.Endpoint.Reopen | usb_hid_fido2/main.c:260-267 | The endpoint is opened again if there is room and it was stopped. |
| Ring.Thresholds | usb_hid_fido2/main.c:260-262 | The endpoint stops when 12 packets wait, and the flag that reopens it is looked at with less than 6 waiting. |
| Ring.InterruptInv | usb_hid_fido2/ch32x035_usbfs_device.c:260-279 | A packet at any point of the main loop keeps the invariant. |
| Ring.ServeInv | usb_hid_fido2/main.c:272-336 | While main waits in a packet's command, a nested call never takes that packet out. |
| Ring.RunsAreSafe | usb_hid_fido2/main.c:232-336 | In every interleaving: load = deal + remain modulo 16, DMA points at the load slot, at most 13 packets wait, they leave in order of arrival and once, and the slot in use is never overwritten. |
| Ring.AlwaysReopens | usb_hid_fido2/main.c:232-336 | In every interleaving of interrupts, main loop and nested service, the endpoint is open at some point once the main loop has made as many steps as a bound on the first state. |
| Ring.TwelveIsTheLimit | usb_hid_fido2/main.c:260-267 | At most 12 packets wait in every run that does not fill up to 12 between the two tests. |
| Ring.OpenWhenFullExactly | usb_hid_fido2/main.c:260-267 | In a run the endpoint is open with 12 packets waiting if and only if the run fills up between the tests, two steps or more before its end. |
| Ring.OverTwelveExactly | usb_hid_fido2/main.c:260-267 | A run can go on to more than 12 packets, without filling up there again, if and only if it has filled up between the tests. |
| Ring.SevenPackets | usb_hid_fido2/main.c:260-262 | Filling up there takes seven packets in a row after the first test. |
| Ring.TestsCanBeSplit | usb_hid_fido2/main.c:260-267 | A state with 13 packets is reachable. |
| Flash.Memory.ErasePage | usb_hid_fido2/flash_passkey.c:22-28 | One page becomes all ones. |
| Flash.Memory.Program | usb_hid_fido2/flash_passkey.c:30-49 | 64 bytes of one page are programmed, which only clears bits. |
| Flash.ProgramOnlyClears | usb_hid_fido2/flash_passkey.c:30-49 | A bit is set afterwards if and only if it was set before and is set in the data. |
| Flash.Memory.WritePage | usb_hid_fido2/flash_passkey.c:101-111 | Erasing and programming in four parts leaves exactly the record on that page, and no other page changes. |
| ResidentKey.ParseLayout | usb_hid_fido2/flash_passkey.h:24-36 | A record that was laid out reads back as the same credential. |
| ResidentKey.RecordFields | usb_hid_fido2/flash_passkey.h:24-36 | Every field at its place in the packed struct, and ones behind each string. |
| ResidentKey.AccountReads | usb_hid_fido2/flash_passkey.c:69-72 | The comparison on the page is the comparison of relying party and user id. |
| Store.PasskeyStore.FindSlot | usb_hid_fido2/flash_passkey.c:61-79 | The first slot of the same account, or else the first empty one, or none. |
| Store.PasskeyStore.Save | usb_hid_fido2/flash_passkey.c:60-115 | The chosen slot holds the credential with its strings cut to size, and no other page changes; fails only if no slot can be chosen. |
| Store.PasskeyStore.Delete | usb_hid_fido2/flash_passkey.c:303-318 | The first record with that id is erased, and no other page changes. |
| Store.PasskeyStore.FactoryReset | usb_hid_fido2/flash_passkey.c:51-58 | Every page is erased, that of the PIN included. |
| Store.PasskeyStore.CountAll | usb_hid_fido2/flash_passkey.c:213-222 | The number of credentials. |
| Store.PasskeyStore.IsFirstOfRp | usb_hid_fido2/flash_passkey.c:230-239 | No earlier slot has the same relying party. |
| Store.PasskeyStore.CountUniqueRps | usb_hid_fido2/flash_passkey.c:224-245 | The number of different relying parties. |
| Store.PasskeyStore.GetUniqueRpHash | usb_hid_fido2/flash_passkey.c:247-274 | The relying party at an index of that list, or failure beyond its end. |
| Store.PasskeyStore.CountForRp | usb_hid_fido2/flash_passkey.c:276-287 | The number of credentials of a relying party. |
| Store.PasskeyStore.GetByRpIndex | usb_hid_fido2/flash_passkey.c:289-301 | The slot at an index among them, or none. |
| Credentials.RelyingPartiesDistinct | usb_hid_fido2/flash_passkey.c:224-274 | No relying party is listed twice, and each has a credential. |
| Credentials.ListedOnce | usb_hid_fido2/flash_passkey.c:224-301 | Going through the credentials of each listed relying party meets every credential exactly once. |
| Credentials.CountsAddUp | usb_hid_fido2/flash_passkey.c:213-287 | The counts per relying party add up to the count of all. |
| Credentials.SaveKeepsOnePerAccount | usb_hid_fido2/flash_passkey.c:60-79 | Saving keeps one record per account, for user ids of at most 64 bytes. |
| Credentials.LongUserIdsDuplicate | usb_hid_fido2/flash_passkey.c:69-91 | A longer user id saved twice always takes two slots. |
| Credentials.RunsKeepOnePerAccount | usb_hid_fido2/flash_passkey.c:51-115 | In every run of saves, deletes and resets there is at most one record per account. |
| CredMgmt.Authenticator.EnumerateRps | usb_hid_fido2/fido2.c:1099-1134 | Answers with the relying party at the position it moves to, with the total on the first answer only, and keeps its hash. |
| CredMgmt.Authenticator.EnumerateCredentials | usb_hid_fido2/fido2.c:1135-1184 | Answers with the credential at the position it moves to, of the relying party last named by either enumeration, with the total on the first answer only. |
| CredMgmt.Authenticator.GetAssertion | usb_hid_fido2/fido2.c:890-996 | Opens a walk over the credentials of a relying party and answers with the first, or with the error of the authentication, the options or the touch. |
| CredMgmt.AssertionClaims | usb_hid_fido2/fido2.c:932-996 | An answer is for the first credential of the relying party, claims verification exactly after a valid authentication, and claims presence only after a touch. |
| CredMgmt.AssertionExactly | usb_hid_fido2/fido2.c:890-996 | Which error comes first, and an assertion exactly if there is none. |
| CredMgmt.Authenticator.GetNextAssertion | usb_hid_fido2/fido2.c:1009-1029 | Moves the walk on, and answers unless there is no next or no touch. |
| CredMgmt.WalkVisitsEachOnce | usb_hid_fido2/fido2.c:1009-1029 | The n-th getNextAssertion is answered with the n-th further credential of that relying party if it is touched, and passes over it if not; none follows the last. |
| CredMgmt.ListAll | host-tools/key_manager.py:47-75 | The host's loops over both enumerations return the report of the store, although they share the relying party hash. |
| CredMgmt.ReportListsEachOnce | host-tools/key_manager.py:47-75 | That report has one entry, and the right one, for every credential. |
| CredMgmt.EntryShows | usb_hid_fido2/fido2.c:1117-1171 | The entry of a credential has its own ids and user name, and the name stored with the first credential of its relying party; empty names get the made-up ones. |
| CmRequest.Authorize | usb_hid_fido2/fido2.c:1041-1084 | Reads subcommand, protocol, parameters and code from the encoded request and accepts exactly the authorised ones. |
| CmRequest.HostIsAuthorized | host-tools/key_manager.py:38-44 | The host's request is accepted if and only if it carries the code computed over subcommand and parameters with the live token. |
| CmRequest.RefusedWithoutToken | usb_hid_fido2/fido2.c:1044-1084 | With a PIN set, a request without a live token is refused. |
| CmRequest.ManagementWasEarned | usb_hid_fido2/fido2.c:1044-1084 | In every run a request accepted while a PIN is set has a code over subcommand and parameters, under a token issued for a matching PIN hash after the last key agreement. |
| CmRequest.TokenOpensManagement | host-tools/key_manager.py:27-44 | With the right PIN, the token the host decrypts authorises its requests. |
| CmRequest.HostPartyIsRead | host-tools/key_manager.py:62 | The relying party hash in the host's request is the one the device reads. |
| CmRequest.DeleteCredential | usb_hid_fido2/fido2.c:1185-1212 | From the bytes of the request: erases the first credential with the id found, or changes nothing. |
| CmRequest.DeletesExactly | usb_hid_fido2/fido2.c:1189-1199 | Which id a descriptor names: a string of 32 bytes or more under its first key 1. |
| CmRequest.HostDeleteFindsNothing | host-tools/key_manager.py:78-86 | No delete request of the host names a credential. |
| AesBytes.SBoxInverse | usb_hid_fido2/aes.c:79-115 | The two tables are inverse to each other on all 256 bytes. |
| AesBytes.MixInverse | usb_hid_fido2/aes.c:299-366 | The inverse column mix undoes the column mix on every column. |
| AesField.SBoxIsInverseThenAffine | usb_hid_fido2/aes.c:79-96 | Every entry of the table is the affine image of the inverse in GF(2^8), section 5.1.1 of FIPS 197. |
| AesField.MixIsProduct | usb_hid_fido2/aes.c:306-311 | The short form of the column mix is the product with the column 02 03 01 01. |
| AesField.MultiplyIsGfMul | usb_hid_fido2/aes.c:320-327 | The five-step multiplication is that of the field for constants below 32. |
| AesField.InvMixIsProduct | usb_hid_fido2/aes.c:356-364 | The inverse column mix is the product with the column 0e 0b 0d 09. |
| AesState.AddRoundKey | usb_hid_fido2/aes.c:237-247 | The round key is added to the state in place. |
| AesState.SubBytes | usb_hid_fido2/aes.c:251-261 | Every byte of the state goes through the table. |
| AesState.ShiftRows | usb_hid_fido2/aes.c:266-292 | The rotations and swaps together shift row r by r columns. |
| AesState.MixColumns | usb_hid_fido2/aes.c:300-313 | In place, every column becomes its mix although each byte is overwritten before the last is computed. |
| AesState.InvMixColumns | usb_hid_fido2/aes.c:350-366 | Every column becomes its inverse mix. |
| AesState.InvSubBytes | usb_hid_fido2/aes.c:371-381 | Every byte of the state goes through the inverse table. |
| AesState.InvShiftRows | usb_hid_fido2/aes.c:383-409 | Row r is shifted back by r columns. |
| AesState.Cipher | usb_hid_fido2/aes.c:413-436 | The state becomes the block encrypted under the schedule. |
| AesState.InvCipher | usb_hid_fido2/aes.c:439-461 | The state becomes the block decrypted under the schedule. |
| Aes.DecryptInverts | usb_hid_fido2/aes.c:413-461 | Decryption undoes encryption for every round-key schedule and block. |
| Fips197.EncryptMeets | usb_hid_fido2/aes.c:413-436 | Every byte of every round is that of FIPS 197: shifted rows, column products over GF(2^8), round keys, and a last round without columns. |
| AesCbc.KeyExpansion | usb_hid_fido2/aes.c:146-217 | The 240 bytes of the schedule of a 256-bit key. |
| Fips197.RoundConstant | usb_hid_fido2/aes.c:120-121 | The table of round constants holds the powers of 02 in GF(2^8). |
| Fips197.ScheduleByte | usb_hid_fido2/aes.c:146-217 | The schedule starts with the key, and every later byte is that of section 5.2 of FIPS 197, from earlier bytes, the S-box and the powers of 02. |
| AesCbc.Context.EncryptBuffer | usb_hid_fido2/aes.c:501-514 | The blocks of the buffer are chained in place, and the context keeps the last one. |
| AesCbc.Context.DecryptBuffer | usb_hid_fido2/aes.c:516-529 | The blocks are unchained in place, and the context keeps the last ciphertext block. |
| AesCbc.CbcInverse | usb_hid_fido2/aes.c:501-529 | CBC decryption undoes CBC encryption for any number of blocks. |
| AesCbc.BlocksAreChained | usb_hid_fido2/aes.c:501-529 | Each block is combined with the ciphertext before it, or the vector, on its own side of the cipher. |
| AesCbc.CbcEncryptParts | usb_hid_fido2/aes.c:512-513 | Encrypting in two calls with the kept vector equals one call. |
| AesCbc.CbcDecryptParts | usb_hid_fido2/aes.c:520-527 | The same for decryption. |
| AesCbc.EncryptByBlock | usb_hid_fido2/pin.c:57-64 | One call per block equals encrypting the whole buffer at once. |
| AesCbc.DecryptByBlock | usb_hid_fido2/pin.c:47-54 | One call per block equals decrypting the whole buffer at once. |
| Sha256.Context.MessageSchedule | usb_hid_fido2/sha256.c:28-31 | The 64 words of the schedule of the block in the buffer. |
| Sha256.Context.Transform | usb_hid_fido2/sha256.c:24-63 | The state is compressed with the block. |
| Sha256Constants.FirstPrimes | usb_hid_fido2/sha256.c:13-23 | The 64 numbers used are all the primes below 312, in order. |
| Sha256Constants.KeysAreCubeRoots | usb_hid_fido2/sha256.c:13-23 | Every round constant is the first 32 bits of the fraction of the cube root of its prime. |
| Sha256Constants.StartIsSquareRoots | usb_hid_fido2/sha256.c:69-76 | Every word of the first hash value is that of the square root of its prime. |
| Sha256Bits.ChSelects | usb_hid_fido2/sha256.c:6 | Bit by bit, the first word selects between the others. |
| Sha256Bits.MajIsMajority | usb_hid_fido2/sha256.c:7 | Bit by bit, the majority of the three words. |
| Sha256Bits.Ep0Bits | usb_hid_fido2/sha256.c:8 | Each bit is the parity of the bits 2, 13 and 22 places further round. |
| Sha256Bits.Ep1Bits | usb_hid_fido2/sha256.c:9 | The same with 6, 11 and 25 places. |
| Sha256Bits.Sig0Bits | usb_hid_fido2/sha256.c:10 | 7 and 18 places round, and 3 places up without going round. |
| Sha256Bits.Sig1Bits | usb_hid_fido2/sha256.c:11 | 17 and 19 places round, and 10 places up without going round. |
| Sha256Bytes.WordAtIsWord | usb_hid_fido2/sha256.c:28-29 | Bit by bit, a word is read from the block highest byte first. |
| Sha256Bytes.WordBytesIsWord | usb_hid_fido2/sha256.c:125-134 | A word is written highest byte first. |
| Fips180.ScheduleMeets | usb_hid_fido2/sha256.c:28-31 | The schedule meets the equations of section 6.2.2 of FIPS 180-4. |
| Fips180.CompressMeets | usb_hid_fido2/sha256.c:24-63 | So does the whole compression, as two recurrences over all values of a and e that are added to the hash value. |
| Sha256.Context.Update | usb_hid_fido2/sha256.c:79-92 | The context absorbs any input after any message, so that every split of a message leads to the same state. |
| Sha256.PadSplits | usb_hid_fido2/sha256.c:98-122 | The padded message is the whole blocks followed by one or two last blocks, by the fill of the buffer. |
| Fips180.PadMeets | usb_hid_fido2/sha256.c:98-122 | The padding is a 1, the fewest zeros that fill the block, and the 64-bit length of the message in bits. |
| Sha256.Context.PadBuffer | usb_hid_fido2/sha256.c:98-112 | Both branches leave the buffer one length field short of the padded message. |
| Sha256.Context.StoreLength | usb_hid_fido2/sha256.c:115-122 | The last eight bytes are the 64-bit length, big-endian. |
| Sha256.Context.Final | usb_hid_fido2/sha256.c:94-135 | The digest of the message: the fold of the compression over its padding. |
| Fips180.DigestMeets | usb_hid_fido2/sha256.c:65-135 | Every digest is the chain of such compressions over the padded message from the first hash value, written out. |
| Sha256Unique.DigestExactly | usb_hid_fido2/sha256.c:65-135 | These equations hold of a digest if and only if it is the one computed. |
| Sha256.HmacSha256 | usb_hid_fido2/sha256.c:137-174 | HMAC of the text, for keys shorter and longer than a block. |
| Fips180.HmacMeets | usb_hid_fido2/sha256.c:137-174 | The code is that of RFC 2104: two such digests, over the key filled up or hashed and changed bit by bit with 36 and 5c. |
| Sha256Unique.HmacExactly | usb_hid_fido2/sha256.c:137-174 | These equations hold of a code if and only if it is the one computed. |
| PinCrypto.DeriveKeys | usb_hid_fido2/pin.c:158-168 | The two session keys of either protocol, by HKDF or by one hash. |
| PinStandard.KeysMeet | host-tools/validate_full.py:52-58 | In protocol 2 HKDF with a zero salt and the two info strings, in protocol 1 one digest, over HMAC and SHA-256 as their standards define them. |
| PinCrypto.OpenSealed | host-tools/key_manager.py:29-35 | What one side seals under the AES key, the other opens, in either protocol. |
| PinCrypto.OpenMessage | usb_hid_fido2/pin.c:216-222 | The plaintext of a sealed message, with its vector in front or zero. |
| PinCrypto.SealMessage | usb_hid_fido2/pin.c:351-392 | The token sealed, with its vector in front in protocol 2. |
| PinStandard.SealMeets | usb_hid_fido2/pin.c:351-392 | A sealed message is, block by block, AES in CBC mode over the message, after its vector or with a vector of zeros. |
| PinStandard.BitsAreNumber | usb_hid_fido2/pin.c:47-64 | The bits that the cipher works on are those of the bytes. |
| PinCrypto.TrimPin | usb_hid_fido2/pin.c:225-226 | The PIN without its trailing zeros. |
| PinCrypto.TrimmedZeros | usb_hid_fido2/pin.c:224-227 | A PIN that does not end in NUL comes back from its padding. |
| PinStandard.PinHashMeets | usb_hid_fido2/pin.c:229-234 | What is stored of a PIN is half of its SHA-256 digest. |
| PinPage.PinStore.PinLoad | usb_hid_fido2/flash_passkey.c:165-169 | The stored PIN state, if the page holds one. |
| PinPage.PinStore.PinSave | usb_hid_fido2/flash_passkey.c:145-163 | The hash is stored with 8 retries, and no other page changes. |
| PinPage.PinFields | usb_hid_fido2/flash_passkey.h:17-22 | Every field at its place in the packed struct. |
| PinPage.PinStore.PinDecrementRetries | usb_hid_fido2/flash_passkey.c:171-191 | One retry less, never below zero; hash and other pages are unchanged. |
| PinPage.PinStore.PinResetRetries | usb_hid_fido2/flash_passkey.c:193-211 | 8 retries again; hash and other pages are unchanged. |
| ClientPin.Device.DoSetPin | usb_hid_fido2/pin.c:172-240 | Every outcome of setPIN, in the order of its tests. |
| ClientPin.Device.DoChangePin | usb_hid_fido2/pin.c:241-308 | Every outcome of changePIN, in the order of its tests. |
| ClientPin.Device.DoGetToken | usb_hid_fido2/pin.c:309-396 | Every outcome of the two token requests, in the order of their tests. |
| ClientPin.Device.ProcessClientPin | usb_hid_fido2/pin.c:66-401 | Response, session and flash after any request are those of the step specification. |
| PinProtocol.SetPinWorks | usb_hid_fido2/pin.c:172-240 | Setting any PIN of 4 to 64 bytes not ending in NUL stores its hash with 8 retries. |
| PinProtocol.ChangePinWorks | host-tools/key_manager.py:91-98 | The host's change request with the right old PIN stores the new one. |
| PinProtocol.TokenReachesHost | host-tools/key_manager.py:27-35 | With the right PIN and a retry left, the host decrypts exactly the device's token. |
| PinProtocol.ChangedPinGetsToken | host-tools/key_manager.py:27-98 | After a change, a new session with the new PIN yields the token, and any older token is void. |
| PinProtocol.SetPinGetsToken | host-tools/key_manager.py:27-35 | After a first PIN is set, a new session with it in either protocol yields the token. |
| PinProtocol.WrongPinCostsOneTry | usb_hid_fido2/pin.c:336-341 | A wrong PIN is refused, costs exactly one retry and leaves the token alone. |
| PinProtocol.RetriesAtMostEight | usb_hid_fido2/flash_passkey.c:145-211 | In every run there are at most 8 retries. |
| PinProtocol.GuessesAreLimited | usb_hid_fido2/pin.c:333-341 | In every run without success the wrong guesses and the retries left never exceed the retries at the start. |
| PinProtocol.NoTokenWhenBlocked | usb_hid_fido2/pin.c:333-335 | With no retries left, no request gets a token. |
| PinProtocol.LiveTokenWasEarned | usb_hid_fido2/pin.c:105-347 | In every run a live token was issued for a matching PIN hash, after the last key agreement. |
| PinProtocol.VerificationWasEarned | usb_hid_fido2/fido2.c:692-716 | In every run user verification is claimed only for a code over the client data hash under such a token. |
| PinRules.StoresExactly | usb_hid_fido2/pin.c:172-308 | A PIN is stored exactly for an authentic first PIN while none is set, and for an authentic new one from who names the hash that is stored, of at least four bytes each; it is then its hash with 8 retries, and otherwise the stored hash stays. |
| PinRules.HashChangesFor | usb_hid_fido2/pin.c:172-308 | A stored hash that is another one afterwards was a first PIN, or was changed by who named it. |
| PinRules.WrongOldPinCostsOneTry | usb_hid_fido2/pin.c:282-286 | An authentic change that does not name the stored hash is answered 0x31, costs exactly one retry, and changes nothing else. |
| PinRules.ForgedChangeCostsNothing | usb_hid_fido2/pin.c:270-272 | A change that is not authentic is answered 0x33 and changes nothing. |
| PinRules.NoSecondFirstPin | usb_hid_fido2/pin.c:183-185 | setPIN is answered 0x33 once a PIN is set. |
| PinRules.TokenRefused | usb_hid_fido2/pin.c:309-396 | The four refusals of a token request in their order; otherwise a token of the right length, with 8 retries again. |
| PinRules.OtherAnswers | usb_hid_fido2/pin.c:80-130 | Retries, key agreement, unknown protocols, and keys that are missing or malformed. |
| PinRules.HashChangesOnlyAt | usb_hid_fido2/pin.c:172-308 | In every run the stored hash changes only at such a first PIN, such a change, or a reset. |
| PinRules.PinStays | usb_hid_fido2/pin.c:241-308 | Once set, it stays in every run without a reset and without an authentic request that names it. |
| PinRules.VerifiedExactly | usb_hid_fido2/fido2.c:692-716 | Under a live token, user verification is claimed if and only if the code is the HMAC of the client data hash, whole in protocol 2 and half of it in protocol 1. |
| PinRules.RefusedWithoutToken | usb_hid_fido2/fido2.c:711-715 | Without a live token every code is refused. |
| PinRules.HostIsVerified | usb_hid_fido2/fido2.c:939-958 | The code a host computes with the token it decrypted is verified by the device. |

## Left out

- Word size: fixed at 32 bits, the size micro-ecc selects for this processor; the 64-bit branches of `muladd` and `mul2add` are not modelled.
- curve-specific.inc is not part of this model: `double_jacobian` is a parameter, and modular multiplication uses the reduction of optimisation level 0, the library's default, where the firmware's Makefile asks for level 3 and the fast reduction of that file.
- EccPoint.EccPointMult: the coordinates of a point are two arrays of words instead of the halves of one, and `uECC_yield` does nothing.
- FieldWords.FieldSquare: the branch of `uECC_SQUARE_FUNC` set to 1, which is off by default; its squaring routine is `VliMult.Square`, with the same words as a result (`VliMult.SquareAgreesWithMult`).
- VliMult.Mult: sizes below 2^32 words, as the source's counters have far smaller ones.
- Ecdsa.SignWithK: the random numbers are inputs in range; a failing generator is not modelled, and the random Z does not share the scratch buffers of the scalar.
- Verification of signatures, deterministic nonces, key compression and point validation of micro-ecc; `ecdsa_sig_to_der`.
- `memmove` and the other string functions of ch32fun.
- Strstr.Memchr: the index arithmetic has no wrap-around, as no object is that large.
- Rfc8949.DecodesEncoded: maps of whole pairs, the only ones the firmware writes.
- CborWalk.SkipCborItem: recursion is bounded by a number of stack frames given as a parameter, since the original has no bound but its stack; and there must be two readable bytes behind the data, which the original reads without a test.
- CborWalk.SkipExact: heads of at most two argument bytes and data below 64 KiB; a four-byte head is skipped by its first byte only, and offsets wrap at 16 bits.
- CborMap.GetMapItem: requires the key to be there, since the original returns no value otherwise.
- CmRequest.Authorize: requests that are encoded maps only, with parameters where the subcommand takes them.
- CtapHid.Device.SendResponse: how long the host may take; how many frames it takes in time is an input.
- CtapHid.Device.ProcessCTAPHID: the reply of a CBOR command is an input.
- The user presence wait, keepalive messages, and how soon CANCEL takes effect.
- Ring.Endpoint.OnPacket: the packet is stored and the counters are moved in one step; control requests, bus reset and endpoint halts are assumed not to occur after the first packet.
- Ring.Endpoint.ProcessOobCommands: what it sends; the reports of the control endpoint are inputs of the main loop.
- Flash.Memory.WritePage: unlocking and locking, and a power loss half-way.
- CredMgmt.Authenticator.GetAssertion: allow lists, which are found by a byte search, and the response with its signature; the options and the outcome of the authentication, which `PinProtocol` has, are inputs.
- CredMgmt.ListAll: the requests are calls with parsed parameters; `CmRequest` has the encoded requests and their authentication, but not the encoded replies.
- makeCredential, getInfo, reset and selection commands, and `find_cbor_string`.
- AesCbc.Context.EncryptBuffer: the buffer is an array of 16-byte blocks; each block is copied to a 16-byte state, encrypted in place and copied back.
- ClientPin.Device.ProcessClientPin: the request is parsed and the ECDH secret is an input; `g_pin_debug` is not kept.
- PinProtocol.GuessesAreLimited: counts token requests only, because changePIN does not test the retries; it does lower them.
- Secrecy, timing, and collision resistance of the hash.
- The delete loop of `key_manager.py`, which calls the modelled request once for each credential.
