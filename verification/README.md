# pivy, modelled and verified in Dafny

pivy is a set of tools around PIV smart cards: an SSH agent, encrypted boxes that N of M key holders
can recover, and the cryptographic code that these need.  This project models the parts of it that
are hardest to get right and proves what they promise.

- **Ed25519** (`ed25519/`).  Barrett reduction and scalar arithmetic on unreduced 32-bit limbs
  (`Sc25519`, `Barrett`, `BarrettRemainder`, `ScalarOps`, `Windows`), the field modulo 2^255-19
  (`Fe25519`, `FeCompare`, `FeChains`), point formulas and scalar multiplication (`Edwards`,
  `Formulas`, `Ge25519`, `Multiples`, `DoubleScalarMult`, `BaseMult`), packing and unpacking of points
  (`SquareRoot`, `PointEncode`, `PointDecode`), key generation, signing and opening (`Ed25519`,
  `SignOpen`).
- **ChaCha20 and Poly1305** (`chapoly/`, `libssh/cipher.c`): `Poly1305Limbs`, `Poly1305Load`,
  `Poly1305`, `ChaCha`, `ChaChaContext`, `ChachaPoly`.
- **eboxes** (`ebox.c`): the file format and its parser (`EboxFormat`, `EboxFile`), templates
  (`EboxTemplate`), creation and recovery (`Ebox`, `EboxOps`), and all together (`EboxRoundTrip`).
- **The card protocol** (`piv.c`, `pivy-agent.c`): transactions and the PIN (`PivToken`), the agent as
  a state machine over arbitrary card failures (`Agent`), command and response chaining (`ApduChain`).
- **Formats**: BER-TLV (`TlvFormat`, `TlvReader`, `TlvWriter`) and base64 (`Base64`, `Base64Code`).

`Bits`, `Limbs`, `Rows`, `Field` and `Buffers` hold what these share.  Words are natural numbers with
the wrap-around of 32- and 64-bit arithmetic written out; bit operations are defined on numbers.
`dafny verify dfyconfig.toml` checks everything.

Some definitions carry a `depth` argument that does nothing but keep them folded during proofs;
`Field.Residue` explains the device.

## Where the code and its promise part

- `fe25519_mul` may leave limb 31 equal to 128, and freezing such a value does not give its canonical
  residue.  It happens to products with small residues from 19 up (`FeCompare.ProductWraps`), and never
  to one with a residue outside 19 .. 47442 (`FeCompare.ProductBelow`).  So `fe25519_iseq_vartime` is not congruence
  (`FeCompare.EqualityExactly`, `FeCompare.EqualityFailsAbove255`); `ge25519_pack` encodes the curve
  point with y = 19 wrongly in some coordinates (`PointEncode.PackFailsAtNineteen`); and
  `ge25519_unpackneg_vartime` refuses the curve point with y = 9 (`PointDecode.RefusesNine`).  A signature
  is certain to open if A and R have no coordinate that close to 0 (`SignOpen.RoundTrip`).
- The PIN retry counter is safe in every session exactly for cards that do not reject the empty VERIFY
  as malformed (`Agent.Session` and `Agent.WrongPinsExhaust`).
- A card can stay verified outside a transaction.  `PivToken.PresentThenEnd` says exactly when; without
  lost replies and failed resets it never does (`Agent.Session`).
- An ebox is written exactly if its recovery data is shorter than 224 bytes
  (`EboxRoundTrip.CreateAndStore`).
- Removing a part from a template configuration does not lower its part count, so that the count
  written to a file is right exactly if no part was removed (`EboxTemplate.CountIsRight`), and a
  configuration can ask for more parts than it has (`EboxTemplate.RemovalIsNotCounted`).
- `b64_pton` needs one byte more than the data unless the data ends with a whole group of three
  (`Base64Code.Pton`).

The ebox parser refuses primary configurations with a threshold above one, which the theorems on storage
state as a condition.  No template that `ebox.c` builds or reads has one (`EboxTemplate.BuiltIsUnsplit`),
so that the condition always holds (`EboxRoundTrip.StoreBuilt`).

## Model

| member | source | states |
|---|---|---|
| `BarrettRemainder.BarrettReduce` | ed25519/sc25519.c:50-99 | for every 64 bytes, r is exactly x mod m; two conditional subtractions suffice and no 32-bit word wraps |
| `BarrettRemainder.EstimateIsClose` | ed25519/sc25519.c:65-73 | the truncated quotient never exceeds x / m and falls short by less than 3: the answer to the question whether r < 0 can happen |
| `Barrett.Quotient` | ed25519/sc25519.c:65-71 | the quotient estimate against mu times the high limbs, with the error of the rows that are skipped |
| `BarrettRemainder.RemainderProduct` | ed25519/sc25519.c:74-76 | m times the estimate, modulo 256^33, with accumulators bounded by the real limbs of m |
| `BarrettRemainder.Remainder` | ed25519/sc25519.c:58-91 | 32-limb subtraction loses nothing: the difference lies in 0 .. 3m |
| `BarrettRemainder.RLimitFits` | ed25519/sc25519.c:74-84 | with the actual constants the accumulators and their carries stay below 2^32 |
| `Sc25519.ReduceAddSub` | ed25519/sc25519.c:29-47 | subtracts m once exactly when the value is at least m |
| `Sc25519.Subtract` | ed25519/sc25519.c:37-43 | the borrow chain: the difference modulo 256^32 and the final borrow |
| `ScalarOps.From32Bytes` | ed25519/sc25519.c:101-108 | the bytes modulo m |
| `ScalarOps.From64Bytes` | ed25519/sc25519.c:116-122 | the bytes modulo m |
| `ScalarOps.Add` | ed25519/sc25519.c:166-177 | x + y modulo m, also when r is x or y |
| `ScalarOps.Mul` | ed25519/sc25519.c:192-211 | x y modulo m, also when r is x or y |
| `Windows.Window3` | ed25519/sc25519.c:220-255 | 85 digits in -4 .. 3 whose base-8 sum is the scalar |
| `Windows.Interleave2` | ed25519/sc25519.c:294-307 | 127 digits from which both scalars can be read in base 4 |
| `Fe25519.ReduceAddSub` | ed25519/fe25519.c:42-60 | congruent modulo 2^255-19 and below 2^255, without wrap-around |
| `Fe25519.ReduceMul` | ed25519/fe25519.c:62-80 | congruent, limbs at most 255 and limb 31 at most 128, without wrap-around; what limb 30 holds above 2^15 comes back 19-fold, and less than 47424 is left above 2^255 |
| `Fe25519.Add` | ed25519/fe25519.c:177-182 | congruent to the sum and below 2^255 |
| `Fe25519.Sub` | ed25519/fe25519.c:184-193 | congruent to the difference and below 2^255; no limb underflows |
| `Fe25519.Neg` | ed25519/fe25519.c:168-175 | congruent to the negative |
| `Fe25519.Mul` | ed25519/fe25519.c:195-210 | congruent to the product, limbs at most 255 and limb 31 at most 128; below 2^255 + 47424, and never below 19 times the 2^15-part of 38 times the product of the top limbs |
| `Fe25519.Square` | ed25519/fe25519.c:212-215 | congruent to the square |
| `Fe25519.Freeze` | ed25519/fe25519.c:83-97 | subtracts 2^255-19 exactly when all limbs are in the top range |
| `FeCompare.FrozenCong` | ed25519/fe25519.c:83-97 | freezing keeps the residue of every loose limb vector |
| `FeCompare.FrozenCanonical` | ed25519/fe25519.c:83-97 | below 2^255 the frozen value is the canonical residue |
| `FeCompare.Pack` | ed25519/fe25519.c:107-114 | the bytes of the frozen value |
| `FeCompare.Unpack` | ed25519/fe25519.c:99-105 | the 255 low bits |
| `FeCompare.IsEqVartime` | ed25519/fe25519.c:128-138 | compares frozen values |
| `FeCompare.EqualityExactly` | ed25519/fe25519.c:128-138 | the comparison agrees with congruence exactly when both values are below 2^255 or both are not |
| `FeCompare.EqualityFailsAbove255` | ed25519/fe25519.c:128-138 | the product of -1 and -19 comes out as 2^255, which the comparison does not recognise as 19 |
| `FeCompare.ProductWraps` | ed25519/fe25519.c:62-80 | a product with a residue from 19 up to that lower bound comes out above 2^255 |
| `FeCompare.ProductBelow` | ed25519/fe25519.c:62-80 | a product with a residue outside 19 .. 47442 comes out below 2^255 |
| `Fe25519.BothRounds` | ed25519/fe25519.c:62-80 | the exact number that the two rounds of reduce_mul leave |
| `FeCompare.IsZero` | ed25519/fe25519.c:116-126 | whether the frozen value is 0 |
| `FeCompare.GetParity` | ed25519/fe25519.c:83-97 | the low bit of the frozen value |
| `FeChains.Invert` | ed25519/fe25519.c:217-282 | exactly x^(2^255-21), for every x |
| `FeChains.Pow2523` | ed25519/fe25519.c:284-336 | exactly x^(2^252-3), for every x |
| `Formulas.AddFormula` | ed25519/ge25519.c:104-123 | the completed coordinates are those of the Edwards sum |
| `Formulas.DoubleFormula` | ed25519/ge25519.c:125-141 | doubling, by the curve equation |
| `Ge25519.ToP2` | ed25519/ge25519.c:68-73 | completed to projective coordinates of the same point |
| `Ge25519.ToP3` | ed25519/ge25519.c:75-79 | completed to extended coordinates of the same point, t included |
| `Ge25519.AddP1P1` | ed25519/ge25519.c:104-123 | limb coordinates of the Edwards sum |
| `Ge25519.DblP1P1` | ed25519/ge25519.c:125-141 | limb coordinates of the double; t is not read |
| `Ge25519.MixAdd2` | ed25519/ge25519.c:81-102 | adding an affine point in place |
| `DoubleScalarMult.Precompute` | ed25519/ge25519.c:264-283 | entry i + 4j of the table is i p1 + j p2 |
| `DoubleScalarMult.Step` | ed25519/ge25519.c:285-301 | four times the accumulator plus a table entry; the t coordinate is recomputed before it is read |
| `DoubleScalarMult.DoubleScalarMultVartime` | ed25519/ge25519.c:260-302 | s1 p1 + s2 p2, for all scalars below 2^254 |
| `BaseMult.ChooseT` | ed25519/ge25519.c:168-179 | the entry b 8^pos B without branching on b |
| `BaseMult.ScalarMultBase` | ed25519/ge25519.c:304-319 | s B for every s below m, if the table holds k 8^i B |
| `PointDecode.Candidate` | ed25519/ge25519.c:206-219 | the candidate root num den^3 (num den^7)^(2^252-3) |
| `SquareRoot.CandidateSquared` | ed25519/ge25519.c:206-219 | if num / den is a square, the square of the candidate is num / den or its negative |
| `SquareRoot.AcceptedExactly` | ed25519/ge25519.c:221-231 | of a quotient that is a square, the root found by the two checks is accepted exactly if no check that holds is above 2^255 |
| `PointDecode.ChooseSign` | ed25519/ge25519.c:233-235 | the root of the opposite parity, its square unchanged |
| `PointDecode.UnpackNegVartime` | ed25519/ge25519.c:194-239 | whatever is accepted satisfies the curve equation, with z = 1 and t = x y, and stands for a point on the curve; the canonical encoding of a curve point is accepted exactly if no check that holds comes out above 2^255, and decoded to the negative exactly if the root does not either |
| `PointDecode.DecodableIsClean` | ed25519/ge25519.c:194-239 | so every curve point is decoded for which y^2 - 1, x and -x have residues outside 19 .. 47442 |
| `PointDecode.RefusesNine` | ed25519/ge25519.c:226-231 | the encoding of the curve point with y = 9 and x even is refused |
| `PointEncode.Pack` | ed25519/ge25519.c:241-249 | the canonical encoding of the point exactly if both affine coordinates come out below 2^255 |
| `PointEncode.PlainFits` | ed25519/ge25519.c:241-249 | which they do for every representation of a point with x and y outside 19 .. 47442 |
| `PointEncode.PackFails` | ed25519/ge25519.c:241-249 | every point with 19 <= y < 342, represented with z = -1, is packed to something else |
| `PointEncode.PackFailsAtNineteen` | ed25519/ge25519.c:241-249 | among them a point on the curve, with y = 19 |
| `Ed25519.ClampedScalar` | ed25519/ed25519.c:36-39 | the secret scalar is a multiple of 8 between 2^254 and 2^255 |
| `Ed25519.Keypair` | ed25519/ed25519.c:25-48 | the secret key is seed and public key, and the public key what ge25519_pack makes of the multiple of the base point by the clamped hash of the seed |
| `Ed25519.GetHram` | ed25519/ed25519.c:13-22 | hashes R, A and the message, also when the playground is the message buffer |
| `Ed25519.Sign` | ed25519/ed25519.c:50-100 | R packed for k B, with k the hash of secret prefix and message; s = h a + k modulo m; the message; built in the buffer that is hashed twice |
| `Ed25519.VerifyEquation` | ed25519/ed25519.c:120-127 | h (-A) + s B = k B |
| `Ed25519.Open` | ed25519/ed25519.c:102-143 | 0 exactly when the key decodes and R equals what ge25519_pack makes of h (-A) + s B; the message is copied out on success and cleared on failure |
| `Ed25519.Verify32` | ed25519/ed25519.c:152-189 | 0 exactly for equal strings |
| `SignOpen.SignedIsAccepted` | ed25519/ed25519.c:50-143 | with A and R packed canonically and A decoded cleanly, R equals the recomputed point's bytes exactly if that is packed canonically too |
| `SignOpen.RecomputedIsR` | ed25519/ed25519.c:120-127 | for every signature, h (-A) + s B is the R of the signer |
| `SignOpen.OrdinaryIsAccepted` | ed25519/ed25519.c:50-143 | all of this holds if no coordinate of A or R is close to 0 |
| `SignOpen.RoundTrip` | ed25519/ed25519.c:25-143 | generate, sign, open: 0 for all A and R with no coordinate close to 0, and in any case, if A and R were packed below 2^255 and A decoded cleanly, exactly if R is packed below 2^255 again; 0 gives back the message |
| `Poly1305.HornerIsPowerSum` | chapoly/poly1305.c:69-123 | block-by-block evaluation is the sum of coefficients times powers of r |
| `Poly1305Load.ClampKey` | chapoly/poly1305.c:44-55 | the masks clear exactly the bits that section 2.5 of RFC 8439 clears |
| `Poly1305Load.BlockLimbs` | chapoly/poly1305.c:75-84 | five limbs of a 16-byte block with its top bit |
| `Poly1305Limbs.MulStep` | chapoly/poly1305.c:87-99 | product modulo 2^130-5; no 64-bit sum overflows and no 32-bit carry loses a bit, and the bounds are kept |
| `Poly1305.Accumulate` | chapoly/poly1305.c:62-123 | all blocks, the padded last one included |
| `Poly1305Load.FinalCarry` | chapoly/poly1305.c:125-132 | carried limbs of the same residue |
| `Poly1305Load.Canonical` | chapoly/poly1305.c:134-146 | the masked choice picks the canonical residue |
| `Poly1305.AddPad` | chapoly/poly1305.c:148-156 | addition of the second key half modulo 2^128 |
| `Poly1305.Auth` | chapoly/poly1305.c:31-157 | the tag of section 2.5 of RFC 8439 for every key and every message length |
| `ChaCha.CryptTwice` | chapoly/chacha.c:88-217 | encrypting twice gives the data back |
| `ChaChaContext.Context.KeySetup` | chapoly/chacha.c:53-76 | the sixteen words become the constants and the key, for 256 and for 128 bits, and whatever counter and nonce there were stay |
| `ChaChaContext.Context.IvSetup` | chapoly/chacha.c:78-85 | the block counter becomes the 64-bit number that its bytes spell, 0 without one, and the key stays |
| `ChaChaContext.Block` | chapoly/chacha.c:122-163 | twenty rounds and the input added again |
| `ChaChaContext.XorWordsBytes` | chapoly/chacha.c:165-203 | exclusive or by words is exclusive or by bytes |
| `ChaChaContext.NextCounter` | chapoly/chacha.c:182-186 | the two counter words count modulo 2^64 |
| `ChaChaContext.Context.EncryptBytes` | chapoly/chacha.c:87-217 | byte i meets byte i mod 64 of block counter + i / 64, in place or from buffer to buffer, and the counter moves on |
| `ChachaPoly.Cipher.Init` | libssh/cipher.c:743-752 | both contexts keyed, or an error for a wrong key length |
| `ChachaPoly.Cipher.Crypt` | libssh/cipher.c:763-815 | header and payload under their keys; the tag is made on encryption and decides decryption, which leaves dest alone when it fails |
| `ChachaPoly.TransformedTwice` | libssh/cipher.c:793-802 | decryption of an encryption is the text |
| `ChachaPoly.RoundTrip` | libssh/cipher.c:763-815 | a packet is accepted and restored by any cipher with its key, whatever either did before |
| `PivToken.Token.Begin` | piv.c:1758-1786 | in a transaction exactly on success; reconnecting resets the card |
| `PivToken.Token.End` | piv.c:1788-1803 | the pending reset takes the security status away unless it fails; the flag is cleared |
| `PivToken.Token.Precheck` | piv.c:3421-3509 | what the empty VERIFY decides |
| `PivToken.Token.PresentPin` | piv.c:3511-3569 | the padded PIN, its outcome and the retry count |
| `PivToken.Token.VerifyPin` | piv.c:3384-3570 | when the PIN is sent, that a capped try leaves the cap untouched, that success asks for a reset |
| `PivToken.PresentThenEnd` | piv.c:1788-1803 | exactly when a PIN leaves the card verified after the transaction: the card takes it and keeps its power, and its reply is lost with no earlier reset carried out, or the reset fails |
| `PivToken.EscapeHappens` | piv.c:3532-3545 | both ways out occur, for every PIN |
| `Agent.Agent.Close` | pivy-agent.c:284-296 | ends the transaction when forced or timed out |
| `Agent.Agent.Open` | pivy-agent.c:330-403 | success exactly when a transaction is open; every failure path leaves none |
| `Agent.Agent.Probe` | pivy-agent.c:405-440 | two failures in a row forget the PIN |
| `Agent.Agent.WrapPinError` | pivy-agent.c:442-464 | which errors forget the PIN |
| `Agent.Agent.TryPin` | pivy-agent.c:466-477 | the held PIN under a cap of one |
| `Agent.Agent.UseKey` | pivy-agent.c:687-733 | the loop at pin_again: at most one try is lost, every failure closes the transaction |
| `Agent.Agent.Sign` | pivy-agent.c:634-733 | a refused key management key sends no PIN and leaves the transaction to its timeout |
| `Agent.Agent.Ecdh` | pivy-agent.c:802-881 | key agreement with the same PIN handling |
| `Agent.Agent.Rebox` | pivy-agent.c:952-963 | opening a box with the PIN forced |
| `Agent.Agent.Attest` | pivy-agent.c:1040-1067 | two card commands and no PIN |
| `Agent.Agent.Identities` | pivy-agent.c:561-588 | a failed card authentication closes the transaction and forgets the PIN |
| `Agent.Agent.Unlock` | pivy-agent.c:1193-1243 | a PIN is kept only if the card accepted it |
| `Agent.Agent.Handle` | pivy-agent.c:1316-1349 | what every request keeps |
| `Agent.Agent.Run` | pivy-agent.c:2226-2246 | over any rounds: txnopen exactly when selk is in a transaction, PIN-verified only where a reset will follow, never the last try |
| `Agent.Session` | pivy-agent.c:2218-2246 | the same from start-up, under any pattern of failures |
| `Agent.WrongPinsExhaust` | piv.c:3460-3482 | for a card that does not know the empty VERIFY there is a session that uses up every try, so the counter is safe in every session exactly for the others |
| `TlvFormat.TagReads` | tlv.c:178-194 | a well-formed tag is read back |
| `TlvFormat.LenReads` | tlv.c:196-232 | every length form that the writer uses is read back |
| `TlvFormat.ForestReads` | tlv.c:158-270 | any writable tree is parsed as the same tree |
| `TlvReader.Reader.ReadTag` | tlv.c:158-253 | the tag and its content as a nested context; errors leave the contexts alone |
| `TlvReader.Reader.End` | tlv.c:255-270 | leaves the context, reporting whether bytes remain |
| `TlvReader.Reader.Skip` | tlv.c:272-284 | moves to the end of the context |
| `TlvReader.Reader.Abort` | tlv.c:286-299 | back to the root, nothing left; the range assertions hold |
| `TlvReader.Reader.ReadU8to32` | tlv.c:325-343 | the remaining one to four bytes as a number |
| `TlvReader.Reader.ReadUpto` | tlv.c:345-360 | as much as fits |
| `TlvReader.Reader.ReadString` | tlv.c:362-385 | everything left, or an error at a NUL |
| `TlvReader.Reader.Perform` | tlv.c:158-413 | any calls, failed ones included, keep contexts nested and the position inside |
| `TlvReader.Reader.Rem` | tlv.h:146-150 | the subtraction never underflows |
| `TlvReader.Reader.ReadForest` | tlv.c:158-270 | reading by contexts is parsing |
| `TlvWriter.Writer.WriteU8to32` | tlv.c:440-464 | the number without leading zero bytes |
| `TlvWriter.Writer.PushL` | tlv.c:99-129 | the tag and a reserved length field |
| `TlvWriter.Writer.Pop` | tlv.c:131-156 | the length field filled in, everything else unchanged |
| `TlvWriter.Writer.WriteForest` | tlv.c:99-156 | push, write and pop produce the encoding |
| `TlvWriter.RoundTrip` | tlv.c:99-270 | any writable tree that fits is read back with nothing left over |
| `ApduChain.BufferParts` | piv.c:1512-1538 | what a card reads in a command |
| `ApduChain.SentConcatenates` | piv.c:1675-1713 | the accepted data fields concatenate to the part of the payload sent so far |
| `ApduChain.SentChains` | piv.c:1678-1685 | at most 255 bytes, and the chain bit on all commands but the last |
| `ApduChain.Apdu.Transceive` | piv.c:1585-1659 | one exchange, the reply at the reply offset |
| `ApduChain.Apdu.Send` | piv.c:1675-1713 | resends on a corrected length, moves on when accepted, stops when refused |
| `ApduChain.Apdu.Receive` | piv.c:1715-1756 | CONTINUE exactly while more is expected; the segments become one reply |
| `ApduChain.Apdu.TransceiveChain` | piv.c:1665-1756 | for every payload and every card script: the whole payload and the whole reply, or the refusal |
| `Base64.DecodeEncode` | libssh/base64.c:131-310 | decoding inverts encoding |
| `Base64.EncodeDecode` | libssh/base64.c:194-310 | whatever is accepted is the encoding of the result |
| `Base64Code.Ntop` | libssh/base64.c:131-183 | the encoding and a NUL, or -1 exactly when they do not fit |
| `Base64Code.Pton` | libssh/base64.c:194-310 | the bytes whose encoding is the text without white space, or -1 exactly when there are none or they do not fit; without a target, their number |
| `Base64Code.PtonLength` | libssh/base64.c:194-310 | without a target: the length, or -1 exactly for text of the wrong shape |
| `Base64Code.MeasureOfDecoded` | libssh/base64.c:194-310 | the length found without a target is that of the data |
| `Base64Code.DecodeText` | libssh/base64.c:194-310 | white space anywhere does not matter |
| `Base64Code.RoundTrip` | libssh/base64.c:131-310 | what is written is read |
| `Ebox.PaddingComesOff` | ebox.c:2537-2551 | padding is removed exactly |
| `Ebox.RecoveryDataReads` | ebox.c:2651-2665 | tagged token and key are read back |
| `Ebox.MaskedTwice` | ebox.c:2694-2698 | the nonce masks and unmasks |
| `EboxTemplate.Config.constructor` | ebox.c:349-360 | an empty configuration, with n = 1 for a primary |
| `EboxTemplate.Config.SetN` | ebox.c:384-399 | n is set exactly if it is between 1 and the part count, and 1 for a primary |
| `EboxTemplate.Config.AddPart` | ebox.c:413-427 | one part more, counted in a byte |
| `EboxTemplate.Config.RemovePart` | ebox.c:429-445 | one part less, with the count as it was |
| `EboxTemplate.Config.Perform` | ebox.c:384-445 | any sequence of these calls |
| `EboxTemplate.PrimaryIsUnsplit` | ebox.c:349-445 | no sequence of calls gives a primary another n than 1 |
| `EboxTemplate.CountIsRight` | ebox.c:413-445 | the count is the number of parts exactly if no part was removed |
| `EboxTemplate.NeverTooMany` | ebox.c:384-427 | n never exceeds the number of parts added |
| `EboxTemplate.RemovalIsNotCounted` | ebox.c:429-445 | after a removal, a configuration of one part accepts n = 2 |
| `EboxTemplate.BuiltIsUnsplit` | ebox.c:884-895 | no configuration made by the calls or let through by the parser is a split primary |
| `EboxFormat.PartReads` | ebox.c:1657-1920 | a written part is read back, its box with the ephemeral key found for its curve |
| `EboxFile.ConfigReads` | ebox.c:1922-2000 | a written configuration is read back |
| `EboxFile.ConfigsRead` | ebox.c:2145-2167 | a row of configurations is read back, or refused exactly if a primary one has a threshold above one |
| `EboxFile.LookupReversed` | ebox.c:228-239 | reading reverses the ephemeral keys, and every box still finds its own |
| `EboxFile.Reads` | ebox.c:2058-2174 | a written ebox is read back, or refused exactly if a primary configuration has a threshold above one |
| `EboxOps.EboxObject.EncryptRecovery` | ebox.c:2567-2622 | recovery data padded and encrypted under a fresh key |
| `EboxOps.EboxObject.DecryptRecovery` | ebox.c:2465-2565 | decrypted, its padding checked and removed |
| `EboxOps.EboxObject.MakeEphemeral` | ebox.c:241-263 | one ephemeral key per curve |
| `EboxOps.EboxObject.MakeParts` | ebox.c:2709-2758 | every part is sealed with its share if there are shares and with the key otherwise |
| `EboxOps.Create` | ebox.c:2624-2771 | every configuration as its template asks: the one variable for shares is empty again before the next configuration |
| `EboxOps.EboxObject.Recover` | ebox.c:2797-2940 | token and key from the first n shares at hand, or the error |
| `EboxOps.EboxObject.Unlock` | ebox.c:2773-2789 | the key from the first part with data |
| `EboxRoundTrip.CreatedIsWritten` | ebox.c:2340-2402 | what was created can be written exactly if token and key are short enough |
| `EboxRoundTrip.AvailableIsPicked` | ebox.c:2827-2846 | the shares collected are different shares in order |
| `EboxRoundTrip.CreateAndStore` | ebox.c:2058-2174 | writing succeeds exactly for recovery data below 224 bytes, reading exactly without split primaries, and then every configuration arrives as it was made |
| `EboxRoundTrip.StoreBuilt` | ebox.c:349-399 | so for templates that can be built, what can be written can be read |
| `EboxRoundTrip.RecoverAfterStorage` | ebox.c:2797-2940 | any n parts opened after storage, with the ephemeral keys read back, restore key and token; fewer do not |
| `EboxRoundTrip.UnlockAfterStorage` | ebox.c:2773-2789 | any part of a primary configuration gives the key, also after a recovery configuration |

## Left out

- The Edwards group law and the primality of 2^255-19: that the addition law is a complete abelian group law is the hypothesis `EdwardsGroup` of `Edwards`; Fermat's theorem modulo 2^255-19 is `SquareRoot.FermatHolds`; that the base point has order m is part of `Ed25519.BaseOf`.
- `ge25519_base_multiples_affine`: the data table is not part of this model; its contents are the hypothesis `BaseMult.BaseTable`.
- SHA-512, random bytes and memory clearing: the hash is an arbitrary function to 64 bytes, random bytes are parameters.
- SignOpen.RoundTrip: no pair of seed and message is given for which the result is not 0, which would take a discrete logarithm; messages are shorter than 2^32 bytes, the width of the copy counter.
- PointEncode.Pack: takes Fermat's theorem for z as a hypothesis.
- PointEncode.PlainFits: the bound 47442 is not tight; between 342 and there the packing may or may not depend on the representation.
- Field elements are passed and returned by value; that the C functions may be called with the result aliasing an operand is modelled for `sc25519_add`, `sc25519_mul`, `get_hram`, ChaCha and chachapoly only.
- `sc25519_window5`, short scalars and the comparison functions of `sc25519.c`, which the signature code does not use.
- Poly1305.Auth: takes message and key as byte strings; the output buffer is returned, not written.
- `chachapoly_get_length`.
- Ebox versions 1 and 2: version 1 files and their embedded boxes are not parsed, version 2 is read but not written.
- EboxFile.Reads: the parser is modelled on values, with the rest of the bytes as its cursor; EC points, curve names and keys are validated by arbitrary predicates.
- EboxOps.Create: templates state as many parts as they have, which `EboxTemplate.CountIsRight` shows to hold if no part was removed; Shamir's scheme, the cipher, the sealing of boxes and the opening of them on a card are functions with their round trips as hypotheses.
- EboxOps.EboxObject.Recover: failed assertions on sizes are an outcome; clearing of memory is not modelled.
- ebox templates on disk beyond the tests on type and n, streams and challenge-response exchange.
- Agent.Agent.Rebox: the box's slot is already loaded; the lookup that may begin a transaction of its own is not modelled.
- Agent.Agent.Open: the search among readers is one step that fails, finds nothing or finds the token.
- Agent.Agent.Handle: requests are taken after parsing; sockets, replies, signature encoding, signals and logging are not part of the model.
- Agent.Session: other programs use the card only between transactions and leave it unverified with a try left; the card answers with at most fifteen tries, as one nibble allows.
- PivToken.Token.Begin: PC/SC reports a reset card a finite number of times.
- ApduChain.Apdu.TransceiveChain: the card's answers are a finite script; a reply that does not fit the buffer is an error of PC/SC.
- TlvReader.Reader.Perform: ends before a call that would leave the root context, which the C code asserts never happens.
- TlvWriter.Writer.PushL: the caller provides room in the buffer, which the C code does not check for length fields.
- Command line tools, the PAM module, X.509, RSA and ECDSA handling, zlib, ZFS and cryptsetup glue.
