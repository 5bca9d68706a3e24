# TortoisePlink: verified models of the cores

The SSH client in `ext/TortoisePlink` (a PuTTY fork) rests on a few cores whose
correctness is not visible in any one function: projective elliptic-curve
formulas, codecs that must undo each other, state machines that match replies to
requests with flags, and loops whose invariants are nowhere written down. This
project models those cores in Dafny 4.11 and proves what they are for.
`dafny verify dfyconfig.toml` checks everything.

Code that computes a value (curve formulas, comparisons) is modelled by functions.
Code that updates objects step by step (points in the ladders, readers, string
buffers, the configuration tree, channels, the control box, the callback list,
the dump buffer) is modelled by classes and loops, each proved against a
reference defined independently of it. `log` and `out` fields stand for the calls
a component makes on its surroundings.

## What is modelled

**Elliptic curves** (`PrimeField` to `EdwardsLadder`). The field is the residues
modulo an odd prime, with no further assumption. For short Weierstrass curves the
affine chord-tangent law (section 2.2.1 of SEC 1) is the reference: the Jacobian
double, add and general add are related to it on every triple, including infinity,
inverse points and points of order two. For Montgomery curves (section 5 of RFC
7748) an XZ pair *represents* a point; doubling and differential addition are
proved for all points, infinity included, through the identity
x(P+Q) x(P-Q) (x(Q)-x(P))^2 = (x(P)x(Q)-1)^2. For Edwards curves (section 5.1.4 of
RFC 8032) extended addition keeps both coordinate invariants and computes the
affine rule; on complete curves it never fails. Each multiply loop is related to nB
for every n and every bit count, with the exact condition where it can miss it.
Closure, inverses and commutation of the group law are proved; associativity is the
one assumption, carried as an explicit precondition; `GroupLawExamples` proves it of a
Weierstrass curve with four points, on which the ladder is then followed for every n,
and `OtherGroupExamples` of a Montgomery and an Edwards curve.

**Codecs.** `Marshal` is the sink and the sticky-error reader (section 5 of RFC
4251); `Ber` is sections 8.1.2 and 8.1.3 of ITU-T X.690; `MpInts` the two big-integer
encodings; `PemKeys` and `SshcomKeys` whole RSA and DSA private keys (appendix A.1.2
of RFC 8017 for the RSA sequence) between the key blobs and the file blob, with any
length-keeping cipher that is its own inverse pair. `ConfKeys`, `ConfCodec` and
`Configuration` are the typed configuration: its order, its store as a map, and its
serialised form. Reading undoes writing; what the bytes are is stated on its own, part by
part and in terms of the numbers they denote (`WordsAreBigEndian`, `HeaderMeans`,
`FileHolds`, `EntryInWords`), and so is what the readers make of any input.

**State machines.** `MainChannelSpec` is the main session channel with an explicit
queue of the requests counted as unanswered (section 4 of RFC 4254) and no flags;
`MainChannel` is the class with the flags and counters, proved to follow it event by
event. `MainChannelWire` compares that queue with the requests really sent, and
`MainChannelWords` tells by the log and the events alone what is asked for, what follows
each reply and when an EOF is written.
`AgentForwarding` is the request framing with back-pressure in front of an
arbitrary agent. `Callbacks` is the linked list of top-level callbacks with
in-place deletion.

**Streams and indexes.** `ProxyStderr` cuts a byte stream into log lines through a
fixed buffer; `LogPacket` dumps packets with blanking, and `LogText` says what the
characters of a dump mean; `ControlPaths` and
`ControlBoxes` keep panels contiguous in the dialog's array; `GrowArray` is
amortised growth.

## What was found

- `ecc_weierstrass_add` asserts on the slope numerator (ecc.c:311), although its
  comment speaks of x-coordinates. `Addable` is the assertion as coded. While the pairs
  stay finite a multiply aborts exactly when two consecutive multiples on the way have
  the same y-coordinate (`WeierstrassLadder.LadderValue`).
- The Weierstrass ladder uses that plain addition, which does not handle infinity:
  adding a first infinity to a finite point gives (0 : 0 : 0) (`AddToInfinity`), and the
  assertion refuses that next to anything (`ZeroRefused`). So for every finite base
  point the curve test accepts and every n, the loop fails the assertion exactly when a
  pair shares y, or has a member at infinity after the first set bit with two or more
  turns to come; a last turn that adds to infinity gives infinity; otherwise the result
  is right (`LadderExactly`). `LadderByOrder` says the same by the order m of the point:
  as long as no pair shares y every n below 4m - 4 is right except 2m - 1 and 2m + 1,
  which give infinity, and from 4m - 4 to 4m + 3 the assertion fails
  (`UpToFourTimesTheOrder`). On the curve with four points 5B is right, 7 gives infinity
  instead of 3B, and 12 fails (`FiveSevenTwelve`).
- The Montgomery ladder gives Z = 0 for every n >= 2 when the base point has x = 0 or is
  infinite; sshecc.c:1349 rejects only the integer 0, not its other representatives
  modulo p. Such a result stands for nB exactly when n is a power of two
  (`MontgomeryLadder.Multiply`).
- `ecc_weierstrass_add_general` builds the tangent slope over P's denominator
  (ecc.c:395) and passes the common denominator on (ecc.c:405). For equal finite
  points this is not doubling in general: `AddGeneralWrongExample` is an input on a
  seven-element field, and `AddGeneralValue` the exact condition for all inputs.
- On an SSH-1 connection nothing goes out for an environment variable
  (ssh1connection-client.c:330-334) or a subsystem (ssh1connection-client.c:362-366), but
  mainchan.c:178-179 counts every variable and mainchan.c:209-213 sets the fallback's
  flag. The flags and counters encode the requests really waiting in every run if and
  only if everything counted can be sent (`QueueIsWaitingExactly`). With one variable and
  a shell the command's reply is credited to the variable (`VariableTakesReply`), the
  session is never ready and a user's EOF is never sent (`VariableNeverReady`);
  `ReadyIsPossible` says for which setups a session can start at all.
- `agentf_try_forward` repeats the EOF, and after an overlong request the failure
  reply too, on every later event that makes it look at its input while input is wanted
  (agentf.c:83-85, 126-127). `EofExactly` says before an event whether it adds an EOF,
  `EofOnceExactly` for which runs there is at most one; `EofRepeats` is a run with two.
  The connection layers ignore a repeated EOF (ssh2connection.c:1339,
  ssh1connection.c:561) but assert that nothing is written after one
  (ssh2connection.c:1379, ssh1connection.c:598): more data after an overlong request are
  such a write (`WritesAfterEof`), and `NothingAfterEofExactly` says which runs have none.
- `delete_callbacks_for_context` leaves the flag of a deleted idempotent callback
  set (callback.c:51-55). The invariant `Truthful` says exactly which flags are stale,
  and such a callback is never queued again, whatever runs (`CallbackQueue.Run`).
- `safegrowarray` can reallocate without growing: a call for the present size of an
  array of fewer than sixteen elements over 256 bytes, or of one at the size limit
  (`NoGrowth`).
- The projective curve test accepts a triple with Z = 0 exactly when it is
  (t^2 : t^3 : 0), all zeros included (`PointValidValue`).
- Copying a configuration into itself empties it (`Conf.CopyInto`).

## Model

| member | source | states |
|---|---|---|
| JacobianGroup.AddPointsValue | ext/TortoisePlink/ecc.c:296-332 | the Jacobian addition of any two finite points the assertion accepts, inverse points included, has the chord-tangent sum as its affine value |
| JacobianGroup.AddPointsInfinite | ext/TortoisePlink/ecc.c:262-332 | with an operand at infinity the plain addition always answers infinity |
| JacobianGroup.AddPointsExactly | ext/TortoisePlink/ecc.c:262-332 | for every pair the assertion accepts, the plain addition is the group law if and only if both points are finite |
| JacobianGroup.DoublePointValue | ext/TortoisePlink/ecc.c:334-369 | doubling any triple, infinity and order-two points included, is the group law's double |
| JacobianGroup.AddGeneralUnequal | ext/TortoisePlink/ecc.c:380-432 | general addition is the group law whenever an operand is infinite or the points differ |
| JacobianGroup.AddGeneralEqual | ext/TortoisePlink/ecc.c:385-405 | for equal finite points it gives the point of slope l/Q.Z on P's tangent, whatever Q.Z is |
| JacobianGroup.AddGeneralValue | ext/TortoisePlink/ecc.c:380-432 | general addition agrees with the group law if and only if a condition on the inputs holds; identity results are all zeros |
| JacobianGroup.AddGeneralWrongExample | ext/TortoisePlink/ecc.c:395-405 | a valid point on a valid curve that, written with Z = 2, is not doubled |
| JacobianGroup.PointValidValue | ext/TortoisePlink/ecc.c:508-543 | the projective test accepts a finite triple exactly when its affine value is on the curve, and one with Z = 0 exactly when it is (t^2 : t^3 : 0) |
| JacobianFormulas.EpilogueValue | ext/TortoisePlink/ecc.c:218-260 | the shared epilogue gives the third point of the line with the slope l, or infinity exactly when a denominator vanishes |
| Weierstrass.PlusOnCurve | ext/TortoisePlink/ecc.c:218-432 | the reference law keeps points on the curve, in all of its cases |
| WeierstrassLadder.WeierstrassPoint.CondSwap | ext/TortoisePlink/ecc.c:203-210 | the two points are exchanged in place exactly when told |
| WeierstrassLadder.WeierstrassPoint.Normalise | ext/TortoisePlink/ecc.c:481-493 | the same point in place with Z = 1, so X and Y are its affine coordinates |
| JacobianInfinity.DoubleProper | ext/TortoisePlink/ecc.c:334-369 | on a nonsingular curve doubling a finite point gives infinity, if at all, as (t^2 : t^3 : 0) with t nonzero |
| JacobianInfinity.AddToInfinity | ext/TortoisePlink/ecc.c:262-332 | adding such an infinity and a finite point, in either order, is accepted and gives (0 : 0 : 0) |
| JacobianInfinity.ZeroRefused | ext/TortoisePlink/ecc.c:296-332 | the assertion refuses (0 : 0 : 0) next to any triple |
| WeierstrassLadder.LadderStep | ext/TortoisePlink/ecc.c:434-469 | one add and one double take the pair (kB, (k+1)B) to 2k or 2k+1 while both are finite, refused exactly when they share y; with one member at infinity the doubles stay right and the sum is (0 : 0 : 0); with both the add is refused |
| WeierstrassLadder.TimesAdd | ext/TortoisePlink/ecc.c:434-469 | iB + jB = (i+j)B, from associativity |
| WeierstrassLadder.LadderValue | ext/TortoisePlink/ecc.c:434-469 | when no pair on the way has a member at infinity the loop gives nB, and B for n = 0, or fails the assertion exactly when some pair shares y |
| WeierstrassLadder.LadderExactly | ext/TortoisePlink/ecc.c:434-469 | for every n and every finite point the curve test accepts: the exact condition for the failed assertion, the exact condition for a wrong infinity, and nB (B for n = 0) otherwise |
| WeierstrassLadder.LadderFromInfinity | ext/TortoisePlink/ecc.c:434-469 | a base point at infinity fails the assertion in the first turn, if there is one |
| WeierstrassLadder.LadderByOrder | ext/TortoisePlink/ecc.c:434-469 | the same conditions by the residues of the leading parts of n modulo the order of the base point |
| WeierstrassLadder.UpToFourTimesTheOrder | ext/TortoisePlink/ecc.c:434-469 | for n < 4m + 4: right if and only if no pair shares y, n < 4m - 4 and n is neither 2m - 1 nor 2m + 1; those two give infinity, and from 4m - 4 on the assertion fails |
| WeierstrassLadder.Multiply | ext/TortoisePlink/ecc.c:434-469 | the in-place loop over every potential bit follows the reference ladder for any base point and n; on a point of the curve null, which stands for the failed assertion, and the value returned are those of the exact conditions |
| GroupLawExamples.FourIsAssociative | ext/TortoisePlink/ecc.c:434-469 | the law of a curve with four points is associative, so the ladder's assumption is not empty |
| GroupLawExamples.MultiplesOfBase | ext/TortoisePlink/ecc.c:434-469 | the multiples of a base point on it, for every n |
| GroupLawExamples.LadderOnFour | ext/TortoisePlink/ecc.c:434-469 | from that point no pair shares y, and for every n the loop's result or failure is determined by the leading parts of n modulo four |
| GroupLawExamples.FiveSevenTwelve | ext/TortoisePlink/ecc.c:434-469 | the loop returns 5B, runs to its end with infinity for 7 although 7B = 3B, and fails the assertion for 12 |
| OtherGroupExamples.MontgomeryIsAssociative | ext/TortoisePlink/ecc.c:766-824 | the Montgomery ladder's assumption holds of a curve |
| OtherGroupExamples.EdwardsIsAssociative | ext/TortoisePlink/ecc.c:1091-1125 | the Edwards ladder's assumptions hold of a complete curve |
| Montgomery.DifferentialIdentity | ext/TortoisePlink/ecc.c:658-703 | the polynomial identity that differential addition rests on, modulo any odd prime |
| Montgomery.DiffAddExactly | ext/TortoisePlink/ecc.c:658-703 | for all points, equal, inverse or infinite, differential addition represents the sum if and only if the difference is finite with nonzero x, and gives (0 : 0) otherwise |
| Montgomery.DoubleRepresents | ext/TortoisePlink/ecc.c:705-755 | doubling represents the double, also at infinity and at points of order two |
| Montgomery.PlusOnCurve | ext/TortoisePlink/ecc.c:658-755 | the reference law keeps points on the curve |
| MontgomeryLadder.LadderDifference | ext/TortoisePlink/ecc.c:766-824 | kB - (k+1)B = -B, the constant difference the loop passes on |
| MontgomeryLadder.LadderStep | ext/TortoisePlink/ecc.c:766-824 | one differential add and one double take k to 2k or 2k+1, and keep what is left of a base point with x = 0 or at infinity |
| MontgomeryLadder.Multiply | ext/TortoisePlink/ecc.c:766-824 | for every n, any base point and any number of leading zero bits the result represents nB (B for n = 0) if and only if B is finite with nonzero x, or n is 0 or a power of two; for other base points Z = 0 from n = 2 on |
| MontgomeryLadder.MontgomeryPoint.Normalise | ext/TortoisePlink/ecc.c:757-764 | X becomes the affine x-coordinate in place |
| EdwardsExtended.AddOnExtended | ext/TortoisePlink/ecc.c:1019-1078 | addition keeps XY = ZT and aX^2 + Y^2 = Z^2 + dT^2 for all inputs that satisfy them |
| EdwardsExtended.AddPointsValue | ext/TortoisePlink/ecc.c:1019-1078 | addition is the affine rule wherever its denominators are nonzero, and the result is valid |
| EdwardsExtended.PointsEqValue | ext/TortoisePlink/ecc.c:1131-1150 | the equality test holds exactly when the affine values are equal |
| EdwardsExtended.AddRespectsEq | ext/TortoisePlink/ecc.c:1019-1150 | other projective coordinates of the same inputs give an equal output |
| Edwards.CompleteSummable | ext/TortoisePlink/ecc.c:1019-1078 | when a is a square and d is not, the rule's denominators never vanish |
| EdwardsLadder.LadderStep | ext/TortoisePlink/ecc.c:1091-1125 | two additions take k to 2k or 2k+1 |
| EdwardsLadder.Multiply | ext/TortoisePlink/ecc.c:1091-1125 | on a complete curve the loop returns nB, and B for n = 0 |
| EdwardsLadder.EdwardsPoint.Normalise | ext/TortoisePlink/ecc.c:1080-1089 | the same point in place with Z = 1 |
| LadderBits.ReadBit | ext/TortoisePlink/ecc.c:434-469 | reading one more bit keeps the multiplier at one before the first set bit and then doubles it and takes the bit |
| Marshal.TakeStringPut | ext/TortoisePlink/marshal.c:61-201 | a string read after writing is the string, and the tail is left unread |
| MpInts.WordsAreBigEndian | ext/TortoisePlink/marshal.c:48-53 | four bytes stand for the number they denote, most significant first, and a word is written as the bytes that denote it modulo 2^32 |
| MpInts.StringInWords | ext/TortoisePlink/marshal.c:62-71 | a string is its length as such a word and its bytes |
| Marshal.TakeAscizPut | ext/TortoisePlink/marshal.c:87-219 | a NUL-free string written with its terminator is read back and stops at the tail |
| Marshal.BinarySource.DataAvail | ext/TortoisePlink/marshal.c:104-114 | an error sticks, a failed request does not move the position |
| Marshal.BinarySource.GetString | ext/TortoisePlink/marshal.c:186-201 | the reader's new value and result are those of the reference, on any input |
| Marshal.StrBuf.PutPadding | ext/TortoisePlink/marshal.c:18-27 | chunks of sixteen pad bytes add up to exactly the length asked for |
| Ber.PutBerIdLen | ext/TortoisePlink/import.c:176-226 | the group-counting loops write the minimal identifier and length octets |
| Ber.TakeBer | ext/TortoisePlink/import.c:228-260 | on any input what is left is a suffix, an error is never cleared, and without one the data are the bytes just before what is left |
| Ber.GetBer | ext/TortoisePlink/import.c:228-260 | the reader follows the reference on any input and stays within the data |
| Ber.BerRoundTrip | ext/TortoisePlink/import.c:176-260 | for every id below 2^28, any flags, data below 2^24 bytes and any tail, reading undoes writing |
| Ber.HeaderMeans | ext/TortoisePlink/import.c:176-226 | the octets written are those of the standard: the fewest groups of seven bits denoting the identifier, the fewest octets denoting the length |
| Ber.TakeHeaderMeans | ext/TortoisePlink/import.c:228-260 | any groups are read as the number they denote modulo 2^32, any length octets modulo 2^64, minimal or not |
| MpInts.MpContentMeaning | ext/TortoisePlink/import.c:284-299 | the mpint written has the value of the bytes given and is canonical |
| MpInts.CanonicalUnique | ext/TortoisePlink/import.c:284-299 | there is only one canonical content per value |
| MpInts.PutMpSsh2FromString | ext/TortoisePlink/import.c:284-299 | the loop that strips zeros writes that content as a string |
| MpInts.SshcomMeaning | ext/TortoisePlink/import.c:1891-1909 | the value is kept and (bits+7)/8 is the number of bytes written |
| MpInts.PutMpSshcomFromString | ext/TortoisePlink/import.c:1891-1909 | the bit-counting loops write that count and those bytes |
| MpInts.TakeMpSshcomPut | ext/TortoisePlink/import.c:1891-1918 | reading returns exactly the bytes written |
| PemKeys.ModPMinus1Value | ext/TortoisePlink/import.c:842-880 | an exponent has the value d modulo p-1, a clear sign bit and no spare byte |
| PemKeys.WriteRsa | ext/TortoisePlink/import.c:807-913 | the file, decrypted and read item by item, is one SEQUENCE of zero, n, e, d, p, q, then the number d modulo p-1, then d modulo q-1, then iqmp, as the blobs' strings give them, with one to eight pad bytes equal to their number under a cipher |
| PemKeys.WriteDsa | ext/TortoisePlink/import.c:807-913 | likewise one SEQUENCE of zero, p, q, g, y, x |
| PemKeys.Read | ext/TortoisePlink/import.c:587-745 | the reading loop follows the reference parse on any blob |
| PemKeys.ParseMeans | ext/TortoisePlink/import.c:587-745 | on any file: a key if and only if it is a SEQUENCE of nine (six) INTEGERs starting with zero, made of their canonical forms in the blobs' order; any other outcome is a wrong passphrase exactly under a cipher, except another version |
| PemKeys.RsaRoundTrip | ext/TortoisePlink/import.c:587-913 | writing then reading a canonical RSA key, plain or encrypted, rebuilds both blobs byte for byte |
| PemKeys.DsaRoundTrip | ext/TortoisePlink/import.c:587-913 | the same for DSA |
| SshcomKeys.Write | ext/TortoisePlink/import.c:2168-2260 | the back-patched lengths, the padding and the in-place encryption produce the blob described, for any random padding |
| SshcomKeys.WriteRsa | ext/TortoisePlink/import.c:2168-2260 | the file, read part by part, has the magic number, its own length, the spelled names, and a payload of the numbers e, d, n, iqmp, q, p of the blobs without leading zeros, padded by less than a block |
| SshcomKeys.WriteDsa | ext/TortoisePlink/import.c:2168-2260 | likewise a zero word and p, g, q, y, x |
| SshcomKeys.BitsAreLength | ext/TortoisePlink/import.c:1891-1909 | the bit count written is the number's length in bits |
| SshcomKeys.Read | ext/TortoisePlink/import.c:1965-2119 | the reader follows the reference parse on any blob |
| SshcomKeys.ParseBlob | ext/TortoisePlink/import.c:1965-2119 | reading a written blob reaches exactly the payload, whatever the padding |
| SshcomKeys.ParseMeans | ext/TortoisePlink/import.c:1965-2119 | on any blob: malformed without a right header; with one, a payload that gives no key is a wrong passphrase exactly under a cipher |
| SshcomKeys.ParseRsaMeans | ext/TortoisePlink/import.c:2065-2090 | any six numbers, and nothing less, give a well-formed key with canonical numbers taken for e, d, n, iqmp, q, p |
| SshcomKeys.ParseDsaMeans | ext/TortoisePlink/import.c:2091-2112 | a zero word and any five numbers give one, taken for p, g, q, y, x |
| SshcomKeys.RsaRoundTrip | ext/TortoisePlink/import.c:1965-2260 | writing then reading a canonical RSA key rebuilds both blobs, despite the reordering and the exchanged primes |
| SshcomKeys.DsaRoundTrip | ext/TortoisePlink/import.c:1965-2260 | the same for DSA |
| ConfKeys.CompareIsTotalOrder | ext/TortoisePlink/conf.c:81-125 | on well-typed keys the comparison is a total order and only equal keys compare equal |
| ConfKeys.StrCmpMeans | ext/TortoisePlink/conf.c:98-121 | a name comes before another if and only if it is a proper prefix or smaller at the first byte where they differ |
| ConfKeys.CompareMeans | ext/TortoisePlink/conf.c:81-125 | keys are ordered by option, then by integer or by name in that order |
| ConfKeys.InsertedMap | ext/TortoisePlink/conf.c:229-238 | insertion keeps the store ordered and is the map update, for new and present keys |
| ConfKeys.RemovedMap | ext/TortoisePlink/conf.c:465-479 | removal keeps the store ordered and is the removal from the map |
| ConfKeys.StoreUnique | ext/TortoisePlink/conf.c:76-81 | two ordered stores with the same map are the same sequence |
| ConfKeys.SubkeysMeaning | ext/TortoisePlink/conf.c:338-378 | the subkeys of an option are exactly the names the map holds for it, once each, bytewise ascending |
| Configuration.Conf.Insert | ext/TortoisePlink/conf.c:229-238 | add, and if the key was there delete and add again: the map is updated at that key only |
| Configuration.Conf.DelStrStr | ext/TortoisePlink/conf.c:465-479 | exactly that key leaves the map |
| Configuration.Conf.CopyInto | ext/TortoisePlink/conf.c:240-254 | the target becomes the source; copying into itself empties it |
| Configuration.Conf.GetStrStrs | ext/TortoisePlink/conf.c:338-358 | returns the bytewise least name after the one given with its value, and nothing exactly when there is none |
| Configuration.Conf.Names | ext/TortoisePlink/mainchan.c:175-180 | the enumerating loop yields every subkey once, bytewise ascending |
| Configuration.Conf.GetStrNthStrKey | ext/TortoisePlink/conf.c:360-378 | returns the n-th name of that ascending list, and nothing for every other int |
| Configuration.Conf.Serialise | ext/TortoisePlink/conf.c:503-539 | appends the bytes of the entries in order and the end mark |
| Configuration.Conf.Deserialise | ext/TortoisePlink/conf.c:541-593 | on any input, result, reader and store are those of the reference loading |
| ConfCodec.EntryInWords | ext/TortoisePlink/conf.c:503-539 | the bytes of an entry: option number, subkey and value in words, terminated strings and flags; four bytes of all ones at the end |
| ConfCodec.LoadByWord | ext/TortoisePlink/conf.c:541-593 | all ones end the load, an option that does not exist or an entry cut short makes it fail, with what was inserted before kept |
| ConfCodec.TakeAnyFont | ext/TortoisePlink/conf.c:541-593 | any nonzero word makes a font bold, the two others are signed |
| ConfCodec.TakeAnyBool | ext/TortoisePlink/conf.c:541-593 | any nonzero byte is true |
| ConfCodec.LoadOfNothing | ext/TortoisePlink/conf.c:541-593 | fewer than four bytes make the load fail and change nothing |
| ConfCodec.LoadOverlays | ext/TortoisePlink/conf.c:503-593 | loading a serialised store into any store overlays the maps and leaves following bytes unread |
| ConfCodec.RoundTrip | ext/TortoisePlink/conf.c:503-593 | into an empty store the same store comes back |
| ConfCodec.LoadExtends | ext/TortoisePlink/conf.c:541-593 | a load that succeeds does not depend on the bytes after what it consumed |
| ConfCodec.PrefixRejected | ext/TortoisePlink/conf.c:541-593 | every proper prefix of a serialisation is rejected |
| MainChannelSpec.RunsAreSafe | ext/TortoisePlink/mainchan.c:125-335 | in every run replies are credited to the requests counted, in order, refusals name the right variable, command requests come last, readiness comes once with nothing counted as waiting, at most one EOF is written and no user EOF before readiness |
| MainChannelSpec.RunsInWords | ext/TortoisePlink/mainchan.c:125-393 | the k-th credit is for the k-th request counted, primary and fallback never wait together, once ready a requested EOF has been sent |
| MainChannelWords.CountedInWords | ext/TortoisePlink/mainchan.c:125-214 | which requests a run counts, told by the setup, and in which order: X11, agent, pty, the variables in order, the command, a fallback after a refusal |
| MainChannelWords.RepliesAreCredited | ext/TortoisePlink/mainchan.c:216-318 | a reply is logged with its result for the oldest request counted |
| MainChannelWords.CreditsAreReplies | ext/TortoisePlink/mainchan.c:216-318 | and nothing else is |
| MainChannelWords.RepliesHaveTheirEffect | ext/TortoisePlink/mainchan.c:285-335 | what comes right after a command's reply, and that readiness, abortion and the fallback note have no other reason |
| MainChannelWords.SummariesInWords | ext/TortoisePlink/mainchan.c:261-283 | the summary comes right after the last variable's reply, says all set or all refused exactly when so, and comes at no other time |
| MainChannelWords.RemoteEofAnswered | ext/TortoisePlink/mainchan.c:374-393 | after a remote EOF with a pty granted, or that the front end asks to answer, an EOF has been written |
| MainChannelWords.RemoteEofOnly | ext/TortoisePlink/mainchan.c:374-393 | every EOF in answer to the far end was written by such an event, the pty granted before it |
| MainChannelWords.UserEofOnly | ext/TortoisePlink/mainchan.c:320-335 | a user's EOF is written only after the user asked and the channel became ready |
| MainChannelWire.QueueIsWaitingExactly | ext/TortoisePlink/mainchan.c:170-318 | the requests counted are those really sent and unanswered, in every legal run, if and only if all that the setup counts can be sent |
| MainChannelWire.NeverReady | ext/TortoisePlink/mainchan.c:170-318 | if something counted on opening is not sent, no run is ready or aborted, none passes a user EOF on, and some request is never credited |
| MainChannelWire.ReadyIsPossible | ext/TortoisePlink/mainchan.c:170-318 | some legal run becomes ready if and only if everything counted on opening is sent, or the channel is not a session |
| MainChannelWire.VariableTakesReply | ext/TortoisePlink/ssh1connection-client.c:330-334 | on SSH-1 with one variable the reply to the command, the only request sent, is credited to the variable |
| MainChannelWire.VariableNeverReady | ext/TortoisePlink/ssh1connection-client.c:330-334 | no legal run of that session is ready or sends the user's EOF |
| MainChannel.MainChan.OpenConfirmation | ext/TortoisePlink/mainchan.c:125-203 | the flags and the counter set while opening stand for the requests counted, in order, each logged with whether it went out |
| MainChannel.MainChan.RequestResponse | ext/TortoisePlink/mainchan.c:216-318 | in every state the first flag found set takes the reply, and that is the oldest request counted as unanswered |
| MainChannel.MainChan.SendEof | ext/TortoisePlink/mainchan.c:374-393 | a remote EOF is answered once, if the front end asks or a pty was granted |
| MainChannel.MainChan.UserAsksEof | ext/TortoisePlink/mainchan.c:526-541 | a user EOF is held until ready and then sent unless one has been |
| MainChannel.Drive | ext/TortoisePlink/mainchan.c:125-541 | the object fed any sequence of events is in the state the reference run reaches, so what is proved of runs holds of it |
| AgentForwarding.AgentChannel.TryForward | ext/TortoisePlink/agentf.c:40-128 | serving requests one at a time from the buffer equals framing the whole buffer first and serving the frames up to the first promise |
| AgentForwarding.AgentChannel.Send | ext/TortoisePlink/agentf.c:199-216 | the data joins the buffer, and the backlog is reported only while a query is pending |
| AgentForwarding.AgentChannel.Callback | ext/TortoisePlink/agentf.c:130-142 | the promised reply is written first and forwarding resumes |
| AgentForwarding.FramesOfEncoded | ext/TortoisePlink/agentf.c:65-97 | framing undoes the length prefixes of any acceptable requests and stops where they end |
| AgentForwarding.StepKeeps | ext/TortoisePlink/agentf.c:40-249 | an event keeps the books, leaves nothing servable behind, and says EOF once more exactly when it finds the channel finished |
| AgentForwarding.RunsAreSafe | ext/TortoisePlink/agentf.c:40-249 | in every run, for any agent, forwarded requests and buffer are the bytes received, one query is pending at most, each reply follows its query, EOF never overtakes a pending query |
| AgentForwarding.AnswersAreWritten | ext/TortoisePlink/agentf.c:23-36 | in every run a query answered at once is followed by the bytes of the reply, or of a failure (0, 0, 0, 1, 5) if there is none |
| AgentForwarding.PromiseIsWritten | ext/TortoisePlink/agentf.c:130-142 | a promised reply is written, byte for byte or as that failure, as the first thing when it comes |
| AgentForwarding.FramingInWords | ext/TortoisePlink/agentf.c:65-97 | a request is a big-endian length and as many bytes; 262141 is too long |
| AgentForwarding.ForwardedInOrder | ext/TortoisePlink/agentf.c:40-249 | what was forwarded is a prefix of the requests in the received bytes, and all of them when idle and wanted |
| AgentForwarding.ChunkingIsInvisible | ext/TortoisePlink/agentf.c:199-216 | the same bytes in other chunks forward the same requests |
| AgentForwarding.RejectionIsFinal | ext/TortoisePlink/agentf.c:73-86 | after an overlong request nothing is forwarded again |
| AgentForwarding.EofExactly | ext/TortoisePlink/agentf.c:40-249 | an event adds one EOF exactly when it triggers with input wanted, the agent leaves no waiting request unanswered, and what is then left is overlong or the remote EOF is in |
| AgentForwarding.EofOnceExactly | ext/TortoisePlink/agentf.c:40-249 | a run says EOF at most once if and only if no two of its positions meet that condition |
| AgentForwarding.EofRepeats | ext/TortoisePlink/agentf.c:126-128 | EOF at most once is false: a run of two events says it twice |
| AgentForwarding.WritesAfterEof | ext/TortoisePlink/agentf.c:83-85 | nothing after EOF is false: any data after an overlong request are answered by a failure written after the EOF |
| AgentForwarding.NothingAfterEofExactly | ext/TortoisePlink/agentf.c:40-249 | a run writes nothing after an EOF if and only if no event that writes, as told before it, comes after one that says EOF |
| ProxyStderr.CutUnique | ext/TortoisePlink/be_misc.c:88-150 | there is only one way to cut a stream into shortest pieces that end in a newline or fill the buffer |
| ProxyStderr.ChunkIndependent | ext/TortoisePlink/be_misc.c:67-151 | feeding a then b logs the same messages and leaves the same bytes as feeding both at once |
| ProxyStderr.RenderInWords | ext/TortoisePlink/be_misc.c:88-140 | a line is logged without its line ends, a full buffer without a newline whole and marked partial, either up to its first zero byte |
| ProxyStderr.ProxyStderrBuf.Feed | ext/TortoisePlink/be_misc.c:67-151 | copying, searching and moving within the fixed buffer logs exactly the reference cut; fewer bytes than the capacity and no newline stay |
| LogPacket.LogDump | ext/TortoisePlink/logging.c:320-391 | with areas in order, the loop over bytes, areas and the row buffer prints exactly the reference dump of the visible cells |
| LogText.RowInWords | ext/TortoisePlink/logging.c:347-369 | sixteen times the first digit's value and the second's make the byte shown, its text is the byte if printable, the eight offset digits denote the position rounded down to sixteen, XX and X where blanked, spaces elsewhere |
| LogText.CutExactly | ext/TortoisePlink/logging.c:336-391 | the cut into maximal gaps and rows up to the next multiple of sixteen, omitted byte or end is the only one |
| LogText.KindAtMeans | ext/TortoisePlink/logging.c:323-334 | a byte is treated by the one area that covers it, and shown if there is none |
| LogText.LinesInWords | ext/TortoisePlink/logging.c:320-391 | each piece gives one line in order, a gap with its count |
| LogPacket.DumpIsView | ext/TortoisePlink/logging.c:276-393 | two packets of equal length give the same dump if and only if they agree on every byte that is shown |
| LogPacket.DumpAccounts | ext/TortoisePlink/logging.c:320-391 | rows and omitted counts laid end to end give back every cell once and in order, sixteen to a row at most |
| ControlPaths.PathElements | ext/TortoisePlink/dialog.c:16-24 | counts the elements of the path split at slashes |
| ControlPaths.SplitInWords | ext/TortoisePlink/dialog.c:16-24 | the elements are what stands between the slashes |
| ControlPaths.PathCompare | ext/TortoisePlink/dialog.c:28-40 | counts the leading elements two different paths share, and INT_MAX exactly for identical ones |
| ControlBoxes.GroupsAreIntervals | ext/TortoisePlink/dialog.c:89-109 | in a contiguous array every group below a common prefix is an interval |
| ControlBoxes.InsertKeeps | ext/TortoisePlink/dialog.c:129-178 | inserting at a place where depths peak keeps every group contiguous |
| ControlBoxes.ControlBox.FindSet | ext/TortoisePlink/dialog.c:89-109 | returns the first set of the path, or the position after the last of the deepest matches |
| ControlBoxes.ControlBox.SetTitle | ext/TortoisePlink/dialog.c:129-148 | the title is put before the sets of its path and the box stays contiguous |
| ControlBoxes.ControlBox.GetSet | ext/TortoisePlink/dialog.c:151-178 | returns the set of that path and name, making it after the others exactly when there is none |
| ControlBoxes.ControlBox.FindPath | ext/TortoisePlink/dialog.c:115-126 | the first set of the path from -1, then the next one or -1 |
| ControlBoxes.ControlBox.Visit | ext/TortoisePlink/windows/windlg.c:383-386 | walking from -1 visits exactly the sets with the path, once each, in order |
| Callbacks.CallbackQueue.QueueToplevel | ext/TortoisePlink/callback.c:72-100 | the entry joins the end; the notifier fires exactly when nothing was pending |
| Callbacks.CallbackQueue.QueueIdempotentCallback | ext/TortoisePlink/callback.c:36-42 | queued once if its flag is clear, otherwise nothing happens; no callback has two entries |
| Callbacks.CallbackQueue.DeleteForContext | ext/TortoisePlink/callback.c:44-70 | deletion is a stable filter of the list with consistent head and tail, and the flags it makes stale are named |
| Callbacks.CallbackQueue.Relink | ext/TortoisePlink/callback.c:46-69 | taking the list apart and relinking it in place leaves exactly the kept nodes, in order |
| Callbacks.CallbackQueue.Run | ext/TortoisePlink/callback.c:102-128 | the head runs, whatever it queues or deletes, idempotent callbacks new to the queue included; no notification is sent meanwhile; a callback with a stale flag is neither queued nor waiting afterwards |
| Callbacks.DeletedAre | ext/TortoisePlink/callback.c:44-70 | deleting leaves what has run followed by what waits equal to everything queued without the deleted |
| Callbacks.OrderKept | ext/TortoisePlink/callback.c:72-128 | of two nodes never deleted the one queued first comes first |
| GrowArray.GrowingArray.Grow | ext/TortoisePlink/memory.c:75-123 | never overflows, has the room asked for, keeps the elements, and away from the limit all copying so far is at most 31 times the size |
| GrowArray.NewSize | ext/TortoisePlink/memory.c:94-111 | the new size is the old one and the wanted growth, or the limit |
| GrowArray.GrownIsLeast | ext/TortoisePlink/memory.c:94-111 | the new size is the least with room for the need, 256 bytes and a sixteenth more, or the limit |
| GrowArray.NoGrowth | ext/TortoisePlink/memory.c:94-111 | the new size is the old one if and only if the call is for exactly that size and it is the limit, or elements exceed 256 bytes and there are fewer than sixteen |

## Left out

- Associativity of the three group laws: assumed by the ladders as a precondition, not proved; everything else about the laws is.
- Big-number storage, Montgomery multiplication and modular square roots: mpint.c is not part of this model, field operations are residue arithmetic.
- ecc_weierstrass_point_new_from_x and ecc_edwards_point_new_from_y: they rest on modular square roots.
- Normalising a point at infinity: it needs the inverse of zero; the methods require a finite point.
- WeierstrassLadder.LadderExactly: curves with discriminant zero are outside; there only LadderStep and LadderValue speak.
- MontgomeryLadder.Multiply: pairs (0 : 0), which stand for no point, are outside its precondition.
- Timing, wiping of secrets and freeing of memory: not functional properties.
- Ciphers, hashes and key derivation: an arbitrary inverse pair that keeps the length of whole blocks.
- base64, PEM line reading, comment lines and file input and output: the models start at the blobs.
- The ECDSA branch of the PEM writer and ssh_key_new_priv: they depend on key code that is not part of this model.
- Texts of error messages in the key readers: every failure is one value.
- PemKeys.WriteRsa: blobs that do not parse, primes below two (the reduction modulo p-1 is undefined) and integers of 2^24 bytes and more (the BER writer would shift beyond the width of an int) are outside the precondition.
- SshcomKeys.WriteRsa: the file is described part by part only below 2^32 bytes, where its length fields hold the lengths; WriteDsa likewise.
- Ber.PutBerIdLen: identifiers from 2^28 and lengths from 2^24 are outside, for the same reason; get_ber wraps the identifier at 32 bits and the length at 64.
- The balanced tree and the buffer chain: taken as an ordered sequence and a byte sequence.
- The table of configuration options: a parameter; the typed getters and setters are Get, GetStrStrOpt and Insert.
- File names and fonts of a configuration on other systems than Windows.
- Configuration.Conf.Get: the getters' assertion that the key is present is its precondition.
- Other handlers of the main channel (exit status, signals, breaks, window size): they forward a message and keep no state.
- Replies during the sending of a request, and writing back into the same channel: taken not to happen.
- Packet headers, timestamps and the decimal text of omitted counts in the log; the log file's own queue.
- LogPacket.LogDump: packets beyond 2^32 bytes, whose row offset has more than eight digits, are outside.
- Callbacks.CallbackQueue.Run: nested runs are outside.
- Freeing of control sets and the controls inside them.
