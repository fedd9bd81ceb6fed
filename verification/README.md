# A verified model of sohocloud-protocol

sohocloud-protocol lets nodes, frontends and a coordinator exchange signed messages. Every signature is
taken over a hand-written canonical byte encoding, and everything else rests on it: the twelve core messages
are verified under one trusted key each, the three operator messages under two distinct keys out of seven, and
the coordinator's state (trusted keys, Seq counters, lease meters, key registries) moves only on accepted messages.

The model follows that composition from the bytes up.

| file | models |
|---|---|
| `Bytes.dfy`, `Instants.dfy` | machine integers, varints, fixed words; instants and the int64-nanosecond range |
| `Wire.dfy` | values of the wire format, their encoding, and a parser driven by field shapes |
| `Messages.dfy` | the fifteen messages, their tags and field orders, `Canonical` |
| `Decoder.dfy`, `Skipped.dfy` | reading messages back; exactly what is lost when a time is skipped |
| `Canon.dfy`, `GoEncoders.dfy` | `canon.Buffer` as a class, and the fifteen `CanonicalBytes` methods that drive it |
| `Utf8.dfy`, `ScriptRecords.dfy` | UTF-8; the rows the Python encoders are given, and the Go message a row stands for |
| `ScriptEncoders.dfy` | the fifteen independent Python encoders, over a growing bytearray |
| `Signing.dfy`, `Operator.dfy` | `Sign` in place, every `Verify`, the two-of-seven rules, the registry |
| `Network.dfy` | all deliveries as one state machine, and its safety over whole runs |
| `Proof.dfy` | challenge ranges in int64 arithmetic, and what a proof digest binds |
| `HeartbeatGate.dfy` | the mutex-guarded `Heartbeat` under every interleaving of its critical sections |
| `ScriptEdwards.dfy` | double-and-add, projective Edwards addition and point packing of the Python script |
| `EdwardsCurve.dfy`, `EdwardsGroup.dfy` | the curve behind it: the affine law, closure, completeness, associativity, and what `_scalarmult` computes |

The results at the top: the bytes of any message are read back exactly by a decoder, across all fifteen types and
for lists of any length (`Decoder.DecodeExact`). For any two messages at all, times valid or not, it is decided exactly
when one's bytes begin the other's (`Skipped.PrefixExactly`); and a message's bytes are its own, and begin no longer
message, if and only if its times pass `ValidTime` (`Skipped.UniqueExactly`, `Skipped.ExtendedExactly`). For a row and
a message that state the same fields, a Python encoder returns the very bytes Go signs if and only if every text has a
UTF-8 form, every time is representable and no index is negative, and raises a ValueError otherwise
(`ScriptEncoders.AgreesWithGo`). And in every run over an ideal signature ledger, with replays, forgeries and key
changes interleaved at will, an accepted message was signed as that type with those fields: an assignment, a fee
declaration or a lease by the holder of the coordinator's key, any other core message by the holder of the key trusted
at that moment for the node it names, an operator message by the holders of two different registered keys
(`Network.AcceptedMeansSigned`). What is accepted next is decided by the run alone, counter by counter
(`Network.AcceptedFromHistory`). A node's trusted key goes back to its enrolled key through rotations each of which the
holder of the key before it signed (`Network.NodeKeyCustody`); a registered operator key was enrolled, or installed on
the signatures of two different keys' holders (`Network.OperatorKeyCustody`). The Python script's own point arithmetic
is a group on the curve, complete and associative, in which its double-and-add loop computes the e-fold sum
(`EdwardsGroup.ScalarMultIsTimes`), for every odd prime in which -1 has a square root and d has none.

Strings are byte sequences, and a Go slice is shorter than 2^63. Integers have the source's width; conversions and
overflowing steps wrap explicitly. Signing, verifying and SHA-256 are abstract functions passed as parameters, as is
the per-algorithm length table of the operator layer, so that the no-mixing results are not settled by there being
only one algorithm; `Signing.V0Lengths` is the source's own table.

Where the code and its prose disagree, the model follows the code:

- `coordinator/coordinator.go:84-86` asks for revocations to be honoured unconditionally. `identity/keylife.go:104-108`
  binds them to the trusted key, and section 4.12 of the protocol's own specification document says the older wording
  is superseded. Revocations are not gated on Seq.
- `canon/canon.go:139-143` says that signatures over incomplete bytes fail to verify. They do verify: `Sign` and
  `Verify` use the same bytes and neither consults `Err()`. `Signing.IncompleteBytesVerify` states it for every core
  message with a skipped time, and gives a different message that accepts exactly the same signatures.
- `operator/operator.go:115-124` lists a key and its algorithm at each index before any signature length, and both
  lengths before either signature. The code settles the first signer completely before the second
  (`operator/operator.go:181-186`). `Operator.DocumentedVerdict` says exactly when the two orders report differently:
  both signers miss something, the second at an earlier stage, under another error.
- `canon/canon.go:5-6` promises that no two distinct field sequences collide. A message's bytes are no other message's
  if and only if its times pass `ValidTime`, the guard a producer can check before signing (`Skipped.UniqueExactly`);
  `Skipped.SkippedReportsCollide` is a family of collisions beyond it, and `Skipped.CollideExactly` tells them all.

## Model

| member | source | states |
|---|---|---|
| Bytes.UvarintDecodes | canon/canon.go:71-76 | A stream reads as number n followed by rest if and only if it is n's varint followed by rest. |
| Bytes.UvarintPrefixFree | canon/canon.go:71-83 | No varint begins with another number's varint, whatever follows. |
| Bytes.UvarintLength | testdata/reproduce_spec.py:33-49 | At most k bytes are emitted exactly when the value is below 128^k. |
| Bytes.UvarintFitsTenBytes | canon/canon.go:72-73 | Every uint64 fits the ten-byte scratch array, so `PutUvarint` never runs off its end. |
| Bytes.UvarintShape | testdata/reproduce_spec.py:33-49 | All bytes but the last carry the continuation bit, the last does not, and the groups denote the value. |
| Bytes.UvarintIsMinimal | testdata/reproduce_spec.py:33-49 | Among all byte strings of that shape denoting the value, the encoder's is the only shortest one. |
| Bytes.BigEndianRoundTrip | canon/canon.go:108-113 | Big-endian bytes read back to the number, for every number that fits. |
| Bytes.FromBigEndianRoundTrip | canon/canon.go:108-113 | Any bytes, read as a number and written again, come back unchanged. |
| Bytes.WordInjective | canon/canon.go:103-113 | Two fixed words in front of arbitrary streams agree only if the words and the streams agree. |
| Instants.UnixOfNanos | canon/canon.go:35-38 | `time.Unix(0, n)` denotes exactly n nanoseconds, with a nanosecond part below 1 000 000 000, for negative n too. |
| Instants.ValidTimeExact | canon/canon.go:50-53 | The lexicographic comparison accepts exactly the instants whose nanosecond count, seconds times 1 000 000 000 plus nanoseconds, is an int64. |
| Instants.UnixNanoExact | canon/canon.go:128 | On a valid instant the wrapping evaluation is exact, although the product alone overflows in precisely one second. |
| Instants.UnixNanoWrongOutside | canon/canon.go:118-128 | The wrapped value is the true count if and only if the instant is valid: the guard is needed everywhere. |
| Instants.UnixNanoBijective | canon/canon.go:118-129 | Valid instants and int64 counts are in one-to-one correspondence. |
| Wire.ParseEncode | canon/canon.go:5-10 | A value of a shape is parsed back from the front of any longer stream. |
| Wire.ParseEncodeAll | canon/canon.go:5-10 | The same for a sequence of fields: nothing is left over and nothing is taken from what follows. |
| Wire.ParseEncodeRows | listing/listing.go:109-119 | The same for a counted list of structs of any length. |
| Wire.ParseAllSound | canon/canon.go:5-10 | Whatever the parser returns re-encodes to the bytes it consumed and fits the shapes. |
| Wire.EncodeConcat | canon/canon.go:55-59 | The bytes of a concatenation of field lists are the concatenation of their bytes. |
| Wire.WireBytes | canon/canon.go:55-129 | What each value puts on the wire, read independently of the encoder: a varint-shaped length or count in front of the bytes or elements, an eight-byte big-endian word, 1 or 0, and for an instant its nanoseconds modulo 2^64 or, out of the int64 range, nothing. |
| Messages.TagsDistinct | canon/canon.go:61-67 | No two of the fifteen types have the same domain tag. |
| Messages.TagSpelled | canon/canon.go:61-67 | A tag's bytes are its characters, one by one. |
| Messages.FieldsShaped | employment/employment.go:87-104 | Each message yields its type's fields in order, each of its declared shape, whatever its times. |
| Messages.FieldsFit | canon/canon.go:45-53 | A message fits its type's schema exactly when all its times are representable. |
| Decoder.BuildFields | listing/listing.go:105-131 | Rebuilding a message from its field list gives the message: no field is lost or confused. |
| Decoder.FieldsBuild | listing/listing.go:105-131 | Any list of values of a type's shapes, times valid or not, is the field list of the message rebuilt from it. |
| Decoder.DecodeExact | canon/canon.go:5-10 | The decoder reads message m and remainder rest from a string if and only if m's times are valid and the string is m's bytes followed by rest. |
| Decoder.PrefixFree | canon/canon.go:61-67 | Across all fifteen types with valid times, no message's bytes equal or begin with a different message's bytes. |
| Decoder.TypesDisjoint | operator/operator.go:21-28 | Messages of different types never share bytes or prefixes, even with skipped times. |
| Decoder.CanonicalSpells | canon/canon.go:61-67 | A message's bytes begin with a length-prefixed tag, character by character the literal of its type, and go on with its payload. |
| Skipped.PrefixExactly | canon/canon.go:118-148 | For any two messages, one's bytes begin the other's if and only if types and the fields before the first time are equal and the words not skipped begin the other's. |
| Skipped.CollideExactly | canon/canon.go:118-148 | For any two messages, bytes are equal if and only if type, the fields before the first time, and the words not skipped are equal. |
| Skipped.SkippedTimeSeparation | canon/canon.go:131-137 | Equal bytes mean equally many skipped times, so bytes that latched an error never equal those of a message with valid times; with none skipped the messages are the same. |
| Skipped.UniqueExactly | canon/canon.go:5-10 | No other message has a message's bytes if and only if all its times pass `ValidTime`. |
| Skipped.SkippedTwin | canon/canon.go:118-128 | Every message with a skipped time shares its bytes with a different message. |
| Skipped.ExtendedExactly | canon/canon.go:118-129 | Some longer message begins with a message's bytes if and only if one of its times fails `ValidTime`. |
| Skipped.Completion | canon/canon.go:118-129 | Whatever words follow a message's leading fields, some message with valid times carries exactly those. |
| Skipped.SkippedReportsCollide | employment/employment.go:140-150 | For every report and time, skipping the start and skipping the end give the same bytes from different messages. |
| Skipped.SkippedReleaseIsPrefix | lease/lease.go:202-208 | Of any two releases, one's bytes properly begin the other's if and only if lease and node agree and only the first skipped its time. |
| Skipped.Split | canon/canon.go:118-129 | Every message's bytes are its fields before the first time, then one word per field not skipped; all words are there exactly when all times are valid. |
| Canon.PutUvarint | canon/canon.go:72-73 | The in-place loop leaves exactly the value's varint at the front of the scratch array. |
| Canon.WordBytes | canon/canon.go:108-110 | The eight bytes of a word are its eight base-256 digits, most significant first. |
| Canon.PutUint64 | canon/canon.go:109-110 | The eight in-place stores spell the value big-endian and touch nothing else. |
| Canon.Buffer.New | canon/canon.go:64-67 | A new buffer holds exactly the tag, with no error. |
| Canon.Buffer.Count | canon/canon.go:71-76 | Appends the count's varint to whatever was there; the error is untouched. |
| Canon.Buffer.String | canon/canon.go:79-83 | One more string is on the wire and in the list of values written; the error is untouched. |
| Canon.Buffer.Bytes | canon/canon.go:86-90 | The same for a byte slice. |
| Canon.Buffer.Bool | canon/canon.go:93-100 | The same for a bool. |
| Canon.Buffer.Int64 | canon/canon.go:103-105 | The same for a two's-complement integer. |
| Canon.Buffer.Uint64 | canon/canon.go:108-113 | The same for an unsigned word. |
| Canon.Buffer.Time | canon/canon.go:118-129 | A valid instant goes on the wire as its word; an invalid one adds no byte and latches the error, which no later append clears. |
| Canon.Buffer.Err | canon/canon.go:135-137 | nil if and only if every time written so far went on the wire. |
| Canon.Buffer.Sum | canon/canon.go:144-148 | The bytes of all values written, from which whoever knows their shapes parses back exactly those values with nothing left over. |
| GoEncoders.WriteArgs | employment/employment.go:93-96 | Count and loop put the whole argument list on the wire as one list value, in order. |
| GoEncoders.WritePrinters | listing/listing.go:109-113 | The same for printers. |
| GoEncoders.WriteGPUs | listing/listing.go:114-119 | The same for GPUs. |
| GoEncoders.CapabilityListingBytes | listing/listing.go:105-131 | The bytes are the canonical form the decoder inverts; they parse to a tag spelled character by character as this type's own literal, and the rest encodes the payload, written out field by field; the buffer's error is nil exactly when all times are valid. |
| GoEncoders.HeartbeatBytes | liveness/liveness.go:25-31 | As above, for a heartbeat. |
| GoEncoders.AssignmentBytes | employment/employment.go:87-104 | As above, for an assignment. |
| GoEncoders.DeclineBytes | employment/employment.go:119-126 | As above, for a decline. |
| GoEncoders.JobReportBytes | employment/employment.go:140-150 | As above, for a job report. |
| GoEncoders.FeeDeclarationBytes | fees/fees.go:40-48 | As above, for a fee declaration. |
| GoEncoders.StorageLeaseBytes | lease/lease.go:157-169 | As above, for a storage lease. |
| GoEncoders.LeaseDeclineBytes | lease/lease.go:182-189 | As above, for a lease decline. |
| GoEncoders.LeaseReleaseBytes | lease/lease.go:202-208 | As above, for a lease release. |
| GoEncoders.ProofResponseBytes | lease/lease.go:221-231 | As above, for a proof response. |
| GoEncoders.KeyRotationBytes | identity/keylife.go:48-56 | As above, for a key rotation. |
| GoEncoders.KeyRevocationBytes | identity/keylife.go:78-85 | As above, for a key revocation. |
| GoEncoders.OperatorTransmissionBytes | operator/operator.go:85-95 | As above, for an operator transmission. |
| GoEncoders.OperatorRotationBytes | operator/operator.go:228-240 | As above, for an operator rotation. |
| GoEncoders.ConformanceResponseBytes | operator/operator.go:319-327 | As above, for a conformance response. |
| ScriptEncoders.UvarintLoop | testdata/reproduce_spec.py:33-49 | The mask-and-shift loop terminates on unbounded integers with the same varint as Go's, or raises on a negative number. |
| Utf8.PointDecodes | testdata/reproduce_spec.py:53 | A code point is read off a stream if and only if it is no surrogate and the stream starts with its encoding. |
| Utf8.PointForm | testdata/reproduce_spec.py:53 | The range of a code point decides how many bytes it takes, and lead and trailing bytes spell it in base 64, by the table of section 3 of RFC 3629. |
| Utf8.EncodeInjective | testdata/reproduce_spec.py:53 | No two texts have the same UTF-8, so the bytes on the wire determine the text. |
| ScriptEncoders.EncString | testdata/reproduce_spec.py:52-54 | Go's bytes for the string that holds the text in UTF-8, or a ValueError exactly for a text with a lone surrogate. |
| ScriptEncoders.EncDomain | testdata/reproduce_spec.py:83-85 | An ASCII tag, put through the text encoder, comes out as the length-prefixed string of its own characters, which are the bytes Go gives it. |
| ScriptEncoders.EncBytes | testdata/reproduce_spec.py:57-58 | Go's bytes for the byte slice. |
| ScriptEncoders.EncBool | testdata/reproduce_spec.py:61-62 | Go's byte for the bool. |
| ScriptEncoders.EncUint64 | testdata/reproduce_spec.py:65-68 | Go's bytes for a uint64, and for an index converted to one, exactly in range; a ValueError for all others. |
| ScriptEncoders.EncInt64 | testdata/reproduce_spec.py:71-75 | Go's two's-complement bytes exactly for int64 values, a ValueError for all others. |
| ScriptEncoders.EncTime | testdata/reproduce_spec.py:78-80 | Go's bytes for the instant exactly when the nanoseconds are an int64, and a ValueError where Go skips the field. |
| ScriptEncoders.AddPrinters | testdata/reproduce_spec.py:98-102 | Count and loop put the whole list on the wire, or a text in it refuses the row. |
| ScriptEncoders.AddGPUs | testdata/reproduce_spec.py:103-108 | The same for GPUs, whose memory sizes may refuse it too. |
| ScriptEncoders.AddArgs | testdata/reproduce_spec.py:140-143 | The same for arguments. |
| ScriptRecords.GoOfFields | testdata/reproduce_spec.py:93-303 | Every row stands for a Go message of its type with valid times, whose fields are the row's in order. |
| ScriptRecords.DescribedExactly | testdata/reproduce_spec.py:65-80 | For any message and a row stating the same, no field is refused if and only if texts have UTF-8 forms, times are valid and indices not negative; the row then stands for that very message. |
| ScriptRecords.DescribesOwnMessage | testdata/reproduce_spec.py:65-80 | A row whose numbers have their widths states the same as the Go message it stands for if and only if its indices are Go ints. |
| ScriptEncoders.AgreesWithGo | testdata/reproduce_spec.py:93-303 | What the script returns for a row is what Go signs for the message it describes under exactly that condition, and a ValueError otherwise; for all fifteen types. |
| ScriptEncoders.CanonCapabilityListing | testdata/reproduce_spec.py:93-120 | The canonical bytes of the Go message with the row's fields, name by name, if and only if every text has a UTF-8 form and every number the width its encoder asks for, and a ValueError otherwise; the bytes parse to a tag spelled as the script's own literal for this type and the payload written out field by field. Lists of any length. |
| ScriptEncoders.CanonHeartbeat | testdata/reproduce_spec.py:123-129 | As above, for a heartbeat. |
| ScriptEncoders.CanonAssignment | testdata/reproduce_spec.py:132-151 | As above, for an assignment. |
| ScriptEncoders.CanonDecline | testdata/reproduce_spec.py:154-161 | As above, for a decline. |
| ScriptEncoders.CanonJobReport | testdata/reproduce_spec.py:164-174 | As above, for a job report. |
| ScriptEncoders.CanonFeeDeclaration | testdata/reproduce_spec.py:177-185 | As above, for a fee declaration. |
| ScriptEncoders.CanonStorageLease | testdata/reproduce_spec.py:188-201 | As above, for a storage lease. |
| ScriptEncoders.CanonLeaseDecline | testdata/reproduce_spec.py:204-211 | As above, for a lease decline. |
| ScriptEncoders.CanonLeaseRelease | testdata/reproduce_spec.py:214-220 | As above, for a lease release. |
| ScriptEncoders.CanonProofResponse | testdata/reproduce_spec.py:223-233 | As above, for a proof response. |
| ScriptEncoders.CanonKeyRotation | testdata/reproduce_spec.py:236-244 | As above, for a key rotation. |
| ScriptEncoders.CanonKeyRevocation | testdata/reproduce_spec.py:247-254 | As above, for a key revocation. |
| ScriptEncoders.CanonOperatorTransmission | testdata/reproduce_spec.py:263-274 | As above, for an operator transmission; an index of 2^63 or more stands for the negative int that Go converts to it. |
| ScriptEncoders.CanonOperatorRotation | testdata/reproduce_spec.py:277-291 | As above, for an operator rotation; an index of 2^63 or more stands for the negative int that Go converts to it. |
| ScriptEncoders.CanonConformanceResponse | testdata/reproduce_spec.py:294-303 | As above, for a conformance response; an index of 2^63 or more stands for the negative int that Go converts to it. |
| Signing.VerifiedUnderTrustedKey | identity/keylife.go:104-108 | Whatever a core Verify accepts carries a valid signature over its own bytes under the key the caller trusts, revocations included. |
| Signing.CoreAcceptedExactly | identity/keylife.go:58-108 | Every core Verify spelled out: a 32-byte key, a 64-byte signature that verifies over the message's own bytes; for a rotation also the algorithm "ed25519" and a 32-byte successor; for a revocation also that it names the very key it is checked under. |
| Signing.SignThenVerify | identity/keylife.go:58-74 | A freshly signed core message is accepted under the signer's key if and only if a rotation names a well-formed successor and a revocation names that key; times play no part. |
| Signing.IncompleteBytesVerify | canon/canon.go:139-148 | With a skipped time a freshly signed core message is accepted if and only if it is in order, and a different message gets the same answer from Verify on every signature under every key. |
| Signing.Envelope.Sign | identity/keylife.go:59-74 | Only the signature changes, and the object then verifies under the signer's key if and only if it is in order for that key. |
| Operator.VerifyTransmission | operator/operator.go:131-139 | nil if and only if the documented requirements hold jointly; otherwise the report of the foremost requirement, in the code's order, that is not met. |
| Operator.VerifyConformance | operator/operator.go:344-349 | The same for a conformance response, which has no nonce requirement. |
| Operator.VerifyRotation | operator/operator.go:258-301 | The same for a rotation, for every iteration order of either map pass: a duplicate key anywhere outranks a mixed algorithm anywhere, and both outrank every fault of a signer. |
| Operator.VerdictIsFirstFailure | operator/operator.go:131-205 | A verdict is returned if and only if it is the report of the foremost requirement not met (range, then duplicate key, then the first signer, then the second), which gives each error its exact condition. |
| Operator.DocumentedVerdict | operator/operator.go:115-124 | The order the comment documents has exactly one verdict, equal to the code's if and only if it is not the case that both signers miss something, the second at an earlier stage under another error; there the code reports the first signer's fault. |
| Operator.MissingKeyBehindShortSignature | operator/operator.go:181-186 | The orders do part: a second key missing behind a first signature of the wrong length is reported as the length by the code and as the key by the documented order. |
| Operator.AcceptedExactly | operator/operator.go:131-205 | nil is returned if and only if all the documented requirements hold jointly, with indices 0 to 6 and nonces of at least 16 bytes. |
| Operator.EarlyVerdicts | operator/operator.go:131-139 | For all three messages: the exact condition of each error that needs no registered key (short nonce, unknown algorithm, index out of range, same index). |
| Operator.SignerVerdicts | operator/operator.go:143-162 | For one signer: the exact condition of each error, in the order range, key, algorithm, signature length, key length, signature. |
| Operator.DuplicateOutranksSignatures | operator/operator.go:166-205 | For all three messages: the duplicate-key error is returned exactly when nothing ahead of it fails and a rotation installs a key held elsewhere or the two signing indices hold one key, whatever the signatures. |
| Operator.Credential.Sign | operator/operator.go:105-113 | The two indices, and "ed25519" spelled out where no algorithm was named, are set before both signatures are taken and nothing else of the message changes; the object then verifies, in every registry holding the two keys, if and only if it is in order there and the keys differ. |
| Operator.SignThenVerifyExactly | operator/operator.go:105-139 | Signing with the keys registered at two indices is accepted if and only if indices and keys differ, the nonce has at least 16 bytes, the algorithm is "ed25519", and a rotation is in order. |
| Operator.RotateKeepsSound | operator/operator.go:253-301 | One submission, accepted or not, keeps a registry in range, pairwise distinct, well-formed and single-algorithm. |
| Operator.AcceptanceUnifiesAlgorithms | operator/operator.go:277-299 | Even from a registry that mixes algorithms, an accepted rotation leaves only its own. |
| Operator.Registry.Submit | operator/operator.go:253-257 | On a nil verdict the rotated index holds the new key and algorithm and every other index is as it was; on an error nothing changes; soundness survives. |
| Network.Coordinator.Authorize | coordinator/coordinator.go:27-34 | True exactly for the deliveries the contracts admit: right key, right signature, fresh Seq, unused nonce. |
| Network.AcceptsExactly | coordinator/coordinator.go:26-87 | Acceptance type by type, in any state: assignments, fee declarations and leases verify under the coordinator's key, every other core message under the key trusted for the node it names; listings, heartbeats and rotations of a node and leases of a LeaseID each have a counter of their own; proofs ask for a new nonce and an unreleased lease. |
| Network.Coordinator.Receive | coordinator/coordinator.go:65-87 | A rejected delivery changes nothing; an accepted one takes the single step of the state machine, on fields updated in place. |
| Network.StepGate | coordinator/coordinator.go:27-30 | One event moves a counter only to a strictly higher value, that of the message accepted there: a listing, a heartbeat or a rotation of that node, or a lease of that LeaseID. |
| Network.StepKey | coordinator/coordinator.go:79-87 | One event touches a node's key only if it is an accepted rotation, verified under the old key, or an accepted revocation of that node. |
| Network.StepMeter | coordinator/coordinator.go:71-74 | One event moves a lease's meter only by one, for an accepted proof with a nonce not seen on that lease, never after a release; and a lease is released by accepted releases of it only. |
| Network.StepRegistry | operator/operator.go:253-257 | One event moves an operator's registry only by an accepted rotation of that operator, which puts its key and algorithm at its own index and leaves every other index alone. |
| Network.EnrolmentFixed | coordinator/coordinator.go:79-87 | In every run the coordinator's key stays what it was, and no operator is enrolled or struck off. |
| Network.SeqsStrictlyIncrease | coordinator/coordinator.go:27-34 | In every run, Seqs of accepted listings, heartbeats or rotations of one node, or of leases of one LeaseID, strictly increase. |
| Network.NoGatedReplay | identity/keylife.go:12-23 | No listing, heartbeat, rotation or lease is accepted twice, even when keys cycle back to an earlier one. |
| Network.GateIsMaximum | coordinator/coordinator.go:27-34 | From a counter nothing has passed, the Seq it holds is the greatest accepted there in the run. |
| Network.TrustedKeysFormChain | identity/keylife.go:11-18 | At every moment of every run the trusted key ends a chain in which each successor was named by a rotation verified under its predecessor, Seqs rising. |
| Network.RevokedExactly | identity/keylife.go:27-32 | A node lacks a trusted key exactly when it never had one or a revocation of it was accepted. |
| Network.RevocationAbsorbs | identity/keylife.go:27-32 | After an accepted revocation no message of that node is accepted again, in any continuation. |
| Network.MeterCountsDistinctNonces | coordinator/coordinator.go:71-74 | In every run the meter equals the number of accepted proofs and the number of distinct accepted nonces of that lease. |
| Network.ReleaseStopsMetering | lease/lease.go:72-75 | From an accepted release on, the lease's meter never moves. |
| Network.ReleasedExactly | lease/lease.go:72-75 | A lease counts as released if and only if it did from the start or a release of it was accepted. |
| Network.AcceptedFromHistory | coordinator/coordinator.go:26-34 | Starting with no accepted messages, a core message is accepted after a run if and only if its signature verifies under the right key, a rotation or revocation is in order, and the run accepted no listing (heartbeat, rotation) of the same node, or lease of the same LeaseID, with a Seq as high, and no proof of the same lease and nonce nor a release of the lease. |
| Network.HonestDeliveryAccepted | coordinator/coordinator.go:26-34 | After any run, what the holder of the coordinator's key signs (assignment, fee declaration, lease), or of the node's key (the nine others), is accepted if and only if the run accepted nothing of the same counter with a Seq as high, no proof with its nonce and no release of its lease, up to malformed successors and foreign revocations. |
| Network.RegistriesStaySound | operator/operator.go:253-301 | Every run keeps every operator registry in range, pairwise distinct, well-formed and single-algorithm. |
| Network.AcceptedMeansSigned | employment/employment.go:111-115 | In every run over an ideal ledger an accepted message was signed as that type with those fields: assignments, fee declarations and leases by the holder of the coordinator's key, the nine other core types by the holder of the key then trusted for the node named, operator messages by the holders of two different registered keys. |
| Network.NodeKeyCustody | identity/keylife.go:11-18 | At every moment of a run over an ideal ledger the trusted key goes back to the enrolled one through the accepted rotations, each signed before its delivery by the holder of the key trusted just before it, the one the previous rotation named. |
| Network.OperatorKeyCustody | operator/operator.go:207-212 | Every registered operator key was enrolled or installed on the signatures of two different keys' holders, and no index loses its key. |
| Proof.ProofDigest | lease/lease.go:117-128 | The digest is the hash of a string whose first 16 bytes are the nonce, whose next two words read as offset and length modulo 2^64 in this order, and whose rest is the range. |
| Proof.ProofOverShard | lease/lease.go:140-146 | An answer is given exactly when the mathematical range lies inside the shard and is not empty, and is then the hash of nonce, offset, length and the shard's bytes there, laid out in this order; no slice is out of bounds. |
| Proof.LaidExactly | lease/lease.go:112-124 | Exactly one string has that layout. |
| Proof.GuardExact | lease/lease.go:141 | The short-circuit guard in wrapping int64 arithmetic decides the range condition over the integers, and the end of the range never wraps once it passes. |
| Proof.SubtractionWraps | lease/lease.go:141 | The bare subtraction is exact if and only if the length exceeds the shard size minus 2^63: testing the length first is what makes it safe. |
| Proof.PreimageInjective | lease/lease.go:112-124 | Equal preimages mean equal nonce, offset, length and range bytes. |
| Proof.AnswersBindRange | lease/lease.go:112-116 | For any two shards and challenges, answers agree if and only if nonce, range and the bytes there agree or the two preimages are a collision of the hash. |
| HeartbeatGate.RecordingCoordinator.HeartbeatGate | no_inbound_test.go:334-340 | The first critical section admits exactly a higher Seq and records it. |
| HeartbeatGate.RecordingCoordinator.Note | no_inbound_test.go:319-326 | The second appends one log entry and moves nodeSeen only for a named node. |
| HeartbeatGate.RecordingCoordinator.Heartbeat | no_inbound_test.go:333-343 | Uninterrupted, a call is the two sections back to back, and a refused one changes nothing. |
| HeartbeatGate.AdmittedIncrease | no_inbound_test.go:334-340 | Under every interleaving admitted Seqs strictly increase in gate order. |
| HeartbeatGate.AdmittedAreLoggedOrPending | no_inbound_test.go:333-343 | Under every interleaving admitted calls equal logged heartbeats plus calls between their sections. |
| HeartbeatGate.LastSeqIsMaximum | no_inbound_test.go:335-339 | lastSeq is the greatest Seq that ever reached the gate, or 0. |
| HeartbeatGate.AdmittedExactly | no_inbound_test.go:334-340 | After any schedule a call is admitted if and only if its Seq is positive and above every Seq that reached the gate before, admitted or not. |
| HeartbeatGate.LastSeqIgnoresOrder | no_inbound_test.go:335-339 | Two schedules with the same heartbeats end at the same lastSeq. |
| HeartbeatGate.AdmissionDependsOnOrder | no_inbound_test.go:335-338 | After any schedule, the order of two calls decides what is admitted if and only if their Seqs differ and both exceed lastSeq; the lower is then shut out by coming second. |
| HeartbeatGate.NodeSeenIsLastNoted | no_inbound_test.go:319-326 | Under every schedule nodeSeen is the node of the last note that names one, or empty when none did. |
| HeartbeatGate.CallsAreNoted | no_inbound_test.go:319-326 | Under every schedule the log holds exactly the operations noted, in schedule order. |
| HeartbeatGate.NodeSeenCanLag | no_inbound_test.go:339-342 | After any schedule, two calls admitted in Seq order leave nodeSeen at the higher Seq's node if they log in that order and at the lower one's if they log in the other, with the same lastSeq. |
| ScriptEdwards.ScalarMult | testdata/reproduce_spec.py:369-376 | The loop computes double-and-add for any addition whatever. |
| ScriptEdwards.DoubleAndAddIsTimes | testdata/reproduce_spec.py:369-376 | For any addition that is associative with an identity up to an equivalence, on a set it does not leave, double-and-add is the e-fold sum up to that equivalence. |
| ScriptEdwards.ZeroIsIdentity | testdata/reproduce_spec.py:351-370 | The loop's start (0, 1, 1, 0), added on either side, leaves every extended point with invertible 4z at the same projective point. |
| ScriptEdwards.AdditionLaw | testdata/reproduce_spec.py:351-366 | Modulo p and reduced, the sum is (4(x1y2+y1x2)(z1z2-dt1t2), 4(y1y2+x1x2)(z1z2+dt1t2), 4(z1z2-dt1t2)(z1z2+dt1t2), 4(x1y2+y1x2)(y1y2+x1x2)). |
| ScriptEdwards.ZeroMoves | testdata/reproduce_spec.py:351-370 | It does not leave the quadruple alone: doubled, it becomes (0, 4, 4, 0). |
| ScriptEdwards.EdwardsMonoid | testdata/reproduce_spec.py:351-366 | Sameness of projective points is an equivalence that the script's addition respects; on a set that addition does not leave and on which it is associative up to it, all laws the e-fold sum needs hold (the curve's points are such a set, `EdwardsGroup.CurveIsAssociative`). |
| ScriptEdwards.DoubleAndAddPreserves | testdata/reproduce_spec.py:369-376 | Any relation that addition preserves, double-and-add preserves. |
| ScriptEdwards.AddIsExtended | testdata/reproduce_spec.py:351-366 | The sum of any two quadruples satisfies X*Y = Z*T modulo p. |
| ScriptEdwards.ScalarMultKeepsExtended | testdata/reproduce_spec.py:369-376 | From the start (0, 1, 1, 0), every accumulator and base the loop holds keeps X*Y = Z*T modulo p if and only if the given point has it; the result then has it too. |
| ScriptEdwards.AffineIsExtended | testdata/reproduce_spec.py:393 | The points the script builds, a decoded one and the reduced base point, have X*Y = Z*T modulo p. |
| ScriptEdwards.AddScales | testdata/reproduce_spec.py:351-366 | Scaling the operands by s and t scales the sum by (s*t)^2, for any modulus and curve constant. |
| ScriptEdwards.ScalarMultRespectsSamePoint | testdata/reproduce_spec.py:369-376 | Two representatives of one projective point give representatives of one projective point. |
| ScriptEdwards.BytesKeepValue | testdata/reproduce_spec.py:384-385 | The packed bytes, read little-endian, are the number the bits spell. |
| ScriptEdwards.YBitsValue | testdata/reproduce_spec.py:384 | The k low bits of y spell y modulo 2^k. |
| ScriptEdwards.PackRoundTrip | testdata/reproduce_spec.py:384-391 | For every y below 2^255 the 32 packed values are bytes, the decoder's mask recovers y and its shift the parity of x. |
| EdwardsCurve.AffineLaw | testdata/reproduce_spec.py:351-366 | Of quadruples that stand for affine points, the sum X/Z and Y/Z satisfy the addition law of the curve, with denominators 1 + k and 1 - k for k = d*x1*x2*y1*y2. |
| EdwardsCurve.SumDenotes | testdata/reproduce_spec.py:351-366 | For points of the curve, the affine point the sum stands for is the one the addition law names. |
| EdwardsCurve.AddStaysOnCurve | testdata/reproduce_spec.py:351-366 | The sum of two points with -X^2+Y^2 = Z^2+d*T^2 and X*Y = Z*T has both properties. |
| EdwardsCurve.ScalarMultStaysOnCurve | testdata/reproduce_spec.py:369-376 | From the start (0, 1, 1, 0), every accumulator and base the loop holds is on the curve if and only if the given point is; the result then is too. |
| EdwardsCurve.AffineIsOnCurve | testdata/reproduce_spec.py:388-394 | The quadruple built from a decoded (x, y) is on the curve if and only if -x^2+y^2 = 1+d*x^2*y^2. |
| EdwardsCurve.AddIsComplete | testdata/reproduce_spec.py:351-366 | The formula has no exceptions: modulo an odd prime in which -1 is a square and d is not, the sum of any two points of the curve with invertible z has an invertible z. |
| EdwardsCurve.ScalarMultMeetsNoInfinity | testdata/reproduce_spec.py:369-383 | So every point the loop holds has an invertible z exactly when the given one is such a point of the curve, and the division in `_encodepoint` is one. |
| EdwardsCurve.CompleteModFive | testdata/reproduce_spec.py:326-329 | The conditions on p, d and the square root of -1 can be met, by a curve with points other than the loop's start. |
| EdwardsGroup.AddAssociates | testdata/reproduce_spec.py:351-366 | On the curve, (P+Q)+R and P+(Q+R) are the same projective point. |
| EdwardsGroup.AddCommutes | testdata/reproduce_spec.py:351-366 | P+Q and Q+P are the same quadruple. |
| EdwardsGroup.AddInverse | testdata/reproduce_spec.py:351-370 | P and (-x, y, z, -t) add up to the projective point the loop starts from. |
| EdwardsGroup.CurveIsAssociative | testdata/reproduce_spec.py:351-366 | The points of the curve with invertible z are a set the addition does not leave and is associative on. |
| EdwardsGroup.ScalarMultIsTimes | testdata/reproduce_spec.py:369-376 | For every point of the curve and every e, what the loop returns is the projective point e additions give. |
| EdwardsGroup.ScalarMultAdds | testdata/reproduce_spec.py:369-376 | m + n times a point is the sum of m times it and n times it. |
| EdwardsGroup.ScalarMultMultiplies | testdata/reproduce_spec.py:369-376 | m * n times a point is n times m times it. |
| EdwardsGroup.PackedAlike | testdata/reproduce_spec.py:379-385 | Two quadruples of one projective point are packed into the same bytes. |

## Left out

- transport/httpjson and JSON: input and output over net/http and encoding/json.
- Security of Ed25519 and SHA-256: they are abstract functions; the ideal ledger and the absence of a hash collision are premises of the results that need them.
- The operator anti-replay window: operator/operator.go:126-130 places it outside this code, so an operator message may be accepted repeatedly in a run.
- Matching policy, enrolment, re-enrolment after revocation, key distribution and SPIFFE binding (PollJobs, PollLeases, the Fees query): not defined in this repository or answered without changing state.
- anchor, identity/identity.go, `Terms.Balanced`, and the enum constants: a stub, or settled by reading one line.
- conformance_test.go, the linting parts of no_inbound_test.go, and the fixture rows of testdata/vectors.json: checks of the repository's text and finite examples.
- The coordinator's bodies: the repository gives interfaces with contracts only. One `Receive` method stands for all of their operations; it adds no guard the contracts do not state. So a fee declaration's Seq is not gated, revocations are not gated, and nothing ties a proof or a release to the node the lease was offered to.
- The state before the first Seq at a gate: with no earlier message any Seq is accepted, 0 included.
- Renewal after release: a later lease message for a released LeaseID does not restart its meter; the source does not say whether it should.
- Messages as separate structs with a signature field: a message is a value, and one `Envelope` (or `Credential` for two signatures) holds it with its signature, so the twelve core `Sign` methods are one method.
- Aliasing of byte slices: `Sum` copies and `append` may share storage in Go; bytes are values here.
- EdwardsGroup.ScalarMultIsTimes: that 2^255-19 is prime, that `_I` is a square root of -1 in it and that `_d` has none, is the premise `Complete`; the results hold of every p, d and i of which it is true.
- `_xrecover`, `_inv` and the Ed25519 verification of the script: square roots and inverses modulo 2^255-19.
- Reading rows out of the JSON file: hex digits are given as the bytes they spell, of the fixed length where Go's field has one, and times as their nanoseconds.
