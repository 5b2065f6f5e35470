# A verified model of wirespec

wirespec compiles protocol descriptions to C and Rust parsers, serializers and state machines, and to
TLA+. This project models what the emitted code does, together with the runtime functions it calls and
the compiler passes whose result the emitted code relies on, and proves properties of both.

The codec is given twice. `Codec` says as functions what parsing and serializing a list of items means,
with lengths, counts, conditions and scopes that depend on earlier fields through `Expr`. `ParseCode` and
`SerializeCode` are the emitted statements on the cursor and writer of `Runtime`, proved to do what the
functions say; the theorems about the functions therefore hold of the code. What the functions themselves
mean is proved in terms a reader can check against the emitted text without them: `Items` says which input
every description reads and why it refuses the rest, `Names` what a name stands for, `ExprLaws` what an
expression is worth, `Arms` which transition a dispatch takes, and `CrcRemainder` and `Digests` what a
checksum is.

| file | content |
|---|---|
| Bits, Bytes, Xors, Outcome | powers of two, shifts, masks, exclusive or, byte encodings, error codes |
| Runtime | cursor and writer classes |
| PrefixVarInt, ContVarInt, VarIntCode | the two kinds of varint, as functions and as emitted loops |
| BitLayout, BitGroup | detection of bit groups and their offsets; packing and unpacking |
| Expr, Scalars, Codec | expressions, scalar wire types, the meaning of packets, frames and capsules |
| ExprLaws, Names, Items | what expressions are worth, what names stand for, what descriptions read and refuse |
| RoundTrip, Scopes, Stability, Capsules, Length | the codec theorems |
| Unstable, Coincidence | the inputs where stability fails, and where its failure does not show |
| ParseCode, SerializeCode, FuzzHarness, Trapping | emitted statements, the fuzz harness made of them, and when it traps |
| Emit | how items become code, and the one-item-at-a-time form of checksummed packets |
| Internet, Crc, SkipForms, Fletcher, SkippedField | checksum functions in their C and Rust forms |
| CrcRemainder, Digests | the CRC as a polynomial's remainder; what a checksum field holds |
| OneField, ChecksumPacket, ChecksumCode, Ipv4 | packets whose checksum field is patched in after serialization |
| StateMachine, Arms | generated dispatch with delegation, and which arm it takes |
| TwoStep | the TLA+ model of a state machine |
| Resolver | import resolution |
| Kahn, Delegates, TypeOrder | Kahn's algorithm and its two uses |
| SwitchLowering | C switch against Rust match arms |
| EditDistance | the distance behind name suggestions |

Preconditions come from what the compiler guarantees: branch tables have distinct prefixes, increasing
widths and whole bytes; bit groups have up to 64 bits in whole bytes and tile them; a delegated event has
one transition. Where the code needs more for a property than it checks, the property is stated with the
exact condition or with the input that breaks it:

- A parsed value parses again after serialization exactly when every `within` scope in it is written as
  long as its expression says. A varint without @strict, bytes left over that the Rust parser does not look
  at, or a C payload that reads a bit group twice make a scope shorter. The documentation of the fuzz harness
  promises stability for all descriptions.
- The payload code of C capsules is the ordinary text with another cursor put in. It reads a bit group again
  for each further field, gives bytes of an absent length the number of bytes behind the scope, and runs an
  array that fills the scope while bytes remain behind it. The model has this code as its own
  (`Codec.ParsePayload`), with a theorem where it agrees with the ordinary one and inputs where it does not.
- The harness compares bytes, not values, so that it can miss a scope that is not kept.
- Bit groups of 24, 40, 48 and 56 bits travel in a wider integer than the length code counts.
- A packet with a checksum is written one item at a time, and so writes a bit group once for each of its
  fields. Parsers that recompute the checksum read it likewise; for the internet checksum, as in the IPv4
  example, the parser is the ordinary one and does not read what the serializer writes.
- The internet checksum needs its field at an even offset, the others need a big-endian field.
- The C and Rust forms that leave out the checksum field disagree in general.
- The comment in the TLA+ backend that every property of the two-step model holds of the atomic one is
  right for configurations, for the order of states and for liveness of runs that are driven on, not for the
  order of configurations nor for liveness under events that nothing handles; and entering a state with child
  machines copies the children in Rust but starts them anew in TLA+.
- Of two transitions for one state and event the generated dispatch only ever considers the first, and reports an
  invalid state where its guard is false; the TLA+ model takes either.
- Bit widths that sum past 65535 wrap around (in a release build) and can be accepted.
- The edit distance is not a distance when the second string has characters of several bytes.

Automatic induction is switched off throughout; inductive proofs call themselves.

## Model

| member | source | states |
|---|---|---|
| Stability.StableIff | crates/wirespec-backend-c/src/source.rs:1466-1524 | for every description without bytes of an optional length in a C payload, and every input that parses: serializing succeeds in no more bytes than were read, and those bytes parse to the same value with nothing left if and only if every scope of the value is written as long as its expression says |
| Stability.ParseIsStable | crates/wirespec-backend-c/src/source.rs:1466-1524 | always, when scopes hold only what keeps its length and C payloads read each bit group once |
| Scopes.FlatIsStable | crates/wirespec-backend-c/src/source.rs:1466-1524 | packets and C capsules of numbers, @strict varints, bit groups that fill their integer, raw bytes, derived values and requires are stable, and written back byte for byte |
| Stability.ParseTypeSound | crates/wirespec-backend-c/src/parse_emit.rs:45-478 | whatever parses is written in no more bytes than were used, and in as many only if every scope is kept; it then agrees with its description |
| Stability.ParseOpsSound | crates/wirespec-backend-rust/src/parse_emit.rs:64-104 | the same for a scope's items, whose names stand for what Names.LastSays says of the parsed values |
| Stability.ParsePayloadSound | crates/wirespec-backend-c/src/parse_emit.rs:889-1017 | a C payload fits as soon as it is written as long as its scope, and is then read once |
| Stability.RunWidth | crates/wirespec-backend-c/src/parse_emit.rs:1000-1017 | a further field of a bit group uses the group's bytes once more and is written in none |
| Stability.ParseFillSound | crates/wirespec-backend-c/src/parse_emit.rs:333-478 | arrays that fill a scope use it up with elements of at least one byte each |
| Stability.FillProgress | crates/wirespec-backend-rust/src/parse_emit.rs:300-356 | an element that uses no input ends in a capacity error, never in an endless or successful loop |
| Capsules.OrdinaryPayload | crates/wirespec-backend-c/src/parse_emit.rs:889-1017 | without further fields of bit groups, bytes of an optional length and arrays that fill the scope, the C payload code reads what the ordinary code reads, whatever lies behind the scope |
| Capsules.AbsentLengthAgreesIff | crates/wirespec-backend-c/src/parse_emit.rs:1000-1017 | bytes of an absent length are the ordinary ones exactly when as many bytes remain behind the scope as in it |
| Capsules.FillAgreesIff | crates/wirespec-backend-c/src/parse_emit.rs:1000-1017 | a filling array is the ordinary one exactly when nothing is in the scope or behind it, or when both end in an error |
| Capsules.CapsuleFillsScope | crates/wirespec-backend-c/src/parse_emit.rs:654-763 | for stable descriptions: the scope is exactly the `within` bytes, the payload uses all of them and is written in as many, and an ordinary payload depends on nothing behind them |
| Capsules.CapsuleStableIff | crates/wirespec-backend-c/src/source.rs:481-532 | a parsed capsule whose header is kept is a short buffer after serialization when its payload is not as long as the `within` value says; otherwise it parses again exactly when the payload's own scopes are kept |
| Capsules.OutermostStableIff | crates/wirespec-backend-c/src/parse_emit.rs:889-1017 | a C capsule on its own, bytes of an optional length included: it parses again exactly when its scopes are kept, no bit group has a second field, and bytes of an absent length are none |
| Stability.ParseThenSerialize | crates/wirespec-backend-c/src/serialize_emit.rs:31-340 | without alternative encodings, what is written is byte for byte what was read |
| Stability.SerializeInjective | crates/wirespec-backend-rust/src/serialize_emit.rs:55-313 | different values that agree with one description have different encodings |
| Unstable.LongFormInCapsule | crates/wirespec-backend-c/src/source.rs:481-532 | a scalar read from a longer form breaks the round trip of a capsule |
| Unstable.LooseVarIntInCapsule | crates/wirespec-backend-rust/src/emit.rs:1244-1379 | every prefix varint without @strict does so with any value that fits two branches |
| Unstable.LeftoverInCapsule | crates/wirespec-backend-rust/src/parse_emit.rs:501-548 | unused scope bytes: the C parser reports trailing data, the Rust parser accepts a capsule that cannot be written back |
| Unstable.GroupTwiceInCapsule | crates/wirespec-backend-c/src/parse_emit.rs:1000-1017 | two fields of a bit group in a C payload: what the serializer writes is too short for the parser, and what the parser accepts cannot be written back; Rust reads another value |
| Unstable.FillInCapsule | crates/wirespec-backend-c/src/parse_emit.rs:1000-1017 | an array that fills the scope of a C payload rejects every scope but the empty one |
| Unstable.AbsentLengthInCapsule | crates/wirespec-backend-c/src/parse_emit.rs:1000-1017 | bytes of an absent length in a C payload: what is read, and that it parses again exactly when the scope was empty and nothing followed |
| Coincidence.LongFormInArray | crates/wirespec-backend-c/src/parse_emit.rs:333-478 | the same longer form in an array that fills a scope of a packet: cut short |
| Coincidence.CutShortByHand | crates/wirespec-backend-c/src/source.rs:1488-1521 | 02 40 01 is such an input with the table of QUIC without @strict |
| Coincidence.HarnessMisses | crates/wirespec-backend-c/src/source.rs:1488-1521 | with the missing bytes made up by the ones behind the scope the harness sees no difference |
| Coincidence.MissedByHand | crates/wirespec-backend-c/src/source.rs:1488-1521 | 02 40 01 05 is such an input |
| Coincidence.MadeUpByHand | crates/wirespec-backend-c/src/parse_emit.rs:1000-1017 | 00 01 d0 40 01 is an input that is written back byte for byte though its capsule's scope is not kept |
| Coincidence.OverrunMakesUp | crates/wirespec-backend-c/src/parse_emit.rs:1000-1017 | with data from behind a C payload's scope a value can be written back byte for byte though its scope is not kept, which is why StableIff leaves such descriptions out |
| FuzzHarness.TestOneInput | crates/wirespec-backend-c/src/source.rs:1488-1521 | the harness traps exactly on the inputs the functions say: a re-parse that fails, leaves bytes or re-serializes differently |
| FuzzHarness.TrapsIs | crates/wirespec-backend-c/src/source.rs:1488-1521 | what is read and written in the buffer must be read back whole as something that is written in the same bytes |
| Trapping.TrapsIff | crates/wirespec-backend-c/src/source.rs:1488-1521 | for the descriptions of StableIff: exactly on the inputs with a scope that is not kept, unless the encoding does not fit the buffer or happens to be that of another value |
| Trapping.StableNeverTraps | crates/wirespec-backend-c/src/source.rs:1466-1470 | on no input at all for stable descriptions |
| Trapping.CapsuleTrapsIff | crates/wirespec-backend-c/src/source.rs:1488-1521 | for a capsule whose header is kept: always when the payload is written shorter than its scope and fits the buffer, and never when it is as long and the payload's own scopes are kept |
| RoundTrip.TypeRoundTrip | crates/wirespec-backend-rust/src/serialize_emit.rs:55-313 | every value that agrees with its description is read back from its bytes, and exactly what follows is left |
| RoundTrip.OpsRoundTrip | crates/wirespec-backend-rust/src/parse_emit.rs:64-356 | the same for item lists whose lengths, counts, conditions, derived values and requires depend on earlier items, by the names of Names.LastSays and the values of ExprLaws |
| RoundTrip.PayloadRoundTrip | crates/wirespec-backend-c/src/parse_emit.rs:889-1017 | every C payload that agrees with its description, and with what follows the capsule, is read back |
| RoundTrip.FillRoundTrip | crates/wirespec-backend-c/src/parse_emit.rs:333-478 | a filling array reads back all its elements and stops at the end of its scope |
| RoundTrip.GroupRoundTrip | crates/wirespec-backend-rust/src/serialize_emit.rs:226-261 | bit group members that fit their widths survive packing, byte order and unpacking |
| Length.LenTypeCounts | crates/wirespec-backend-rust/src/serialize_emit.rs:315-441 | for every value that can be written: the counted length is what is written if and only if no bit group of the value has a size other than 8, 16, 32 or 64 bits, and less otherwise |
| Length.ParsedLength | crates/wirespec-backend-c/src/serialize_emit.rs:580-708 | for parsed values no more is counted than written nor written than read; with length-keeping encodings the count is what was read under exactly the same condition |
| Length.GroupLenExact | crates/wirespec-backend-rust/src/type_map.rs:183-194 | the group sizes counted exactly are 8, 16, 32 and 64 bits |
| Length.WideGroupUndercounted | crates/wirespec-backend-rust/src/serialize_emit.rs:350-356 | every other size makes the counted buffer too small |
| Length.SerializedLen | crates/wirespec-backend-c/src/serialize_emit.rs:580-708 | the accumulating statements add up to the length the theorems are about |
| Length.AddElements | crates/wirespec-backend-rust/src/serialize_emit.rs:413-428 | the loop over variable-size elements |
| ParseCode.Parse | crates/wirespec-backend-rust/src/parse_emit.rs:403-500 | the emitted statements return what `Codec.ParseType` says, error codes included, and leave the cursor where it says |
| ParseCode.ParseCapsule | crates/wirespec-backend-c/src/parse_emit.rs:654-763 | header, sub-cursor, variant, the payload code of the backend and the trailing-data check do what the capsule's meaning says |
| ParseCode.ParsePayloadItems | crates/wirespec-backend-c/src/parse_emit.rs:889-1017 | the C payload statements on the two cursors, each reading of a bit group assigned over the one before |
| ParseCode.ParsePayloadItem | crates/wirespec-backend-c/src/parse_emit.rs:1000-1017 | one item's statements with the cursor put in: what asks for the remaining bytes asks the outer cursor |
| ParseCode.ParseWhileOuter | crates/wirespec-backend-c/src/parse_emit.rs:333-478 | the loop that tests the outer cursor ends at once or in an error |
| ParseCode.ParseItems | crates/wirespec-backend-rust/src/parse_emit.rs:64-104 | items run in order, each with the names bound so far (Names.LastSays), as Items.ParseOpsIs says |
| ParseCode.ParseItem | crates/wirespec-backend-c/src/parse_emit.rs:125-283 | one item's statements |
| ParseCode.ParseElements | crates/wirespec-backend-rust/src/parse_emit.rs:300-356 | the counted loop |
| ParseCode.ParseUntilEmpty | crates/wirespec-backend-c/src/parse_emit.rs:333-478 | the loop that runs while bytes remain, with its capacity error |
| ParseCode.ParseBitGroup | crates/wirespec-backend-rust/src/parse_emit.rs:266-298 | one read, then shift and mask per member |
| ParseCode.ParseRawField | crates/wirespec-backend-c/src/parse_emit.rs:125-283 | fixed, counted, remaining and length-or-remaining bytes; a length is worth what ExprLaws.UsesAre says |
| ParseCode.ParseScalar | crates/wirespec-backend-rust/src/parse_emit.rs:14-52 | primitive and varint reads |
| Items.ParseTypeIs | crates/wirespec-backend-c/src/parse_emit.rs:489-763 | a type is read with a value exactly if: a frame's tag is read and the first variant that covers it, then that variant's items; a capsule's header, as many bytes as it says, and the first variant that covers the selector, whose payload is read in those bytes, all of them in C |
| Items.ParseOpsIs | crates/wirespec-backend-c/src/parse_emit.rs:65-105 | a scope is read with some values exactly if its items are, one after another, each under the names bound by those before |
| Items.ParseOpIs | crates/wirespec-backend-c/src/parse_emit.rs:125-283 | an item is read with a value exactly in these cases, each kind given by what its condition, length or count is worth: a required expression is true, a condition decides between absent and present, a counted array has that many elements and no more than there is room for, raw bytes have the length their expression says |
| Items.ParseCountIs | crates/wirespec-backend-rust/src/parse_emit.rs:300-356 | counted arrays are read exactly as so many elements one after another |
| Items.ParseFillIs | crates/wirespec-backend-c/src/parse_emit.rs:333-478 | filling arrays exactly as elements up to the end, none starting there, no more than there is room for |
| Items.OpsFail | crates/wirespec-backend-c/src/parse_emit.rs:65-105 | the error of a scope is that of its first item that fails, under the names bound before it |
| Items.OpFails | crates/wirespec-backend-c/src/parse_emit.rs:125-478 | which error an item ends in, and why: too few bytes, a false requirement, too many elements, an expression without a value, or an element's own error |
| Items.TypeFails | crates/wirespec-backend-c/src/parse_emit.rs:489-763 | which error a type ends in, and why: no variant for the tag, a scope longer than the input, a scope not used up, or an item's error |
| Items.SelectIs | crates/wirespec-backend-rust/src/parse_emit.rs:403-440 | the variant taken is the first in declaration order that covers the tag, ranges with both ends |
| Items.RunPayloadIs | crates/wirespec-backend-c/src/parse_emit.rs:889-1017 | the readings of a C payload follow one another, each under the names bound by those before |
| Items.PayloadItemIs | crates/wirespec-backend-c/src/parse_emit.rs:1000-1017 | the three kinds of item that a C payload reads otherwise, and what it reads; all others as outside |
| Items.FinalIs | crates/wirespec-backend-c/src/parse_emit.rs:1000-1017 | of the readings of a bit group the struct keeps the last one |
| Names.MemberRead | crates/wirespec-backend-rust/src/parse_emit.rs:281-295 | each name of a bit group stands for its own bits: the group's bytes in their byte order, shifted down by the member's offset and cut to its width |
| Names.ExtendGives | crates/wirespec-backend-c/src/parse_emit.rs:65-105 | after an item a name stands for what the item's value says, by the kind of item: a field, a member of a bit group, an optional field present or missing, a derived value; with the type of its struct member |
| Names.ExtendKeeps | crates/wirespec-backend-c/src/parse_emit.rs:65-105 | every other name stands for what it did before |
| Names.PacketName | crates/wirespec-backend-c/src/parse_emit.rs:65-105 | in a packet a name stands for what the last item says that says something about it, and for nothing if none does |
| Names.PayloadName | crates/wirespec-backend-c/src/expr.rs:40-66 | in a capsule's payload the header's names come first, whatever the payload says; other names are the payload's own |
| Names.FrameName | crates/wirespec-backend-c/src/parse_emit.rs:489-562 | in a frame the tag's name comes first, with the tag's value |
| Names.SynByHand | examples/net/tcp.wspec:9-18 | 50 02 in a TCP header: the data offset is 5 and the FIN flag 0 |
| Names.AgreeingTyped | crates/wirespec-backend-c/src/type_map.rs:9-40 | in a value that agrees with its description every name holds a value of its C type |
| SerializeCode.Serialize | crates/wirespec-backend-c/src/serialize_emit.rs:284-340 | success writes exactly the encoding at the writer's position and touches nothing else; failure means no encoding or no room, and keeps what was before |
| SerializeCode.SerializeItems | crates/wirespec-backend-rust/src/serialize_emit.rs:55-93 | the same for a scope's items |
| SerializeCode.SerializeElements | crates/wirespec-backend-rust/src/serialize_emit.rs:263-313 | the same for the element loop |
| SerializeCode.SerializeBitGroup | crates/wirespec-backend-c/src/serialize_emit.rs:177-217 | members or-ed together and written at once |
| SerializeCode.SerializeScalar | crates/wirespec-backend-rust/src/serialize_emit.rs:110-224 | scalars, through the varint loops |
| Runtime.Cursor.ReadBytes | crates/wirespec-rt/src/lib.rs:205-210 | the next bytes, or a short buffer that moves nothing |
| Runtime.Cursor.ReadUint | runtime/wirespec_runtime.h:96-192 | fixed-width reads in both byte orders |
| Runtime.Cursor.SubCursor | crates/wirespec-rt/src/lib.rs:220-234 | a cursor over exactly the next bytes, which the outer cursor skips |
| Runtime.Writer.Write | crates/wirespec-rt/src/lib.rs:366-371 | all bytes in place and nothing else changed, or no change |
| Runtime.Writer.WriteUint | runtime/wirespec_runtime.h:242-330 | fixed-width writes in both byte orders |
| PrefixVarInt.RoundTrip | crates/wirespec-backend-rust/src/emit.rs:1244-1379 | parse undoes serialize after exactly wire_size bytes; serialize fails, with overflow, exactly above every branch's maximum |
| PrefixVarInt.ParseSound | crates/wirespec-backend-c/src/source.rs:1059-1213 | what is read can be written in no more bytes, and in the same bytes under @strict |
| PrefixVarInt.StrictAccepts | crates/wirespec-backend-rust/src/emit.rs:1293-1307 | @strict accepts exactly the images of serialize |
| PrefixVarInt.LongForm | crates/wirespec-backend-rust/src/emit.rs:1293-1307 | a longer form than needed is rejected by @strict and otherwise read as the same value |
| PrefixVarInt.EncodeIs | crates/wirespec-backend-rust/src/emit.rs:1314-1359 | the bytes of a branch as one big-endian number are the prefix on top of the value |
| PrefixVarInt.SerializeIs | crates/wirespec-backend-rust/src/emit.rs:1314-1359 | a value is written in the first branch that has enough bits for it |
| PrefixVarInt.ParseIs | crates/wirespec-backend-rust/src/emit.rs:1247-1312 | the first byte's top bits are the prefix of the branch, whose bytes are read as prefix and value; the errors by case |
| PrefixVarInt.NoBranch | crates/wirespec-backend-rust/src/emit.rs:1247-1312 | no byte is a short buffer, a prefix of no branch an invalid tag |
| PrefixVarInt.QuicByHand | examples/quic/varint.wspec:1-13 | 7b bd is 15293 in the table of QUIC |
| ContVarInt.RoundTrip | crates/wirespec-backend-c/src/source.rs:1217-1337 | parse undoes serialize in both byte orders and in Rust; serialize succeeds exactly below base to the maximum number of bytes; the length is wire_size |
| ContVarInt.ParseSound | crates/wirespec-backend-c/src/source.rs:1217-1337 | no byte string that parses to a value is shorter than its encoding |
| ContVarInt.SevenBitsAgree | crates/wirespec-backend-rust/src/emit.rs:1381-1437 | at seven value bits the C and Rust loops read, write and measure alike |
| ContVarInt.EncodeIs | crates/wirespec-backend-c/src/source.rs:1264-1312 | each byte holds one digit of the value to the base 2^valueBits, in the declared order, and all but the last the mark; as few bytes as hold the value |
| ContVarInt.ParseIs | crates/wirespec-backend-c/src/source.rs:1217-1262 | the bytes up to the first without the mark are the digits of the value modulo 2^64; an overflow without one in time, a short buffer without one at all |
| ContVarInt.MqttByHand | examples/mqtt/mqtt.wspec:4-9 | 80 01 is 128 in MQTT's remaining length |
| VarIntCode.ParsePrefix | crates/wirespec-backend-rust/src/emit.rs:1247-1312 | the emitted shifts and ors compute the prefix varint's value and errors |
| VarIntCode.SerializePrefix | crates/wirespec-backend-rust/src/emit.rs:1314-1359 | the emitted byte writes produce its encoding, or fail with overflow or a short buffer as each applies |
| VarIntCode.ParseLowFirst | crates/wirespec-backend-rust/src/emit.rs:1387-1405 | the 64-bit or-and-shift loop, high bits lost |
| VarIntCode.ParseHighFirst | crates/wirespec-backend-c/src/source.rs:1229-1262 | the shift-left loop |
| VarIntCode.SerializeLowFirst | crates/wirespec-backend-rust/src/emit.rs:1407-1423 | groups written as they are split off |
| VarIntCode.SerializeHighFirst | crates/wirespec-backend-c/src/source.rs:1288-1312 | groups collected in a scratch buffer and written in reverse |
| VarIntCode.WireSize | crates/wirespec-backend-rust/src/emit.rs:1425-1437 | the counting loop |
| Scalars.RoundTrip | crates/wirespec-backend-rust/src/type_map.rs:99-180 | every scalar in range is read back from its non-empty encoding |
| Scalars.ParseSound | crates/wirespec-backend-rust/src/type_map.rs:99-180 | every scalar read is in range and can be written in no more bytes |
| Scalars.ReadingIs | crates/wirespec-rt/src/lib.rs:94-201 | a signed reading is congruent to its bytes modulo the word's span and lies in the signed range, an unsigned one is its bytes, a flag 1 unless they are zero |
| Scalars.WritingIs | crates/wirespec-rt/src/lib.rs:261-363 | what is written for a number is congruent to it and fits the word |
| Bytes.BigEndianAt | crates/wirespec-rt/src/lib.rs:261-363 | high byte first: byte i counts 256 to the number of bytes behind it |
| Bytes.LittleEndianAt | crates/wirespec-rt/src/lib.rs:261-363 | low byte first: byte i counts 256 to the i |
| BitGroup.PackUnpack | crates/wirespec-backend-rust/src/serialize_emit.rs:226-261 | unpacking a packed group gives the values cut to their widths, in both layouts |
| BitGroup.UnpackPack | crates/wirespec-backend-rust/src/parse_emit.rs:266-298 | packing an unpacked integer of the group's size gives it back |
| BitGroup.PackLoop | crates/wirespec-backend-c/src/serialize_emit.rs:177-217 | the or-loop over the members |
| BitGroup.UnpackAt | crates/wirespec-backend-rust/src/parse_emit.rs:281-295 | member i is the container divided by 2 to its offset, modulo 2 to its width |
| BitLayout.Detect | crates/wirespec-layout/src/bitgroup.rs:27-77 | success describes exactly the maximal runs of bit fields; failure means some run's total was refused |
| BitLayout.Finalize | crates/wirespec-layout/src/bitgroup.rs:91-149 | one run's offsets and back references, or the two size errors |
| BitLayout.InOneGroup | crates/wirespec-layout/src/bitgroup.rs:27-77 | every bit field is a member of exactly one group, at the offset its own reference says |
| BitLayout.RunTiles | crates/wirespec-layout/src/bitgroup.rs:111-148 | the members of a run tile its bits without gap or overlap exactly when the widths do not wrap 16 bits |
| BitLayout.OffsetIs | crates/wirespec-layout/src/bitgroup.rs:111-148 | below a field are the bits of the fields after it in a big-endian group and before it in a little-endian one |
| BitLayout.WrappedTotalAccepted | crates/wirespec-layout/src/bitgroup.rs:39-45 | widths that wrap are accepted as a small group |
| Emit.GroupsOnce | crates/wirespec-backend-rust/src/parse_emit.rs:64-104 | each plain item is emitted in its place, each bit group at its first field and nowhere else |
| Emit.EmitItems | crates/wirespec-backend-rust/src/parse_emit.rs:64-104 | the loop over the items, with the groups already emitted, makes exactly that code |
| Emit.EmitOneByOne | crates/wirespec-backend-rust/src/emit.rs:605-645 | the wrapper of checksummed packets emits every item afresh |
| Emit.OneByOneSame | crates/wirespec-backend-c/src/source.rs:1342-1384 | the wrapper makes the same code exactly when no group has two fields in the scope |
| Emit.OneByOneWritesMore | crates/wirespec-backend-rust/src/emit.rs:627-645 | otherwise it writes the group's integer once more for each further field |
| Emit.OneByOneReadsBack | crates/wirespec-backend-rust/src/emit.rs:605-625 | reading one item at a time what was written so gives the struct back |
| Internet.Sum | crates/wirespec-rt/src/lib.rs:384-401 | the two loops compute the folded complement of the 32-bit sum |
| Internet.Compute | crates/wirespec-rt/src/lib.rs:412-428 | zero, sum and patch in place, nothing else changed |
| Internet.SafeSum | crates/wirespec-rt/src/lib.rs:384-391 | the 32-bit sum cannot overflow up to 131074 bytes |
| Internet.UnsafeLength | crates/wirespec-rt/src/lib.rs:384-391 | two bytes more can overflow it |
| Internet.PassesIff | crates/wirespec-rt/src/lib.rs:392-401 | a buffer checks to zero exactly when its sum is a positive multiple of 65535 |
| Internet.ComputeThenVerify | runtime/wirespec_runtime.h:345-379 | after compute the whole buffer checks to zero exactly at even offsets, or when the checksum's two bytes are equal |
| Internet.WordChange | runtime/wirespec_runtime.h:345-360 | a changed aligned word goes unnoticed exactly when both words are equal modulo 65535 and not everything becomes zero |
| Internet.SumIs | crates/wirespec-rt/src/lib.rs:384-391 | the sum counts bytes at even positions 256 times |
| Internet.ChecksumIs | crates/wirespec-rt/src/lib.rs:392-401 | the checksum completes the 32-bit sum to a multiple of 65535, and is 65535 exactly for the sum 0 |
| Internet.ComputedIs | crates/wirespec-rt/src/lib.rs:412-428 | compute puts the checksum of the buffer with zeros in its place there, high byte first, and changes nothing else |
| Internet.ByHand | crates/wirespec-rt/src/lib.rs:384-401 | the eight bytes of RFC 1071 have the checksum 220d |
| Crc.BitStepLinear | crates/wirespec-rt/src/lib.rs:469-482 | the bit step distributes over exclusive or |
| Crc.BitStepInjective | crates/wirespec-rt/src/lib.rs:469-482 | the bit step loses nothing, for both polynomials |
| Crc.BurstDetected | crates/wirespec-rt/src/lib.rs:469-482 | replacing up to four consecutive bytes by others changes the CRC, whatever surrounds them |
| Crc.NearbyChangesDetected | crates/wirespec-rt/src/lib.rs:469-482 | equal-length buffers that differ only inside four consecutive bytes have different CRCs |
| Crc.TableStep | runtime/wirespec_runtime.h:417-424 | one table look-up equals eight bit steps |
| Crc.Bitwise | crates/wirespec-rt/src/lib.rs:469-482 | the Rust loop computes the CRC, the complement of the polynomial remainder (CrcRemainder.CrcIff) |
| Crc.Tabled | runtime/wirespec_runtime.h:417-424 | the C loop computes the same CRC, given that each table entry is eight bit steps of its index |
| Crc.BitwiseSkip | crates/wirespec-rt/src/lib.rs:431-450 | the Rust verify form is the CRC with the field zeroed |
| Crc.TabledSkip | runtime/wirespec_runtime.h:427-438 | the C verify form is the CRC with the field left out |
| CrcRemainder.CrcIff | crates/wirespec-rt/src/lib.rs:469-482 | a number is the CRC of some bytes exactly if it is the complement of the remainder that their polynomial, its first 32 bits inverted, leaves on division by the generator; for every generator |
| CrcRemainder.Generators | crates/wirespec-rt/src/lib.rs:489-554 | the two generators by their powers |
| CrcRemainder.StepsDivide | crates/wirespec-rt/src/lib.rs:473-479 | bit steps are polynomial division |
| CrcRemainder.OneDivision | crates/wirespec-rt/src/lib.rs:469-482 | with one quotient and one remainder |
| CrcRemainder.EmptyCrc | crates/wirespec-rt/src/lib.rs:481 | no bytes have the CRC 0 |
| CrcRemainder.Residue | crates/wirespec-rt/src/lib.rs:469-482 | data followed by its own CRC, low byte first, leaves the register at one value, whatever the data |
| Crc.SkipFormsAgreeIff | runtime/wirespec_runtime.h:427-438 | the two agree exactly when the register comes through the zero bytes unchanged |
| SkipForms.IeeeFormsAgreeIff | runtime/wirespec_runtime.h:427-438 | for CRC-32 and its four bytes that is when the bytes before the field leave the register zero |
| SkipForms.CastagnoliFormsAgreeIff | crates/wirespec-rt/src/lib.rs:431-450 | for CRC-32C when they leave it zero or one other number |
| SkipForms.FirstFieldDisagrees | crates/wirespec-rt/src/lib.rs:431-450 | so a field in front of everything else never agrees |
| Fletcher.Loop | crates/wirespec-rt/src/lib.rs:556-564 | the 16-bit sums never wrap and compute Fletcher-16, whose bytes Fletcher.HalvesAre gives |
| Fletcher.HalvesAre | crates/wirespec-rt/src/lib.rs:556-564 | the low byte is the sum of the bytes modulo 255; the high byte their sum with the last byte counted once, the one before it twice, and so on, modulo 255 |
| Fletcher.TwoBytes | crates/wirespec-rt/src/lib.rs:556-564 | 01 02 gives 0403 |
| Fletcher.SkipFormsAgreeIff | runtime/wirespec_runtime.h:529-541 | the C and Rust verify forms agree exactly when the bytes before the field sum to a multiple of 255 |
| Expr.EvalIgnores | crates/wirespec-backend-c/src/expr.rs:69-157 | an expression's value, which the laws of ExprLaws determine, does not depend on names it does not mention |
| ExprLaws.SumIs | crates/wirespec-backend-c/src/expr.rs:113-122 | sums, differences and products: the exact one if it lies in the operands' common type; otherwise its remainder modulo 2 to the type's bits where the type is unsigned, and no value where it is signed |
| ExprLaws.QuotientIs | crates/wirespec-backend-c/src/expr.rs:113-122 | quotient and remainder: dividend = divisor * quotient + rest, the rest smaller than the divisor and with the dividend's sign; no value for a zero divisor or a quotient out of range |
| ExprLaws.ComparisonIs | crates/wirespec-backend-c/src/expr.rs:113-122 | comparisons are the integers' order on the converted operands |
| ExprLaws.OperandsExist | crates/wirespec-backend-c/src/expr.rs:113-122 | the converted operands: congruent to the operands and in the common type, hence the operands themselves where they fit |
| ExprLaws.LeftShiftIs | crates/wirespec-backend-c/src/expr.rs:113-122 | a shift to the left is the product with a power of two; no value for a count out of range or a negative number |
| ExprLaws.RightShiftIs | crates/wirespec-backend-c/src/expr.rs:113-122 | a shift to the right is the quotient by a power of two, rounded down |
| ExprLaws.BitsAre | crates/wirespec-backend-c/src/expr.rs:113-122 | and, or and exclusive or, bit by bit in two's complement |
| ExprLaws.NegationIs | crates/wirespec-backend-c/src/expr.rs:123-126 | negation in the promoted type |
| ExprLaws.ComplementIs | crates/wirespec-backend-c/src/expr.rs:123-126 | the complement of all bits in the promoted type |
| ExprLaws.DecidedLeft | crates/wirespec-backend-c/src/expr.rs:113-126 | the logical not, and `&&` and `||` where the left operand decides, whether or not the right one has a value |
| ExprLaws.DecidedRight | crates/wirespec-backend-c/src/expr.rs:113-122 | where it does not, the right operand decides |
| ExprLaws.NothingFromNothing | crates/wirespec-backend-c/src/expr.rs:69-157 | an operand without a value leaves none, but for the right one of a decided `&&` or `||` |
| ExprLaws.NamesAre | crates/wirespec-backend-c/src/expr.rs:127-141 | names and `??`: the bound value, the default for a missing one, the header's name before the scope's own |
| ExprLaws.LiteralIs | crates/wirespec-backend-c/src/expr.rs:89-100 | a literal's value and type, by its suffix |
| ExprLaws.UsesAre | crates/wirespec-backend-c/src/parse_emit.rs:125-478 | lengths are the value modulo 2^64, counts modulo 2^32, conditions whether it is not zero |
| ExprLaws.ConvertIs | crates/wirespec-backend-c/src/parse_emit.rs:90-97 | a derived value lies in its type and is congruent to the expression; a bool says whether it is not zero |
| ExprLaws.EvalTyped | crates/wirespec-backend-c/src/expr.rs:69-157 | where names hold values of their C types, so does every expression, operator by operator |
| ExprLaws.LengthLessHeader | examples/net/udp.wspec:9-10 | `length - 8` is the length less 8, and for a length below 8 a size that no buffer has |
| ExprLaws.OptionsLength | examples/net/tcp.wspec:22-23 | `data_offset * 4 - 20` likewise |
| OneField.ReplaceFits | crates/wirespec-backend-rust/src/parse_emit.rs:64-104 | a value keeps agreeing with its description when a field no expression mentions changes |
| OneField.ReplaceBytes | crates/wirespec-backend-rust/src/serialize_emit.rs:55-93 | such a change replaces that field's bytes in place and no others |
| ChecksumCode.RecomputedRoundTrip | crates/wirespec-backend-rust/src/emit.rs:515-579 | a packet with a recomputed checksum parses to the value with only the checksum replaced exactly when the field is read in the order it is patched in; otherwise its own parser rejects it |
| ChecksumCode.SummedRoundTripIff | crates/wirespec-backend-rust/src/emit.rs:476-562 | one with an internet checksum and length-keeping items does so exactly when no bit group has two fields and the field is at an even offset or holds two equal bytes |
| ChecksumCode.ParsedPacketStable | crates/wirespec-backend-c/src/source.rs:1466-1524 | a parsed packet whose scopes are kept, without a second field of any bit group, is written in no more bytes; they parse again exactly when the check accepts what the serializer stores, and what is read is then written the same |
| ChecksumCode.SerializePacket | crates/wirespec-backend-rust/src/emit.rs:548-579 | from any writer position: the stamped encoding of the items one by one and no other change, or a failure that keeps what was before |
| ChecksumCode.ParsePacket | crates/wirespec-backend-rust/src/emit.rs:476-535 | the ordinary or the tracked parser, then the check, with the meaning's result and errors |
| Ipv4.HeaderNotReturned | examples/ip/ipv4.wspec:1-21 | every IPv4 header is written in 28 bytes that its own parser does not read as that header |
| ChecksumPacket.StampedRoundTrip | crates/wirespec-backend-rust/src/emit.rs:605-645 | read by the items it was written with, a stamped value comes back with only the checksum replaced exactly under the condition of StampAccepted |
| ChecksumPacket.StampAccepted | crates/wirespec-backend-rust/src/emit.rs:648-728 | the check accepts what the computation stored under exactly that condition |
| ChecksumPacket.WriteStamped | crates/wirespec-backend-rust/src/emit.rs:627-645 | items before and after the checksum field, its offset noted between, then the stamp |
| ChecksumPacket.StampInPlace | crates/wirespec-backend-c/src/source.rs:1428-1464 | the field is zeroed, computed over the scope and patched |
| ChecksumPacket.CorruptionDetected | crates/wirespec-rt/src/lib.rs:489-506 | two scopes with the same CRC field that differ only inside four consecutive bytes never both pass, in either skip form |
| Digests.CrcDigests | crates/wirespec-rt/src/lib.rs:489-554 | crc32 is the remainder by the generator of IEEE 802.3, crc32c by that of RFC 3720 |
| Digests.SumDigests | crates/wirespec-rt/src/lib.rs:384-401 | the 16-bit digests by their sums |
| Digests.ExpectedIs | crates/wirespec-rt/src/lib.rs:431-450 | the digest is taken over the scope with zeros for the field or, in the C skip form, without the field |
| Digests.StampIs | crates/wirespec-backend-rust/src/emit.rs:712-724 | the stamp is the digest high byte first whatever the field's byte order, and changes nothing else |
| Digests.AcceptsIs | crates/wirespec-backend-rust/src/emit.rs:648-691 | a compared field is right if it is the digest, a summed scope if its sum is a positive multiple of 65535 |
| StateMachine.Instance.Handle | crates/wirespec-backend-rust/src/emit.rs:1529-1817 | dispatch replaces the state by the atomic result, which Arms.DispatchIs gives, or fails and leaves it unchanged |
| Arms.DispatchIs | crates/wirespec-backend-rust/src/emit.rs:1536-1588 | a dispatch succeeds and leaves a configuration exactly if the first transition with the state and the event has a true guard and leads there, with the children that have a field in the new state and no others, or forwards to its child with that outcome, child_state_changed included |
| Arms.GuardDecides | crates/wirespec-backend-rust/src/emit.rs:1536-1588 | the guard of the first transition decides, and for a delegate its child; without one for the state and the event it is an error |
| Arms.ChildDispatchIs | crates/wirespec-backend-rust/src/emit.rs:1536-1588 | a child moves exactly by its first transition for the state and the event, if that one's guard is true and the event is one of its own |
| Arms.GuardsAre | crates/wirespec-backend-rust/src/emit.rs:1580-1588 | guards are the usual propositions over the states of the children |
| Arms.ExclusiveGuardsByHand | crates/wirespec-backend-rust/src/emit.rs:1536-1588 | of two transitions with exclusive guards for one state and event the second is never taken, where the TLA+ model takes it |
| TwoStep.DispatchIsSteps | crates/wirespec-backend-tlaplus/src/emit.rs:744-818 | a successful dispatch is one step of the model, or two with the machine still in its old state between |
| Arms.ModelChildIs | crates/wirespec-backend-tlaplus/src/emit.rs:744-818 | the model's child moves by its first transition for the state and the event, whatever the guard |
| TwoStep.Simulation | crates/wirespec-backend-tlaplus/src/emit.rs:679-818 | every run of the generated code is a run of the model with the same end and the same states up to repetition |
| TwoStep.GotoIsStepIff | crates/wirespec-backend-tlaplus/src/emit.rs:481-553 | entering another state is the model's step exactly when every child carried over is in its initial state |
| TwoStep.SafetyTransfers | crates/wirespec-backend-tlaplus/src/emit.rs:755-759 | what holds of all configurations of the model holds between dispatches |
| TwoStep.StateOrderTransfers | crates/wirespec-backend-tlaplus/src/emit.rs:755-759 | so does what holds of the order of states |
| TwoStep.LivenessTransfers | crates/wirespec-backend-tlaplus/src/emit.rs:192-207 | and a state that every weakly fair behaviour of the model reaches is reached by every run that events keep changing, or leave where the model cannot move |
| TwoStep.LivenessLost | crates/wirespec-backend-tlaplus/src/emit.rs:192-207 | not by every run: a machine whose fair behaviours all reach a state that the code never reaches on events nothing handles |
| TwoStep.OrderOfConfigurationsLost | crates/wirespec-backend-tlaplus/src/emit.rs:755-759 | what holds of the order of configurations need not: a machine on which the comment's claim is false |
| TwoStep.EnteringChildrenDisagrees | crates/wirespec-backend-tlaplus/src/emit.rs:481-553 | entering a state with children reaches a configuration the model never reaches |
| Resolver.Resolve | crates/wirespec-driver/src/resolve.rs:38-73 | terminates; an order of exactly the reachable files, each once after all its imports with every export checked, the entry last; or a failure with a reachable cause |
| Resolver.Resolver.Visit | crates/wirespec-driver/src/resolve.rs:113-193 | the recursive visit keeps the order sorted and the stack a chain of imports |
| Resolver.GetExportableNames | crates/wirespec-driver/src/resolve.rs:77-111 | the exported names, or all when nothing is exported |
| Resolver.ImportSettledIs | crates/wirespec-driver/src/resolve.rs:113-193 | an import is in order exactly if the search finds a file that was read before and offers the name: exported, or any if nothing is |
| Resolver.ImportFailsIs | crates/wirespec-driver/src/resolve.rs:113-193 | and fails exactly if the search finds nothing, or a file that does not offer it |
| Resolver.SortedHasNoCause | crates/wirespec-driver/src/resolve.rs:38-73 | from a finished order nothing missing, hidden or circular can be reached |
| Resolver.OutcomeDecided | crates/wirespec-driver/src/resolve.rs:113-193 | success exactly when there is no cause of failure; without other causes, a circular import is reported exactly when a cycle is reachable |
| Kahn.Order | crates/wirespec-sema/src/analyzer/mod.rs:214-232 | takes exactly the nodes that neither are on a cycle nor depend on one, each once and after all its predecessors |
| Kahn.StuckDependsOnCycle | crates/wirespec-sema/src/analyzer/mod.rs:220-240 | nodes that never become free lead back to a cycle |
| Delegates.CheckDelegates | crates/wirespec-sema/src/analyzer/mod.rs:188-248 | rejects exactly the sets in which machines delegate in a circle |
| Delegates.InDegrees | crates/wirespec-sema/src/analyzer/mod.rs:206-213 | each degree counts the declared machines that delegate to it |
| TypeOrder.EmitOrder | crates/wirespec-backend-c/src/header.rs:110-200 | every type exactly once; types away from cycles first, after all they contain, the others as declared; without cycles every type after all it contains |
| TypeOrder.OrderIsUsable | crates/wirespec-backend-c/src/header.rs:196-201 | appending what the worklist left completes a permutation and moves nothing; without cycles nothing is appended |
| SwitchLowering.LowerSwitch | crates/wirespec-backend-c/src/parse_emit.rs:519-651 | labels, deferred guards and wildcard stand for exactly the patterns |
| SwitchLowering.CountDecides | crates/wirespec-backend-c/src/parse_emit.rs:622-623 | saturating arithmetic never changes which ranges are expanded |
| SwitchLowering.SwitchPicks | crates/wirespec-backend-c/src/parse_emit.rs:519-562 | the switch selects the fitting pattern wherever it stands, else the wildcard |
| SwitchLowering.AgreeOnTag | crates/wirespec-backend-rust/src/parse_emit.rs:403-440 | C and Rust agree on a tag unless it fits a pattern after the wildcard |
| SwitchLowering.AgreeEverywhere | crates/wirespec-backend-rust/src/parse_emit.rs:403-440 | they agree on all tags exactly when nothing matchable follows the wildcard |
| EditDistance.Levenshtein | crates/wirespec-sema/src/error.rs:174-198 | the two-row loop's result for all strings, byte lengths included |
| EditDistance.CharBytesIs | crates/wirespec-sema/src/error.rs:174-198 | the lengths are counted in UTF-8 |
| EditDistance.ExactIff | crates/wirespec-sema/src/error.rs:174-198 | when the result is the distance, for all strings: on ASCII; otherwise only for equal strings of odd length, or by chance for a first string of even length that is no shorter than the second is in bytes |
| EditDistance.AsciiExact | crates/wirespec-sema/src/error.rs:174-198 | on ASCII it is the edit distance |
| EditDistance.AccentByHand | crates/wirespec-sema/src/error.rs:174-198 | a letter against an accented one gives 0, not 1 |
| EditDistance.NoFewerEdits | crates/wirespec-sema/src/error.rs:174-198 | no sequence of single-character edits is shorter than the distance |
| EditDistance.EnoughEdits | crates/wirespec-sema/src/error.rs:174-198 | a sequence of that length exists |
| EditDistance.ZeroOnlyEqual | crates/wirespec-sema/src/error.rs:174-198 | zero exactly for equal strings |
| EditDistance.Symmetric | crates/wirespec-sema/src/error.rs:174-198 | the same in both directions |
| EditDistance.Triangle | crates/wirespec-sema/src/error.rs:174-198 | a detour is never shorter |

## Left out

- Text generation: indentation, identifiers, casing, keyword escaping, lifetimes and Default impls.
- ASN.1 fields: they call a foreign library. The LSP, the command line and the model checker invocation.
- The syntax parser and the lowering to the semantic IR: their results are the model's inputs.
- Checksums over a capsule's header, which no emitted code computes. In C a checksummed packet inside another description is parsed without its check; the packets here are the outermost ones.
- A conditional varint in a capsule's payload, on which the C generator stops with an internal error.
- Stability.StableIff: bytes of an optional length in a C payload are left out; for such a capsule on its own Capsules.OutermostStableIff gives the exact condition, and inside another description both outcomes occur (Coincidence.OverrunMakesUp).
- ChecksumCode.SummedRoundTripIff: for items with encodings of several lengths only the direction from one field per group is proved (ChecksumCode.SummedOnce).
- ChecksumCode.ParsedPacketStable: packets with two fields of one bit group are covered from their values only (ChecksumCode.RecomputedRoundTrip); a parse may have read the copies of the group differently.
- EditDistance.ExactIff: for a first string of even length and a second with longer characters the condition is that the distance is a number of bytes, which is not worked out further.
- Conditional bytes, conditional enum fields, subscripts in expressions, and struct fields that are frames in Rust: the emitted code gives them no usable meaning or none in one backend.
- Expressions have the C text's meaning; where C leaves them undefined (signed overflow, division by zero, bad shifts, an absent optional read without `??`) the model's parser fails with `Undefined`. The type conversion of `??` between a field and a differently typed default is not modelled.
- Booleans are read as nonzero and written as 0 or 1, as in Rust.
- PrefixVarInt.StrictAccepts: the C check finds the previous branch by prefix value, the model by position; they are the same when branch i carries prefix i.
- VarIntCode.SerializeLowFirst: the C loop tests the remaining room before the byte count, so it may report a short buffer where the model reports overflow.
- Crc.Tabled: the two 256-entry tables themselves are not copied; that each entry is eight bit steps of its index is an assumption.
- BitLayout.Finalize: the final sort of the members by offset is not modelled; nothing depends on it.
- In the length code, frames' tag lengths for ranged varint tags in Rust and arrays of varints, for which it calls no function that exists.
- SwitchLowering.LowerSwitch: tags and bounds are compared as integers, without C's conversion of negative bounds.
- StateMachine.Instance.Handle: only the control skeleton; value-carrying state fields, parameters, arrays of children and actions are not in the model.
- TwoStep.Simulation: value-carrying state fields, event parameters other than the child event, arrays of children and `+=` actions; the TLA+ CASE is taken to pick the first arm that applies.
- Resolver.Resolve: files are a finite map, so reading and parsing a file either succeed or fail once and for all.
