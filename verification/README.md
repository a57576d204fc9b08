# The wire codec of the tatcore module, verified

This project models the protobuf codec that the tatcore chain uses for its own messages
(`x/tatcore/types/*.pb.go`) and proves what it computes. It covers the three parts of the
generated code: the writers that fill a buffer backwards, the decoders that read fields into a
receiver, and the scanners that step over unknown fields and nested groups.

`dafny verify dfyconfig.toml` checks everything.

## How it is organised

| file | module | content |
|---|---|---|
| `words.dfy` | `Words` | Go's 64-bit words: wrap-around, conversions, bit operators defined bit by bit |
| `varint.dfy` | `Varints` | varints: what one is, the reading loop, the writing loop, `sov` |
| `wire.dfy` | `Wire` | a recursive recogniser of one field over unbounded integers, and the scanner with its depth counter |
| `grammar.dfy` | `Grammar` | concrete syntax trees of fields, independent of any recogniser; soundness, completeness, uniqueness |
| `schema.dfy` | `Schemas` | decoding as a function of a schema (which field numbers are known), and the laws of decoding, each for every schema |
| `strict.dfy` | `StrictGroups` | the rule for groups that the scanner does not enforce, a recogniser and a decoder that do, and exactly where they differ |
| `decoding.dfy` | `Decoding` | slicing a payload and stepping over a field, with the overflow tests |
| `encoding.dfy` | `Encodings` | what `Marshal` writes; round trips, canonical forms, truncation, reading one message as another |
| `writing.dfy` | `Writing` | the backwards writer on an array |
| `params.dfy`, `tx.dfy`, `module.dfy`, `genesis.dfy` | `ParamsMessage`, `TxMessage`, `ModuleMessage`, `GenesisMessage` | the message types as classes: `Size`, `Marshal`, `MarshalTo`, `MarshalToSizedBuffer`, `Unmarshal` |

The layers connect like this. A method that loops over bytes is proved equal to a recursive
function over unbounded integers (`Varint`, `Reach`, `FieldLength`, `Decode`). Those functions are
proved equal to a grammar of byte strings (`IsVarint`, `WellFormed`, `Accepted`) that mentions no
position, loop or counter. The laws are proved about the functions or the grammar and so hold of
the methods.

Modelling decisions:

- A Go `int` is a Dafny `int` with every wrap-around written out (`Wrap`); byte slices and strings
  are sequences of bytes no longer than the largest Go `int`. Input slices are never written by the
  decoders, so they are sequences; output buffers are arrays. A slice `data[:n]` of an output
  buffer is the array together with `n`.
- Copies of the same generated code are modelled once. `ReadVarint` stands for the inlined reading
  loops, `EncodeVarintAt` and `Sov` for the five `encodeVarint*` and `sov*`, `Skip` for the five
  `skip*` functions. `Params` stands also for `MsgUpdateParamsResponse` and `QueryParamsRequest`,
  `GenesisState` also for `QueryParamsResponse`. `ReadPayload`, `SkipField`, `WriteHeader`,
  `WriteText` and `WriteParams` are the parts repeated per message and field.
- Decoding returns success or failure and the authority left in the receiver, also after a
  failure. The errors themselves are not told apart.

Where the code and the Protocol Buffers documentation differ, the model follows the code:

- The Encoding guide (section "Groups") pairs an end-group tag with the start-group tag of the same
  number, and field numbers are positive. The scanner compares no numbers: it accepts a group
  closed under another number, and field 0 inside a group
  (`StrictGroups.GroupNumbersUnmatched`). `StrictGroups.Orderly` is the rule;
  `StrictGroups.StrictField` and `StrictGroups.StrictDecodeExactly` say that a recogniser and a
  decoder that enforce it agree with the code exactly on the fields that obey it, and
  `StrictGroups.GroupContentsIgnored` that nothing inside a group affects what the code decodes.
- Field numbers are the low 32 bits of the tag after its wire type, read as signed, so tags that
  differ only above bit 34 are the same field (`Wire.FieldNumberIsExact`, `Wire.TagAliases`). Overlong varints are accepted
  and bits from 2^64 up are dropped (`Varints.VarintIsPrefix`), so a field has many spellings
  (`Encodings.AuthoritySpelling`, with an input each in `Encodings.OverlongTag` and
  `Encodings.HighBitsDropped`).
- A proto3 string is UTF-8; the decoder accepts any bytes (`Encodings.AuthoritySpelling`,
  `Encodings.MsgRoundTrip`, and `Schemas.DecodeIsGrammar`, none of which restricts the payload;
  an input in `Encodings.NotUtf8`).
- `Unmarshal` does not reset its receiver, so a round trip into a used receiver can fail;
  `Encodings.MsgRoundTrip` says exactly when.
- Re-encoding can be longer than the input; `Encodings.Canonicalisation` says exactly when.

The main results are the equalities between loops and specifications (`Wire.Skip`,
`TxMessage.MsgUpdateParams.Unmarshal`, `TxMessage.MsgUpdateParams.MarshalToSizedBuffer`), those
between specifications and the grammar (`Grammar.SkipIsGrammar`, `Schemas.DecodeIsGrammar`,
`StrictGroups.StrictDecodeExactly`), and the laws (`Schemas.Merge`, `Schemas.FailureKeepsPrefix`,
`Schemas.Project`, `Schemas.Truncation`, `Encodings.MsgRoundTrip`, `Encodings.Canonicalisation`).
The rows about `GenesisState`'s writer and about single inputs support them: the encoding of a
`GenesisState` is always the same two bytes.

## Model

| member | source | states |
|---|---|---|
| Varints.ReadVarint | x/tatcore/types/tx.pb.go:356-370 | The reading loop over 64-bit words returns the varint the input starts with, value and length, or fails exactly when there is none |
| Varints.VarintIsPrefix | x/tatcore/types/tx.pb.go:356-370 | A read of n bytes succeeds exactly when the first n bytes are at most ten, the last alone below 0x80; its value is the sum of the 7-bit groups modulo 2^64 |
| Varints.NoVarint | x/tatcore/types/tx.pb.go:357-363 | The loop fails exactly when none of the first ten bytes is below 0x80 |
| Varints.OrAddsGroup | x/tatcore/types/tx.pb.go:364-370 | Or-ing the shifted 7-bit group into the word adds it, modulo 2^64, at every one of the ten positions |
| Varints.EncodeVarintAt | x/tatcore/types/tx.pb.go:310-320 | Writes the shortest varint into exactly the reserved gap before the offset, returns the start of the gap, leaves every other byte alone |
| Varints.SovIsExact | x/tatcore/types/tx.pb.go:345-347 | The closed form on the bit length is the number of bytes the writing loop produces, between 1 and 10 |
| Varints.VarintRoundTrip | x/tatcore/types/tx.pb.go:310-320 | Reading what the writer wrote gives back the value and consumes exactly the bytes written, whatever follows |
| Varints.ShortestVarint | x/tatcore/types/tx.pb.go:310-320 | No byte string that reads as the value is shorter than what the writer reserves for it |
| Wire.WireTypeIsMask | x/tatcore/types/tx.pb.go:372 | The wire type, a remainder in the model, is the word masked with 7 |
| Wire.FieldNumberIsExact | x/tatcore/types/tx.pb.go:371 | The field number is the tag without its low three bits, modulo 2^32, read as signed: the one number in range that is congruent, and positive exactly when those 32 bits are between 1 and 2^31 - 1 |
| Wire.TagOfNumber | x/tatcore/types/tx.pb.go:371-372 | Every number below 2^31 and every wire type are read back from the tag made of them |
| Wire.TagAliases | x/tatcore/types/tx.pb.go:371-372 | Two tags have the same wire type and truncated field number exactly when their low 35 bits agree |
| Wire.SkipValue | x/tatcore/types/tx.pb.go:538-585 | Stepping over a value with wrapping arithmetic gives the end computed by unbounded arithmetic, or fails exactly when that end is no 64-bit int |
| Wire.Skip | x/tatcore/types/tx.pb.go:516-593 | The depth-counter loop returns exactly the length the recursive recogniser finds, and fails exactly when there is none or it is no 64-bit int |
| Wire.CloseField | x/tatcore/types/tx.pb.go:516-593 | With groups open, a whole field, nested groups included, leaves the same groups open: the step that makes the loop follow the recursion |
| Grammar.ReachByWireType | x/tatcore/types/tx.pb.go:536-585 | What each of the eight wire types makes a field claim, by its number: a varint, 8 bytes, a length and as many bytes, a group, nothing, 4 bytes, nothing, nothing, also when the input is shorter |
| Grammar.GroupByWireType | x/tatcore/types/tx.pb.go:573-579 | A group ends at the first tag of wire type 4 that no field before it contains |
| Grammar.FieldComplete | x/tatcore/types/tx.pb.go:516-593 | Every well-formed field, groups nested to any depth, is recognised with its exact length, whatever follows |
| Grammar.FieldSound | x/tatcore/types/tx.pb.go:516-593 | Whatever is recognised within the input is the bytes of some well-formed field |
| Grammar.FieldLengthIsGrammar | x/tatcore/types/tx.pb.go:516-593 | The recogniser finds n bytes exactly when the first n bytes are one well-formed field |
| Grammar.SkipIsGrammar | x/tatcore/types/tx.pb.go:516-593 | The scanner's answer lies within the input and is n exactly when the first n bytes are one well-formed field |
| Grammar.PrefixFree | x/tatcore/types/tx.pb.go:516-593 | A strict prefix of a field does not even start with a field |
| Grammar.UniqueField | x/tatcore/types/tx.pb.go:516-593 | A byte string is one field followed by something in at most one way |
| Grammar.UniqueSplit | x/tatcore/types/tx.pb.go:351-465 | A byte string splits into fields in at most one way |
| Decoding.ReadPayload | x/tatcore/types/tx.pb.go:399-411 | The negative-length, negative-end and past-the-end tests over wrapping ints accept exactly when the end computed without bounds lies within the input |
| Decoding.SkipField | x/tatcore/types/tx.pb.go:445-459 | The default case accepts exactly a well-formed field within the input, and moves past it |
| Decoding.PayloadInPlace | x/tatcore/types/tx.pb.go:384-411 | The typed path and the skip path agree on where a length-delimited field ends |
| Schemas.DecodeIsGrammar | x/tatcore/types/tx.pb.go:351-465 | Accepts exactly the strings that split into well-formed fields of positive number with known fields length-delimited and nested ones valid; the authority is the payload of the last text field, or the old one |
| Schemas.SplitDecides | x/tatcore/types/tx.pb.go:351-465 | For a string given as fields, acceptance holds exactly when every one of them conforms |
| Schemas.AcceptedExactly | x/tatcore/types/tx.pb.go:371-460 | The condition spelled out: every number positive, every known field length-delimited, every nested payload valid |
| Schemas.PlainIsEmptySchema | x/tatcore/types/params.pb.go:155-204 | The decoder of the empty message is decoding with no known field, and changes nothing |
| Schemas.PlainIsGrammar | x/tatcore/types/params.pb.go:155-204 | The empty-message decoder, which also checks every nested payload, accepts exactly the strings that split into well-formed fields of positive number |
| Schemas.Merge | x/tatcore/types/tx.pb.go:351-465 | Decoding a concatenation whose first part is accepted is decoding the second part into the result of the first, success, failure and state alike |
| Schemas.FailureKeepsPrefix | x/tatcore/types/tx.pb.go:351-465 | After a failure the receiver holds what the fields before the first rejected one make of it |
| Schemas.FieldOrder | x/tatcore/types/tx.pb.go:379-460 | Reordering fields changes nothing as long as the text fields keep their order among themselves |
| Schemas.UnknownIsTransparent | x/tatcore/types/tx.pb.go:445-459 | An unknown field of positive number, groups included, can be inserted after any accepted prefix without changing the outcome |
| Schemas.DropUnknown | x/tatcore/types/tx.pb.go:445-459 | Dropping all unknown fields at once changes nothing |
| Schemas.Project | x/tatcore/types/module.pb.go:158-239 | A decoder that knows fewer fields, or asks less of them, accepts more; with the same text fields it decodes the same |
| Schemas.Truncation | x/tatcore/types/tx.pb.go:351-465 | A prefix of an accepted message is accepted exactly when it ends between two fields |
| Encodings.MsgIsWritten | x/tatcore/types/tx.pb.go:262-285 | What is written is the bytes of well-formed, conforming fields: the authority if not empty, and always the Params |
| Encodings.MsgFieldsWritten | x/tatcore/types/tx.pb.go:262-285 | The fields written are exactly a non-empty authority as field 1 and then the Params as field 2, all known to the message |
| Encodings.ModuleFieldsWritten | x/tatcore/types/module.pb.go:113-126 | Module writes exactly a non-empty authority as field 1, and nothing else |
| Encodings.HolderFieldsWritten | x/tatcore/types/genesis.pb.go:112-128 | GenesisState writes exactly its Params as field 1: the two bytes 0x0a, 0x00 |
| Encodings.BytesWritten | x/tatcore/types/tx.pb.go:262-285 | The bytes: 0x0a, the length as a varint and the authority if not empty, then 0x12, 0x00; Module writes the first part alone |
| Encodings.MsgRoundTrip | x/tatcore/types/tx.pb.go:247-285 | Decoding what was written succeeds, and gives back the message exactly when it has an authority or the receiver has none |
| Encodings.ModuleRoundTrip | x/tatcore/types/module.pb.go:113-126 | The same for the module configuration |
| Encodings.HolderRoundTrip | x/tatcore/types/genesis.pb.go:112-128 | Supporting: the constant two bytes GenesisState and QueryParamsResponse write are accepted and change nothing |
| Encodings.MarshalIsInjective | x/tatcore/types/tx.pb.go:247-285 | Different messages are written differently |
| Encodings.LaterMarshalWins | x/tatcore/types/tx.pb.go:351-465 | Two encodings in a row decode to the second authority, or to the first when the second was empty and so not written |
| Encodings.TextCost | x/tatcore/types/tx.pb.go:351-465 | Any input that sets an authority is at least as long as the writer's field for it, plus two when it has a field 2 |
| Encodings.Canonicalisation | x/tatcore/types/tx.pb.go:262-285 | Re-encoding what was decoded decodes to the same, is stable, and is at most two bytes longer than the input; it is longer exactly on the empty input and on a single authority field written with at most one byte to spare, so never when the input has a field 2 |
| Encodings.FieldCost | x/tatcore/types/tx.pb.go:351-465 | Any input that sets an authority is at least as long as the writer's field for it plus two bytes for every other field |
| Encodings.CanonicalisationIsTight | x/tatcore/types/tx.pb.go:268-277 | Supporting: the bound of two bytes is reached by the empty input, which decodes to the reset message |
| Encodings.AuthorityCost | x/tatcore/types/module.pb.go:158-239 | For every schema, an input that sets an authority is at least as long as the writer's field for it |
| Encodings.ModuleCanonicalisation | x/tatcore/types/module.pb.go:113-126 | Module writes the shortest input that decodes to the message: re-encoding is stable and never longer than the input |
| Encodings.HolderIsShortest | x/tatcore/types/genesis.pb.go:112-128 | No accepted input with a field 1 is shorter than what GenesisState writes |
| Encodings.MarshalTruncated | x/tatcore/types/tx.pb.go:262-285 | A truncated encoding is accepted exactly when cut at its start, between its two fields or at its end |
| Encodings.ModuleTruncated | x/tatcore/types/module.pb.go:113-126 | A truncated encoding of a Module is accepted exactly when nothing or everything is left |
| Encodings.HolderTruncated | x/tatcore/types/genesis.pb.go:112-128 | The same for GenesisState |
| Encodings.MsgAsModule | x/tatcore/types/module.pb.go:158-239 | Whatever MsgUpdateParams accepts, Module accepts with the same authority |
| Encodings.GenesisAsModule | x/tatcore/types/module.pb.go:158-239 | Whatever GenesisState accepts, Module accepts, and takes the payload of the last embedded Params for its authority |
| Encodings.ModuleAsGenesis | x/tatcore/types/genesis.pb.go:186-219 | GenesisState accepts what Module accepts exactly when every field 1 holds a Params |
| Encodings.AnyAsEmpty | x/tatcore/types/params.pb.go:155-204 | Whatever any decoder accepts, the decoders of the empty messages accept |
| Encodings.ModuleAsMsg | x/tatcore/types/tx.pb.go:412-444 | MsgUpdateParams accepts what Module accepts exactly when every field 2 is length-delimited and holds a Params |
| Encodings.ModuleNotMsg | x/tatcore/types/tx.pb.go:412-415 | An input Module accepts and MsgUpdateParams rejects: field 2 as a varint |
| StrictGroups.StrictField | x/tatcore/types/tx.pb.go:516-593 | On every well-formed field, whatever follows, a recogniser that compares end-group numbers and wants positive numbers inside groups agrees with the scanner's exactly when the field obeys that rule, and fails otherwise |
| StrictGroups.StrictIsGrammar | x/tatcore/types/tx.pb.go:516-593 | That recogniser finds n bytes exactly when the first n bytes are one field that obeys the rule |
| StrictGroups.StrictDecodeExactly | x/tatcore/types/tx.pb.go:351-465 | A decoder that enforces the rule succeeds exactly when the code does and every field, nested payloads included, obeys the rule; then both leave the same authority |
| StrictGroups.StrictDecodeIsNarrower | x/tatcore/types/tx.pb.go:351-465 | Whatever that decoder accepts, split into fields or not, the code accepts with the same result |
| StrictGroups.StrictPlainExactly | x/tatcore/types/params.pb.go:155-204 | The same for the empty-message decoder and so for nested payloads |
| StrictGroups.GroupContentsIgnored | x/tatcore/types/tx.pb.go:573-579 | Replacing groups by other groups of the same number, whatever they hold and however they end, changes neither success nor authority, whatever follows |
| StrictGroups.EndTagIgnored | x/tatcore/types/tx.pb.go:575-579 | In particular any end-group tag may stand for another |
| StrictGroups.OneGroup | x/tatcore/types/tx.pb.go:573-579 | A group of an unknown number is accepted whatever it holds; a decoder that enforces the rule accepts it exactly when it obeys the rule |
| StrictGroups.GroupNumbersUnmatched | x/tatcore/types/tx.pb.go:573-579 | Supporting: field 3 closed as field 4, and field 0 inside a group, are accepted by the code and not by the rule |
| Encodings.AuthoritySpelling | x/tatcore/types/tx.pb.go:356-411 | Any tag that agrees with the writer's on its low 35 bits, any overlong tag and length and any payload bytes are read as the authority |
| Encodings.OverlongTag | x/tatcore/types/tx.pb.go:356-370 | Supporting: a two-byte tag where one byte would do |
| Encodings.HighBitsDropped | x/tatcore/types/tx.pb.go:364-370 | Supporting: a ten-byte tag whose bit 64 is dropped |
| Encodings.NotUtf8 | x/tatcore/types/tx.pb.go:410 | Supporting: a string that is not UTF-8 is accepted |
| Writing.WriteHeader | x/tatcore/types/tx.pb.go:273-276 | Length and tag go just before the payload, nothing else changes |
| Writing.WriteText | x/tatcore/types/tx.pb.go:277-283 | A non-empty string field is written to end at the given index, an empty one not at all, nothing else changes |
| Writing.WriteParams | x/tatcore/types/tx.pb.go:267-276 | The embedded Params is always written, with the length it turned out to have |
| TxMessage.MsgUpdateParams.Unmarshal | x/tatcore/types/tx.pb.go:351-465 | Success and the receiver's new authority are those of decoding the input into the old authority, on success and on failure; every index stays in range and the loop ends with the input consumed |
| TxMessage.MsgUpdateParams.MarshalToSizedBuffer | x/tatcore/types/tx.pb.go:262-285 | In any buffer at least as long as the encoding, fills exactly the last bytes with it, returns its length, leaves every other byte alone, and never underflows its index |
| TxMessage.MsgUpdateParams.Marshal | x/tatcore/types/tx.pb.go:247-255 | A fresh buffer with exactly the encoding |
| TxMessage.MsgUpdateParams.MarshalTo | x/tatcore/types/tx.pb.go:257-260 | The encoding at the start of the buffer, the rest unchanged |
| TxMessage.MsgUpdateParams.Size | x/tatcore/types/tx.pb.go:321-334 | The exact length of the encoding when that is an int, a negative number otherwise |
| ModuleMessage.Module.Unmarshal | x/tatcore/types/module.pb.go:158-239 | As for MsgUpdateParams, with field 1 only |
| ModuleMessage.Module.MarshalToSizedBuffer | x/tatcore/types/module.pb.go:113-126 | As for MsgUpdateParams, with field 1 only |
| ModuleMessage.Module.Marshal | x/tatcore/types/module.pb.go:98-106 | A fresh buffer with exactly the encoding |
| ModuleMessage.Module.MarshalTo | x/tatcore/types/module.pb.go:108-111 | The encoding at the start of the buffer, the rest unchanged |
| ModuleMessage.Module.Size | x/tatcore/types/module.pb.go:139-150 | The exact length of the encoding when that is an int, a negative number otherwise |
| GenesisMessage.GenesisState.Unmarshal | x/tatcore/types/genesis.pb.go:158-240 | Accepts exactly the inputs of well-formed fields in which every field 1 is length-delimited and holds a Params |
| GenesisMessage.GenesisState.MarshalToSizedBuffer | x/tatcore/types/genesis.pb.go:112-128 | As for MsgUpdateParams, with the embedded Params in field 1 |
| GenesisMessage.GenesisState.Size | x/tatcore/types/genesis.pb.go:141-150 | Supporting: the length of the constant encoding |
| ParamsMessage.Params.Unmarshal | x/tatcore/types/params.pb.go:155-204 | Accepts exactly the strings of well-formed fields of positive number |

## Left out

- Which error is returned and its text: the decoders succeed or fail.
- The gRPC clients, servers and handlers, the gateway, the file descriptors and the reflection wrappers in the generated files: plumbing without an algorithm.
- `Reset`, `String`, the getters and `Params.Equal`: they would only add one-line members.
- `Marshal` and `MarshalTo` of `Params`, `MsgUpdateParamsResponse` and `QueryParamsRequest`: they write nothing.
- The `soz` functions: nothing calls them.
- Nil receivers: `Size` of a nil message is 0; every receiver in the model is an object.
- The capacity of a slice beyond its length: a buffer passed to `MarshalTo` must be long enough in itself.
- Memory sharing between an input slice and its subslices: decoders read sequences, which cannot change while they are read.
- The keeper, module, application and command packages: wiring, and calls into the Cosmos SDK, which is not part of this model.
