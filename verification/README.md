# Trusted Smart Chain: verified model

A Dafny model of the three parts of the chain whose correctness is not visible from any single
function, with proofs of what they promise.

**Wire formats.** Transactions written before the chain's EVM module was replaced are decoded by
hand-written protobuf loops (`app/legacy_ethtx.go`); the distribution parameters are read and written
by generated code (`x/distro/types/genesis.pb.go`). Every loop is an imperative method proved equal to
a reading of the message as a list of fields, with Go's 64-bit index arithmetic: every input leads to
a result, an error, a panic or a loop without end, and the model says which. About that reading: round
trips end to end, through four levels of nesting; concatenation is merging, with the exact condition
under which it is; unknown fields are invisible; the order of fields does not matter; the
depth-counting group skipper is a recursive reading of nested groups; and the generated parser and the
hand-written loop agree, exactly on proper field numbers.

**Distribution.** `x/distro` mints against a halving schedule of calendar periods. The periods tile the
calendar, the search finds the one that contains a date, allocations have a closed form, the limit
never decreases and stays below the maximum supply, and over every run of mints, transfers, burns and
days the supply is what the accounts hold, within the limit of the day.

**Lockup.** `x/lockup` promises that an account always has at least as much delegated as locked. The
staking hooks, the ante handler that exempts redelegations, the lock records and the expiration queue
form one state machine. Records and queue stay in step over every run; the promise holds over every
guarded run; and for the two kinds of message that can break it the exact condition is proved.

Four of the properties one would expect are false of the code as it stands. Each has a concrete
instance and its exact condition:

- Decoding a concatenation is merging the decoded records, unless a later field spells out a default
  value (`LegacyLaws.ExplicitZeroErases`) or the first part ends inside a skipped field
  (`LegacyLaws.CutShortSwallowsNonce`, `Scanner.ConcatLawExactly`).
- A decoder returns on every input, unless the field after the complete ones claims an end beyond the
  largest Go int: then it panics, or its index moves backwards and it can go round for ever
  (`Scanner.NeverReturns`, `LegacyLaws.LegacyTxNeverReturns`, `Envelope.TransactionNeverReturns`). Over all
  decoders the condition is exact (`Scanner.AllDecodersReturnExactly`). For one given decoder it is
  sufficient only: its index can also jump back and then run to the end
  (`LegacyLaws.WrapBreaksConcat`), which `Scanner.ScanIsSelect` follows step by step.
- The comments in `x/lockup/keeper/hooks.go:80-106` say that the invariant is enforced once a
  redelegation has reached its destination. A marked pair stays exempt for the whole transaction, so an
  undelegation from the same pair in the same transaction is not checked
  (`LockupRuns.MoveAndWithdrawSafeExactly`, `LockupLaws.UndelegateSafeExactly`,
  `LockupRuns.MoveAndWithdrawBreaksRuns`).
- Extending a lock that has already expired makes it count again, without a look at delegations
  (`LockupLaws.ExpiredExtensionBreaks`, `LockupLaws.ExtendKeepsExactly`,
  `LockupRuns.ExpiredExtensionBreaksRuns`).

Two more limits are part of the exact statements: the delegation count does not return for an account
with 100 or more delegations (`Delegations.PagingEndsExactly`), and the distribution limit panics from
period 64 on (`Distribution.LimitDefinedExactly`).

| files | content |
|---|---|
| `Loops`, `Varint`, `Wire`, `Scanner` | loops over a wandering index, base-128 numbers, fields, and the loop shared by the hand-written decoders |
| `LegacyTx`, `LegacyLaws`, `Envelope` | the three transaction kinds, their laws, and the wrapping messages |
| `GenesisSkip`, `GenesisCodec`, `GenesisMessages`, `ParsersAgree` | the generated codec, and its agreement with the hand-written loop given the same fields (the repository has no hand-written decoder for them) |
| `Calendar`, `Halving`, `Distribution`, `Mint` | days and months, the schedule, the limit, the mint handler and its runs |
| `Delegations`, `Locks`, `Markers` | the delegation count, the lock records, the redelegation markers |
| `Lockup`, `LockupLaws`, `LockupRuns`, `LockupKeeper` | the state machine, its messages, its runs, and the keeper's methods |
| `Common`, `Arith` | shared definitions and arithmetic |

`dafny verify dfyconfig.toml` checks the project.

## Model

| member | source | states |
|---|---|---|
| `Varint.ProtoDecodeVarint` | app/legacy_ethtx.go:287-297 | the shifting loop returns the 64-bit value of the first complete base-128 group within ten bytes and its length, and (0, 0) when there is none; a tenth byte loses the bits above 64 |
| `Varint.DecodesExactly` | app/legacy_ethtx.go:287-297 | a varint is read if and only if one of the first ten bytes is below 128; the first such byte ends it, and its value is kept modulo 2^64 |
| `Varint.DecodePrefix` | app/legacy_ethtx.go:287-297 | bytes after a complete varint never change what is read |
| `Varint.DecodeInvertsEncode` | app/legacy_ethtx_test.go:263-269 | every 64-bit value written as a varint is read back with its exact length, whatever follows it |
| `Varint.EncodingIsMinimal` | app/legacy_ethtx.go:287-297 | no accepted spelling of a value is shorter than the encoder's |
| `Varint.SovIsLength` | x/distro/types/genesis.pb.go:382-384 | the bit-length formula for the size is the number of bytes the encoder writes |
| `Varint.EncodeVarintGenesis` | x/distro/types/genesis.pb.go:328-338 | the in-place writer puts exactly the encoding in front of the offset and leaves all other bytes of the buffer as they were |
| `Wire.ParseInvertsEncode` | app/legacy_ethtx_test.go:263-291 | one field of any of the four wire types is read back from its bytes, whatever follows |
| `Wire.SplitConcat` | app/legacy_ethtx.go:609-729 | a whole message followed by other bytes splits into its own fields and then those of the rest |
| `Wire.SplitInvertsEncode` | app/legacy_ethtx_test.go:263-291 | splitting inverts writing a list of fields, with no bytes left over |
| `Scanner.ScanIsSelect` | app/legacy_ethtx.go:609-729 | a decoder loop, over any bytes: it keeps exactly the fields its switch selects from the field split, then judges the unsplit tail; a length there whose sum wraps around 64 bits panics if the field is sliced, and otherwise sends the scan to where the wrapped index points |
| `Scanner.AcceptedExactly` | app/legacy_ethtx.go:609-729 | bytes are accepted if and only if every complete field is, and the tail is empty, or one skipped field cut short, or wraps around to an index from which the scan is accepted |
| `Scanner.ScanUnwrapped` | app/legacy_ethtx.go:609-729 | unless the loop gets to a length whose sum wraps around, its outcome is the selection followed by the judgement of the tail |
| `Scanner.ReturnsUnlessWrapped` | app/legacy_ethtx.go:609-729 | one decoder: without a length that wraps around, and with nested decoders that return, the loop returns a result or an error; it neither panics nor goes on for ever |
| `Scanner.AllDecodersReturnExactly` | app/legacy_ethtx.go:609-729 | all decoders: every switch over given bytes returns a result or an error if and only if the field after their complete fields does not claim an end beyond the largest Go int |
| `Scanner.ReadsExactly` | app/legacy_ethtx.go:1125-1135 | a declared length is sliced if and only if it fits, panics if and only if its end exceeds the largest Go int, and is an error otherwise |
| `Scanner.NeverReturns` | app/legacy_ethtx.go:1137-1158 | an ignored field whose declared length leads the index back to an earlier field boundary, its own tag included, makes the loop go round for ever, whatever accepted fields stand before and between and whatever bytes follow |
| `Loops.Unroll` | app/legacy_ethtx.go:612-728 | a loop over an index that moves anywhere is its first turn and the loop from there, also where it never ends |
| `Loops.ReturnsExactly` | app/legacy_ethtx.go:612-728 | such a loop has an outcome if and only if some number of turns leads to it; the repeated index that the model calls a hang is exactly a loop without end |
| `Loops.Cycle` | app/legacy_ethtx.go:612-728 | turns that lead back to an index they started from are taken for ever |
| `Scanner.ScanConcat` | app/legacy_ethtx.go:609-729 | after a whole message the loop goes on from where it ends, on any bytes; unless it gets to a length that wraps around, that is scanning the two in turn, refusals included |
| `Scanner.ConcatLawExactly` | app/legacy_ethtx.go:1137-1158 | for accepted bytes and every decoder, in buffers that Go can hold: the concatenation law holds against every continuation without wrap-around if and only if the bytes end on a field boundary or wrap around themselves |
| `Scanner.TruncatedExactly` | app/legacy_ethtx.go:1137-1158 | a message that ends inside a field is accepted if and only if the decoder skips that field and has read its head; a varint so only by the lax decoder, cut right after its tag |
| `Scanner.SelectsExactly` | app/legacy_ethtx.go:609-729 | complete fields are accepted if and only if none is rejected and every taken one passes its check; exactly the taken ones are kept |
| `Scanner.UnknownFieldsAreInvisible` | app/legacy_ethtx.go:1137-1158 | whole fields that the switch ignores can be inserted between a message and any bytes without changing the outcome, unless the loop gets to a length that wraps around |
| `Scanner.FieldOrderIsIrrelevant` | app/legacy_ethtx.go:609-729 | two field lists with the same occurrences of every number are accepted alike and keep the same occurrences |
| `Scanner.ScanEncoded` | app/legacy_ethtx.go:609-729 | on written fields the decoder is the selection of its switch |
| `LegacyTx.UnmarshalAccessTuple` | app/legacy_ethtx.go:1079-1121 | on every input on which it returns, the loop yields the last address and all storage keys in order, or the same error or panic as the scan |
| `LegacyTx.UnmarshalLegacyTx` | app/legacy_ethtx.go:609-729 | on every input on which it returns, the loop yields, field by field, the last occurrence that the scan keeps, or the same error or panic |
| `LegacyTx.LegacyTxField` | app/legacy_ethtx.go:619-726 | one turn of the switch moves the record from the fields read so far to those read with this one, and the index as Go's int arithmetic does |
| `LegacyTx.UnmarshalAccessListTx` | app/legacy_ethtx.go:745-893 | as for the legacy transaction, with access tuples collected in order |
| `LegacyTx.AccessListTxField` | app/legacy_ethtx.go:755-890 | one turn of the switch over the eleven access-list fields |
| `LegacyTx.UnmarshalDynamicFeeTx` | app/legacy_ethtx.go:910-1072 | as for the legacy transaction, with both fee fields and access tuples collected in order |
| `LegacyTx.DynamicFeeTxField` | app/legacy_ethtx.go:920-1069 | one turn of the switch over the twelve dynamic-fee fields |
| `LegacyLaws.LegacyTxConcatIsMerge` | app/legacy_ethtx.go:609-729 | decoding a concatenation succeeds and is the merge of the two decoded records if and only if no later field carries an explicit default over an earlier value |
| `LegacyLaws.AccessListTxConcatIsMerge` | app/legacy_ethtx.go:745-893 | the same law for access-list transactions; access lists are appended |
| `LegacyLaws.DynamicFeeTxConcatIsMerge` | app/legacy_ethtx.go:910-1072 | the same law for dynamic-fee transactions |
| `LegacyLaws.AccessTupleConcatIsMerge` | app/legacy_ethtx.go:1079-1121 | the same law for access tuples; storage keys concatenate |
| `LegacyLaws.LegacyTxFieldOrder` | app/legacy_ethtx.go:609-729 | two byte strings of whole fields that agree number by number, however their varints are spelled, are accepted alike and decode to the same transaction |
| `LegacyLaws.AccessListTxFieldOrder` | app/legacy_ethtx.go:745-893 | two byte strings of whole fields that agree number by number, however their varints are spelled, are accepted alike and decode to the same transaction |
| `LegacyLaws.DynamicFeeTxFieldOrder` | app/legacy_ethtx.go:910-1072 | two byte strings of whole fields that agree number by number, however their varints are spelled, are accepted alike and decode to the same transaction |
| `LegacyLaws.AccessTupleFieldOrder` | app/legacy_ethtx.go:1079-1121 | two byte strings of whole fields that agree number by number decode to the same access tuple |
| `LegacyLaws.AccessTupleRoundTrip` | app/legacy_ethtx.go:1079-1121 | every access tuple is read back from its canonical encoding |
| `LegacyLaws.LegacyTxRoundTrip` | app/legacy_ethtx_test.go:227-261 | every legacy transaction is read back from its canonical encoding, for any integer codec that round trips its own numbers |
| `LegacyLaws.AccessListTxRoundTrip` | app/legacy_ethtx.go:745-893 | every access-list transaction is read back from its canonical encoding |
| `LegacyLaws.DynamicFeeTxRoundTrip` | app/legacy_ethtx.go:910-1072 | every dynamic-fee transaction is read back from its canonical encoding |
| `LegacyLaws.AccessTupleLayout` | app/legacy_ethtx.go:1079-1121 | field number by field number, which part of an access tuple it holds |
| `LegacyLaws.LegacyTxLayout` | app/legacy_ethtx.go:609-729 | field number by field number, for all contents, which part of a legacy transaction it holds |
| `LegacyLaws.AccessListTxLayout` | app/legacy_ethtx.go:745-893 | the same for access-list transactions |
| `LegacyLaws.DynamicFeeTxLayout` | app/legacy_ethtx.go:910-1072 | the same for dynamic-fee transactions |
| `LegacyLaws.SwitchesExactly` | app/legacy_ethtx.go:609-1121 | each decoder takes a known number with its own wire type, refuses it with any other, and skips every other number, those above its last one included |
| `LegacyLaws.NestedDecides` | app/legacy_ethtx.go:636-677 | a big integer that does not unmarshal, or an access tuple that does not decode, fails the transaction as it fails itself; otherwise it is accepted |
| `LegacyLaws.ExplicitZeroErases` | app/legacy_ethtx.go:625-635 | a later explicit zero nonce erases an earlier one, so the merge law needs its condition |
| `LegacyLaws.CutShortSwallowsNonce` | app/legacy_ethtx.go:1137-1158 | an unknown fixed-width field cut after its tag is accepted alone and swallows a nonce that follows, so the concatenation law needs its condition |
| `LegacyLaws.DecodersReturn` | app/legacy_ethtx.go:609-1072 | the three transaction decoders return a transaction or an error on every input in which no length, in the message or its access tuples, wraps around |
| `LegacyLaws.LegacyTxNeverReturns` | app/legacy_ethtx.go:720-725 | eleven concrete bytes on which the legacy decoder never returns |
| `LegacyLaws.WrapBreaksConcat` | app/legacy_ethtx.go:720-725 | concrete bytes that panic alone and are accepted after a whole message, so the concatenation law needs its condition |
| `Envelope.ExtractProtoField` | app/legacy_ethtx.go:225-283 | on every input on which it returns, the loop yields the specified extraction, error or panic, for every wire type |
| `Envelope.ExtractFindsFirst` | app/legacy_ethtx.go:225-283 | on every input: the first complete field with the number and type is returned; without one it is an error, unless the next length wraps around, which panics when asked for and otherwise continues the search at the wrapped index |
| `Envelope.FirstMessageIsFound` | app/legacy_ethtx.go:202-222 | descending TxRaw, TxBody and Any yields the value of the first message whatever other fields surround it |
| `Envelope.UnmarshalAny` | app/legacy_ethtx.go:405-453 | on every input on which it returns, the loop decodes type URL and value, last occurrence winning, or yields the same error or panic as the scan |
| `Envelope.AnyRoundTrip` | app/legacy_ethtx.go:405-453 | every Any is read back from its encoding |
| `Envelope.UnmarshalLegacyMsgEthereumTx` | app/legacy_ethtx.go:300-402 | on every input on which it returns, the loop decodes the message, parsing the nested Any as it goes and failing as that fails |
| `Envelope.MsgRoundTrip` | app/legacy_ethtx.go:300-402 | every legacy message, with its nested Any, is read back from its encoding |
| `Envelope.InnerRoundTrip` | app/legacy_ethtx.go:456-476 | the type URL chosen for each of the three transaction kinds dispatches back to the decoder of that kind |
| `Envelope.DispatchExactly` | app/legacy_ethtx.go:466-475 | the three type URLs, byte by byte, lead to the three decoders and their outcomes; every other type URL is an error |
| `Envelope.AnyLayout` | app/legacy_ethtx.go:405-453 | which field number holds what in an Any |
| `Envelope.MsgLayout` | app/legacy_ethtx.go:300-402 | which field number holds what in a message |
| `Envelope.WrapperSwitchesExactly` | app/legacy_ethtx.go:300-453 | what the two wrapping decoders do with every field number and wire type |
| `Envelope.NestedAnyDecides` | app/legacy_ethtx.go:313-333 | an Any that does not decode fails its message as it fails itself |
| `Envelope.OffsetsDiffer` | app/legacy_ethtx.go:322-325 | a length that panics where ends are counted from the start of the message and is an error where they are counted from the field |
| `Envelope.EnvelopeRoundTrip` | app/legacy_ethtx.go:150-191 | bytes to transaction end to end: a transaction wrapped in message, Any, body and raw transaction, among any other fields, is recovered |
| `Envelope.EnvelopeDelivers` | app/legacy_ethtx.go:150-191 | whatever other fields surround it, the first message of a transaction decides the outcome: result, error, panic or hang |
| `Envelope.TransactionReturns` | app/legacy_ethtx.go:150-191 | the whole chain returns a transaction or an error on every input in which no length, at any level it gets to, wraps around |
| `Envelope.TransactionNeverReturns` | app/legacy_ethtx.go:150-191 | a concrete whole transaction on which the decoding never ends |
| `Envelope.DecodeTransaction` | app/legacy_ethtx.go:150-191 | the composed decoders compute the specified result, error or panic on all bytes on which they return |
| `GenesisSkip.ReadVarint` | x/distro/types/genesis.pb.go:477-490 | the generated varint loop reads the same value and length as the hand-written one and refuses alike |
| `GenesisSkip.SkipScalarAt` | x/distro/types/genesis.pb.go:722-765 | the switch over non-group wire types, with the negative-length and overflow refusals |
| `GenesisSkip.SkipGenesis` | x/distro/types/genesis.pb.go:700-777 | the depth-counting loop refines a recursive reading of properly nested groups |
| `GenesisSkip.SkipInvertsEncode` | x/distro/types/genesis.pb.go:700-777 | skipping consumes exactly the bytes of any item, with groups nested to any depth |
| `GenesisSkip.UnterminatedIsRefused` | x/distro/types/genesis.pb.go:700-777 | a group that is not ended is refused, whatever items stand in it |
| `GenesisSkip.StrayEndIsRefused` | x/distro/types/genesis.pb.go:759-763 | a tag that ends a group where none is open is refused |
| `GenesisSkip.SkipItemPrefix` | x/distro/types/genesis.pb.go:700-777 | bytes after a skipped item never change how far is skipped |
| `GenesisSkip.SkippersAgree` | app/legacy_ethtx.go:1137-1158 | on every input whose tag is not a group start, both skippers refuse together, and move alike if and only if the end is within Go's int; beyond it the generated one refuses and the other wraps around |
| `GenesisCodec.ParseConcat` | x/distro/types/genesis.pb.go:471-699 | a successful parse followed by any bytes is the two parses in turn, refusals included |
| `GenesisCodec.UnknownItemIsInvisible` | x/distro/types/genesis.pb.go:679-692 | an unknown field or nested group after accepted bytes leaves the parse unchanged |
| `GenesisCodec.TruncatedIsRefused` | x/distro/types/genesis.pb.go:471-699 | every message that ends inside a field, known or not, is refused |
| `GenesisCodec.KnownExactly` | x/distro/types/genesis.pb.go:498-678 | which field numbers the two messages know, and with which wire type |
| `GenesisCodec.ParamsLayout` | x/distro/types/genesis.pb.go:498-678 | field number by field number, for all contents, which parameter it holds |
| `GenesisCodec.ParamsMergeHomomorphism` | x/distro/types/genesis.pb.go:471-699 | unmarshalling a concatenation is unmarshalling the second part into the result of the first |
| `GenesisCodec.ParamsRoundTrip` | x/distro/types/genesis.pb.go:280-326 | every parameter record is read back from its encoding |
| `GenesisCodec.GenesisReadsJoinedParams` | x/distro/types/genesis.pb.go:388-470 | a genesis with the parameters split over several fields reads as one with their bytes joined, and never fails once parsed |
| `GenesisCodec.GenesisRoundTrip` | x/distro/types/genesis.pb.go:232-263 | every genesis state is read back from its encoding |
| `GenesisMessages.Params.Size` | x/distro/types/genesis.pb.go:350-380 | the size is the number of bytes that are written |
| `GenesisMessages.SlotBytes` | x/distro/types/genesis.pb.go:290-324 | a string field is a tag byte, its length and its bytes, and nothing at all when empty |
| `GenesisMessages.SlotUint` | x/distro/types/genesis.pb.go:285-289 | a number field is a tag byte and a varint, and nothing at all when zero |
| `GenesisMessages.Params.MarshalToSizedBuffer` | x/distro/types/genesis.pb.go:280-326 | writing backwards from the end of the buffer produces the encoding there and changes no other byte |
| `GenesisMessages.Params.Marshal` | x/distro/types/genesis.pb.go:265-273 | a fresh buffer holding exactly the encoding |
| `GenesisMessages.Params.Unmarshal` | x/distro/types/genesis.pb.go:471-699 | the loop over a mutable record succeeds exactly when the parse does and then holds the overlay of the fields on its old value |
| `GenesisMessages.Params.ReadField` | x/distro/types/genesis.pb.go:495-696 | one turn of the switch, unknown fields included |
| `GenesisMessages.GenesisState.Size` | x/distro/types/genesis.pb.go:339-348 | the size is the number of bytes that are written |
| `GenesisMessages.GenesisState.Marshal` | x/distro/types/genesis.pb.go:232-263 | a fresh buffer holding exactly the encoding, nested length prefix included |
| `GenesisMessages.GenesisState.Unmarshal` | x/distro/types/genesis.pb.go:388-470 | the loop merges every parameters field into the nested record in turn, and succeeds exactly when the specified decoding does |
| `GenesisMessages.ReadLengthDelimited` | x/distro/types/genesis.pb.go:504-531 | the length, sign, overflow and end-of-input checks read exactly a complete length-delimited body |
| `ParsersAgree.ParsersAgreeOn` | x/distro/types/genesis.pb.go:471-699 | on whole messages with 31-bit field numbers, the generated parser and the hand-written loop given the same known fields accept the same bytes and read the same fields |
| `ParsersAgree.ParsersAgreeExactly` | x/distro/types/genesis.pb.go:491-497 | on a whole message the two agree for every set of known fields if and only if all its field numbers are positive and below 2^31 |
| `ParsersAgree.NumbersAlias` | x/distro/types/genesis.pb.go:491-497 | concrete bytes with number 2^32 + 1 that the generated parser reads as the minting address and the hand-written loop skips |
| `Calendar.MonthsApart` | x/distro/keeper/msg_server_mint.go:166-171 | n months are between 28n and 31n days, from any month |
| `Calendar.YearLength` | x/distro/keeper/msg_server_mint.go:166-171 | twelve months make 365 days, or 366 in a leap year |
| `Calendar.YearsClosedForm` | x/distro/keeper/msg_server_mint.go:166-171 | the month-by-month day count is the Gregorian closed form |
| `Calendar.MonthTable` | x/distro/keeper/msg_server_mint.go:166-171 | the days of any year before each of its months |
| `Calendar.DayNumberClosedForm` | x/distro/keeper/msg_server_mint.go:166-171 | the number of any date by year, month and day |
| `Calendar.DayNumberOrder` | x/lockup/keeper/msg_server_lock.go:41-50 | day numbers compare as dates do by year, month and day |
| `Calendar.AddDateExactly` | x/distro/keeper/msg_server_mint.go:166-171 | adding months leads to the same day of the month, counted on where the month is too short |
| `Calendar.TwoYearsLater` | x/lockup/keeper/msg_server_lock.go:48-50 | two years on is the same month and day, and the first of March for a leap day |
| `Halving.PeriodsTile` | x/distro/keeper/msg_server_mint.go:166-171 | the first period starts on the start date and every period ends the day before the next starts: no gap and no overlap |
| `Halving.PeriodBoundsExact` | x/distro/keeper/msg_server_mint.go:166-171 | period p starts on the day of the month of the start date, (p - 1) period lengths later, and ends the day before p period lengths later |
| `Halving.DurationSaturates` | x/distro/keeper/msg_server_mint.go:198-209 | day differences are those of a 64-bit nanosecond duration that saturates, cut to whole days |
| `Halving.PeriodSize` | x/distro/keeper/msg_server_mint.go:166-171 | a period of m months has between 28m and 31m days |
| `Halving.CurrentPeriodExact` | x/distro/keeper/msg_server_mint.go:175-195 | the search returns the one period that contains the date, and 1001 exactly when no period up to 1000 does |
| `Halving.ClosedForm` | x/distro/keeper/msg_server_mint.go:155-163 | after n periods, max supply minus its n-th halving minus the one bits shifted out |
| `Halving.AlwaysBelowMaxSupply` | x/distro/keeper/msg_server_mint.go:155-163 | no number of full periods ever allocates the whole supply |
| `Distribution.CurrentPeriod` | x/distro/keeper/msg_server_mint.go:175-195 | the loop computes the period search, with an error before the start date |
| `Distribution.ComputeTotalDistributableAt` | x/distro/keeper/msg_server_mint.go:212-238 | the accumulation loop computes the limit, its error and its panics (zero divisor from period 64 on, products beyond 256 bits) |
| `Distribution.LimitIsCap` | x/distro/keeper/msg_server_mint.go:212-238 | whenever a limit is returned it is full allocations plus the pro-rata share |
| `Distribution.LimitDefinedExactly` | x/distro/keeper/msg_server_mint.go:212-238 | an error exactly before the start date; a limit exactly from the start through the end of period 63 on days whose pro-rata product fits 256 bits; a panic otherwise |
| `Distribution.SmallSupplyIsFunded` | x/distro/keeper/msg_server_mint.go:225-235 | with a maximum supply of at most 2^240 every such product fits |
| `Distribution.CapMonotone` | x/distro/keeper/msg_server_mint.go:212-238 | the limit never decreases from one date to any later one, across period ends |
| `Distribution.CapBelowMaxSupply` | x/distro/keeper/msg_server_mint.go:212-238 | the limit is below the maximum supply on every date |
| `Distribution.CapOnLastDay` | x/distro/keeper/msg_server_mint.go:212-238 | on the last day of a period the pro-rata share is the whole allocation |
| `Distribution.CapProRata` | x/distro/keeper/msg_server_mint.go:212-238 | the limit inside a period is the full allocations before it plus the allocation by elapsed days, today counted in, over its days |
| `Distribution.DailyEmission` | x/distro/keeper/msg_server_mint.go:225-235 | one more day releases the daily quotient or one unit more, the latter only when the division leaves a remainder; nothing more once the elapsed time saturates |
| `Mint.Keeper.Mint` | x/distro/keeper/msg_server_mint.go:14-73 | the method decides and updates the bank as specified, refusals and the partial failure included |
| `Mint.Keeper.MintCoins` | x/distro/keeper/msg_server_mint.go:62-66 | supply grows by the amount, the module account holds exactly that much more and nobody else does, so supply minus the sum of balances is conserved |
| `Mint.Keeper.DepositCoins` | x/distro/keeper/msg_server_mint.go:83-100 | moves the amount from the module account to the receiver, or fails and moves nothing |
| `Mint.MintEffect` | x/distro/keeper/msg_server_mint.go:14-73 | a mint raises supply and the receiver by the amount and leaves every other balance, the module account included |
| `Mint.RefusalChangesNothing` | x/distro/keeper/msg_server_mint.go:14-73 | with valid parameters every refusal leaves the bank untouched |
| `Mint.MintWithinCap` | x/distro/keeper/msg_server_mint.go:103-122 | after a mint the supply is at most the limit of that day |
| `Mint.MaxSupplyCheckIsRedundant` | x/distro/keeper/msg_server_mint.go:44-54 | dropping the max-supply comparison changes no acceptance, and no refusal where the limit is defined |
| `Mint.AcceptedExactly` | x/distro/keeper/msg_server_mint.go:14-73 | a mint is accepted if and only if the amount is a positive number, the minter is an address that reads as the minting address, the module account exists, the supply is not negative, the day has a limit, and the new supply is within it |
| `Mint.PanicsExactly` | x/distro/keeper/msg_server_mint.go:14-73 | it panics if and only if such a message meets a sum beyond 256 bits, or a sum within the maximum supply on a day that has begun and has no limit |
| `Mint.StepKeepsSound` | x/distro/keeper/msg_server_mint.go:14-73 | every mint, transfer, burn and passing day keeps supply equal to the sum of non-negative balances and within the limit |
| `Mint.MintSafety` | x/distro/keeper/msg_server_mint.go:14-73 | over every run from an empty bank: conservation, supply within the limit of the day, and supply below the maximum |
| `Delegations.GetTotalDelegatedAmount` | x/lockup/keeper/helpers.go:9-37 | with at most 99 delegations the loop returns the sum of the rounded-up token amounts |
| `Delegations.PagingEndsExactly` | x/lockup/keeper/helpers.go:12-34 | the paging loop goes on after any number of turns if and only if the account has 100 delegations or more; with 99 or fewer every turn ends with the total |
| `Delegations.ExcludingIsRemoving` | x/lockup/keeper/helpers.go:42-56 | subtracting one delegation's amount is counting the store without it, a missing delegation included |
| `Delegations.CountedBounds` | x/lockup/keeper/helpers.go:29-30 | the count is at least the exact tokens and exceeds them by less than one unit per delegation |
| `Delegations.CountedMoves` | x/lockup/keeper/helpers.go:29-30 | adding whole tokens to any delegation changes the count by exactly that many, whatever fraction it held |
| `Locks.GetLockedAmount` | x/lockup/keeper/locks_by_address_store.go:18-35 | the loop sums exactly the locks that unlock after today |
| `Locks.GetLockByDate` | x/lockup/keeper/locks_by_address_store.go:116-129 | the first record with the date, or none |
| `Locks.SetLock` | x/lockup/keeper/locks_by_address_store.go:38-73 | the loop inserts the record before the first later date |
| `Locks.AddKeepsOrder` | x/lockup/keeper/locks_by_address_store.go:38-73 | adding to a date keeps records strictly ordered by date, one per date |
| `Locks.TakeKeepsOrder` | x/lockup/keeper/locks_by_address_store.go:139-165 | shrinking or deleting a record keeps the order |
| `Locks.DatesAdded` | x/lockup/keeper/locks_by_address_store.go:38-73 | adding makes a record for its date where there is none, and for no other date |
| `Locks.DatesTaken` | x/lockup/keeper/msg_server_extend.go:71-84 | taking all of a record removes it; taking less leaves every date its record |
| `Locks.AmountIsRecord` | x/lockup/keeper/locks_by_address_store.go:116-129 | in an ordered store the amount on a date is that of its only record |
| `Locks.SumAdded` | x/lockup/keeper/locks_by_address_store.go:38-73 | adding on a date raises any date-selected total by the amount exactly when the date is selected |
| `Locks.SumTaken` | x/lockup/keeper/msg_server_extend.go:68-84 | taking from a record lowers any date-selected total by the amount exactly when its date is selected |
| `Locks.LocksExpire` | x/lockup/types/helpers.go:5-12 | the locked amount never grows as days pass |
| `Markers.WithRedelegating` | x/lockup/keeper/hooks.go:28-36 | a new set object with one key more; the set that earlier contexts share is unchanged |
| `Markers.AnteHandle` | app/ante/redelegate.go:20-37 | succeeds exactly when every address parses, and then marks the sources of all redelegations of the transaction; the set of the incoming context is unchanged |
| `Markers.KeysCollideExactly` | x/lockup/keeper/hooks.go:20-22 | two pairs share a marker key if and only if they are equal or one delegator runs over the separator into the other's validator |
| `Markers.KeyInjective` | x/lockup/keeper/hooks.go:20-22 | with delegators of equal length the key determines the pair |
| `Markers.KeysCanCollide` | x/lockup/keeper/hooks.go:20-22 | a concrete collision between addresses of different lengths |
| `Markers.MarkedExactly` | x/lockup/keeper/hooks.go:40-44 | a pair is exempt in a transaction if and only if one of its redelegations names it as delegator and source |
| `Lockup.CheckBeforeIsCheckAfter` | x/lockup/keeper/hooks.go:107-162 | the check before a removal decides exactly what a check after it would |
| `Lockup.CheckMeansCovered` | x/lockup/keeper/hooks.go:124-162 | a passing check means the remaining delegations cover the locks |
| `LockupLaws.CheckExactly` | x/lockup/keeper/hooks.go:124-162 | the check passes if and only if nothing is locked, or at most 99 delegations, without the excluded one, cover what is locked |
| `LockupLaws.BondAcceptedExactly` | x/lockup/keeper/hooks.go:89-94 | a delegation is accepted if and only if it is positive and exempt, or nothing is locked, or at most 99 records cover what is locked with it |
| `LockupLaws.UnbondAcceptedExactly` | x/lockup/keeper/hooks.go:89-112 | an undelegation is accepted if and only if it is positive, not more than is there, and exempt, or nothing is locked, or at most 99 records cover what is locked without it |
| `LockupLaws.RedelegateAcceptedExactly` | x/lockup/keeper/hooks.go:80-112 | the same for a whole redelegation, with the records that are emptied and added counted |
| `LockupLaws.DateAllowedExactly` | x/lockup/keeper/msg_server_lock.go:41-50 | an unlock date is allowed if and only if it is after today and not after the same month and day two years on |
| `LockupLaws.LockAcceptedExactly` | x/lockup/keeper/msg_server_lock.go:15-86 | a lock is accepted if and only if it is positive, its date is in that window, and at most 99 delegations cover it with what is locked |
| `LockupLaws.ExtendAcceptedExactly` | x/lockup/keeper/msg_server_extend.go:27-119 | an extension is accepted if and only if its amount is not negative, the record of its old date has as much, and its new date is later and in that window |
| `LockupLaws.ExtendConcat` | x/lockup/keeper/msg_server_extend.go:27-119 | a list of extensions is accepted exactly as its parts are in turn |
| `LockupLaws.DequeuedKeys` | x/lockup/keeper/locks_by_date_store.go:68-102 | an entry of the queue goes when all of its amount does, and only then |
| `LockupLaws.BondEffect` | x/lockup/keeper/hooks.go:89-94 | an accepted delegation raises the delegator's count by the amount and touches nothing else |
| `LockupLaws.UnbondEffect` | x/lockup/keeper/hooks.go:89-112 | an accepted unbonding, partial or full, lowers the count by the amount and touches nothing else |
| `LockupLaws.LockEffect` | x/lockup/keeper/msg_server_lock.go:52-86 | an accepted lock raises the locked amount, leaves the account covered, and keeps records and queue in step |
| `LockupLaws.ExtendOneEffect` | x/lockup/keeper/msg_server_extend.go:27-119 | one extension keeps records and queue in step; the locked amount changes only when the source lock had expired |
| `LockupLaws.ExtendEffect` | x/lockup/keeper/msg_server_extend.go:13-124 | a list of extensions raises the locked amount by exactly what it revives from expired locks |
| `LockupLaws.QueueNeverRefuses` | x/lockup/keeper/msg_server_extend.go:104-110 | an extension is accepted if and only if dates and lock record allow it: the queue removal never fails in a reachable store |
| `LockupLaws.ExecEffect` | x/lockup/keeper/hooks.go:89-112 | every message keeps the stores well formed, leaves all other accounts alone and moves locked and counted amounts as stated |
| `LockupLaws.CheckedMeansHolds` | x/lockup/keeper/hooks.go:89-162 | after any message with a check the delegator is covered, even if it was not before |
| `LockupLaws.GuardedKeepsHolds` | x/lockup/keeper/hooks.go:89-162 | account by account: every accepted message other than an undelegation from a marked pair or an extension that revives an expired lock keeps a covered account covered |
| `LockupLaws.GuardedKeepsInvariant` | x/lockup/keeper/hooks.go:89-162 | every accepted message other than an undelegation from a marked pair or an extension that revives an expired lock keeps the invariant for all accounts |
| `LockupLaws.ExtendKeepsExactly` | x/lockup/keeper/msg_server_extend.go:13-124 | an extension keeps the invariant if and only if locked plus revived amounts are covered |
| `LockupLaws.ExpiredExtensionBreaks` | x/lockup/keeper/msg_server_extend.go:63-110 | extending an expired, uncovered lock is accepted and breaks the invariant |
| `LockupLaws.UndelegateSafeExactly` | x/lockup/keeper/hooks.go:89-112 | an undelegation is safe from every sound state if and only if its pair is not marked |
| `LockupRuns.ExecAllKeeps` | x/lockup/keeper/hooks.go:89-162 | a transaction of guarded messages keeps the invariant |
| `LockupRuns.ExecAllConcat` | x/lockup/keeper/hooks.go:46-162 | a transaction is its first messages and then the others, and fails when either part does |
| `LockupRuns.LastCheckedMessageDecides` | x/lockup/keeper/hooks.go:89-162 | whatever came before, a checked message leaves its delegator covered at the end of the transaction, unless a later message of theirs is an exempt undelegation or revives an expired lock |
| `LockupRuns.MoveAndWithdrawSafeExactly` | x/lockup/keeper/hooks.go:80-112 | a redelegation and an undelegation in one transaction are safe from every sound state if and only if the marker keys of their pairs differ |
| `LockupRuns.LockupSafety` | x/lockup/keeper/hooks.go:46-162 | over every run of transactions and days the stores stay well formed, and guarded runs keep delegated at least locked for every account |
| `LockupRuns.SingleMessageRunsAreSafe` | x/lockup/keeper/hooks.go:46-162 | from genesis, every run of single-message transactions without extensions keeps the invariant |
| `LockupRuns.MoveAndWithdrawBreaksRuns` | x/lockup/keeper/hooks.go:80-112 | from genesis: delegating, locking, and then a move and a withdrawal of pairs with one key in one transaction break the invariant |
| `LockupRuns.ExpiredExtensionBreaksRuns` | x/lockup/keeper/msg_server_extend.go:13-124 | from genesis, one message a transaction: delegating, locking, withdrawing after the lock has expired and extending it break the invariant |
| `LockupRuns.DelegateAndLockAcceptedExactly` | x/lockup/keeper/msg_server_send_delegate_and_lock.go:13-86 | for a covered account, send-delegate-and-lock succeeds if and only if amount, date and number of delegations allow it: its own delegation always pays for its lock |
| `LockupKeeper.Keeper.Lock` | x/lockup/keeper/msg_server_lock.go:15-98 | the method accepts and updates both stores as specified, and changes nothing on refusal |
| `LockupKeeper.Keeper.AddLock` | x/lockup/keeper/msg_server_lock.go:71-82 | merges into the record of the date or inserts one in order |
| `LockupKeeper.Keeper.Extend` | x/lockup/keeper/msg_server_extend.go:13-124 | the loop accepts exactly when every extension in turn is accepted, and then holds the specified stores |
| `LockupKeeper.Keeper.ExtendLock` | x/lockup/keeper/msg_server_extend.go:27-119 | one turn of the loop: both record moves and both queue moves |
| `LockupKeeper.Keeper.MoveLock` | x/lockup/keeper/msg_server_extend.go:68-102 | delete or shrink the source record, then merge or insert at the target date |
| `LockupKeeper.Keeper.SetLockByAddress` | x/lockup/keeper/locks_by_address_store.go:38-73 | ordered insertion into one account's records |
| `LockupKeeper.Keeper.SetLocksByAddress` | x/lockup/keeper/locks_by_address_store.go:76-91 | the account's locks become the list, with a stored key exactly when it is not empty; every other account keeps its key and its locks |
| `LockupKeeper.Keeper.UpdateLockByAddressAndIndex` | x/lockup/keeper/locks_by_address_store.go:153-165 | replaces one record, or refuses an index out of range and changes nothing |
| `LockupKeeper.Keeper.DeleteLockByAddressAndIndex` | x/lockup/keeper/locks_by_address_store.go:139-151 | removes one record and no other account's, or refuses an index out of range and changes nothing |
| `LockupKeeper.Keeper.AddToExpirationQueue` | x/lockup/keeper/locks_by_date_store.go:41-64 | adds to the amount queued for the date and account |
| `LockupKeeper.Keeper.RemoveFromExpirationQueue` | x/lockup/keeper/locks_by_date_store.go:68-102 | refuses more than is queued, deletes at zero, ignores a missing entry |
| `LockupKeeper.Keeper.CheckLockupInvariantExcluding` | x/lockup/keeper/hooks.go:124-162 | decides the specified check over the keeper's stores |

## Left out

- Envelope.DecodeTransaction: the go-ethereum transaction built from the decoded fields, sender recovery, hex addresses and the wrapping transaction config are not modelled; the result is the decoded fields.
- LegacyTx.UnmarshalLegacyTx: requires an input on which the specified outcome is not a hang, because otherwise the loop does not end, and a buffer whose length is a Go int; the same holds for every other decoder loop.
- LegacyLaws.LegacyTxRoundTrip: the codec of `cosmossdk.io/math.Int` is not part of this repository; it is any pair of functions, assumed to give back the numbers of the transaction at hand. The same holds for the other two kinds.
- Scanner.UnknownFieldsAreInvisible: stated without a length that wraps around, because the wrapped index depends on where the field stands (`LegacyLaws.WrapBreaksConcat`).
- Scanner.ReturnsUnlessWrapped: one direction, because a decoder that gets to such a length can still return; the exact condition over all decoders is `Scanner.AllDecodersReturnExactly`.
- LegacyLaws.LegacyTxConcatIsMerge: stated for a first part that ends on a field boundary and without a length that wraps around; `Scanner.ConcatLawExactly` and `LegacyLaws.WrapBreaksConcat` show what happens otherwise. The same holds for the other kinds.
- LegacyLaws.LegacyTxFieldOrder: which of two refusals comes first may depend on the order; only acceptance and results are compared.
- GenesisSkip.SkippersAgree: tags that open a group are excluded; the hand-written skipper refuses them and the generated one reads the group.
- ParsersAgree.ParsersAgreeExactly: stated for messages of whole fields outside groups; on fields cut short the hand-written loop is more lenient (`Scanner.AcceptedExactly`), and groups only the generated parser reads.
- GenesisMessages.Params.Unmarshal: the contents of the record after a failure are not specified; callers discard it. The same holds for `GenesisMessages.GenesisState.Unmarshal`.
- GenesisMessages.Params.Marshal: sizes beyond Go's int are excluded; no such buffer can be allocated.
- Distribution.CapMonotone: stated for schedules whose first thousand periods do not wrap 64-bit month arithmetic, about 7.7 * 10^14 years per period; Go's own range of representable years is not modelled.
- Halving.CurrentPeriodExact: same condition on the months; also on `Distribution.CapBelowMaxSupply`, `Distribution.CapOnLastDay`, `Distribution.DailyEmission` and the `Mint` lemmas about the limit. Beyond it dates leave the range that Go's time package represents.
- Distribution.ComputeTotalDistributableAt: hours are divided as whole days; the float64 division in the source is exact for the day counts a saturated duration allows.
- Mint.Keeper.Mint: the parameter store's read errors and sending to a blocked address are not modelled; texts of amounts, dates and addresses are given as what their parsers return.
- Mint.MintSafety: the parameters stay the same over a run; a governance change of parameters is not an event.
- Delegations.GetTotalDelegatedAmount: requires fewer than 100 delegations, because otherwise the loop does not end; gas is not modelled, and a count that does not return fails its transaction.
- Delegations.CountedMoves: exchange rates are real numbers fixed over a run; the staking module's 18-digit share rounding and slashing are not modelled.
- LockupRuns.LockupSafety: balances, the unbonding queue, validator look-up errors and messages arriving through the EVM staking precompile are not modelled.
- LockupKeeper.Keeper.Extend: amounts are not negative, as message validation demands (`x/lockup/types/message_extend.go:44-46`); the stores after a failure are not specified, because the transaction is rolled back; the account look-up is not modelled and the denomination is a yes-or-no parameter.
- LockupKeeper.Keeper.AddToExpirationQueue: dates are day numbers and queue keys are pairs; the byte keys of the store are not modelled.
- Error values and messages: refusals are not told apart.
- `app/`: wiring, upgrade handlers, export, the other ante decorators and the command line.
- `x/lockup`: the send restriction, MultiSendDelegateAndLock, queries, genesis import and export, and store iterators without a caller.
- `x/distro`: queries, module wiring, and the generated code of the other messages, which repeats the shape modelled here.
