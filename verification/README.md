# kube-scheduler-wasm-extension: wire codec, guest pool and memory exchange

kube-scheduler-wasm-extension runs scheduler plugins as WebAssembly guests of the Kubernetes scheduler.
This project models the parts of it whose behaviour is not plain from one function, and proves what they
promise. `dafny verify dfyconfig.toml` checks all of it.

**The protobuf codec** (`Varints`, `Skipping`, `Codecs`, `Records`, `RuntimeMessages`, `IntOrStrings`,
`LabelSelectors`, `SelectorSizes`, `Meanings` and the modules ending in `Classes`). The generated encoders
compute a size and then fill a buffer backwards in place; the decoders walk a cursor over records and keep
those they do not know. The messages are value datatypes with an encoding and a record-by-record decoder, over
which the laws are proved: round trips, stability of whatever was accepted, concatenation as merge, unknown
records kept byte for byte. Each message also is a class with the source's fields, whose `SizeVT`,
`MarshalToSizedBufferVT`, `MarshalVT` and `UnmarshalVT` are loops over arrays and cursors, proved equal to
those functions. The laws of the record loop are proved once, for any message that says what a record does to
it (`Codec`), and used for each message. The skipper and the record loop are proved against a grammar of
records with nested groups, in both directions; which inputs are accepted, and what each field of the result
is, is stated over the records of that grammar.

**The guest pool** (`GuestPools`, `WasmPlugins`). Guests move between a free queue, one scheduling slot and a
binding per pod. The pool is a class whose methods are proved against a step function; properties of whole
runs are proved over all sequences of its operations, in any interleaving. `WasmPlugins` adds how the
extension points of the plugin drive the pool, and derives from the framework's order of calls that the whole
cycle of a pod runs on one guest.

**The exchange of values between guest and host** (`GuestMemory`, `LittleEndian`, `NulStrings`,
`ClusterEvents`, `NodeScores`, `NodeCaches`) and the arithmetic of one example plugin (`ImageLocality`):
both halves of each format, the offer-and-retry protocol over one shared buffer, and what a guest remembers
of its host during a cycle.

Some claims that the code suggests do not hold of it; the members that say what does hold are in brackets. The
key and the value of a map entry may run past the entry [`EntryIsSelfContained`, `StrictSelector`,
`EntryCanOverrun`]. A decoded `IntOrString` may be longer than its input when it is encoded again, exactly if
its `IntVal` is negative [`IntOrStrings.EncodingIsShortest`, `ReencodingCanGrow`]. So may a `LabelSelector`,
exactly if a key or a value of a label is empty, as long as no entry overruns
[`SelectorSizes.EncodingIsShortest`, `SelectorCanGrow`], and at most quadratically otherwise
[`OverrunningCanGrow`, `SelectorGrowth`]. A nil element of a repeated field comes back as an empty message
[`SelectorRoundTrip`]. `getForBinding` takes the scheduling guest for whichever pod asks first
[`IntruderTakesGuest`]; `Unreserve` does not reach the guest its pod is bound to
[`UnreserveMissesBoundGuest`]; `PostBind` releases nothing if the guest does not export it
[`WasmPlugin.PostBind`]; without containers the priority of an image sum is not always 0
[`CalculatePriority`]. Empty strings are lost by the host's list reader; keys and values of a log message lose
their pairing if only one of a pair is empty [`ReadsNonEmpty`, `KeepsPairing`, `PairingCanBreak`]; a list of
empty strings only gives an empty slice that is not nil, whose first byte the caller then asks for
[`ToNulTerminated`]. Nodes that were listed are not found by name, and a node may be delivered in the list and
then once more on its own [`FindsUntilListed`, `DeliversListedNodeAgain`]. Equal sizes do not mean equal names
when normalized scores are copied back [`NormalizeScore`, `SizesSayLittle`].

Machine integers are mathematical ones with the wrap-around written out; `int` has 64 bits. Where a member
requires a length of at most `MAX_INT`, it says that the bytes fit into a Go slice.

## Model

| member | source | states |
|---|---|---|
| Varints.SignedRoundTrip | kubernetes/proto/instr/generated_vtproto.pb.go:78-87 | Sign extension to 64 bits is undone by truncation to int64 and, for 32-bit values, to int32; negative values included. |
| Varints.AddInt | kubernetes/proto/instr/generated_vtproto.pb.go:220-223 | A sum of two ints is negative exactly when it exceeds the largest int; this is what the overflow checks rely on. |
| Varints.SovIsLength | kubernetes/proto/instr/generated_vtproto.pb.go:122-124 | The size pass and the writer agree: `sov` is the length of the canonical varint, for every value. |
| Varints.VarintLength | kubernetes/proto/instr/generated_vtproto.pb.go:91-101 | A varint has at most k bytes if and only if its value is below 128^k, so it has the least possible number of 7-bit groups. |
| Varints.Varint64AtMostTen | kubernetes/proto/instr/generated_vtproto.pb.go:122-124 | 64-bit values take one to ten bytes. |
| Varints.ReadVarintOfVarint | kubernetes/proto/instr/generated_vtproto.pb.go:133-147 | The read loop returns v from the encoding of v, for every 64-bit v and whatever bytes follow. |
| Varints.ReadVarintMinimal | kubernetes/proto/instr/generated_vtproto.pb.go:133-147 | No accepted encoding of a value, truncated ones included, is shorter than the canonical encoding of what was read. |
| Varints.ReadVarintPrefix | kubernetes/proto/instr/generated_vtproto.pb.go:133-147 | A successful read depends on the bytes it consumed and on nothing after them. |
| Varints.ReadVarintExactly | kubernetes/proto/instr/generated_vtproto.pb.go:133-147 | A varint is read from the first n bytes if and only if they are one to ten bytes of which exactly the last has its high bit clear, minimal or not; the value is the low 64 bits of the number that the groups form. |
| Varints.ReadVarintFails | kubernetes/proto/instr/generated_vtproto.pb.go:134-140 | It overflows exactly if ten bytes in a row have the high bit set, and ends early exactly if fewer bytes are left and all have it. |
| Varints.TruncationsAreCongruent | kubernetes/proto/instr/generated_vtproto.pb.go:171-191 | Truncation keeps a number modulo 2^64 or 2^32. |
| Varints.OrIsSum | kubernetes/proto/instr/generated_vtproto.pb.go:143-143 | Bit by bit, or-ing a number below 2^n with a multiple of 2^n adds them. |
| Varints.OrGroup64 | kubernetes/proto/instr/generated_vtproto.pb.go:143-143 | In the 64-bit loop, or-ing the next shifted group into the bits read so far adds it modulo 2^64: the k groups before it stay below 128^k, and of the tenth group one bit is left. |
| Varints.OrGroup32 | kubernetes/proto/instr/generated_vtproto.pb.go:191-191 | The same modulo 2^32: of the fifth group four bits are left, of the later ones none. |
| Varints.ReadUint64 | kubernetes/proto/instr/generated_vtproto.pb.go:133-147 | The 64-bit read loop, which or-s shifted groups, computes the recursive reading of the varint grammar, truncation beyond bit 63 and both error exits included. |
| Varints.ReadInt32 | kubernetes/proto/instr/generated_vtproto.pb.go:181-195 | The 32-bit loop keeps the low 32 bits of the same number, as a signed value, and fails on the same inputs. |
| Varints.EncodeVarint | kubernetes/proto/instr/generated_vtproto.pb.go:91-101 | Exactly `sov(v)` cells ending at the given offset are overwritten, and they hold the canonical varint; every other cell keeps its value. |
| Skipping.SkipRefinesGrammar | kubernetes/proto/instr/generated_vtproto.pb.go:253-330 | The skipper returns n inside the buffer if and only if the first n bytes are one record of the grammar: a scalar, a delimited record or a group of balanced records at any nesting depth (end group numbers unchecked). |
| Skipping.SkipsField | kubernetes/proto/instr/generated_vtproto.pb.go:253-330 | Completeness: any record of the grammar is skipped exactly, at any position, inside any number of open groups. |
| Skipping.SkippedIsField | kubernetes/proto/instr/generated_vtproto.pb.go:253-330 | Soundness: from a successful skip the record tree is recovered. |
| Skipping.SkipIgnoresSuffix | kubernetes/proto/instr/generated_vtproto.pb.go:253-330 | Replacing what follows a skipped record by anything does not change how it is skipped. |
| Skipping.SkipBounded | kubernetes/proto/instr/generated_vtproto.pb.go:322-324 | A position never exceeds the largest int, also where a length or a fixed body points far beyond the buffer. |
| Skipping.SkipBody | kubernetes/proto/instr/generated_vtproto.pb.go:273-324 | The switch over wire types, with the negative-length and overflow exits. |
| Skipping.Skip | kubernetes/proto/instr/generated_vtproto.pb.go:253-330 | The loop with its single depth counter computes the recursive skipping of the grammar, error by error. |
| Codecs.ReadRecord | kubernetes/proto/runtime/generated_vtproto.pb.go:472-648 | A record consumes at least one byte and stays within the input; a chunk lies inside it. |
| Codecs.NextTag | kubernetes/proto/runtime/generated_vtproto.pb.go:473-496 | Tag, wire type 4 and non-positive field numbers: each error exit, and the position after the tag. |
| Codecs.NextSlice | kubernetes/proto/runtime/generated_vtproto.pb.go:502-526 | Length, negative and overflow checks and the end of the slice, for any 64-bit length. |
| Codecs.NextPayload | kubernetes/proto/instr/generated_vtproto.pb.go:198-229 | The wire type check of a bytes field and exactly the bytes it announces. |
| Codecs.NextUnknown | kubernetes/proto/instr/generated_vtproto.pb.go:230-243 | The default branch: rewind to the tag, skip the whole record, and its three error exits. |
| Codecs.PutOptChunk | kubernetes/proto/runtime/generated_vtproto.pb.go:158-178 | An optional bytes field in front of what is written already: exactly its canonical record is added, and all other cells are as before the whole call. |
| Codecs.PutOptNumber | kubernetes/proto/instr/generated_vtproto.pb.go:78-87 | The same for an optional varint field. |
| Codecs.ConcatIsMerge | kubernetes/proto/runtime/generated_vtproto.pb.go:469-655 | For every message type: if a is accepted, decoding a ++ b gives the same message, and is accepted, exactly as decoding b into the message that a left. |
| Codecs.DecodeShift | kubernetes/proto/runtime/generated_vtproto.pb.go:469-655 | The absolute position of a record decides only which error is reported. |
| Codecs.DecodeUnknown | kubernetes/proto/runtime/generated_vtproto.pb.go:634-647 | A sequence of unknown records is accepted and appended unchanged. |
| Codecs.UnknownRecordsKept | kubernetes/proto/runtime/generated_vtproto.pb.go:634-647 | For every message type: an accepted input leaves the concatenation of exactly its unknown records, whole and in order, whatever known fields stand between them. |
| Codecs.RawIsUnknown | kubernetes/proto/runtime/generated_vtproto.pb.go:634-647 | The bytes kept for a skipped record are again one complete unknown record. |
| Codecs.DecodePreserves | kubernetes/proto/runtime/generated_vtproto.pb.go:469-655 | What every record keeps true of a message, decoding keeps true, on failure as well. |
| Codecs.DecodeBounded | kubernetes/proto/runtime/generated_vtproto.pb.go:469-655 | If no record enlarges a message by more than its canonical size, the result is bounded by the input length, non-minimal varints included. |
| Records.RecordIsField | kubernetes/proto/runtime/generated_vtproto.pb.go:472-648 | For every message type: a record is read from the first n bytes if and only if they are one record of the wire grammar whose number, the tag without its wire type as an int32, is positive and whose wire type, if the message knows the number, is the expected one. |
| Records.ReadsField | kubernetes/proto/runtime/generated_vtproto.pb.go:472-648 | Completeness of that: such a record is read whole, with its value or payload, whatever follows it. |
| Records.FieldOfRecord | kubernetes/proto/runtime/generated_vtproto.pb.go:472-648 | Soundness: from what was read, the grammar record is recovered. |
| Records.DecodesField | kubernetes/proto/runtime/generated_vtproto.pb.go:497-648 | A record with an unknown number, however large, is kept whole; any other is applied, once. |
| Records.DecodeIsFold | kubernetes/proto/runtime/generated_vtproto.pb.go:469-655 | A sequence of such records is decoded record by record. |
| Records.AcceptsExactly | kubernetes/proto/runtime/generated_vtproto.pb.go:469-655 | If no field can fail, an input is accepted, into any message, if and only if it is a sequence of such records. |
| RuntimeMessages.TypeMetaRoundTrip | kubernetes/proto/runtime/generated_vtproto.pb.go:99-126 | Decoding the encoding of a TypeMeta gives it back, absent and empty strings kept apart. |
| RuntimeMessages.TypeMetaStable | kubernetes/proto/runtime/generated_vtproto.pb.go:352-468 | Whatever bytes are accepted, encoding the result is not longer and decodes to the same message. |
| RuntimeMessages.TypeMetaFieldsKept | kubernetes/proto/runtime/generated_vtproto.pb.go:447-460 | The unknown records of an accepted input are appended byte for byte and in order. |
| RuntimeMessages.RawExtensionRoundTrip | kubernetes/proto/runtime/generated_vtproto.pb.go:59-79 | The same round trip for RawExtension. |
| RuntimeMessages.RawExtensionStable | kubernetes/proto/runtime/generated_vtproto.pb.go:267-351 | The same stability for RawExtension. |
| RuntimeMessages.RawExtensionFieldsKept | kubernetes/proto/runtime/generated_vtproto.pb.go:330-343 | The same for RawExtension. |
| RuntimeMessages.UnknownRoundTrip | kubernetes/proto/runtime/generated_vtproto.pb.go:146-190 | The same round trip for Unknown with its nested TypeMeta, absent, empty and present kept apart. |
| RuntimeMessages.UnknownStable | kubernetes/proto/runtime/generated_vtproto.pb.go:469-655 | The same stability for Unknown: repeated fields, several TypeMeta records, groups and unknown fields included. |
| RuntimeMessages.UnknownConcatIsMerge | kubernetes/proto/runtime/generated_vtproto.pb.go:527-532 | Decoding a ++ b into any Unknown is decoding a and then b, with TypeMeta merged into the one that is there. |
| RuntimeMessages.UnknownFieldsKept | kubernetes/proto/runtime/generated_vtproto.pb.go:634-647 | The unknown records of an accepted input are appended byte for byte and in order. |
| RuntimeMessages.UnknownPreserves | kubernetes/proto/runtime/generated_vtproto.pb.go:469-655 | Whatever is decoded, unknown fields stay sequences of complete unknown records, in the nested message too. |
| RuntimeMessages.UnknownBounded | kubernetes/proto/runtime/generated_vtproto.pb.go:235-259 | No record enlarges the encoding by more than its own canonical size, although merging into TypeMeta may enlarge its length prefix. |
| Meanings.TypeMetaMeaning | kubernetes/proto/runtime/generated_vtproto.pb.go:377-461 | Read off the records: apiVersion is the payload of the last record numbered 1, or what it was before; kind the same for 2; records with other numbers are appended. |
| Meanings.TypeMetaAccepts | kubernetes/proto/runtime/generated_vtproto.pb.go:352-468 | Exactly the sequences of records with positive numbers in which 1 and 2 are delimited are accepted. |
| Meanings.RawExtensionMeaning | kubernetes/proto/runtime/generated_vtproto.pb.go:267-351 | The same for raw, numbered 1: the last record wins. |
| Meanings.RawExtensionAccepts | kubernetes/proto/runtime/generated_vtproto.pb.go:267-351 | Exactly the sequences of records in which 1 is delimited are accepted. |
| Meanings.UnknownMeaning | kubernetes/proto/runtime/generated_vtproto.pb.go:497-648 | The last records numbered 2, 3 and 4 win; all payloads numbered 1, one after another, are read into the TypeMeta that is there or into a new one. The records are accepted if and only if each such payload is one of a TypeMeta. |
| Meanings.UnknownAccepts | kubernetes/proto/runtime/generated_vtproto.pb.go:469-655 | The accepted inputs of Unknown, exactly. |
| Meanings.TypeMetaRecordsMerge | kubernetes/proto/runtime/generated_vtproto.pb.go:527-532 | Two TypeMeta records mean what one record with both payloads means, into any Unknown. |
| Meanings.NestedFieldsKept | kubernetes/proto/runtime/generated_vtproto.pb.go:527-532 | A record for an existing TypeMeta changes the fields that its payload has records for and keeps the others. |
| Meanings.RuntimeLayouts | kubernetes/proto/runtime/generated_vtproto.pb.go:59-190 | The bytes written: present fields in the order of their numbers, each behind its tag byte, unknown records last. |
| RuntimeClasses.RawExtension.SizeVT | kubernetes/proto/runtime/generated_vtproto.pb.go:203-215 | The size pass gives the exact length of the encoding. |
| RuntimeClasses.RawExtension.MarshalToSizedBufferVT | kubernetes/proto/runtime/generated_vtproto.pb.go:59-79 | Exactly that many cells at the end of the slice are written, with the encoding; the rest is untouched. |
| RuntimeClasses.RawExtension.MarshalVT | kubernetes/proto/runtime/generated_vtproto.pb.go:41-52 | A new buffer that holds the encoding and nothing else. |
| RuntimeClasses.RawExtension.UnmarshalVT | kubernetes/proto/runtime/generated_vtproto.pb.go:267-351 | For every byte string: terminates, and leaves the message and the error that the value-level decoder gives, also after a failure half-way. |
| RuntimeClasses.TypeMeta.SizeVT | kubernetes/proto/runtime/generated_vtproto.pb.go:217-233 | Exact size. |
| RuntimeClasses.TypeMeta.MarshalToSizedBufferVT | kubernetes/proto/runtime/generated_vtproto.pb.go:99-126 | Exact bytes, exact frame. |
| RuntimeClasses.TypeMeta.MarshalVT | kubernetes/proto/runtime/generated_vtproto.pb.go:81-92 | A new buffer that holds the encoding and nothing else. |
| RuntimeClasses.TypeMeta.UnmarshalVT | kubernetes/proto/runtime/generated_vtproto.pb.go:352-468 | Total, and equal to the value-level decoder in message and error. |
| RuntimeClasses.Unknown.SizeVT | kubernetes/proto/runtime/generated_vtproto.pb.go:235-259 | Exact size, nested message included. |
| RuntimeClasses.Unknown.MarshalToSizedBufferVT | kubernetes/proto/runtime/generated_vtproto.pb.go:146-190 | Exact bytes, exact frame, through the nested call on the part of the slice that is still free. |
| RuntimeClasses.Unknown.PutTypeMeta | kubernetes/proto/runtime/generated_vtproto.pb.go:179-188 | The nested message and its prefix are added in front of what is written; the cells before it are untouched. |
| RuntimeClasses.Unknown.MarshalVT | kubernetes/proto/runtime/generated_vtproto.pb.go:128-139 | A new buffer that holds the encoding and nothing else. |
| RuntimeClasses.Unknown.UnmarshalTypeMeta | kubernetes/proto/runtime/generated_vtproto.pb.go:527-532 | The nested object is created only if it is missing and then updated in place, also when its decoding fails. |
| RuntimeClasses.Unknown.UnmarshalRecord | kubernetes/proto/runtime/generated_vtproto.pb.go:472-648 | One iteration: at least one byte is consumed, the cursor stays inside, and what is left to decode gives the same outcome. |
| RuntimeClasses.Unknown.UnmarshalVT | kubernetes/proto/runtime/generated_vtproto.pb.go:469-655 | Total, equal to the value-level decoder in message and error; an existing TypeMeta object is never replaced. |
| IntOrStrings.IntOrStringRoundTrip | kubernetes/proto/instr/generated_vtproto.pb.go:59-89 | Round trip for all int64 and int32 values, negative ones included, and all strings. |
| IntOrStrings.EncodingIsShortest | kubernetes/proto/instr/generated_vtproto.pb.go:78-82 | For every valid message: no input that decodes to it is shorter than its encoding if and only if IntVal is absent or not negative. |
| IntOrStrings.EncodingSize | kubernetes/proto/instr/generated_vtproto.pb.go:78-82 | A negative IntVal makes the encoding longer by exactly five bytes than the form with its 32 low bits. |
| IntOrStrings.CompactFormDecodes | kubernetes/proto/instr/generated_vtproto.pb.go:177-196 | That form, too, decodes to the message. |
| IntOrStrings.CompactFormIsShortest | kubernetes/proto/instr/generated_vtproto.pb.go:128-251 | No accepted input of a message is shorter than it. |
| IntOrStrings.IntOrStringStable | kubernetes/proto/instr/generated_vtproto.pb.go:128-251 | Whatever bytes are accepted, the result decodes to itself again; its encoding is not longer than the input, or by at most five bytes if IntVal is negative. |
| IntOrStrings.IntOrStringFieldsKept | kubernetes/proto/instr/generated_vtproto.pb.go:230-243 | The unknown records of an accepted input are appended byte for byte and in order. |
| IntOrStrings.ReencodingCanGrow | kubernetes/proto/instr/generated_vtproto.pb.go:78-82 | The five bytes are reached: the input for -1 with its 32 low bits only. |
| IntOrStrings.CompactIsBounded | kubernetes/proto/instr/generated_vtproto.pb.go:177-196 | Counting negative IntVals with five bytes, decoding never enlarges a message beyond its input. |
| Meanings.IntOrStringMeaning | kubernetes/proto/instr/generated_vtproto.pb.go:156-244 | Type is the last varint numbered 1 as an int64, IntVal the last numbered 2 as an int32, StrVal the last payload numbered 3. |
| Meanings.IntOrStringAccepts | kubernetes/proto/instr/generated_vtproto.pb.go:128-251 | Exactly the sequences of records in which 1 and 2 are varints and 3 is delimited are accepted. |
| Meanings.IntOrStringLayout | kubernetes/proto/instr/generated_vtproto.pb.go:67-88 | The bytes written, with their tag bytes. |
| IntOrStringClasses.IntOrString.SizeVT | kubernetes/proto/instr/generated_vtproto.pb.go:102-120 | Exact size. |
| IntOrStringClasses.IntOrString.MarshalToSizedBufferVT | kubernetes/proto/instr/generated_vtproto.pb.go:59-89 | Exact bytes, exact frame. |
| IntOrStringClasses.IntOrString.MarshalVT | kubernetes/proto/instr/generated_vtproto.pb.go:41-52 | A new buffer that holds the encoding and nothing else. |
| IntOrStringClasses.IntOrString.UnmarshalVT | kubernetes/proto/instr/generated_vtproto.pb.go:128-251 | Total, and equal to the value-level decoder in message and error. |
| LabelSelectors.RequirementRoundTrip | kubernetes/proto/meta/generated_vtproto.pb.go:1209-1245 | Round trip with the repeated strings in order, empty ones included. |
| LabelSelectors.RequirementStable | kubernetes/proto/meta/generated_vtproto.pb.go:6839-6987 | Whatever bytes are accepted, encoding the result is not longer and decodes to the same message. |
| LabelSelectors.RequirementFieldsKept | kubernetes/proto/meta/generated_vtproto.pb.go:6966-6980 | The unknown records of an accepted input are appended byte for byte and in order. |
| LabelSelectors.ReadEntryOfEntry | kubernetes/proto/meta/generated_vtproto.pb.go:6688-6780 | The entry loop reads back the key and the value of an encoded entry. |
| LabelSelectors.EntryIsSelfContained | kubernetes/proto/meta/generated_vtproto.pb.go:6728-6780 | An entry means what its own bytes mean, as the encoding specification has it for maps, exactly when those bytes can be read on their own, and this is when no string runs past its end. The code bounds entry strings by the whole input. |
| LabelSelectors.StrictSelector | kubernetes/proto/meta/generated_vtproto.pb.go:6627-6838 | A decoder that keeps entry strings inside their entry accepts exactly the inputs that the code accepts and in which every map record can be read on its own; it then gives the same message. |
| LabelSelectors.EntryCanOverrun | kubernetes/proto/meta/generated_vtproto.pb.go:6732-6736 | A concrete accepted input in which a key is read again as the tag of the next record. |
| LabelSelectors.LabelsSizeUnique | kubernetes/proto/meta/generated_vtproto.pb.go:3200-3207 | The size of the map entries is the same for every iteration order. |
| LabelSelectors.SelectorRoundTrip | kubernetes/proto/meta/generated_vtproto.pb.go:1145-1189 | Under every map order the encoding decodes to the message with nil elements replaced by empty ones; to the message itself if and only if it has no nil element. |
| LabelSelectors.SelectorStable | kubernetes/proto/meta/generated_vtproto.pb.go:6627-6838 | Whatever bytes are accepted, up to 2^31 of them, overrunning entries included, the result encoded in any map order decodes to itself. |
| LabelSelectors.SelectorStableIfFits | kubernetes/proto/meta/generated_vtproto.pb.go:6627-6838 | The same for inputs of any length whose result has an encoding that fits into a slice. |
| SelectorSizes.EncodingIsShortest | kubernetes/proto/meta/generated_vtproto.pb.go:1170-1186 | Among the inputs of a message whose map records can be read on their own, none is shorter than the encoding, in any map order, if and only if no key and no value is empty. |
| SelectorSizes.SelectorNotLonger | kubernetes/proto/meta/generated_vtproto.pb.go:6627-6838 | So encoding the result of such an input is not longer than the input unless a key or a value is empty. |
| SelectorSizes.CompactFormDecodes | kubernetes/proto/meta/generated_vtproto.pb.go:6688-6690 | The encoding without empty keys and values decodes to the same message: the decoder starts an entry from empty strings. |
| SelectorSizes.CompactFormIsShortest | kubernetes/proto/meta/generated_vtproto.pb.go:6627-6838 | No input whose map records can be read on their own is shorter than that form. |
| SelectorSizes.CompactIsBounded | kubernetes/proto/meta/generated_vtproto.pb.go:6656-6782 | No record that the strict decoder accepts enlarges a selector, without its empty strings, by more than its own canonical size. |
| SelectorSizes.OverrunningCanGrow | kubernetes/proto/meta/generated_vtproto.pb.go:6757-6765 | With an overrunning entry the encoding can be longer although no string is empty. |
| LabelSelectors.SelectorGrowth | kubernetes/proto/meta/generated_vtproto.pb.go:6627-6838 | For all accepted inputs, overrunning entries included: the encoding of what n bytes decode to has at most n * (n + 17) bytes, in any map order. |
| SelectorSizes.SelectorCanGrow | kubernetes/proto/meta/generated_vtproto.pb.go:1170-1186 | An empty entry of two bytes becomes one of six. |
| LabelSelectors.SelectorConcatIsMerge | kubernetes/proto/meta/generated_vtproto.pb.go:6627-6838 | Decoding a ++ b is decoding a and then b into the same selector, although entry strings may run past their entry. |
| LabelSelectors.SelectorFieldsKept | kubernetes/proto/meta/generated_vtproto.pb.go:6817-6831 | The unknown records of an accepted input are appended byte for byte and in order. |
| LabelSelectors.SelectorPreserves | kubernetes/proto/meta/generated_vtproto.pb.go:6627-6838 | Unknown fields stay sequences of complete unknown records, in every element too. |
| LabelSelectors.SelectorNilFree | kubernetes/proto/meta/generated_vtproto.pb.go:6812-6813 | Decoding never introduces a nil element. |
| Meanings.RequirementMeaning | kubernetes/proto/meta/generated_vtproto.pb.go:6866-6980 | The last key and the last operator win, the values are all payloads numbered 3 in order. |
| Meanings.RequirementAccepts | kubernetes/proto/meta/generated_vtproto.pb.go:6839-6987 | Exactly the sequences of records in which 1, 2 and 3 are delimited are accepted. |
| Meanings.EntryFieldExactly | kubernetes/proto/meta/generated_vtproto.pb.go:6690-6779 | The next n bytes are one field of a map entry if and only if they are a string numbered 1 or 2, of any wire type and wherever it ends, or a record with another number, also one that is not positive, that ends inside the entry. |
| Meanings.TextIsRead | kubernetes/proto/meta/generated_vtproto.pb.go:6708-6765 | Such a string becomes the key or the value. |
| Meanings.SkippedIsRead | kubernetes/proto/meta/generated_vtproto.pb.go:6766-6779 | Such a record is skipped and changes nothing. |
| Meanings.EntryMeaning | kubernetes/proto/meta/generated_vtproto.pb.go:6688-6780 | Of an entry that is a sequence of records the last key and the last value count. |
| Meanings.SelectorMeaning | kubernetes/proto/meta/generated_vtproto.pb.go:6655-6831 | For inputs whose entries and nested messages are sequences of records: the entries are set one after another, a missing key or value being empty; the nested messages are appended in order; other records are kept. |
| Meanings.SelectorAccepts | kubernetes/proto/meta/generated_vtproto.pb.go:6627-6838 | The accepted inputs of LabelSelector, exactly: sequences of records in which the fields of every entry reach its end or pass it and every nested payload is a LabelSelectorRequirement. |
| Meanings.EntryAccepts | kubernetes/proto/meta/generated_vtproto.pb.go:6690-6780 | The entry loop accepts exactly such fields. |
| Meanings.SelectorLayouts | kubernetes/proto/meta/generated_vtproto.pb.go:1145-1245 | The bytes written, with their tag bytes: labels, expressions, unknown records; repeated fields one record per element, in order. |
| Meanings.LabelsLayout | kubernetes/proto/meta/generated_vtproto.pb.go:1169-1187 | One record per map entry, with the key and the value as fields of its own. |
| LabelSelectorClasses.UnmarshalEntry | kubernetes/proto/meta/generated_vtproto.pb.go:6688-6780 | The entry loop, cursor beyond the limit included, computes the recursive reading of the entry. |
| LabelSelectorClasses.NextEntryField | kubernetes/proto/meta/generated_vtproto.pb.go:6690-6779 | One field of an entry: strings bounded by the input, skipped records by the entry, wire types unchecked. |
| LabelSelectorClasses.LabelSelectorRequirement.SizeVT | kubernetes/proto/meta/generated_vtproto.pb.go:3218-3240 | Exact size. |
| LabelSelectorClasses.LabelSelectorRequirement.MarshalToSizedBufferVT | kubernetes/proto/meta/generated_vtproto.pb.go:1209-1245 | Exact bytes, exact frame. |
| LabelSelectorClasses.LabelSelectorRequirement.PutValues | kubernetes/proto/meta/generated_vtproto.pb.go:1221-1229 | The loop from the last string to the first leaves them in their order. |
| LabelSelectorClasses.LabelSelectorRequirement.MarshalVT | kubernetes/proto/meta/generated_vtproto.pb.go:1191-1202 | A new buffer that holds the encoding and nothing else. |
| LabelSelectorClasses.LabelSelectorRequirement.UnmarshalVT | kubernetes/proto/meta/generated_vtproto.pb.go:6839-6987 | Total, and equal to the value-level decoder in message and error. |
| LabelSelectorClasses.LabelSelector.SizeVT | kubernetes/proto/meta/generated_vtproto.pb.go:3194-3216 | Exact size for whatever order the writer will use later. |
| LabelSelectorClasses.LabelSelector.MarshalToSizedBufferVT | kubernetes/proto/meta/generated_vtproto.pb.go:1145-1189 | Exact bytes for some enumeration of the keys, exact frame, nil elements included. |
| LabelSelectorClasses.LabelSelector.PutLabels | kubernetes/proto/meta/generated_vtproto.pb.go:1169-1187 | The range loop writes every entry once, in whatever order it takes the keys, and never runs out of the space the size pass counted. |
| LabelSelectorClasses.LabelSelector.PutExpressions | kubernetes/proto/meta/generated_vtproto.pb.go:1157-1168 | The loop over nested messages, each written by a call on the free part of the slice. |
| LabelSelectorClasses.LabelSelector.MarshalVT | kubernetes/proto/meta/generated_vtproto.pb.go:1127-1138 | A new buffer that holds the encoding for some enumeration of the keys. |
| LabelSelectorClasses.LabelSelector.UnmarshalRecord | kubernetes/proto/meta/generated_vtproto.pb.go:6630-6831 | One iteration: progress, bounds and unchanged final outcome; earlier elements are not touched. |
| LabelSelectorClasses.LabelSelector.UnmarshalVT | kubernetes/proto/meta/generated_vtproto.pb.go:6627-6838 | Total, equal to the value-level decoder; existing elements stay the same objects, decoded ones are new. |
| LabelSelectorClasses.LabelSelector.AppendExpression | kubernetes/proto/meta/generated_vtproto.pb.go:6812-6815 | A new element is appended before it is decoded, and stays there if that fails. |
| GuestPools.NextConserves | scheduler/plugin/pool.go:64-181 | Every operation keeps each guest in exactly one of the slot, the queue (without repetition) or one binding. |
| GuestPools.RunConserves | scheduler/plugin/pool.go:64-181 | So does every run, provided that newGuest returns new guests. |
| GuestPools.RunIsolatesBinding | scheduler/plugin/pool.go:98-160 | In every run, a function runs on a bound guest only for a binding call of the pod that is bound to it. |
| GuestPools.CreatesOnlyWhenAllBound | scheduler/plugin/pool.go:71-78 | newGuest is called only when all existing guests are bound. |
| GuestPools.RunAllocatesMinimally | scheduler/plugin/pool.go:98-130 | In every run at most one guest more is created than the largest number of pods bound at once. |
| GuestPools.FailureKeepsGuests | scheduler/plugin/pool.go:105-129 | A failed creation moves no guest; only scheduledPodUID has changed. |
| GuestPools.QueueKeepsOrder | scheduler/plugin/pool.go:64-181 | In every run guests leave the free queue in the order in which they entered it: those that entered are those that left, followed by those that are there. |
| GuestPools.ServesUntilIntrusion | scheduler/plugin/pool.go:64-171 | One operation takes a pod's guest away if and only if it is an intrusion: before the pod is bound, an initialisation call or the first binding call of another pod; afterwards, the end of its own binding. |
| GuestPools.CycleStaysOnOneGuest | scheduler/plugin/pool.go:98-171 | In every run, after a pod's scheduling call ran on g, all its calls up to the first intrusion run on g. |
| GuestPools.IntruderTakesGuest | scheduler/plugin/pool.go:150-155 | getForBinding does not compare pods: after the first binding call of another pod, the next scheduling call runs on another guest. |
| GuestPools.UnreserveMissesBoundGuest | scheduler/plugin/plugin.go:391-402 | The call of Unreserve for a bound pod never runs on the guest the pod is bound to. |
| GuestPools.NoSharedGuest | scheduler/plugin/pool.go:138-171 | With binding calls running outside the lock, in every run no function starts on a guest on which another is still running. |
| GuestPools.WorldInvariant | scheduler/plugin/pool.go:138-171 | The invariant behind it: a running binding call holds the guest its pod is bound to. |
| GuestPools.GuestPool.constructor | scheduler/plugin/pool.go:48-60 | A pool with one free guest. |
| GuestPools.GuestPool.DoWithGuest | scheduler/plugin/pool.go:64-83 | The function runs on the guest in the slot if there is one, else on the first of the queue, else on a new one, and that guest ends at the back of the queue; the other guests keep their order, bindings stay, conservation is kept. |
| GuestPools.GuestPool.DoWithSchedulingGuest | scheduler/plugin/pool.go:98-130 | The same choice; that guest ends in the slot. |
| GuestPools.GuestPool.GetForBindingCycle | scheduler/plugin/pool.go:138-160 | A bound pod keeps its guest and nothing changes; else the guest in the slot is bound to it, and the slot and scheduledPodUID are cleared; with an empty slot it panics. |
| GuestPools.GuestPool.FreeFromBindingCycle | scheduler/plugin/pool.go:163-171 | The guest of a bound pod ends at the back of the queue; for any other pod nothing changes. |
| WasmPlugins.CycleRunsOnOneGuest | scheduler/plugin/plugin.go:243-464 | Whole-cycle affinity: if the framework calls the extension points in its order, then all calls of a pod from its first scheduling call through Permit, PreBind, Bind and PostBind run on one guest, under every interleaving with other pods' calls, releases and Unreserve. |
| WasmPlugins.OrderlyRunAgrees | scheduler/plugin/plugin.go:441-464 | In every such run the bound pods of the pool are exactly those that have passed Permit. |
| WasmPlugins.OrderKeepsGuest | scheduler/plugin/plugin.go:377-464 | No step of the framework inside a pod's cycle is an intrusion. |
| WasmPlugins.WasmPlugin.EventsToRegister | scheduler/plugin/plugin.go:151-189 | If the guest exports it, it runs on the guest in the slot or else on the first of the queue, which ends at its back, the others keeping their order; the slot is empty afterwards and bindings stay. |
| WasmPlugins.WasmPlugin.RunScheduling | scheduler/plugin/plugin.go:194-387 | Filter, Score and Reserve always run, the others exactly if the guest exports them: on the guest in the slot or else on the first of the queue, which ends in the slot, the others keeping their order. |
| WasmPlugins.WasmPlugin.Permit | scheduler/plugin/plugin.go:441-451 | A pod that is not bound is bound to the guest that Permit ran on; if that guest could not be created, it panics. |
| WasmPlugins.WasmPlugin.PreBind | scheduler/plugin/plugin.go:407-420 | For a bound pod the pool does not change. |
| WasmPlugins.WasmPlugin.Bind | scheduler/plugin/plugin.go:456-464 | The same, without asking for an export. |
| WasmPlugins.WasmPlugin.PostBind | scheduler/plugin/plugin.go:425-436 | If the guest exports it, the pod's guest runs and ends at the back of the queue; if not, nothing changes and the pod stays bound. |
| WasmPlugins.WasmPlugin.Unreserve | scheduler/plugin/plugin.go:391-402 | The pod is not bound afterwards; the call ran on the scheduling guest, not on the one the pod was bound to. |
| GuestMemory.WriteIfUnderLimit | scheduler/plugin/mem.go:31-75 | The length in any case; the value if it fits, and otherwise not a byte is written; nothing past the value changes. |
| GuestMemory.WriteUint64 | scheduler/plugin/mem.go:77-79 | Eight little-endian bytes, whatever the limit. |
| GuestMemory.ReadBuffer.constructor | guest/internal/mem/mem.go:29-36 | A shared buffer of 2048 bytes. |
| GuestMemory.ReadBuffer.Update | guest/internal/mem/mem.go:58-81 | The updater is handed exactly the value if and only if its length fits into 32 bits, after at most two calls; the limit becomes the larger of itself and the size and always is the length of the buffer. |
| GuestMemory.ReadBuffer.GetString | guest/internal/mem/mem.go:83-100 | The value if and only if its length fits into 32 bits, after at most two calls, in cells of its own; strings returned earlier keep their contents. |
| GuestMemory.ReadBuffer.SendAndGetUint64 | guest/internal/mem/mem.go:102-105 | Every 64-bit number arrives; the rest of the buffer keeps its contents. |
| GuestMemory.ReadAll | guest/internal/mem/mem.go:58-105 | After any sequence of reads, everything received on the way is what the host had: strings, which later reads do not alter, bytes handed to updaters, and numbers. The limit has not shrunk. |
| LittleEndian.ReadBack | guest/internal/mem/mem.go:104-104 | Reading n little-endian bytes back gives the number if and only if it fits into them. |
| NulStrings.ReadsNonEmpty | scheduler/plugin/cstring.go:3-20 | The host recovers the non-empty strings, in order, if and only if no string contains a NUL; it makes no difference whether the producer dropped the empty ones. |
| NulStrings.KeepsAllStrings | guest/klog/internal/klog.go:102-138 | No string is lost if and only if none is empty. |
| NulStrings.KeepsPairing | guest/klog/internal/klog.go:110-136 | Of a log message the host reads exactly the pairs of a non-empty key and a non-empty value, in order, if and only if every pair is complete or empty; a last key without a value has to be empty. |
| NulStrings.DropsWholePairs | scheduler/plugin/cstring.go:10-12 | The same of dropping the empty strings alone, for all strings. |
| NulStrings.PairingCanBreak | scheduler/plugin/cstring.go:10-12 | Two keys with empty values are read as one key with its value. |
| NulStrings.FieldsOfTerminated | scheduler/plugin/cstring.go:3-20 | Cutting terminated strings at the NULs gives them back, empty ones included. |
| NulStrings.SplitAtNuls | scheduler/plugin/cstring.go:3-20 | Any bytes are strings without NULs, each terminated, and a tail without a NUL. |
| NulStrings.FieldsBeforeTail | scheduler/plugin/cstring.go:8-18 | The fields of such bytes are those strings; the tail is dropped. |
| NulStrings.FromNulTerminated | scheduler/plugin/cstring.go:3-20 | On arbitrary bytes: cut at each NUL, drop the unterminated tail, drop empty fields. |
| NulStrings.ToNulTerminated | guest/internal/prefilter/cstring.go:19-43 | The non-empty strings, each with a NUL, in a slice of exactly that size; for a list of empty strings only, the slice is empty but not nil. |
| NulStrings.LogBuffer.LogKVs | guest/klog/internal/klog.go:102-138 | All strings, empty ones included, each with a NUL, whatever the buffer held before; a panic exactly if one contains a NUL. |
| ClusterEvents.ResourcesAreInjective | scheduler/plugin/clusterevent.go:44-63 | No two of the 2^32 kinds, named or numbered, get the same resource. |
| ClusterEvents.ResourceNames | scheduler/plugin/clusterevent.go:30-63 | The resource of each known kind, by its number on the wire; every other number is given in decimal. |
| ClusterEvents.DecodesEncoded | scheduler/plugin/clusterevent.go:69-77 | For every list and every tail of fewer than eight bytes, the host reads the list with each resource mapped. |
| ClusterEvents.EventsOfInput | scheduler/plugin/clusterevent.go:69-77 | Any bytes are such a list and such a tail. |
| ClusterEvents.AtoiOfItoa | scheduler/plugin/clusterevent.go:48-48 | The decimal form of a number determines the number. |
| ClusterEvents.PutEvent | guest/enqueue/clusterevent.go:36-47 | The eight stores write one event in little-endian order and nothing else. |
| ClusterEvents.EncodeClusterEvents | guest/enqueue/clusterevent.go:25-50 | The events back to back; nil for an empty list. |
| ClusterEvents.DecodeClusterEvents | scheduler/plugin/clusterevent.go:69-77 | The loop reads one event for each complete group of eight bytes, on arbitrary bytes. |
| NodeScores.RoundTripPermutes | scheduler/plugin/host.go:537-555 | For every iteration order, list to map to list is a permutation if and only if the names are pairwise distinct, and has the same length if and only if they are. |
| NodeScores.NodeScoreListToMap | scheduler/plugin/host.go:537-543 | The loop gives the map in which the last score of a name wins. |
| NodeScores.LastScoreWins | scheduler/plugin/host.go:539-541 | Of the scores of one name, the last one counts. |
| NodeScores.MapToNodeScoreList | scheduler/plugin/host.go:546-555 | Each entry once, in any order. |
| NodeScores.NormalizeScore | scheduler/plugin/plugin.go:328-349 | The scores after the copy-back, and exactly when the size check panics: a failed call, a missing or empty result and a result of another size included. Their names are the same, in whatever order, if and only if the scores stay or the names are distinct and the result has exactly those. |
| NodeScores.CopyBackKeepsNames | scheduler/plugin/plugin.go:341-347 | A listing of a result has the names of the scores if and only if these are distinct and the result has exactly those. |
| NodeScores.SizesSayLittle | scheduler/plugin/plugin.go:341-343 | A result of the same size with another name passes the size check and replaces the name. |
| NodeCaches.NodeInfo.LazyNode | guest/internal/prefilter/types.go:209-222 | The host is asked only while no node is stored; a failed answer is not stored. |
| NodeCaches.Cycle.PreFilter | guest/internal/prefilter/prefilter_exports.go:48-53 | A cycle begins with nothing remembered, whatever the last one left. |
| NodeCaches.Cycle.LazyPod | guest/internal/prefilter/types.go:83-94 | The pod, what is remembered of it and whether the host was asked are as in the cycle as a value. |
| NodeCaches.Cycle.Get | guest/internal/prefilter/types.go:106-130 | Before a list was obtained: the one object of that name, created at the first call. Afterwards: nothing for any name but the empty one. Infos obtained before keep their objects. |
| NodeCaches.Cycle.NodeOf | guest/internal/prefilter/types.go:209-222 | The stored node, of a listed info always; else the host is asked, and its answer stored unless it failed. |
| NodeCaches.Cycle.List | guest/internal/prefilter/types.go:133-158 | All nodes that the host answered, in its order, as new infos without names; an empty or failed answer leaves the cache as it was. |
| NodeCaches.RunCycle | guest/internal/prefilter/types.go:80-222 | Any accesses of a plugin in one cycle, with any answers of the host: each reply, and whether the host was asked for it, is the one of the cycle as a value, and two infos are the same object exactly if they have the same reference. |
| NodeCaches.Perform | guest/internal/prefilter/types.go:80-222 | One access of such a run, on the objects obtained before. |
| NodeCaches.AsksExactlyWhenMissing | guest/internal/prefilter/types.go:83-222 | In every run the host is asked for the node of an info exactly if the info was obtained by name and has not been given its node before, and for the list or the pod exactly if it has not been delivered before in the cycle. |
| NodeCaches.DeliveredOnce | guest/internal/prefilter/types.go:106-222 | In every run, what an info, the list or the pod was given once it is given again for the rest of the cycle, without asking. |
| NodeCaches.ListIsTheAnswer | guest/internal/prefilter/types.go:133-158 | In every run, a non-empty list that the host delivered is the list for the rest of the cycle: one info per node in its order, and reading an info of it gives its node without asking. |
| NodeCaches.AnswersAreKept | guest/internal/prefilter/types.go:83-94 | So for the pod, and for the node of an info obtained by name. |
| NodeCaches.AskedReply | guest/internal/prefilter/types.go:83-222 | A reply for which the host was asked is the host's answer. |
| NodeCaches.DeliversListedNodeAgain | guest/internal/prefilter/types.go:209-222 | After a list with a node, the node is delivered once more exactly if an info of its name, which must have been obtained before the list, is read with success for the first time. |
| NodeCaches.DeliveredAtMostTwice | guest/internal/prefilter/types.go:106-222 | In every run the node of a name is delivered at most twice: once in a list and once on its own. |
| NodeCaches.ListedNodeCanBeFetchedAgain | guest/internal/prefilter/types.go:144-155 | A run in which a node that the list delivered is asked for again. |
| NodeCaches.FindsUntilListed | guest/internal/prefilter/types.go:106-158 | In every run a name gives its own info if and only if no list has been delivered; from then on only the empty name gives an info, the first of the list. |
| NodeCaches.MemoryIsDelivered | guest/internal/prefilter/types.go:100-158 | The memory of a run holds exactly what has been delivered. |
| NodeCaches.RunExtends | guest/internal/prefilter/types.go:100-158 | Within a cycle, nothing that is remembered is forgotten or changed. |
| ImageLocality.CalculatePriority | examples/imagelocality/image_locality.go:41-50 | With containers: the percentage, rounded down, of the span between the thresholds that the sum has reached, within 0..100. Without: 0 below the lower threshold, 100 otherwise. |
| ImageLocality.ShareIsMonotone | examples/imagelocality/image_locality.go:41-50 | The priority is monotone in the sum, and 100 exactly from the upper threshold on. |
| ImageLocality.SumImageScores | examples/imagelocality/image_locality.go:55-68 | The sum over init containers and containers of the scores of the images that are known under their normalized names. |
| ImageLocality.Score | examples/imagelocality/image_locality.go:26-37 | 0 and an error if the nodes cannot be listed; else 0 for a pod without containers, and between 0 and 100 for every other one. |
| ImageLocality.NormalizedHasTag | examples/imagelocality/image_locality.go:84-89 | A name with a colon after its last slash is unchanged, any other gets exactly the tag latest; normalizing again changes nothing. |
| ImageLocality.TotalOfParts | examples/imagelocality/image_locality.go:55-68 | The sum has one score for each occurrence of a known image, wherever it stands. |

## Left out

- 32-bit `int`: the guest is compiled with one; the overflow checks then wrap at 2^31, and the decoder's laws hold for inputs and announced lengths below that.
- Slices as references: byte fields are values, so that two fields sharing a backing array, the reuse of the capacity of `Raw` when it is decoded again, and callers that change a returned slice are not modelled.
- nil and empty: a nil map, list or unknown-field slice is not told from an empty one (optional fields are); the nil receivers of `MarshalVT` and `SizeVT` occur only as elements of a list.
- Codecs.NextTag: the generated loops contain these steps inline; the model factors tag, slice, payload and unknown record into methods of their own, with the same order of checks. Fields of repeated and nested messages are likewise written by methods of their own (`PutOptChunk`, `PutLabels`, `PutTypeMeta`).
- Error texts: each kind of failure is one value; the message and field names in its text are left out.
- Codecs.DecodeUnknown: unknown fields must be complete unknown records, as decoding leaves them (`UnknownPreserves`, `SelectorPreserves`); a caller who stores other bytes there gets them written as they are.
- Meanings.SelectorMeaning: entries whose strings overrun or have another wire type than 2 are covered field by field, by `EntryFieldExactly` and `TextIsRead`, and nested messages by `RequirementMeaning`; which such inputs are accepted is `SelectorAccepts`.
- LabelSelectors.SelectorStable: inputs above 2^31 bytes are covered by `SelectorStableIfFits`, which asks that the new encoding fits into a slice; overrunning entries can make it quadratically longer.
- Codecs.ConcatIsMerge: instances are spelled out for `Unknown` and `LabelSelector`; the other messages satisfy its two premises by their `Laws` lemmas.
- The other generated messages, their getters, zigzag integers, JSON and the gogo codec of the host: the same patterns, or library code. `WriteIfUnderLimit` stands for both host writers, with the bytes the marshaller would produce.
- Strings and label keys are byte strings; UTF-8 is not checked by the code either.
- GuestPools.NextConserves: a function that panics inside the pool, re-enters it, or a `newGuest` that returns an existing guest is excluded; a panic of `getForBinding` changes nothing and the run may go on.
- WasmPlugins.CycleRunsOnOneGuest: it needs the guest to take part in Permit; without it, the first binding call comes after other pods may have been scheduled, and `IntruderTakesGuest` applies. It says nothing about the call of Unreserve.
- Release of every binding: not a property of the code, since PostBind may not release and Unreserve may never be called.
- WasmPlugins.WasmPlugin.RunScheduling: the results of the guest's functions, statuses and the panic of EventsToRegister on a failed creation are left out; the model says on which guest a function runs.
- The mutex: operations are atomic; what runs outside the lock is in `World`.
- GuestMemory.ReadBuffer.Update: addresses, garbage collection and memory growth are replaced by buffer objects; a guest that offers a buffer outside its memory is excluded. The host's value is the same in both calls.
- NulStrings.LogBuffer.LogKVs: values are given as formatted; the result shares the buffer of the logger, so it is valid until the next call.
- NodeScores.NormalizeScore: the JSON form of the map and the bounds of the guest's own integers.
- NodeCaches.RunCycle: infos kept from an earlier cycle; image states, cycle state and the pod's accessors, which repeat the pattern; the returned list shares its backing array with the cache.
- ImageLocality.CalculatePriority: the floating-point scaling of one image's score, which is any non-negative number here, and sums or products beyond 64 bits.
- wazero, host function registration, configuration, command line, URL loading, interface detection, event recorder, log severities, the nodenumber examples.
- The order of normalized scores: the host promises none.
