# archiv-agent: a verified model

`archiv-agent` is a proxy for OTLP logs. It walks each protobuf request without decoding it,
decides which records to keep and which bytes of their strings to mask, re-encodes the request
around those decisions, and delivers it, or holds it in a crash-safe spool until it can. This
project models that in Dafny and proves that it keeps what it promises.

Files, in the order in which they build on each other:

- `prelude.dfy`, `varint.dfy`, `wire.dfy`, `cursor.dfy`: bytes, base-128 varints, a message
  window as a list of fields (`Wire.Fields`), and the bounds-checked cursor that walks it.
  Wire format: the Protocol Buffers Encoding guide, sections "Base 128 Varints", "Message
  Structure", "Length-Delimited Records" and "Last One Wins".
- `wiretypes.dfy`: fields as a writer writes them, by wire type, and what the walk makes of them.
- `otlp.dfy`, `parser.dfy`: what each OTLP message denotes, as folds over its fields
  (`Otlp.Parse`), and the parser's loops, each proved equal to its fold.
- `envelope.dfy`, `spans.dfy`, `govern.dfy`: decisions, span selection and splicing, and the
  governed request defined field by field (`Govern.AssembleSpec`), the reference against which
  the exporter is proved.
- `segments.dfy`, `assemble.dfy`, `emission.dfy`: the exporter's segment tree, build loops and
  chunked emission, proved to produce exactly the governed bytes.
- `meaning.dfy`, `content.dfy`, `containers.dfy`, `preservation.dfy`: what governing does to the
  records that parse: the main theorem `Preservation.MeaningPreserved`, and when assembly
  succeeds.
- `frame.dfy`, `stuck.dfy`: what assembly leaves alone, at every depth of the output; a request
  that parses and cannot be assembled.
- `ranges.dfy`, `order.dfy`, `errors.dfy`, `schema.dfy`: every range stays in its window; field
  order does not matter; where errors point; and a request written by the OTLP schema
  (opentelemetry-proto, `logs.proto`, `common.proto` and `resource.proto`, v1) parses back.
- `glob.dfy`, `lint.dfy`, `redact.dfy`, `sampling.dfy`: the wildcard matcher, the pattern lint,
  rule compilation and span emission, and the sampling verdict within and across hops.
- `masking.dfy`: what redaction comes to in the output, in terms of rules, matches and masks.
- `breaker.dfy`, `spoolname.dfy`, `spool.dfy`, `metrics.dfy`, `fingerprint.dfy`: the circuit
  breaker, the spool protocol, the counters, and the policy fingerprint's byte stream.
- `pipeline.dfy`: one request through all stages, failing open, and the server's answer.

How to read the model:

- A range into the request is a `View`: an offset and the bytes found there. `Ranges.ParseWithin`
  shows that the two agree. Text types (`DraftText`, `RecordText`) forget the offsets.
- Loops that update variables are methods with loops; each is proved against a function, and the
  lemmas are about the functions. The arms of the export loops are methods of their own.
- Errors carry the offsets the code reports, so agreement includes them.
- `usize` is 64 bits wide. Bit operations on varints are arithmetic on disjoint 7-bit groups. A
  field number is the tag's upper bits truncated to 32, as in the code. The one size hypothesis,
  that an output is shorter than 2^64 bytes, is that of any buffer in memory.
- Missing body strings, empty ranges in the code, are `None`. Spans are never inverted, because
  they come from matches. The standard library's stable sort is an insertion sort.
- The regex engine (`accepts`, `find`), the 64-bit hash and the outcomes of forwarding and of
  file operations are parameters or nondeterministic steps.

Where the code and its documentation differ, the model follows the code:

- `README.md:158` speaks of oldest-first eviction; `src/spool.rs:146` never evicts, a full spool
  refuses.
- `src/pipeline.rs:9-11` and `crates/archiv-ingest/src/lib.rs:16-19` say that a malformed payload
  is forwarded untouched. The pipeline does hand it back, but `src/server.rs:137-139` answers
  Malformed before forwarding anything.
- `crates/archiv-redact/src/lib.rs:204-206` says a faulty rule bypasses redaction for that record;
  the guard clears the stage's spans for the whole request (`crates/archiv-pipeline/src/guard.rs:53-60`).
- "Every matched byte is masked" does not hold of every request: a span that overlaps an earlier
  selected one is discarded whole (`crates/archiv-export/src/lib.rs:210-212`). When rules match
  `[0, 2)` and `[0, 5)` of a string, bytes 2 to 4 stay readable (`Spans.TailStays`).
  `Redact.EveryMatchedByteIsMasked` says exactly when it holds; it does whenever matches nest or
  are disjoint, as those of one pattern are. What always holds is `Redact.EveryMatchIsCovered`,
  and `Masking.OutputIsMasked` says what each string of the output is.
- The glob tests the literal branch before the star, so the pattern `*` rejects the key `*abc`;
  `Glob.FaithfulKeys` says exactly for which keys the matcher is right.
- `any_value_string` stops at the first string while assembly walks on, so assembly can fail on a
  request that parsed: `Stuck.ParsesButSticks` is such a request, and
  `Preservation.OnlyWireErrors` says exactly when it happens.

## Model

| member | source | states |
|---|---|---|
| `Varint.DecodeEncode` | crates/archiv-ingest/src/otlp.rs:73-88 | for every u64 and whatever bytes follow, the cursor decodes `put_varint`'s encoding back to the same value and consumes exactly its bytes |
| `Varint.EncodedLengthExact` | crates/archiv-export/src/lib.rs:161-163 | the leading-zeros formula is the number of bytes `put_varint` writes, for every value |
| `Varint.HeaderLengthExact` | crates/archiv-export/src/lib.rs:165-167 | a header's computed length is the number of bytes its tag and length prefix take |
| `Varint.DecodeStable` | crates/archiv-ingest/src/otlp.rs:73-88 | a varint decodes the same in any window that agrees on its bytes, at any position; only error offsets move |
| `Varint.AccumulateLow` | crates/archiv-ingest/src/otlp.rs:77-86 | or-ing seven bits in at the current shift is exact below the tenth byte: no bit of the value is lost or carried |
| `Varint.AccumulateTop` | crates/archiv-ingest/src/otlp.rs:77-86 | at the tenth byte the shift truncates to 64 bits, as the value modulo 2^64 |
| `Varint.EncodedByte` | crates/archiv-export/src/lib.rs:536-546 | the i-th byte written holds the i-th lowest seven bits, and all but the last have their high bit set |
| `Wire.WalkFaithful` | crates/archiv-ingest/src/otlp.rs:98-148 | walking any bytes loses none of them: the fields and the bytes that do not walk concatenate to the input, and every field reads back from its own bytes |
| `Wire.Rewalk` | crates/archiv-ingest/src/otlp.rs:98-148 | any list of sound fields, written one after the other, walks back to exactly that list |
| `Wire.NextFieldStable` | crates/archiv-ingest/src/otlp.rs:98-148 | a field is cut the same out of any window that agrees on its bytes, at any position |
| `Wire.CanonicalSound` | crates/archiv-export/src/lib.rs:514-519 | a field written with a recomputed header is read back with the same number and payload |
| `WireTypes.WiredReads` | crates/archiv-ingest/src/otlp.rs:98-148 | whatever the field number and whatever follows: a tag and a varint, eight bytes, a length-prefixed payload or four bytes are read as the field they were written as |
| `WireTypes.ShortReads` | crates/archiv-ingest/src/otlp.rs:101-147 | one byte too few or more: fixed-width payloads are Truncated where they start, a prefixed one overruns at its prefix, and wire types 3, 4, 6 and 7 are refused, each with its offset |
| `WireTypes.VarintEnds` | crates/archiv-ingest/src/otlp.rs:73-88 | a varint ends at its first byte below 128 if that is among the first ten; otherwise it overflows, or is truncated at the end of the window |
| `WireTypes.MessageWalks` | crates/archiv-ingest/src/otlp.rs:98-148 | a message written field by field walks to exactly those fields |
| `Cursor.WireCursor.Byte` | crates/archiv-ingest/src/otlp.rs:64-71 | next byte of the window or Truncated at its end; never an index outside the buffer |
| `Cursor.WireCursor.ReadVarint` | crates/archiv-ingest/src/otlp.rs:73-88 | the decoding of the rest of the window, overflow and truncation errors with their offsets, and the position after it |
| `Cursor.WireCursor.ReadTag` | crates/archiv-ingest/src/otlp.rs:96-99 | a field number (low 32 bits) and wire type are read, or the walk is stuck here with this very error |
| `Cursor.WireCursor.LengthRange` | crates/archiv-ingest/src/otlp.rs:102-115 | a range is returned only when it ends inside the window, and the cursor stands after it |
| `Cursor.WireCursor.ReadRange` | crates/archiv-ingest/src/otlp.rs:102-115 | after a tag of wire type 2: the payload of the walk's next field, or the error that stops the walk |
| `Cursor.WireCursor.Skip` | crates/archiv-ingest/src/otlp.rs:129-147 | after any other tag: the cursor moves to the walk's following field, or the error that stops the walk |
| `Cursor.WireCursor.ReadNumber` | crates/archiv-ingest/src/otlp.rs:279-282 | after a tag of wire type 0: the varint payload of the walk's next field |
| `Parser.ParseAnyValue` | crates/archiv-ingest/src/otlp.rs:313-323 | first string of an AnyValue; bytes after it are not looked at |
| `Parser.ParseKeyValue` | crates/archiv-ingest/src/otlp.rs:327-347 | last key and last value, and an attribute only when the last value is a string |
| `Parser.ReadDraftField` | crates/archiv-ingest/src/otlp.rs:277-301 | one LogRecord field folded onto the draft: severity as i32, last string body, attributes in order, trace id of 16 or 32 bytes |
| `Parser.ParseRecord` | crates/archiv-ingest/src/otlp.rs:258-310 | the fold of a LogRecord's fields, with the Resource strings it was given |
| `Parser.ParseScope` | crates/archiv-ingest/src/otlp.rs:238-256 | one record per LogRecord field, in order |
| `Parser.ParseResourceAttrs` | crates/archiv-ingest/src/otlp.rs:211-236 | the last string values of the two attributes looked for |
| `Parser.ParseResourceLogs` | crates/archiv-ingest/src/otlp.rs:169-198 | two passes: every ScopeLogs sees the last Resource, wherever it stands |
| `Parser.ParseRequest` | crates/archiv-ingest/src/otlp.rs:152-167 | on arbitrary bytes: terminates in bounds, with exactly the records, or the error and offset, of the reference parse |
| `Schema.SchemaRoundTrip` | crates/archiv-ingest/src/otlp.rs:1-347 | a request written by the OTLP schema, its messages having any parts in any order, left out or repeated, parses, and the records found say what was written: last string body, string attributes with their last keys and values, last trace id of 16 or 32 bytes, last severity, and the last namespace and service name of the last Resource |
| `Schema.RecordReads` | crates/archiv-ingest/src/otlp.rs:258-310 | the fields of a written LogRecord read as its text, wherever they stand |
| `Schema.AttributeRead` | crates/archiv-ingest/src/otlp.rs:325-347 | a written KeyValue reads as its last key with the first string of its last value, or as no attribute |
| `Errors.ErrorsPointIntoTheRequest` | crates/archiv-ingest/src/otlp.rs:58-347 | a request that does not parse holds a stretch from which no field can be read; the error is that of reading there, and its offset a position in that stretch counted from the front of the request |
| `Ranges.ParseWithin` | crates/archiv-ingest/src/otlp.rs:152-347 | every emitted range lies in the window of its own LogRecord (Resource strings: in the request) and denotes the bytes there; the strings of a record never touch |
| `Ranges.DraftApart` | crates/archiv-ingest/src/otlp.rs:274-301 | the body and the attribute values of a record share no byte: a header stands between any two |
| `Ranges.GroupAligned` | crates/archiv-ingest/src/otlp.rs:169-236 | the Resource strings of every record lie inside the ResourceLogs window that holds the record |
| `Order.FieldOrderIndependence` | crates/archiv-ingest/src/otlp.rs:169-198 | Resource and ScopeLogs fields may be interleaved in any way that keeps each kind's order: the same records parse, namespace and service name included |
| `Order.ParseReordered` | crates/archiv-ingest/src/otlp.rs:152-198 | the same for whole requests, all of whose ResourceLogs may be rearranged |
| `Order.GroupProjects` | crates/archiv-ingest/src/otlp.rs:181-194 | the first pass succeeds exactly when the window walks and every Resource reads; it keeps the last Resource and the scope windows in order |
| `Order.DraftMoved` | crates/archiv-ingest/src/otlp.rs:258-310 | a record parses to the same text at any offset |
| `Envelope.Decisions.SetSampling` | crates/archiv-pipeline/src/envelope.rs:135-138 | replaces the verdicts, nothing else |
| `Envelope.Decisions.PushRedaction` | crates/archiv-pipeline/src/envelope.rs:149-155 | appends one labelled span, nothing else |
| `Envelope.Decisions.ClearStage` | crates/archiv-pipeline/src/envelope.rs:176-181 | keeps the other stages' spans in order, and drops the verdicts when it is the sampling stage |
| `Envelope.WithoutStageMeaning` | crates/archiv-pipeline/src/envelope.rs:176-177 | a span survives the clearing of a stage if and only if another stage pushed it |
| `Envelope.BypassUndoes` | crates/archiv-pipeline/src/envelope.rs:176-181 | clearing a stage undoes whatever it had pushed: earlier stages' spans survive in order |
| `Assemble.EffectiveSpans` | crates/archiv-export/src/lib.rs:194-217 | the loop computes the selection: inside the window, sorted, greedily disjoint |
| `Spans.SelectionMeaning` | crates/archiv-export/src/lib.rs:194-217 | for any spans: the selected ones are disjoint, in order, inside the window and among those given, and every candidate left out starts inside a selected one |
| `Spans.SelectionExact` | crates/archiv-export/src/lib.rs:205-216 | span by span: of the candidates that hold a byte and start where the previous selected one ends or later, the next selected is the one that starts first and then ends first, and none only when none is left; of equal stretches it is the one pushed first |
| `Spans.SortStable` | crates/archiv-export/src/lib.rs:205 | spans of one stretch keep the order they were pushed in |
| `Spans.SpliceMeaning` | crates/archiv-export/src/lib.rs:220-248 | the same gaps, in the same order, hold the original stretches apart in the raw string and the masks the spans point at apart in the splice |
| `Spans.MaskedExactly` | crates/archiv-export/src/lib.rs:205-216 | every byte of every span in a window lies in a selected one if and only if one pass over the sorted spans finds no discarded one reaching past the selected ones into a gap |
| `Spans.NestedMasked` | crates/archiv-export/src/lib.rs:208-216 | spans that nest are masked to the last byte |
| `Spans.TailStays` | crates/archiv-export/src/lib.rs:210-212 | a second span that starts inside the first and ends beyond it is discarded, and its tail stays readable |
| `Spans.SortSorted` | crates/archiv-export/src/lib.rs:205 | the sort orders spans by start, then end (its function contract adds that it permutes) |
| `Assemble.BuildScalar` | crates/archiv-export/src/lib.rs:220-248 | nothing when no span takes effect, the unknown mask when there is one, and otherwise a scalar of the exact size that emits the splice |
| `Assemble.BuildAnyValue` | crates/archiv-export/src/lib.rs:251-287 | unchanged, rebuilt or failed exactly as governing the AnyValue's fields says, and what it emits is the governed bytes |
| `Assemble.BuildKeyValue` | crates/archiv-export/src/lib.rs:290-331 | the same for a KeyValue, whose value alone may change |
| `Assemble.BuildRecord` | crates/archiv-export/src/lib.rs:334-388 | a dropped record is omitted before it is walked; a kept one emits its governed fields |
| `Assemble.BuildContainer` | crates/archiv-export/src/lib.rs:392-454 | at each of the three levels: the governed fields, or the very error that stops them, and on success the record index advanced by the number of records walked |
| `Assemble.BuildRequest` | crates/archiv-export/src/lib.rs:463-476 | the emission of the segment tree is the governed request |
| `Segments.SegsLengthExact` | crates/archiv-export/src/lib.rs:169-180 | at every depth, the size computed when a segment is built is the number of bytes emission writes for it |
| `Segments.OmitDone` | crates/archiv-export/src/lib.rs:422-428 | leaving a child out keeps exactly the bytes before it and after it |
| `Segments.ReplaceDone` | crates/archiv-export/src/lib.rs:429-441 | replacing a child keeps the verbatim run before it and puts the new segment in its place |
| `Emission.Assembler.PutVarint` | crates/archiv-export/src/lib.rs:536-546 | appends exactly the encoding of the value to the scratch, low seven bits first |
| `Emission.Assembler.PushHeader` | crates/archiv-export/src/lib.rs:515-519 | writes the canonical header, and the running length stays that of what was written |
| `Emission.Assembler.PushRaw` | crates/archiv-export/src/lib.rs:505-512 | writes that range of the original, after any header waiting in the scratch |
| `Emission.Assembler.EmitSegs` | crates/archiv-export/src/lib.rs:548-573 | depth-first emission writes the tree's bytes, whatever the chunking |
| `Emission.Assembler.Finish` | crates/archiv-export/src/lib.rs:527-533 | the payload's chunks hold everything written and its `len` is the sum of their lengths |
| `Emission.Contiguous` | crates/archiv-export/src/lib.rs:102-108 | the contiguous copy is the concatenation of the chunks |
| `Emission.AssembleRequest` | crates/archiv-export/src/lib.rs:111-131 | fast path, full walk, count check and emission together answer the reference transformation, error for error, with an exact `len` |
| `Preservation.MeaningPreserved` | crates/archiv-export/src/lib.rs:111-131 | for every buffer that parses, every verdict vector and every list of spans: if assembly succeeds, its output parses, to exactly the kept records in order, body and attribute strings spliced, trace id, severity, keys, namespace and service unchanged |
| `Preservation.FastPathIsTheFullWalk` | crates/archiv-export/src/lib.rs:111-117 | with no decisions, the identity fast path equals the full walk whenever that walk succeeds |
| `Preservation.AssemblySucceeds` | crates/archiv-export/src/lib.rs:251-287 | both traversals count the same records, and assembly succeeds if and only if every AnyValue of every kept record walks to its end and asks only for known masks |
| `Preservation.OnlyWireErrors` | crates/archiv-export/src/lib.rs:119-126 | with masks from the same engine: never a count mismatch, never an unknown mask; fails exactly over a kept record with an AnyValue that does not walk to its end |
| `Preservation.RecordValuesRead` | crates/archiv-ingest/src/otlp.rs:313-323 | what parsing has established of those AnyValues: each walks, at least up to its first string |
| `Preservation.AnyStuckAfterString` | crates/archiv-ingest/src/otlp.rs:317-319 | an AnyValue that parsed and does not walk to its end has a string before the bytes that do not walk |
| `Frame.OutputFramed` | crates/archiv-export/src/lib.rs:111-131 | whatever assembly answers, read back at every depth: a log record is gone exactly when its verdict is Drop, every string of every body and attribute reads its splice, and every other field of every message is in its place byte for byte; a field nothing takes effect in keeps its very bytes |
| `Frame.ContainerFrame` | crates/archiv-export/src/lib.rs:392-454 | the same for one container, from any level down, with its own record numbers |
| `Frame.OmittedMeansDropped` | crates/archiv-export/src/lib.rs:341-343 | a child is left out if and only if it is a log record whose verdict is Drop |
| `Frame.RecordFrame` | crates/archiv-export/src/lib.rs:350-387 | read back from the output, only the body and attribute fields of a record differ, and they are framed in turn |
| `Frame.PairFrame` | crates/archiv-export/src/lib.rs:302-330 | read back, only the value field of an attribute differs, and it is framed in turn |
| `Frame.AnyFrame` | crates/archiv-export/src/lib.rs:263-286 | every string of an AnyValue, not only the first, reads its splice; every other field is as it was |
| `Stuck.ParsesButSticks` | crates/archiv-ingest/src/otlp.rs:313-323 | a witness: an eleven-byte request that parses to one record, and on which assembly fails with a wire error under every decision that keeps the record, decides anything, and uses compiled masks |
| `Containers.RequestCount` | crates/archiv-export/src/lib.rs:119-126 | a buffer that parses to n records is walked as n records |
| `Containers.RequestContent` | crates/archiv-export/src/lib.rs:463-476 | the governed fields of a request parse to the kept records, wherever they stand |
| `Content.RecordContent` | crates/archiv-export/src/lib.rs:334-388 | the governed fields of a record parse to its masked text |
| `Content.AnyContent` | crates/archiv-export/src/lib.rs:251-287 | the governed fields of an AnyValue parse to its first string, spliced |
| `Meaning.ChildEnclosed` | crates/archiv-export/src/lib.rs:429-441 | the payload of a re-encoded message walks to exactly its governed fields: every recomputed length prefix is right |
| `Redact.Compile` | crates/archiv-redact/src/lib.rs:129-186 | an engine exactly when every rule passes the three checks in order and the set is accepted; otherwise the first offending rule is named, with its first offence |
| `Redact.SpecFineExactly` | crates/archiv-redact/src/lib.rs:133-160 | a rule with a well-formed pattern passes if and only if it names a field, its pattern nests no unbounded repetition, and the regex engine takes it |
| `Redact.CompileMasks` | crates/archiv-redact/src/lib.rs:163-179 | every rule keeps its place, its id is its own mask's index cut to 32 bits, no mask stands twice and every one is a rule's |
| `Redact.MasksFaithful` | crates/archiv-redact/src/lib.rs:165-170 | every rule's id finds its own mask if and only if there are no more distinct masks than 32 bits can number |
| `Redact.AppliesMeaning` | crates/archiv-redact/src/lib.rs:104-113 | a rule applies to the body if and only if Body is among its fields, and to an attribute if and only if one of its key patterns matches the key (for keys with no star before the last character; for others, only if) |
| `Redact.AppliesTo` | crates/archiv-redact/src/lib.rs:104-113 | the loop over the fields answers what the rule's fields say of a body, and of every key with no star before its last character |
| `Redact.RedactStage.RedactRule` | crates/archiv-redact/src/lib.rs:253-265 | one span per match, at the match's place in the request, and the rule's own counter bumped once per match |
| `Redact.RedactStage.RedactField` | crates/archiv-redact/src/lib.rs:235-267 | exactly the matches of the applicable rules, in rule order; an empty field adds nothing; counters grow by what was pushed |
| `Redact.RedactStage.Apply` | crates/archiv-redact/src/lib.rs:275-296 | exactly the spans of every record's body and attribute values are appended; sampling untouched |
| `Redact.StageSpansMeaning` | crates/archiv-redact/src/lib.rs:275-296 | a span is emitted if and only if it is a match of an applicable rule in a string of that record |
| `Redact.BodySpans` | crates/archiv-redact/src/lib.rs:249-265 | in a body, a span with a given mask is emitted if and only if it is a match of a rule with that mask that lists Body among its fields |
| `Redact.ValueSpans` | crates/archiv-redact/src/lib.rs:249-265 | in an attribute value, if and only if it is a match of a rule with that mask one of whose key patterns matches the key |
| `Redact.EveryMatchIsCovered` | crates/archiv-export/src/lib.rs:194-217 | every match of a rule in a string its fields select is replaced whole, by that stretch and mask, or starts inside a replaced span: its first byte is never readable |
| `Redact.EveryMatchedByteIsMasked` | crates/archiv-export/src/lib.rs:194-217 | on a parsed request, every byte that any rule matches in a string is masked if and only if the one-pass condition holds of the string's matches |
| `Redact.NestedMatchesAreMasked` | crates/archiv-export/src/lib.rs:208-216 | when no match of a string starts inside another and ends outside it, every matched byte is masked |
| `Redact.DisjointMatchesAreMasked` | crates/archiv-export/src/lib.rs:208-216 | so it is when the matches are pairwise disjoint |
| `Redact.OnePatternIsMasked` | crates/archiv-redact/src/lib.rs:253-264 | and whenever all the rules that apply to the string share one pattern, given that the engine's matches of one pattern do not overlap |
| `Redact.StageMasksCompiled` | crates/archiv-redact/src/lib.rs:163-179 | the stage's spans only use masks of the engine its rules were compiled in |
| `Redact.StageSpansInside` | crates/archiv-redact/src/lib.rs:275-296 | every span of the stage lies inside its own record's window |
| `Masking.OutputIsMasked` | crates/archiv-export/src/lib.rs:194-248 | end to end: each record of the output is a kept record of the input, and its body and every attribute value are the originals with stretches their rules match replaced by those rules' own masks: leftmost match first, then the shortest, then the first rule; every match is replaced or starts in a replaced stretch |
| `Masking.StringMasked` | crates/archiv-export/src/lib.rs:220-248 | the same for one string of one record |
| `Masking.SpliceRewrites` | crates/archiv-export/src/lib.rs:234-236 | splicing masks in by id is rewriting the stretches by the masks of the rules that pushed them |
| `Masking.SelectedStandsFor` | crates/archiv-export/src/lib.rs:205-216 | a selected span that holds a byte carries the mask of the first rule, in the order configured, that matches that stretch |
| `Lint.CheckNestedRepetition` | crates/archiv-redact/src/lint.rs:14-74 | the index-and-stack scanner decides the same as the scan of the remaining pattern |
| `Lint.BraceQuantifier` | crates/archiv-redact/src/lint.rs:88-102 | the loop's answer on a brace: its length, and unbounded when the last thing before `}` is a comma |
| `Lint.LintIsExact` | crates/archiv-redact/src/lint.rs:12-74 | on the printed form of any pattern tree the lint errs exactly when an unbounded quantifier applies to a group that, at any depth, contains one |
| `Lint.ScanPrinted` | crates/archiv-redact/src/lint.rs:21-73 | scanning a printed subpattern leaves the frame stack with exactly its own repetition folded in |
| `Lint.Symbols` | crates/archiv-redact/src/lint.rs:21-102 | the characters the scan gives a meaning to |
| `Glob.MatchGlob` | crates/archiv-redact/src/glob.rs:6-30 | the two-pointer loop with one remembered star terminates and answers the recursive scan |
| `Glob.MatcherIsSound` | crates/archiv-redact/src/glob.rs:6-30 | it accepts only what the declarative wildcard relation accepts, for every pattern and key |
| `Glob.Asterisk` | crates/archiv-redact/src/glob.rs:1-30 | a pattern with one asterisk matches exactly the keys that begin with what stands before it and end with what stands after it, without overlap |
| `Glob.ScanComplete` | crates/archiv-redact/src/glob.rs:6-30 | it accepts everything that relation accepts when no byte of the key before its last is a `*` |
| `Glob.FaithfulKeys` | crates/archiv-sampling/src/policy.rs:96-118 | a key is judged rightly under every pattern if and only if no byte before its last is a literal `*` |
| `Sampling.DecodeHex16` | crates/archiv-pipeline/src/envelope.rs:77-94 | 32 hex digits of either case give the 16 bytes they spell; anything else gives none, and spells none |
| `Sampling.SpelledOnce` | crates/archiv-pipeline/src/envelope.rs:77-94 | a hex string spells at most one id |
| `Sampling.HexIsWritten` | crates/archiv-pipeline/src/envelope.rs:77-94 | a hex string spells an id if and only if it is the id written out with the digits 0-9, a-f or A-F, two a byte |
| `Sampling.TraceIdBytes` | crates/archiv-pipeline/src/envelope.rs:49-61 | the id a trace-id field denotes, binary or hex; none exactly when it denotes none |
| `Sampling.DenotesOnce` | crates/archiv-pipeline/src/envelope.rs:49-61 | a trace-id field denotes at most one id |
| `Sampling.RuleMatchesRecord` | crates/archiv-sampling/src/policy.rs:57-74 | the early-return checks answer whether a present severity is at most the bound and a present namespace matches the pattern, for every namespace with no star before its last character; an absent value fails a specified condition |
| `Sampling.Resolve` | crates/archiv-sampling/src/policy.rs:43-50 | the target of the first matching rule, else the default |
| `Sampling.ResolvesOnce` | crates/archiv-sampling/src/policy.rs:43-50 | first match wins: a policy gives a record at most one target |
| `Sampling.TargetDecided` | crates/archiv-sampling/src/policy.rs:43-74 | the target is that of the first rule whose namespace pattern matches a present namespace and whose bound is at least a present severity, an unspecified condition holding, and every earlier rule fails one of the two; else the default (for namespaces with no star before the last character) |
| `Sampling.SampleVerdict` | src/pipeline.rs:196-218 | Keep iff the hash of the record's key, modulo 100, is below its resolved target; the key is the decoded id, else service, NUL, body |
| `Sampling.VerdictDecided` | src/pipeline.rs:196-218 | for the target resolved: a record with 16 bytes of trace id, or with their 32 hex digits written out in any cases, is kept exactly when the id's hash modulo 100 is below it; one without a trace id, when that of service, NUL, body is |
| `Sampling.HexAndBinaryAgree` | crates/archiv-pipeline/src/envelope.rs:49-94 | a record carrying its id as 32 hex characters of either case gets the verdict of one carrying the 16 bytes |
| `Sampling.SameKeySameVerdict` | crates/archiv-sampling/src/lib.rs:31-60 | same key, namespace and severity: same verdict, on any two agents sharing the policy |
| `Sampling.VerdictSurvivesMasking` | src/pipeline.rs:196-218 | masking changes no traced record's verdict, nor an untraced one's unless its body is masked |
| `Sampling.SecondHopKeeps` | src/pipeline.rs:196-218 | after an assembly that was not bypassed, the same policy run on the output keeps every record whose trace id decodes, and every other one whose body was left as it was |
| `Breaker.CircuitBreaker.constructor` | src/breaker.rs:30-41 | a threshold of zero is raised to one; closed, with no fault counted |
| `Breaker.CircuitBreaker.AllowAt` | src/breaker.rs:59-70 | refused exactly while open within the cooldown; half-opening resets the state |
| `Breaker.CircuitBreaker.RecordFaultAt` | src/breaker.rs:74-86 | the tumbling window, the count, and true exactly for the fault that opens the breaker |
| `Breaker.TripNeedsThreshold` | src/breaker.rs:74-86 | a trip means `threshold` faults within one window's length |
| `Breaker.ClosedIsBelowThreshold` | src/breaker.rs:59-86 | a closed breaker has counted fewer faults than its threshold, in every run |
| `Breaker.HalfOpenRestarts` | src/breaker.rs:59-86 | after a half-open, what follows within one window trips the breaker again if and only if it holds `threshold` faults, whatever was counted before |
| `Breaker.FreshTrips` | src/breaker.rs:30-86 | the same from a new breaker |
| `Breaker.BurstForcesTrip` | src/breaker.rs:74-86 | from a closed state, any 2*threshold-1 faults within an interval no longer than the window force a trip |
| `Breaker.BurstBoundIsTight` | src/breaker.rs:76-79 | 2*threshold-2 of them within one unit of time need not: the window tumbles, it does not slide |
| `Breaker.TripsAlternate` | src/breaker.rs:59-86 | in every run trips and half-opens alternate, a trip first |
| `Breaker.CooldownHolds` | src/breaker.rs:61-64 | after a trip every call within the cooldown is refused, whatever happens meanwhile, and the next one is allowed |
| `SpoolName.ParseOfName` | src/spool.rs:47-54 | the 20-digit name of every u64 parses back to it |
| `SpoolName.NameForm` | src/spool.rs:134-139 | a published name is the twenty decimal digits of its number and `.otlp`; a partial one has `.tmp` after that |
| `SpoolName.NameOfParse` | src/spool.rs:47-54 | a name that parses is the name of what it parses to, which fits 64 bits |
| `SpoolName.TmpNeverParses` | src/spool.rs:96-100 | no name ending in `.tmp` is ever taken for a published file |
| `SpoolName.NamesDistinct` | src/spool.rs:134-139 | different sequences have different published and temporary names, and no published name is a temporary one |
| `SpoolName.NameOrder` | src/spool.rs:134-136 | names order as the numbers they carry |
| `Spool.SpoolState.ReserveSeq` | src/spool.rs:147-159 | taken if and only if held bytes and payload together are at most the cap: then the next sequence and the bytes booked, else Full with nothing changed and nothing evicted |
| `Spool.SpoolState.CommitSeq` | src/spool.rs:173-177 | a published payload becomes pending under its sequence |
| `Spool.SpoolState.ReleaseBytes` | src/spool.rs:178-182 | rolling back releases the reservation |
| `Spool.SpoolState.PickOldest` | src/spool.rs:188-193 | the least pending sequence, or none exactly when nothing is pending |
| `Spool.SpoolState.ForgetSeq` | src/spool.rs:210-213 | a delivered payload is forgotten once, however many drainers delivered it |
| `Spool.Recover` | src/spool.rs:84-126 | the directory scan, in any order: exactly the published files pending, their bytes, a sequence above them all, and exactly the `.tmp` files swept; it fails exactly when the listing breaks off or a published file cannot be measured |
| `Spool.StepKeeps` | src/spool.rs:143-221 | every step of every push, drainer, crash and reopen keeps the protocol's invariant |
| `Spool.NoAcceptedPayloadIsLost` | src/spool.rs:141-221 | in every interleaving with I/O failures, crashes and reopens, an accepted payload was forwarded, or is on disk with its own bytes under the sequence its push returned |
| `Spool.ReceiptsStay` | src/spool.rs:172-177 | what was accepted, under which sequence, is never withdrawn or altered by any step, crash or reopening |
| `Spool.SettledIsKept` | src/spool.rs:141-221 | from the direct delivery, or the commit of a push, on, through any later run, that very payload was forwarded or is on disk under the sequence returned |
| `Spool.PublishedFilesAreNeverOverwritten` | src/spool.rs:161-170 | no step changes a published file; one is removed only after its payload was forwarded |
| `Spool.AccountingIsExact` | src/spool.rs:143-221 | `total_bytes` is pending plus reserved, at most the larger of `max_bytes` and the bytes recovered, and neither saturating subtraction saturates, with any number of drainers |
| `Spool.FittingPushIsTaken` | src/spool.rs:147-159 | in every reachable state, a push is taken if and only if it fits beside the bytes pending and in flight |
| `Spool.FittingPushGoesThrough` | src/spool.rs:143-177 | left alone, a push that fits reaches its commit: published under the next sequence, pending with its length, accepted |
| `Spool.DrainGoesThrough` | src/spool.rs:187-221 | left alone, a drainer delivers the oldest pending payload on disk, removes it, and gives back exactly the room it took |
| `Spool.PicksAreOldestFirst` | src/spool.rs:187-221 | when a sequence is picked every earlier one recovered or committed by then has been delivered |
| `Spool.RecoveryIsExact` | src/spool.rs:84-126 | after a crash at any step, reopening finds exactly the published files, and every accepted payload not yet forwarded is pending under its own sequence |
| `Spool.DrainWaits` | src/spool.rs:242-256 | waits: none after a delivery, the idle poll when empty, else one second doubled per retry since the last delivery, at most thirty |
| `Spool.RetryWaits` | src/spool.rs:236-256 | after failures in a row the waits are 1, 2, 4, 8, 16 and from then on 30 seconds |
| `Pipelines.Guarded` | crates/archiv-pipeline/src/guard.rs:49-62 | a stage that fails, however far it got, has all the spans under its id cleared, and the verdicts when it is the sampling stage; one that succeeds keeps what it pushed |
| `Pipelines.GuardLeavesNoTrace` | crates/archiv-pipeline/src/guard.rs:44-60 | failing leaves the decisions as they were if and only if the stage pushed under no id but its own |
| `Pipelines.RedactIsAStage` | crates/archiv-redact/src/lib.rs:270-297 | the regex stage is one of the runs the guard is proved for |
| `Pipelines.SampleAll` | src/pipeline.rs:149-158 | a verdict per record under the policy; kept plus dropped is the number of records |
| `Pipelines.NoRecordsNoChange` | src/pipeline.rs:144-147 | an envelope without records is forwarded as it came, whatever a later stage decided |
| `Pipelines.Pipeline.RedactGuarded` | src/pipeline.rs:160-177 | skipped while the breaker is open, undone on failure, the breaker stepped as the code does; bypassed means no span at all |
| `Pipelines.Pipeline.AssembleOrForward` | src/pipeline.rs:181-188 | the assembled payload, or on any error the original bytes |
| `Pipelines.OutputReparses` | src/pipeline.rs:181-193 | an assembled output parses to exactly `kept` records, with no mask when redaction was bypassed |
| `Pipelines.Pipeline.Process` | src/pipeline.rs:131-194 | whatever the redaction stage does: kept + dropped = records_in, the output is the original on parse or assembly bypass and otherwise parses to exactly the `kept` governed records, unmasked when redaction was bypassed |
| `Pipelines.Respond` | src/server.rs:132-191 | Accepted with a destination exactly when it rests on a delivery of the output itself, or on the spool having taken it under a sequence; Malformed exactly on a parse error, with nothing recorded; the recorded sample carries each statistic under its own name, and balances |
| `Pipelines.AcceptedOutputIsKept` | src/server.rs:164-190 | what an acceptance rests on is a step of the spool protocol, after which, through every later push, drain, failure, crash and reopening, the bytes of the output were forwarded or are on disk under that sequence |
| `Metrics.Register.Record` | crates/archiv-metrics/src/lib.rs:86-101 | uninterrupted, adds the whole sample, wrapping at 64 bits |
| `Metrics.Register.Flush` | crates/archiv-metrics/src/lib.rs:208-211 | uninterrupted, returns every counter, leaves zeros, and takes the next number |
| `Metrics.StepConserves` | crates/archiv-metrics/src/lib.rs:86-116 | one atomic add or swap, by any task, conserves every counter |
| `Metrics.NothingLostOrCountedTwice` | crates/archiv-metrics/src/lib.rs:86-116 | in every interleaving of the atomic adds and swaps, flushed plus current equals added (modulo 2^64, and exactly while the total fits); published aggregates are numbered without gap or repeat |
| `Metrics.CountersCountTheirStatistics` | crates/archiv-metrics/src/lib.rs:55-116 | with no task part-way, each of the eight totals is the sum over all samples of the statistic it is named for, bytes dropped being the excess of bytes in over bytes exported |
| `Metrics.TotalsBalanceAtRest` | crates/archiv-metrics/src/lib.rs:59-116 | with no task part-way, total events_in equals sampled_out plus exported, and bytes_in is at most dropped plus exported |
| `Fingerprint.Hasher.FeedPolicy` | crates/archiv-config/src/lib.rs:193-217 | what the nested loops feed the hasher is the policy's stream |
| `Fingerprint.Layout` | crates/archiv-config/src/lib.rs:193-217 | the stream's layout, written out on one rule of each kind |
| `Fingerprint.Utf8Bytes` | crates/archiv-config/src/lib.rs:203-213 | UTF-8 uses neither separator byte |
| `Fingerprint.StreamReadsBack` | crates/archiv-config/src/lib.rs:193-217 | the stream of a policy whose strings are UTF-8 without NUL reads back to it, absent selectors as empty ones |
| `Fingerprint.FingerprintTellsApart` | crates/archiv-config/src/lib.rs:193-217 | two such policies share a stream if and only if they differ at most in absent against empty selectors |
| `Fingerprint.NulIsAmbiguous` | crates/archiv-config/src/lib.rs:207-213 | with a NUL in a rule name, two different policies always share a stream |

## Left out

- HTTP, gRPC and TLS transports, listener loops, graceful shutdown, the worker pool and its channel, and `submit`: I/O plumbing; forwarding is a success or a failure.
- xxHash64 and the regex engine: a hash of the key and a finder of matches are parameters; the prefilter is taken to pass exactly the rules that find something.
- The statistical keep rate and the pinned hash vectors: empirical.
- YAML loading, range checks, selector syntax and severity names: single-branch checks.
- Regex syntax outside the lint's pattern trees (chained quantifiers, nested classes, verbose mode): left by the scanner to the compiled-size limit.
- Reference counting and zero-copy identity of chunks: chunks are byte sequences.
- Jitter, timers, tracing, sinks and wall-clock stamps.
- Spool.NoAcceptedPayloadIsLost: assumes that a completed rename survives a crash, since the code does not sync the directory; that a rename reported as failed did not happen; and that the sequence counter and byte counts stay below 2^64. The file system and the destination are otherwise arbitrary.
- Spool.Recover: a `.tmp` file is counted as swept when its removal is attempted; that removal may fail, in the code and in the protocol, without consequence.
- Breaker.CircuitBreaker.RecordFaultAt: the fault counter is unbounded; in the code it is 32 bits wide and would need 2^32 faults within one window to overflow.
- Cursor.WireCursor.ReadVarint: the cursor is constructed over a window inside the buffer, as every caller does; the code's constructor does not check it.
- Emission.Assembler.EmitSegs: the second mask lookup at emission is unreachable after building and has no error branch here.
- Pipelines.Guarded: a stage's run is the list of spans it pushes, under any ids, and whether it then fails; a stage that replaces the envelope's records or clears another stage's spans is not modelled. The parse stage replaces the records only when it succeeds; no other stage of the program does either.
- Metrics.NothingLostOrCountedTwice: the flush number is unbounded; memory ordering is relaxed in the code, and each counter is used only through single atomic operations on itself.
