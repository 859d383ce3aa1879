/** The governed request, defined field by field: sampled-out records are left out, a string
    that spans touch is re-encoded with its masks, and so is every message that encloses a
    change; every other field is kept as it stands on the wire. */
module Govern {
  import opened Prelude
  import opened Varint
  import opened Wire
  import opened Envelope
  import opened Spans

  datatype AssembleError =
    | WireError(error: ParseError)
    | RecordCountMismatch(parsed: nat, walked: nat)
    | UnknownMask(mask: nat)

  type Rebuilt<T> = Result<T, AssembleError>

  datatype Level = Request | Resources | Scope {
    function ChildField(): nat { if Request? then 1 else 2 }
    function Rank(): nat { if Request? then 3 else if Resources? then 2 else 1 }
    function Below(): Level { if Request? then Resources else Scope }
  }

  function FirstUnknown(spans: seq<Span>, masks: Masks): Option<nat> {
    if spans == [] then None
    else if spans[0].mask >= |masks| then Some(spans[0].mask)
    else FirstUnknown(spans[1..], masks)
  }

  function Selected(v: View, spans: seq<Span>): seq<Span> {
    Effective(spans, v.at, v.End())
  }

  // ----- AnyValue

  predicate StringTouched(f: Field, at: nat, spans: seq<Span>) {
    f.Is(1, 2) && Selected(f.PayloadAt(at), spans) != []
  }

  function GovernString(f: Field, at: nat, spans: seq<Span>, masks: Masks): Rebuilt<Field> {
    if !StringTouched(f, at, spans) then Ok(f)
    else
      var unknown := FirstUnknown(Selected(f.PayloadAt(at), spans), masks);
      if unknown.Some? then Err(UnknownMask(unknown.value))
      else Ok(Canonical(1, Governed(f.payload, at + |f.head|, spans, masks)))
  }

  predicate AnyTouched(w: Walk, at: nat, spans: seq<Span>) {
    w.Step? && (StringTouched(w.field, at, spans) || AnyTouched(w.next, at + |w.field.Bytes()|, spans))
  }

  function GovernAny(w: Walk, at: nat, spans: seq<Span>, masks: Masks): Rebuilt<Walk> {
    match w
    case Stop(rest) => if rest == [] then Ok(w) else Err(WireError(StopError(rest, at)))
    case Step(f, next) =>
      var g :- GovernString(f, at, spans, masks);
      var n :- GovernAny(next, at + |f.Bytes()|, spans, masks);
      Ok(Step(g, n))
  }

  /** A changed message is re-encoded under a canonical header; an unchanged one is kept. */
  function Enclose(f: Field, touched: bool, inner: Walk): Field {
    if touched then Canonical(f.num, Unwalk(inner)) else f
  }

  // ----- KeyValue

  predicate ValueTouched(f: Field, at: nat, spans: seq<Span>) {
    f.Is(2, 2) && AnyTouched(Fields(f.payload), at + |f.head|, spans)
  }

  function GovernValue(f: Field, at: nat, spans: seq<Span>, masks: Masks): Rebuilt<Field> {
    if f.Is(2, 2) then
      var inner :- GovernAny(Fields(f.payload), at + |f.head|, spans, masks);
      Ok(Enclose(f, ValueTouched(f, at, spans), inner))
    else Ok(f)
  }

  predicate PairTouched(w: Walk, at: nat, spans: seq<Span>) {
    w.Step? && (ValueTouched(w.field, at, spans) || PairTouched(w.next, at + |w.field.Bytes()|, spans))
  }

  function GovernPair(w: Walk, at: nat, spans: seq<Span>, masks: Masks): Rebuilt<Walk> {
    match w
    case Stop(rest) => if rest == [] then Ok(w) else Err(WireError(StopError(rest, at)))
    case Step(f, next) =>
      var g :- GovernValue(f, at, spans, masks);
      var n :- GovernPair(next, at + |f.Bytes()|, spans, masks);
      Ok(Step(g, n))
  }

  // ----- LogRecord

  predicate PartTouched(f: Field, at: nat, spans: seq<Span>) {
    || (f.Is(5, 2) && AnyTouched(Fields(f.payload), at + |f.head|, spans))
    || (f.Is(6, 2) && PairTouched(Fields(f.payload), at + |f.head|, spans))
  }

  function GovernPart(f: Field, at: nat, spans: seq<Span>, masks: Masks): Rebuilt<Field> {
    if f.Is(5, 2) then
      var inner :- GovernAny(Fields(f.payload), at + |f.head|, spans, masks);
      Ok(Enclose(f, PartTouched(f, at, spans), inner))
    else if f.Is(6, 2) then
      var inner :- GovernPair(Fields(f.payload), at + |f.head|, spans, masks);
      Ok(Enclose(f, PartTouched(f, at, spans), inner))
    else Ok(f)
  }

  predicate RecordTouched(w: Walk, at: nat, spans: seq<Span>) {
    w.Step? && (PartTouched(w.field, at, spans) || RecordTouched(w.next, at + |w.field.Bytes()|, spans))
  }

  function GovernRecord(w: Walk, at: nat, spans: seq<Span>, masks: Masks): Rebuilt<Walk> {
    match w
    case Stop(rest) => if rest == [] then Ok(w) else Err(WireError(StopError(rest, at)))
    case Step(f, next) =>
      var g :- GovernPart(f, at, spans, masks);
      var n :- GovernRecord(next, at + |f.Bytes()|, spans, masks);
      Ok(Step(g, n))
  }

  // ----- ScopeLogs, ResourceLogs, request

  /** The number of log records under `w`. */
  function Count(w: Walk, level: Level): nat
    decreases level.Rank(), 1, w
  {
    if w.Stop? then 0 else FieldCount(w.field, level) + Count(w.next, level)
  }

  function FieldCount(f: Field, level: Level): nat
    decreases level.Rank(), 0
  {
    if !f.Is(level.ChildField(), 2) then 0
    else if level.Scope? then 1
    else Count(Fields(f.payload), level.Below())
  }

  /** The child of a container is omitted, rebuilt, or kept. */
  datatype Fate = Omitted | Rewritten | Untouched

  function FateOf(f: Field, at: nat, idx: nat, d: Decided, level: Level): Fate
    decreases level.Rank(), 0
  {
    if !f.Is(level.ChildField(), 2) then Untouched
    else if level.Scope? then
      if d.VerdictFor(idx).Drop? then Omitted
      else if RecordTouched(Fields(f.payload), at + |f.head|, d.SpansFor(idx)) then Rewritten
      else Untouched
    else if Touched(Fields(f.payload), at + |f.head|, idx, d, level.Below()) then Rewritten
    else Untouched
  }

  predicate Touched(w: Walk, at: nat, idx: nat, d: Decided, level: Level)
    decreases level.Rank(), 1, w
  {
    w.Step? &&
    (|| !FateOf(w.field, at, idx, d, level).Untouched?
     || Touched(w.next, at + |w.field.Bytes()|, idx + FieldCount(w.field, level), d, level))
  }

  function GovernChild(f: Field, at: nat, idx: nat, d: Decided, masks: Masks, level: Level): Rebuilt<Walk>
    requires f.Is(level.ChildField(), 2) && !FateOf(f, at, idx, d, level).Omitted?
    decreases level.Rank(), 0
  {
    if level.Scope? then GovernRecord(Fields(f.payload), at + |f.head|, d.SpansFor(idx), masks)
    else GovernAll(Fields(f.payload), at + |f.head|, idx, d, masks, level.Below())
  }

  function GovernField(f: Field, at: nat, idx: nat, d: Decided, masks: Masks, level: Level): Rebuilt<Option<Field>>
    decreases level.Rank(), 1
  {
    var fate := FateOf(f, at, idx, d, level);
    if fate.Omitted? then Ok(None)
    else if f.Is(level.ChildField(), 2) then
      var inner :- GovernChild(f, at, idx, d, masks, level);
      Ok(Some(Enclose(f, fate.Rewritten?, inner)))
    else Ok(Some(f))
  }

  function GovernAll(w: Walk, at: nat, idx: nat, d: Decided, masks: Masks, level: Level): Rebuilt<Walk>
    decreases level.Rank(), 2, w
  {
    match w
    case Stop(rest) => if rest == [] then Ok(w) else Err(WireError(StopError(rest, at)))
    case Step(f, next) =>
      var g :- GovernField(f, at, idx, d, masks, level);
      var n :- GovernAll(next, at + |f.Bytes()|, idx + FieldCount(f, level), d, masks, level);
      Ok(if g.Some? then Step(g.value, n) else n)
  }

  // ----- one field at a time

  lemma AnyUnfold(w: Walk, at: nat, spans: seq<Span>, masks: Masks)
    requires GovernAny(w, at, spans, masks).Ok?
    ensures w.Stop? ==> w.rest == [] && GovernAny(w, at, spans, masks).value == w
    ensures w.Step? ==>
      && GovernString(w.field, at, spans, masks).Ok?
      && GovernAny(w.next, at + |w.field.Bytes()|, spans, masks).Ok?
      && GovernAny(w, at, spans, masks).value
      == Step(GovernString(w.field, at, spans, masks).value,
        GovernAny(w.next, at + |w.field.Bytes()|, spans, masks).value)
  {
    hide GovernString;
  }

  lemma PairUnfold(w: Walk, at: nat, spans: seq<Span>, masks: Masks)
    requires GovernPair(w, at, spans, masks).Ok?
    ensures w.Stop? ==> w.rest == [] && GovernPair(w, at, spans, masks).value == w
    ensures w.Step? ==>
      && GovernValue(w.field, at, spans, masks).Ok?
      && GovernPair(w.next, at + |w.field.Bytes()|, spans, masks).Ok?
      && GovernPair(w, at, spans, masks).value
      == Step(GovernValue(w.field, at, spans, masks).value,
        GovernPair(w.next, at + |w.field.Bytes()|, spans, masks).value)
  {
    hide GovernValue;
  }

  lemma RecordUnfold(w: Walk, at: nat, spans: seq<Span>, masks: Masks)
    requires GovernRecord(w, at, spans, masks).Ok?
    ensures w.Stop? ==> w.rest == [] && GovernRecord(w, at, spans, masks).value == w
    ensures w.Step? ==>
      && GovernPart(w.field, at, spans, masks).Ok?
      && GovernRecord(w.next, at + |w.field.Bytes()|, spans, masks).Ok?
      && GovernRecord(w, at, spans, masks).value
      == Step(GovernPart(w.field, at, spans, masks).value,
        GovernRecord(w.next, at + |w.field.Bytes()|, spans, masks).value)
  {
    hide GovernPart;
  }

  lemma AllUnfold(w: Walk, at: nat, idx: nat, d: Decided, masks: Masks, level: Level)
    requires GovernAll(w, at, idx, d, masks, level).Ok?
    ensures w.Stop? ==> w.rest == [] && GovernAll(w, at, idx, d, masks, level).value == w
    ensures w.Step? ==>
      && GovernField(w.field, at, idx, d, masks, level).Ok?
      && GovernAll(w.next, at + |w.field.Bytes()|, idx + FieldCount(w.field, level), d, masks, level).Ok?
      && var g := GovernField(w.field, at, idx, d, masks, level).value;
      var n := GovernAll(w.next, at + |w.field.Bytes()|, idx + FieldCount(w.field, level), d, masks, level).value;
      GovernAll(w, at, idx, d, masks, level).value == if g.Some? then Step(g.value, n) else n
  {
    hide GovernField, FieldCount;
  }

  /** What assembly answers for a buffer from which `parsed` records were parsed. */
  function AssembleSpec(raw: bytes, parsed: nat, d: Decided, masks: Masks): Rebuilt<bytes> {
    if !d.AnyDropped() && d.redactions == [] then Ok(raw)
    else
      var w :- GovernAll(Fields(raw), 0, 0, d, masks, Request);
      if Count(Fields(raw), Request) != parsed then Err(RecordCountMismatch(parsed, Count(Fields(raw), Request)))
      else Ok(Unwalk(w))
  }
}
