/** The OTLP logs message shape: what each message window denotes, as folds over its fields. */
module Otlp {
  import opened Prelude
  import opened Varint
  import opened Wire

  // "k8s.namespace.name" and "service.name"
  const NAMESPACE_KEY: bytes := [107, 56, 115, 46, 110, 97, 109, 101, 115, 112, 97, 99, 101, 46, 110, 97, 109, 101]
  const SERVICE_KEY: bytes := [115, 101, 114, 118, 105, 99, 101, 46, 110, 97, 109, 101]

  type Parsed<T> = Result<T, ParseError>

  datatype Attr = Attr(key: View, value: View)

  /** A KeyValue under construction; `value` distinguishes "no value field" from "not a string". */
  datatype Pair = Pair(key: Option<View>, value: Option<Option<View>>) {
    function Then(later: Pair): Pair {
      Pair(key.Then(later.key), value.Then(later.value))
    }

    function ToAttr(): Option<Attr> {
      if key.Some? && value.Some? && value.value.Some? then Some(Attr(key.value, value.value.value)) else None
    }
  }

  /** A LogRecord under construction. No string body is `None`; the source writes an empty range. */
  datatype Draft = Draft(body: Option<View>, traceId: Option<View>, severity: Option<int>, attrs: seq<Attr>) {
    function Then(later: Draft): Draft {
      Draft(body.Then(later.body), traceId.Then(later.traceId), severity.Then(later.severity), attrs + later.attrs)
    }
  }

  datatype Resource = Resource(namespace: Option<View>, service: Option<View>) {
    function Then(later: Resource): Resource {
      Resource(namespace.Then(later.namespace), service.Then(later.service))
    }
  }

  /** One pass over a ResourceLogs: the last Resource message, and the ScopeLogs windows in order. */
  datatype Group = Group(resource: Option<Resource>, scopes: seq<View>) {
    function Then(later: Group): Group {
      Group(resource.Then(later.resource), scopes + later.scopes)
    }
  }

  datatype RecordView = RecordView(draft: Draft, resource: Resource)

  const EMPTY_PAIR := Pair(None, None)
  const EMPTY_DRAFT := Draft(None, None, None, [])
  const EMPTY_RESOURCE := Resource(None, None)
  const EMPTY_GROUP := Group(None, [])

  /** A u64 cast to i32. */
  function AsI32(v: nat): int {
    var low := v % U32;
    if low < 0x8000_0000 then low else low - U32
  }

  // ----- AnyValue: the first string_value ends the search

  function AnyString(w: Walk, at: nat): Parsed<Option<View>> {
    match w
    case Stop(rest) => if rest == [] then Ok(None) else Err(StopError(rest, at))
    case Step(f, next) =>
      if f.Is(1, 2) then Ok(Some(f.PayloadAt(at))) else AnyString(next, at + |f.Bytes()|)
  }

  function AnyStringOf(v: View): Parsed<Option<View>> {
    AnyString(Fields(v.text), v.at)
  }

  // ----- KeyValue

  function PairField(f: Field, at: nat): Parsed<Pair> {
    if f.Is(1, 2) then Ok(Pair(Some(f.PayloadAt(at)), None))
    else if f.Is(2, 2) then
      var s :- AnyStringOf(f.PayloadAt(at));
      Ok(Pair(None, Some(s)))
    else Ok(EMPTY_PAIR)
  }

  function PairIn(w: Walk, at: nat): Parsed<Pair> {
    match w
    case Stop(rest) => if rest == [] then Ok(EMPTY_PAIR) else Err(StopError(rest, at))
    case Step(f, next) =>
      var own :- PairField(f, at);
      var later :- PairIn(next, at + |f.Bytes()|);
      Ok(own.Then(later))
  }

  function KeyValueOf(v: View): Parsed<Option<Attr>> {
    var p :- PairIn(Fields(v.text), v.at);
    Ok(p.ToAttr())
  }

  // ----- LogRecord

  function DraftField(f: Field, at: nat): Parsed<Draft> {
    if f.Is(2, 0) then
      var d :- Decode(f.payload, at + |f.head|);
      Ok(EMPTY_DRAFT.(severity := Some(AsI32(d.value))))
    else if f.Is(5, 2) then
      var s :- AnyStringOf(f.PayloadAt(at));
      Ok(EMPTY_DRAFT.(body := s))
    else if f.Is(6, 2) then
      var a :- KeyValueOf(f.PayloadAt(at));
      Ok(EMPTY_DRAFT.(attrs := if a.Some? then [a.value] else []))
    else if f.Is(9, 2) && (|f.payload| == 16 || |f.payload| == 32) then
      Ok(EMPTY_DRAFT.(traceId := Some(f.PayloadAt(at))))
    else Ok(EMPTY_DRAFT)
  }

  function DraftIn(w: Walk, at: nat): Parsed<Draft> {
    match w
    case Stop(rest) => if rest == [] then Ok(EMPTY_DRAFT) else Err(StopError(rest, at))
    case Step(f, next) =>
      var own :- DraftField(f, at);
      var later :- DraftIn(next, at + |f.Bytes()|);
      Ok(own.Then(later))
  }

  function RecordOf(v: View, resource: Resource): Parsed<RecordView> {
    var d :- DraftIn(Fields(v.text), v.at);
    Ok(RecordView(d, resource))
  }

  // ----- ScopeLogs

  function ScopeField(f: Field, at: nat, resource: Resource): Parsed<seq<RecordView>> {
    if f.Is(2, 2) then
      var r :- RecordOf(f.PayloadAt(at), resource);
      Ok([r])
    else Ok([])
  }

  function ScopeIn(w: Walk, at: nat, resource: Resource): Parsed<seq<RecordView>> {
    match w
    case Stop(rest) => if rest == [] then Ok([]) else Err(StopError(rest, at))
    case Step(f, next) =>
      var own :- ScopeField(f, at, resource);
      var later :- ScopeIn(next, at + |f.Bytes()|, resource);
      Ok(own + later)
  }

  // ----- Resource and ResourceLogs

  function ResourceField(f: Field, at: nat): Parsed<Resource> {
    if f.Is(1, 2) then
      var a :- KeyValueOf(f.PayloadAt(at));
      Ok(if a.None? then EMPTY_RESOURCE
         else if a.value.key.text == NAMESPACE_KEY then Resource(Some(a.value.value), None)
         else if a.value.key.text == SERVICE_KEY then Resource(None, Some(a.value.value))
         else EMPTY_RESOURCE)
    else Ok(EMPTY_RESOURCE)
  }

  function ResourceIn(w: Walk, at: nat): Parsed<Resource> {
    match w
    case Stop(rest) => if rest == [] then Ok(EMPTY_RESOURCE) else Err(StopError(rest, at))
    case Step(f, next) =>
      var own :- ResourceField(f, at);
      var later :- ResourceIn(next, at + |f.Bytes()|);
      Ok(own.Then(later))
  }

  function GroupField(f: Field, at: nat): Parsed<Group> {
    if f.Is(1, 2) then
      var r :- ResourceIn(Fields(f.payload), f.PayloadAt(at).at);
      Ok(Group(Some(r), []))
    else if f.Is(2, 2) then Ok(Group(None, [f.PayloadAt(at)]))
    else Ok(EMPTY_GROUP)
  }

  function GroupIn(w: Walk, at: nat): Parsed<Group> {
    match w
    case Stop(rest) => if rest == [] then Ok(EMPTY_GROUP) else Err(StopError(rest, at))
    case Step(f, next) =>
      var own :- GroupField(f, at);
      var later :- GroupIn(next, at + |f.Bytes()|);
      Ok(own.Then(later))
  }

  function ScopesOf(scopes: seq<View>, resource: Resource): Parsed<seq<RecordView>> {
    if scopes == [] then Ok([])
    else
      var first :- ScopeIn(Fields(scopes[0].text), scopes[0].at, resource);
      var later :- ScopesOf(scopes[1..], resource);
      Ok(first + later)
  }

  /** Two passes: every scope sees the last Resource, wherever it stands among the fields. */
  function GroupOf(v: View): Parsed<seq<RecordView>> {
    var g :- GroupIn(Fields(v.text), v.at);
    ScopesOf(g.scopes, if g.resource.Some? then g.resource.value else EMPTY_RESOURCE)
  }

  // ----- ExportLogsServiceRequest

  function RequestIn(w: Walk, at: nat): Parsed<seq<RecordView>> {
    match w
    case Stop(rest) => if rest == [] then Ok([]) else Err(StopError(rest, at))
    case Step(f, next) =>
      var own :- if f.Is(1, 2) then GroupOf(f.PayloadAt(at)) else Ok([]);
      var later :- RequestIn(next, at + |f.Bytes()|);
      Ok(own + later)
  }

  function Parse(raw: bytes): Parsed<seq<RecordView>> {
    RequestIn(Fields(raw), 0)
  }
}
