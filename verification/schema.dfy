/** The OTLP logs schema as a writer sees it: messages as lists of their parts, in whatever order,
    repeated or left out, and their encoding by field number and wire type, independently of how
    they are parsed. */
module Schema {
  import opened Prelude
  import opened Varint
  import opened Wire
  import opened WireTypes
  import opened Otlp
  import opened Meaning
  import opened Content
  import opened Containers
  import opened Order

  datatype Variant =
    | Str(text: bytes)
    | Flag(on: bool)
    | Integer(number: nat)
    | Double(word: bytes)
    | ArrayOf(payload: bytes)
    | KeyValues(payload: bytes)
    | Binary(payload: bytes)

  /** An AnyValue: one variant as a rule, but none or several can be written. */
  type Value = seq<Variant>

  datatype PairPart = Key(text: bytes) | Carries(value: Value)

  type Attribute = seq<PairPart>

  datatype RecordPart =
    | Time(word: bytes)
    | Severity(level: int)
    | SeverityText(text: bytes)
    | Body(value: Value)
    | Labelled(attribute: Attribute)
    | Dropped(count: nat)
    | Flags(word: bytes)
    | TraceId(id: bytes)
    | SpanId(id: bytes)
    | Observed(word: bytes)
    | EventName(text: bytes)

  datatype ScopePart = Scope(payload: bytes) | Record(parts: seq<RecordPart>) | ScopeUrl(text: bytes)

  datatype ResourcePart = Holds(attribute: Attribute) | DroppedAttributes(count: nat)

  datatype GroupPart = Of(resource: seq<ResourcePart>) | Logs(scope: seq<ScopePart>) | GroupUrl(text: bytes)

  type Request = seq<seq<GroupPart>>

  // ----- encoding

  function VariantField(v: Variant): Wired {
    match v
    case Str(text) => Delimited(1, text)
    case Flag(b) => Number(2, if b then 1 else 0)
    case Integer(n) => Number(3, n)
    case Double(word) => Fixed64(4, word)
    case ArrayOf(payload) => Delimited(5, payload)
    case KeyValues(payload) => Delimited(6, payload)
    case Binary(payload) => Delimited(7, payload)
  }

  function ValueFields(v: Value): seq<Wired> {
    if v == [] then [] else [VariantField(v[0])] + ValueFields(v[1..])
  }

  function PairPartField(p: PairPart): Wired {
    match p
    case Key(text) => Delimited(1, text)
    case Carries(v) => Delimited(2, Message(ValueFields(v)))
  }

  function AttributeFields(a: Attribute): seq<Wired> {
    if a == [] then [] else [PairPartField(a[0])] + AttributeFields(a[1..])
  }

  /** A signed number is written as its 64-bit two's complement. */
  function Signed(n: int): nat { n % U64 }

  function RecordField(p: RecordPart): Wired {
    match p
    case Time(word) => Fixed64(1, word)
    case Severity(level) => Number(2, Signed(level))
    case SeverityText(text) => Delimited(3, text)
    case Body(v) => Delimited(5, Message(ValueFields(v)))
    case Labelled(a) => Delimited(6, Message(AttributeFields(a)))
    case Dropped(n) => Number(7, n)
    case Flags(word) => Fixed32(8, word)
    case TraceId(id) => Delimited(9, id)
    case SpanId(id) => Delimited(10, id)
    case Observed(word) => Fixed64(11, word)
    case EventName(text) => Delimited(12, text)
  }

  function RecordFields(parts: seq<RecordPart>): seq<Wired> {
    if parts == [] then [] else [RecordField(parts[0])] + RecordFields(parts[1..])
  }

  function ScopePartField(p: ScopePart): Wired {
    match p
    case Scope(payload) => Delimited(1, payload)
    case Record(parts) => Delimited(2, Message(RecordFields(parts)))
    case ScopeUrl(text) => Delimited(3, text)
  }

  function ScopeFields(parts: seq<ScopePart>): seq<Wired> {
    if parts == [] then [] else [ScopePartField(parts[0])] + ScopeFields(parts[1..])
  }

  function ResourcePartField(p: ResourcePart): Wired {
    match p
    case Holds(a) => Delimited(1, Message(AttributeFields(a)))
    case DroppedAttributes(n) => Number(2, n)
  }

  function ResourceFields(parts: seq<ResourcePart>): seq<Wired> {
    if parts == [] then [] else [ResourcePartField(parts[0])] + ResourceFields(parts[1..])
  }

  function GroupPartField(p: GroupPart): Wired {
    match p
    case Of(resource) => Delimited(1, Message(ResourceFields(resource)))
    case Logs(scope) => Delimited(2, Message(ScopeFields(scope)))
    case GroupUrl(text) => Delimited(3, text)
  }

  function GroupFields(parts: seq<GroupPart>): seq<Wired> {
    if parts == [] then [] else [GroupPartField(parts[0])] + GroupFields(parts[1..])
  }

  function RequestFields(q: Request): seq<Wired> {
    if q == [] then [] else [Delimited(1, Message(GroupFields(q[0])))] + RequestFields(q[1..])
  }

  function Encoded(q: Request): bytes { Message(RequestFields(q)) }

  // ----- what a request says

  /** The first string. */
  function StringOf(v: Value): Option<bytes> {
    if v == [] then None else if v[0].Str? then Some(v[0].text) else StringOf(v[1..])
  }

  function LastKey(a: Attribute): Option<bytes> {
    if a == [] then None
    else
      var p := a[|a| - 1];
      if p.Key? then Some(p.text) else LastKey(a[..|a| - 1])
  }

  function LastValue(a: Attribute): Option<Value> {
    if a == [] then None
    else
      var p := a[|a| - 1];
      if p.Carries? then Some(p.value) else LastValue(a[..|a| - 1])
  }

  /** The last key with the last value, when that value has a string. */
  function TextOf(a: Attribute): Option<AttrText> {
    if LastKey(a).Some? && LastValue(a).Some? && StringOf(LastValue(a).value).Some?
    then Some(AttrText(LastKey(a).value, StringOf(LastValue(a).value).value)) else None
  }

  /** The last body that is a string. */
  function LastBody(parts: seq<RecordPart>): Option<bytes> {
    if parts == [] then None
    else
      var p, later := parts[|parts| - 1], LastBody(parts[..|parts| - 1]);
      if p.Body? && StringOf(p.value).Some? then StringOf(p.value) else later
  }

  /** The last trace id of a length that can be one: 16 bytes, or 32 characters. */
  function LastTraceId(parts: seq<RecordPart>): Option<bytes> {
    if parts == [] then None
    else
      var p, later := parts[|parts| - 1], LastTraceId(parts[..|parts| - 1]);
      if p.TraceId? && |p.id| in {16, 32} then Some(p.id) else later
  }

  function LastSeverity(parts: seq<RecordPart>): Option<int> {
    if parts == [] then None
    else
      var p, later := parts[|parts| - 1], LastSeverity(parts[..|parts| - 1]);
      if p.Severity? then Some(p.level) else later
  }

  /** The attributes whose value is a string, in order. */
  function Strings(parts: seq<RecordPart>): seq<AttrText> {
    if parts == [] then []
    else
      var p, before := parts[|parts| - 1], Strings(parts[..|parts| - 1]);
      if p.Labelled? && TextOf(p.attribute).Some? then before + [TextOf(p.attribute).value] else before
  }

  function Said(parts: seq<RecordPart>): DraftText {
    DraftText(LastBody(parts), LastTraceId(parts), LastSeverity(parts), Strings(parts))
  }

  /** The last string under a key. */
  function LastUnder(parts: seq<ResourcePart>, key: bytes): Option<bytes> {
    if parts == [] then None
    else
      var p, later := parts[|parts| - 1], LastUnder(parts[..|parts| - 1], key);
      if p.Holds? && TextOf(p.attribute).Some? && TextOf(p.attribute).value.key == key
      then Some(TextOf(p.attribute).value.value) else later
  }

  function ResourceSaid(parts: seq<ResourcePart>): ResourceText {
    ResourceText(LastUnder(parts, Ascii("k8s.namespace.name")), LastUnder(parts, Ascii("service.name")))
  }

  /** The last Resource of a ResourceLogs; all its records are read under it. */
  function LastOf(parts: seq<GroupPart>): ResourceText {
    if parts == [] then ResourceText(None, None)
    else
      var p, later := parts[|parts| - 1], LastOf(parts[..|parts| - 1]);
      if p.Of? then ResourceSaid(p.resource) else later
  }

  function ScopeSaid(parts: seq<ScopePart>, r: ResourceText): seq<RecordText> {
    if parts == [] then []
    else (if parts[0].Record? then [RecordText(Said(parts[0].parts), r)] else []) + ScopeSaid(parts[1..], r)
  }

  function GroupSaid(parts: seq<GroupPart>, r: ResourceText): seq<RecordText> {
    if parts == [] then []
    else (if parts[0].Logs? then ScopeSaid(parts[0].scope, r) else []) + GroupSaid(parts[1..], r)
  }

  function RequestSaid(q: Request): seq<RecordText> {
    if q == [] then [] else GroupSaid(q[0], LastOf(q[0])) + RequestSaid(q[1..])
  }

  // ----- well-formed values

  predicate VariantFine(v: Variant) {
    (v.Integer? ==> v.number < U64) && (v.Double? ==> |v.word| == 8)
  }

  predicate ValueFine(v: Value) { forall x <- v :: VariantFine(x) }

  predicate AttributeFine(a: Attribute) { forall p <- a :: p.Carries? ==> ValueFine(p.value) }

  predicate RecordPartFine(p: RecordPart) {
    match p
    case Time(word) => |word| == 8
    case Severity(level) => -0x8000_0000 <= level < 0x8000_0000
    case Body(v) => ValueFine(v)
    case Labelled(a) => AttributeFine(a)
    case Dropped(n) => n < U64
    case Flags(word) => |word| == 4
    case Observed(word) => |word| == 8
    case _ => true
  }

  predicate RecordFine(parts: seq<RecordPart>) { forall p <- parts :: RecordPartFine(p) }

  predicate ScopeFine(parts: seq<ScopePart>) { forall p <- parts :: p.Record? ==> RecordFine(p.parts) }

  predicate ResourcePartFine(p: ResourcePart) {
    if p.Holds? then AttributeFine(p.attribute) else p.count < U64
  }

  predicate ResourceFine(parts: seq<ResourcePart>) { forall p <- parts :: ResourcePartFine(p) }

  predicate GroupPartFine(p: GroupPart) {
    match p
    case Of(resource) => ResourceFine(resource)
    case Logs(scope) => ScopeFine(scope)
    case GroupUrl(_) => true
  }

  predicate GroupFine(parts: seq<GroupPart>) { forall p <- parts :: GroupPartFine(p) }

  // ----- messages of fields

  /** Everything `Fine` asks of a field but the size of a length-delimited payload. */
  predicate Shaped(x: Wired) {
    && x.num < U32 && (x.Number? ==> x.value < U64)
    && (x.Fixed64? ==> |x.word| == 8) && (x.Fixed32? ==> |x.word| == 4)
  }

  predicate AllShaped(xs: seq<Wired>) { forall x <- xs :: Shaped(x) }

  lemma {:induction false} Sizes(xs: seq<Wired>)
    ensures forall x <- xs :: x.Delimited? ==> |x.payload| < |Message(xs)|
  {
    hide Encode;
    if xs != [] {
      Sizes(xs[1..]);
      assert xs == [xs[0]] + xs[1..];
    }
  }

  /** A message below 2^64 bytes walks to its fields, and so do the messages in it. */
  lemma Walks(xs: seq<Wired>)
    requires |Message(xs)| < U64 && AllShaped(xs)
    ensures Fields(Message(xs)) == Walked(xs)
    ensures forall x <- xs :: x.Delimited? ==> |x.payload| < U64
  {
    hide Message, Fields, Walked;
    Sizes(xs);
    MessageWalks(xs);
  }

  // ----- values and attributes

  lemma WalkedStep(x: Wired, xs: seq<Wired>)
    ensures Walked([x] + xs) == Step(AsField(x), Walked(xs))
  {
    hide AsField;
    assert ([x] + xs)[1..] == xs;
  }

  predicate Fits(x: Wired) { x.Delimited? ==> |x.payload| < U64 }

  lemma {:induction false} ValueShaped(v: Value)
    requires ValueFine(v)
    ensures AllShaped(ValueFields(v))
  {
    if v != [] {
      assert VariantFine(v[0]);
      ValueShaped(v[1..]);
    }
  }

  lemma {:induction false} ValueIn(v: Value, at: nat)
    ensures var r := AnyString(Walked(ValueFields(v)), at); r.Ok? && Text(r.value) == StringOf(v)
  {
    hide Walked, Encode;
    if v == [] {
      EmptyWalk();
    } else {
      WalkedStep(VariantField(v[0]), ValueFields(v[1..]));
      ValueIn(v[1..], at + |AsField(VariantField(v[0])).Bytes()|);
    }
  }

  lemma EmptyWalk()
    ensures Walked([]) == Stop([])
  {
  }

  lemma ValueText(v: Value, at: nat)
    requires ValueFine(v) && |Message(ValueFields(v))| < U64
    ensures var r := AnyString(Fields(Message(ValueFields(v))), at); r.Ok? && Text(r.value) == StringOf(v)
  {
    hide Fields, Message, ValueFields, Walked, AnyString, AllShaped, StringOf;
    ValueShaped(v);
    Walks(ValueFields(v));
    ValueIn(v, at);
  }

  ghost predicate PairSays(p: Parsed<Pair>, t: PairText) {
    p.Ok? && PairMasked(p.value, [], []) == t
  }

  function PairPartSaid(p: PairPart): PairText {
    match p
    case Key(text) => PairText(Some(text), None)
    case Carries(v) => PairText(None, Some(StringOf(v)))
  }

  function PairSaid(a: Attribute): PairText {
    PairText(LastKey(a), if LastValue(a).Some? then Some(StringOf(LastValue(a).value)) else None)
  }

  function PairJoined(t: PairText, u: PairText): PairText {
    PairText(t.key.Then(u.key), t.value.Then(u.value))
  }

  lemma PairPartReads(p: PairPart, at: nat)
    requires (p.Carries? ==> ValueFine(p.value)) && Fits(PairPartField(p))
    ensures PairSays(PairField(AsField(PairPartField(p)), at), PairPartSaid(p))
  {
    hide Message, ValueFields, AnyString, Fields, Encode, ValueFine;
    if p.Carries? {
      var v := AsField(PairPartField(p)).PayloadAt(at);
      ValueText(p.value, v.at);
      TextIsPlain(AnyStringOf(v).value);
    }
  }

  lemma {:induction false} PairCons(p: PairPart, a: Attribute)
    ensures PairSaid([p] + a) == PairJoined(PairPartSaid(p), PairSaid(a))
  {
    hide StringOf;
    if a == [] {
      assert [p] + [] == [p] && [p][..0] == [];
    } else {
      PairCons(p, a[..|a| - 1]);
      assert ([p] + a)[..|a|] == [p] + a[..|a| - 1];
    }
  }

  lemma PairSaysJoin(p: Parsed<Pair>, q: Parsed<Pair>, t: PairText, u: PairText)
    requires PairSays(p, t) && PairSays(q, u)
    ensures PairSays(PairJoin(p, q), PairJoined(t, u))
  {
    hide Masked;
  }

  lemma NoPair(at: nat)
    ensures PairSays(PairIn(Walked([]), at), PairSaid([]))
  {
  }

  lemma {:induction false} AttributeIn(a: Attribute, at: nat)
    requires AttributeFine(a) && forall x <- AttributeFields(a) :: Fits(x)
    ensures PairSays(PairIn(Walked(AttributeFields(a)), at), PairSaid(a))
  {
    hide PairPartField, AsField, PairField, PairIn, Walked, PairSays, PairSaid, PairPartSaid, PairJoined, Fits;
    hide ValueFine;
    if a == [] {
      NoPair(at);
    } else {
      var x, tail := PairPartField(a[0]), AttributeFields(a[1..]);
      assert x in AttributeFields(a) && forall y <- tail :: y in AttributeFields(a);
      WalkedStep(x, tail);
      PairInUnfold(Walked([x] + tail), at);
      PairPartReads(a[0], at);
      AttributeIn(a[1..], at + |AsField(x).Bytes()|);
      PairSaysJoin(PairField(AsField(x), at), PairIn(Walked(tail), at + |AsField(x).Bytes()|),
        PairPartSaid(a[0]), PairSaid(a[1..]));
      PairCons(a[0], a[1..]);
      assert a == [a[0]] + a[1..];
    }
  }

  lemma {:induction false} AttributeShaped(a: Attribute)
    ensures AllShaped(AttributeFields(a))
  {
    hide Message, ValueFields;
    if a != [] { AttributeShaped(a[1..]); }
  }

  /** A written attribute is read back as the text it says, if it says any. */
  ghost predicate ReadsAttribute(r: Parsed<Option<Attr>>, a: Attribute) {
    r.Ok? && TextOf(a)
      == if r.value.Some? then Some(AttrText(r.value.value.key.text, r.value.value.value.text)) else None
  }

  lemma AttributeRead(a: Attribute, at: nat)
    requires AttributeFine(a) && |Message(AttributeFields(a))| < U64
    ensures ReadsAttribute(KeyValueOf(View(at, Message(AttributeFields(a)))), a)
  {
    hide Fields, Message, AttributeFields, Walked, AllShaped, PairIn, LastKey, LastValue, StringOf, Masked;
    AttributeShaped(a);
    Walks(AttributeFields(a));
    AttributeIn(a, at);
    var p := PairIn(Fields(Message(AttributeFields(a))), at).value;
    if p.value.Some? { TextIsPlain(p.value.value); }
  }

  lemma TextIsPlain(v: Option<View>)
    ensures MaskedText(v, [], []) == Text(v)
  {
    PlainTexts(v, []);
  }

  // ----- log records

  function Joined(t: DraftText, u: DraftText): DraftText {
    DraftText(t.body.Then(u.body), t.traceId.Then(u.traceId), t.severity.Then(u.severity), t.attrs + u.attrs)
  }

  const NOTHING := DraftText(None, None, None, [])

  /** Wherever they stand, these fields read as this text. */
  ghost predicate Reads(xs: seq<Wired>, t: DraftText) {
    forall at: nat :: DraftSays(DraftIn(Walked(xs), at), t)
  }

  ghost predicate DraftSays(d: Parsed<Draft>, t: DraftText) {
    d.Ok? && DraftMasked(d.value, [], []) == t
  }

  lemma SaysJoin(d: Parsed<Draft>, e: Parsed<Draft>, t: DraftText, u: DraftText)
    requires DraftSays(d, t) && DraftSays(e, u)
    ensures DraftSays(DraftJoin(d, e), Joined(t, u))
  {
    hide Masked;
    AttrsMaskedConcat(d.value.attrs, e.value.attrs, [], []);
  }

  lemma DraftJoinUnit(d: Parsed<Draft>, e: Parsed<Draft>, f: Parsed<Draft>)
    ensures DraftJoin(Ok(EMPTY_DRAFT), d) == d
    ensures DraftJoin(DraftJoin(d, e), f) == DraftJoin(d, DraftJoin(e, f))
  {
    Concat<Attr>();
    if d.Ok? { assert [] + d.value.attrs == d.value.attrs; }
  }

  lemma {:induction false} DraftConcat(xs: seq<Wired>, ys: seq<Wired>, at: nat)
    ensures exists at' :: DraftIn(Walked(xs + ys), at) == DraftJoin(DraftIn(Walked(xs), at), DraftIn(Walked(ys), at'))
  {
    hide DraftJoin, DraftField, AsField;
    if xs == [] {
      assert xs + ys == ys;
      DraftJoinUnit(DraftIn(Walked(ys), at), DraftIn(Walked(ys), at), DraftIn(Walked(ys), at));
      assert DraftIn(Walked(xs), at) == Ok(EMPTY_DRAFT);
    } else {
      var f, next := AsField(xs[0]), at + |AsField(xs[0]).Bytes()|;
      assert (xs + ys)[1..] == xs[1..] + ys && (xs + ys)[0] == xs[0];
      DraftConcat(xs[1..], ys, next);
      var at' :| DraftIn(Walked(xs[1..] + ys), next)
        == DraftJoin(DraftIn(Walked(xs[1..]), next), DraftIn(Walked(ys), at'));
      DraftInUnfold(Walked(xs + ys), at);
      DraftInUnfold(Walked(xs), at);
      DraftJoinUnit(DraftField(f, at), DraftIn(Walked(xs[1..]), next), DraftIn(Walked(ys), at'));
    }
  }

  lemma ReadsConcat(xs: seq<Wired>, ys: seq<Wired>, t: DraftText, u: DraftText)
    requires Reads(xs, t) && Reads(ys, u)
    ensures Reads(xs + ys, Joined(t, u))
  {
    hide DraftIn, DraftSays, DraftJoin, Walked, Joined;
    forall at: nat ensures DraftSays(DraftIn(Walked(xs + ys), at), Joined(t, u)) {
      DraftConcat(xs, ys, at);
      var at' :| DraftIn(Walked(xs + ys), at) == DraftJoin(DraftIn(Walked(xs), at), DraftIn(Walked(ys), at'));
      SaysJoin(DraftIn(Walked(xs), at), DraftIn(Walked(ys), at'), t, u);
    }
  }

  lemma ReadsOne(x: Wired, t: DraftText)
    requires forall at: nat :: DraftSays(DraftField(AsField(x), at), t)
    ensures Reads([x], t)
  {
    hide DraftField, DraftSays, DraftJoin, AsField;
    forall at: nat ensures DraftSays(DraftIn(Walked([x]), at), t) {
      assert [x][1..] == [];
      DraftInUnfold(Walked([x]), at);
      DraftInUnfold(Stop([]), at + |AsField(x).Bytes()|);
      JoinEmpty(DraftField(AsField(x), at));
    }
  }

  lemma JoinEmpty(d: Parsed<Draft>)
    ensures DraftJoin(d, Ok(EMPTY_DRAFT)) == d
  {
    if d.Ok? { assert d.value.attrs + [] == d.value.attrs; }
  }

  lemma ReadsNone()
    ensures Reads([], NOTHING)
  {
  }

  /** The parser has no use for a field of another number or wire type. */
  predicate Ignored(x: Wired) {
    match x
    case Number(num, _) => num != 2
    case Delimited(num, _) => num !in {5, 6, 9}
    case _ => true
  }

  lemma ReadsIgnored(x: Wired)
    requires Ignored(x)
    ensures Reads([x], NOTHING)
  {
    forall at: nat ensures DraftSays(DraftField(AsField(x), at), NOTHING) {}
    ReadsOne(x, NOTHING);
  }

  /** A signed 32-bit number survives its 64-bit two's complement. */
  lemma SignedReads(n: int)
    requires -0x8000_0000 <= n < 0x8000_0000
    ensures Signed(n) < U64 && AsI32(Signed(n)) == n
  {
    if n < 0 { assert Signed(n) == n + U64; }
  }

  /** What one part says on its own. */
  function PartSaid(p: RecordPart): DraftText {
    match p
    case Severity(level) => NOTHING.(severity := Some(level))
    case Body(v) => NOTHING.(body := StringOf(v))
    case Labelled(a) => NOTHING.(attrs := if TextOf(a).Some? then [TextOf(a).value] else [])
    case TraceId(id) => NOTHING.(traceId := if |id| in {16, 32} then Some(id) else None)
    case _ => NOTHING
  }

  lemma SeverityReads(level: int)
    requires -0x8000_0000 <= level < 0x8000_0000
    ensures Reads([Number(2, Signed(level))], NOTHING.(severity := Some(level)))
  {
    hide Reads, Encode, Decode, AsI32, Signed;
    var v, t := Signed(level), NOTHING.(severity := Some(level));
    SignedReads(level);
    forall at: nat ensures DraftSays(DraftField(AsField(Number(2, v)), at), t) {
      DecodeEncode(v, [], at + |TagBytes(2, 0)|);
      assert Encode(v) + [] == Encode(v);
    }
    ReadsOne(Number(2, v), t);
  }

  lemma BodyReads(v: Value)
    requires ValueFine(v) && |Message(ValueFields(v))| < U64
    ensures Reads([Delimited(5, Message(ValueFields(v)))], NOTHING.(body := StringOf(v)))
  {
    hide Reads, Message, AnyString, Fields, ValueFields;
    var x, t := Delimited(5, Message(ValueFields(v))), NOTHING.(body := StringOf(v));
    forall at: nat ensures DraftSays(DraftField(AsField(x), at), t) {
      ValueText(v, AsField(x).PayloadAt(at).at);
      TextIsPlain(AnyStringOf(AsField(x).PayloadAt(at)).value);
    }
    ReadsOne(x, t);
  }

  lemma TraceReads(id: bytes)
    ensures Reads([Delimited(9, id)], NOTHING.(traceId := if |id| in {16, 32} then Some(id) else None))
  {
    hide Reads, Encode;
    var x, t := Delimited(9, id), NOTHING.(traceId := if |id| in {16, 32} then Some(id) else None);
    forall at: nat ensures DraftSays(DraftField(AsField(x), at), t) {}
    ReadsOne(x, t);
  }

  lemma AttributeReads(a: Attribute)
    requires AttributeFine(a) && |Message(AttributeFields(a))| < U64
    ensures Reads([Delimited(6, Message(AttributeFields(a)))],
      NOTHING.(attrs := if TextOf(a).Some? then [TextOf(a).value] else []))
  {
    hide Reads, Message, KeyValueOf, AttributeFields, TextOf;
    var x := Delimited(6, Message(AttributeFields(a)));
    var t := NOTHING.(attrs := if TextOf(a).Some? then [TextOf(a).value] else []);
    forall at: nat ensures DraftSays(DraftField(AsField(x), at), t) {
      AttributeRead(a, AsField(x).PayloadAt(at).at);
      var r := KeyValueOf(AsField(x).PayloadAt(at)).value;
      if r.Some? { PlainText(r.value.value.text, r.value.value.at, []); }
    }
    ReadsOne(x, t);
  }

  lemma PartReads(p: RecordPart)
    requires RecordPartFine(p) && (RecordField(p).Delimited? ==> |RecordField(p).payload| < U64)
    ensures Reads([RecordField(p)], PartSaid(p))
  {
    hide Reads, Message, Signed, ValueFields, AttributeFields;
    match p {
      case Severity(level) => SeverityReads(level);
      case Body(v) => BodyReads(v);
      case Labelled(a) => AttributeReads(a);
      case TraceId(id) => TraceReads(id);
      case _ => ReadsIgnored(RecordField(p));
    }
  }

  lemma SaidSnoc(parts: seq<RecordPart>, p: RecordPart)
    ensures Said(parts + [p]) == Joined(Said(parts), PartSaid(p))
  {
    assert (parts + [p])[..|parts|] == parts;
  }

  lemma JoinedUnits(t: DraftText, u: DraftText, v: DraftText)
    ensures Joined(NOTHING, t) == t == Joined(t, NOTHING)
    ensures Joined(Joined(t, u), v) == Joined(t, Joined(u, v))
  {
  }

  /** What the first part says comes before what the others say. */
  lemma {:induction false} SaidCons(p: RecordPart, parts: seq<RecordPart>)
    ensures Said([p] + parts) == Joined(PartSaid(p), Said(parts))
  {
    hide Said, PartSaid, Joined;
    if parts == [] {
      SaidSnoc([], p);
      SaidNothing();
      assert [p] + [] == [p] == [] + [p];
      JoinedUnits(PartSaid(p), NOTHING, NOTHING);
    } else {
      var before, last := parts[..|parts| - 1], parts[|parts| - 1];
      SaidCons(p, before);
      SaidSnoc([p] + before, last);
      SaidSnoc(before, last);
      assert [p] + parts == ([p] + before) + [last] && parts == before + [last];
      JoinedUnits(PartSaid(p), Said(before), PartSaid(last));
    }
  }

  lemma SaidNothing()
    ensures Said([]) == NOTHING
  {
  }

  /** A log record reads as what it says, whichever parts it has and in whatever order. */
  lemma {:induction false} RecordReads(parts: seq<RecordPart>)
    requires RecordFine(parts)
    requires forall x <- RecordFields(parts) :: x.Delimited? ==> |x.payload| < U64
    ensures Reads(RecordFields(parts), Said(parts))
  {
    hide Reads, Said, RecordPartFine, RecordField, PartSaid, Joined;
    if parts == [] {
      ReadsNone();
      SaidNothing();
    } else {
      assert RecordField(parts[0]) in RecordFields(parts);
      assert forall x <- RecordFields(parts[1..]) :: x in RecordFields(parts);
      PartReads(parts[0]);
      RecordReads(parts[1..]);
      ReadsConcat([RecordField(parts[0])], RecordFields(parts[1..]), PartSaid(parts[0]), Said(parts[1..]));
      SaidCons(parts[0], parts[1..]);
      assert parts == [parts[0]] + parts[1..];
    }
  }

  lemma {:induction false} RecordShaped(parts: seq<RecordPart>)
    requires RecordFine(parts)
    ensures AllShaped(RecordFields(parts))
  {
    hide Message, ValueFields, AttributeFields, Signed;
    if parts != [] {
      assert RecordPartFine(parts[0]);
      RecordShaped(parts[1..]);
      if parts[0].Severity? { SignedReads(parts[0].level); }
    }
  }

  lemma RecordWalk(parts: seq<RecordPart>)
    requires RecordFine(parts) && |Message(RecordFields(parts))| < U64
    ensures Fields(Message(RecordFields(parts))) == Walked(RecordFields(parts))
    ensures Reads(RecordFields(parts), Said(parts))
  {
    hide Message, Walked, Fields, RecordFields, RecordFine, AllShaped, Reads, Said;
    RecordShaped(parts);
    Walks(RecordFields(parts));
    RecordReads(parts);
  }

  // ----- scopes, resources, groups and requests

  ghost predicate RecordsSay(p: Records, t: seq<RecordText>) {
    p.Ok? && Texts(p.value) == t
  }

  lemma RecordsSayJoin(p: Records, q: Records, t: seq<RecordText>, u: seq<RecordText>)
    requires RecordsSay(p, t) && RecordsSay(q, u)
    ensures RecordsSay(Join(p, q), t + u)
  {
    hide Texts;
    TextsConcat(p.value, q.value);
  }

  lemma NoRecords()
    ensures RecordsSay(Ok([]), [])
  {
  }

  lemma RecordWindow(parts: seq<RecordPart>, at: nat, resource: Resource)
    requires RecordFine(parts) && |Message(RecordFields(parts))| < U64
    ensures RecordsSay(ScopeField(AsField(Delimited(2, Message(RecordFields(parts)))), at, resource),
      [RecordText(Said(parts), ResourceTextOf(resource))])
  {
    hide Message, RecordFields, RecordFine, Fields, DraftIn, Said, Encode, DraftMasked, Walked;
    RecordWalk(parts);
    var v := AsField(Delimited(2, Message(RecordFields(parts)))).PayloadAt(at);
    assert DraftSays(DraftIn(Walked(RecordFields(parts)), v.at), Said(parts));
  }

  function ScopePartSaid(p: ScopePart, r: ResourceText): seq<RecordText> {
    if p.Record? then [RecordText(Said(p.parts), r)] else []
  }

  lemma ScopePartReads(p: ScopePart, at: nat, resource: Resource)
    requires (p.Record? ==> RecordFine(p.parts)) && Fits(ScopePartField(p))
    ensures RecordsSay(ScopeField(AsField(ScopePartField(p)), at, resource),
      ScopePartSaid(p, ResourceTextOf(resource)))
  {
    hide Message, RecordFields, RecordFine, Said, Encode, RecordOf;
    if p.Record? {
      RecordWindow(p.parts, at, resource);
    } else {
      NoRecords();
    }
  }

  lemma {:induction false} ScopeReads(parts: seq<ScopePart>, at: nat, resource: Resource)
    requires ScopeFine(parts) && forall x <- ScopeFields(parts) :: Fits(x)
    ensures RecordsSay(ScopeIn(Walked(ScopeFields(parts)), at, resource), ScopeSaid(parts, ResourceTextOf(resource)))
  {
    hide ScopePartField, RecordFine, AsField, ScopeField, ScopeIn, Walked, RecordsSay, Said, ResourceTextOf, Fits;
    if parts == [] {
      NoParts(at, resource);
    } else {
      var x, tail := ScopePartField(parts[0]), ScopeFields(parts[1..]);
      assert x in ScopeFields(parts) && forall y <- tail :: y in ScopeFields(parts);
      WalkedStep(x, tail);
      ScopeInUnfold(Walked([x] + tail), at, resource);
      ScopePartReads(parts[0], at, resource);
      ScopeReads(parts[1..], at + |AsField(x).Bytes()|, resource);
      RecordsSayJoin(ScopeField(AsField(x), at, resource),
        ScopeIn(Walked(tail), at + |AsField(x).Bytes()|, resource),
        ScopePartSaid(parts[0], ResourceTextOf(resource)),
        ScopeSaid(parts[1..], ResourceTextOf(resource)));
    }
  }

  lemma NoParts(at: nat, resource: Resource)
    ensures RecordsSay(ScopeIn(Walked([]), at, resource), [])
    ensures RecordsSay(RequestIn(Walked([]), at), [])
  {
  }

  lemma {:induction false} ScopeShaped(parts: seq<ScopePart>)
    ensures AllShaped(ScopeFields(parts))
  {
    hide Message, RecordFields;
    if parts != [] { ScopeShaped(parts[1..]); }
  }

  lemma ScopeRead(parts: seq<ScopePart>, at: nat, resource: Resource)
    requires ScopeFine(parts) && |Message(ScopeFields(parts))| < U64
    ensures RecordsSay(ScopeIn(Fields(Message(ScopeFields(parts))), at, resource),
      ScopeSaid(parts, ResourceTextOf(resource)))
  {
    hide Message, ScopeFields, ScopeFine, AllShaped, ScopeIn, Walked, RecordsSay, Fields, ResourceTextOf;
    ScopeShaped(parts);
    Walks(ScopeFields(parts));
    ScopeReads(parts, at, resource);
  }

  lemma Keys()
    ensures Ascii("k8s.namespace.name") == NAMESPACE_KEY && Ascii("service.name") == SERVICE_KEY
    ensures NAMESPACE_KEY != SERVICE_KEY
  {
    assert |NAMESPACE_KEY| != |SERVICE_KEY|;
  }

  ghost predicate ResourceSays(p: Parsed<Resource>, t: ResourceText) {
    p.Ok? && ResourceTextOf(p.value) == t
  }

  function ResourcePartSaid(p: ResourcePart): ResourceText { ResourceSaid([p]) }

  lemma OnePart(p: ResourcePart)
    ensures forall key :: LastUnder([p], key) == if p.Holds? && TextOf(p.attribute).Some?
                                                    && TextOf(p.attribute).value.key == key
                                                 then Some(TextOf(p.attribute).value.value) else None
  {
    assert [p][..0] == [];
  }

  lemma ResourcePartReads(p: ResourcePart, at: nat)
    requires ResourcePartFine(p) && Fits(ResourcePartField(p))
    ensures ResourceSays(ResourceField(AsField(ResourcePartField(p)), at), ResourcePartSaid(p))
  {
    hide Message, AttributeFields, KeyValueOf, Encode, LastUnder, TextOf;
    OnePart(p);
    if p.Holds? {
      AttributeRead(p.attribute, AsField(ResourcePartField(p)).PayloadAt(at).at);
      Keys();
    }
  }

  function ResourceJoin(own: Parsed<Resource>, later: Parsed<Resource>): Parsed<Resource> {
    var o :- own;
    var l :- later;
    Ok(o.Then(l))
  }

  lemma ResourceInUnfold(w: Walk, at: nat)
    requires w.Step?
    ensures ResourceIn(w, at) == ResourceJoin(ResourceField(w.field, at), ResourceIn(w.next, at + |w.field.Bytes()|))
  {
    hide ResourceField;
  }

  lemma {:induction false} UnderCons(p: ResourcePart, parts: seq<ResourcePart>, key: bytes)
    ensures LastUnder([p] + parts, key) == LastUnder([p], key).Then(LastUnder(parts, key))
  {
    if parts == [] {
      assert [p] + [] == [p];
    } else {
      UnderCons(p, parts[..|parts| - 1], key);
      assert ([p] + parts)[..|parts|] == [p] + parts[..|parts| - 1];
    }
  }

  lemma ResourceSaysJoin(r: Parsed<Resource>, q: Parsed<Resource>, p: ResourcePart, parts: seq<ResourcePart>)
    requires ResourceSays(r, ResourcePartSaid(p)) && ResourceSays(q, ResourceSaid(parts))
    ensures ResourceSays(ResourceJoin(r, q), ResourceSaid([p] + parts))
  {
    hide LastUnder;
    UnderCons(p, parts, Ascii("k8s.namespace.name"));
    UnderCons(p, parts, Ascii("service.name"));
  }

  lemma NoAttributes(at: nat)
    ensures ResourceSays(ResourceIn(Walked([]), at), ResourceSaid([]))
  {
  }

  lemma {:induction false} ResourceReads(parts: seq<ResourcePart>, at: nat)
    requires ResourceFine(parts) && forall x <- ResourceFields(parts) :: Fits(x)
    ensures ResourceSays(ResourceIn(Walked(ResourceFields(parts)), at), ResourceSaid(parts))
  {
    hide ResourcePartField, AsField, ResourceField, ResourceIn, Walked, ResourceSays, ResourceSaid;
    hide ResourcePartFine, ResourcePartSaid, Fits;
    if parts == [] {
      NoAttributes(at);
    } else {
      var x, tail := ResourcePartField(parts[0]), ResourceFields(parts[1..]);
      assert x in ResourceFields(parts) && forall y <- tail :: y in ResourceFields(parts);
      WalkedStep(x, tail);
      ResourceInUnfold(Walked([x] + tail), at);
      ResourcePartReads(parts[0], at);
      ResourceReads(parts[1..], at + |AsField(x).Bytes()|);
      assert parts == [parts[0]] + parts[1..];
      ResourceSaysJoin(ResourceField(AsField(x), at), ResourceIn(Walked(tail), at + |AsField(x).Bytes()|), parts[0],
        parts[1..]);
    }
  }

  lemma {:induction false} ResourceShaped(parts: seq<ResourcePart>)
    requires ResourceFine(parts)
    ensures AllShaped(ResourceFields(parts))
  {
    hide Message, AttributeFields;
    if parts != [] {
      assert ResourcePartFine(parts[0]);
      ResourceShaped(parts[1..]);
    }
  }

  lemma ResourceRead(parts: seq<ResourcePart>, at: nat)
    requires ResourceFine(parts) && |Message(ResourceFields(parts))| < U64
    ensures ResourceSays(ResourceIn(Fields(Message(ResourceFields(parts))), at), ResourceSaid(parts))
  {
    hide Message, ResourceFields, ResourceFine, AllShaped, ResourceIn, Walked, Fields, ResourceSays, ResourceSaid;
    ResourceShaped(parts);
    Walks(ResourceFields(parts));
    ResourceReads(parts, at);
  }

  function Scopes(parts: seq<GroupPart>): seq<seq<ScopePart>> {
    if parts == [] then [] else (if parts[0].Logs? then [parts[0].scope] else []) + Scopes(parts[1..])
  }

  function Resources(parts: seq<GroupPart>): seq<seq<ResourcePart>> {
    if parts == [] then [] else (if parts[0].Of? then [parts[0].resource] else []) + Resources(parts[1..])
  }

  function ScopeTexts(scopes: seq<seq<ScopePart>>): (r: seq<bytes>)
    ensures |r| == |scopes|
  {
    if scopes == [] then [] else [Message(ScopeFields(scopes[0]))] + ScopeTexts(scopes[1..])
  }

  function ResourceTexts(resources: seq<seq<ResourcePart>>): (r: seq<bytes>)
    ensures |r| == |resources| && forall i | 0 <= i < |r| :: r[i] == Message(ResourceFields(resources[i]))
  {
    if resources == [] then [] else [Message(ResourceFields(resources[0]))] + ResourceTexts(resources[1..])
  }

  function ScopesSaid(scopes: seq<seq<ScopePart>>, r: ResourceText): seq<RecordText> {
    if scopes == [] then [] else ScopeSaid(scopes[0], r) + ScopesSaid(scopes[1..], r)
  }

  lemma {:induction false} GroupSaidScopes(parts: seq<GroupPart>, r: ResourceText)
    ensures GroupSaid(parts, r) == ScopesSaid(Scopes(parts), r)
  {
    hide ScopeSaid;
    if parts != [] {
      GroupSaidScopes(parts[1..], r);
      assert if parts[0].Logs? then Scopes(parts)[1..] == Scopes(parts[1..]) else Scopes(parts) == Scopes(parts[1..]);
    }
  }

  lemma {:induction false} ResourcesSnoc(parts: seq<GroupPart>, p: GroupPart)
    ensures Resources(parts + [p]) == Resources(parts) + if p.Of? then [p.resource] else []
  {
    if parts == [] {
      assert [] + [p] == [p] && [p][1..] == [];
    } else {
      ResourcesSnoc(parts[1..], p);
      assert (parts + [p])[1..] == parts[1..] + [p];
    }
  }

  lemma {:induction false} LastOfResources(parts: seq<GroupPart>)
    ensures var rs := Resources(parts);
      LastOf(parts) == if rs == [] then ResourceText(None, None) else ResourceSaid(rs[|rs| - 1])
  {
    hide ResourceSaid;
    if parts != [] {
      var before, p := parts[..|parts| - 1], parts[|parts| - 1];
      LastOfResources(before);
      ResourcesSnoc(before, p);
      assert parts == before + [p];
    }
  }

  lemma {:induction false} ScopesRead(scopes: seq<seq<ScopePart>>, windows: seq<View>, resource: Resource)
    requires WindowTexts(windows) == ScopeTexts(scopes)
    requires forall s <- scopes :: ScopeFine(s) && |Message(ScopeFields(s))| < U64
    ensures RecordsSay(ScopesOf(windows, resource), ScopesSaid(scopes, ResourceTextOf(resource)))
  {
    hide Message, ScopeFields, ScopeFine, ScopeIn, RecordsSay, ScopeSaid, ResourceTextOf, Fields;
    ScopesOfUnfold(windows, resource);
    assert |windows| == |WindowTexts(windows)|;
    if scopes == [] {
      NoRecords();
    } else {
      assert WindowTexts(windows)[0] == windows[0].text;
      assert WindowTexts(windows[1..]) == WindowTexts(windows)[1..] == ScopeTexts(scopes[1..]);
      ScopeRead(scopes[0], windows[0].at, resource);
      ScopesRead(scopes[1..], windows[1..], resource);
      RecordsSayJoin(ScopeIn(Fields(windows[0].text), windows[0].at, resource), ScopesOf(windows[1..], resource),
        ScopeSaid(scopes[0], ResourceTextOf(resource)), ScopesSaid(scopes[1..], ResourceTextOf(resource)));
    }
  }

  lemma TextsCons(p: GroupPart, parts: seq<GroupPart>)
    ensures ScopeTexts(Scopes([p] + parts))
      == (if p.Logs? then [Message(ScopeFields(p.scope))] else []) + ScopeTexts(Scopes(parts))
    ensures ResourceTexts(Resources([p] + parts))
      == (if p.Of? then [Message(ResourceFields(p.resource))] else []) + ResourceTexts(Resources(parts))
  {
    hide Message, ScopeFields, ResourceFields;
    assert ([p] + parts)[1..] == parts;
    var scopes, resources := Scopes([p] + parts), Resources([p] + parts);
    assert if p.Logs? then scopes[1..] == Scopes(parts) else scopes == Scopes(parts);
    assert if p.Of? then resources[1..] == Resources(parts) else resources == Resources(parts);
  }

  lemma NoPayloads()
    ensures Walked(GroupFields([])) == Stop([]) && ScopeTexts(Scopes([])) == [] && ResourceTexts(Resources([])) == []
  {
  }

  lemma OwnPayloads(p: GroupPart)
    ensures var f := AsField(GroupPartField(p));
      && (f.Is(1, 2) <==> p.Of?) && (p.Of? ==> f.payload == Message(ResourceFields(p.resource)))
      && (f.Is(2, 2) <==> p.Logs?) && (p.Logs? ==> f.payload == Message(ScopeFields(p.scope)))
  {
    hide Message, Encode;
  }

  lemma {:induction false} GroupPayloads(parts: seq<GroupPart>)
    ensures var w := Walked(GroupFields(parts));
      && Clean(w) && Payloads(w, 1) == ResourceTexts(Resources(parts)) && Payloads(w, 2) == ScopeTexts(Scopes(parts))
  {
    hide Message, ScopeFields, ResourceFields, ScopeTexts, ResourceTexts, Scopes, Resources, AsField, GroupPartField,
      Walked;
    if parts == [] {
      NoPayloads();
    } else {
      var x, tail := GroupPartField(parts[0]), GroupFields(parts[1..]);
      WalkedStep(x, tail);
      GroupPayloads(parts[1..]);
      TextsCons(parts[0], parts[1..]);
      OwnPayloads(parts[0]);
      assert parts == [parts[0]] + parts[1..];
    }
  }

  lemma {:induction false} GroupShaped(parts: seq<GroupPart>)
    ensures AllShaped(GroupFields(parts))
    ensures forall s <- Scopes(parts) :: Logs(s) in parts && Delimited(2, Message(ScopeFields(s))) in GroupFields(parts)
    ensures forall r <- Resources(parts) ::
      Of(r) in parts && Delimited(1, Message(ResourceFields(r))) in GroupFields(parts)
  {
    hide Message, ScopeFields, ResourceFields;
    if parts != [] { GroupShaped(parts[1..]); }
  }

  lemma GroupWalk(parts: seq<GroupPart>)
    requires GroupFine(parts) && |Message(GroupFields(parts))| < U64
    ensures Fields(Message(GroupFields(parts))) == Walked(GroupFields(parts))
    ensures forall s <- Scopes(parts) :: ScopeFine(s) && |Message(ScopeFields(s))| < U64
    ensures forall r <- Resources(parts) :: ResourceFine(r) && |Message(ResourceFields(r))| < U64
  {
    hide Message, ScopeFields, ResourceFields, ResourceFine, ScopeFine, Fields, Walked, GroupFields, AllShaped, Scopes,
      Resources;
    GroupShaped(parts);
    Walks(GroupFields(parts));
    forall s <- Scopes(parts) ensures ScopeFine(s) && |Message(ScopeFields(s))| < U64 {
      assert GroupPartFine(Logs(s));
    }
    forall r <- Resources(parts) ensures ResourceFine(r) && |Message(ResourceFields(r))| < U64 {
      assert GroupPartFine(Of(r));
    }
  }

  lemma LastResourceReads(g: Parsed<Group>, resources: seq<seq<ResourcePart>>, scopes: seq<bytes>)
    requires forall r <- resources :: ResourceFine(r) && |Message(ResourceFields(r))| < U64
    requires Projects(g, true, ResourceTexts(resources), scopes)
    ensures g.Ok? && WindowTexts(g.value.scopes) == scopes
    ensures ResourceTextOf(Found(g.value.resource))
      == if resources == [] then ResourceText(None, None) else ResourceSaid(resources[|resources| - 1])
  {
    hide Fields, ResourceIn, ResourceTextOf, WindowTexts, Message, ResourceFields, ResourceFine, ResourceSaid;
    forall i | 0 <= i < |resources|
      ensures ResourceSays(ResourceIn(Fields(ResourceTexts(resources)[i]), 0), ResourceSaid(resources[i]))
    {
      assert resources[i] in resources;
      ResourceRead(resources[i], 0);
    }
    EmptyResourceSays();
  }

  lemma EmptyResourceSays()
    ensures ResourceTextOf(EMPTY_RESOURCE) == ResourceText(None, None)
  {
  }

  lemma GroupRead(parts: seq<GroupPart>, at: nat)
    requires GroupFine(parts) && |Message(GroupFields(parts))| < U64
    ensures RecordsSay(GroupOf(View(at, Message(GroupFields(parts)))), GroupSaid(parts, LastOf(parts)))
  {
    hide *;
    GroupWalk(parts);
    GroupPayloads(parts);
    var w := Fields(Message(GroupFields(parts)));
    GroupProjects(w, at);
    LastResourceReads(GroupIn(w, at), Resources(parts), ScopeTexts(Scopes(parts)));
    LastOfResources(parts);
    GroupSaidScopes(parts, LastOf(parts));
    GroupOfParts(View(at, Message(GroupFields(parts))));
    ScopesRead(Scopes(parts), GroupIn(w, at).value.scopes, Found(GroupIn(w, at).value.resource));
  }

  lemma GroupOfParts(v: View)
    requires GroupIn(Fields(v.text), v.at).Ok?
    ensures var g := GroupIn(Fields(v.text), v.at).value; GroupOf(v) == ScopesOf(g.scopes, Found(g.resource))
  {
    hide Fields, GroupIn, ScopesOf;
  }

  lemma {:induction false} GroupsShaped(q: Request)
    ensures AllShaped(RequestFields(q))
    ensures forall g <- q :: Delimited(1, Message(GroupFields(g))) in RequestFields(q)
  {
    hide Message, GroupFields;
    if q != [] { GroupsShaped(q[1..]); }
  }

  lemma GroupWindow(parts: seq<GroupPart>, at: nat)
    requires GroupFine(parts) && |Message(GroupFields(parts))| < U64
    ensures RecordsSay(RequestField(AsField(Delimited(1, Message(GroupFields(parts)))), at),
      GroupSaid(parts, LastOf(parts)))
  {
    hide Message, GroupFields, GroupOf, RecordsSay, GroupSaid, LastOf, GroupFine, Encode;
    GroupRead(parts, AsField(Delimited(1, Message(GroupFields(parts)))).PayloadAt(at).at);
  }

  lemma {:induction false} GroupsRead(q: Request, at: nat)
    requires forall g <- q :: GroupFine(g) && |Message(GroupFields(g))| < U64
    ensures RecordsSay(RequestIn(Walked(RequestFields(q)), at), RequestSaid(q))
  {
    hide Message, GroupFields, GroupFine, RecordsSay, RequestIn, RequestField, Walked, AsField, GroupSaid, LastOf;
    if q == [] {
      NoParts(at, EMPTY_RESOURCE);
    } else {
      var x := Delimited(1, Message(GroupFields(q[0])));
      WalkedStep(x, RequestFields(q[1..]));
      RequestInUnfold(Walked(RequestFields(q)), at);
      GroupWindow(q[0], at);
      GroupsRead(q[1..], at + |AsField(x).Bytes()|);
      RecordsSayJoin(RequestField(AsField(x), at), RequestIn(Walked(RequestFields(q[1..])), at + |AsField(x).Bytes()|),
        GroupSaid(q[0], LastOf(q[0])), RequestSaid(q[1..]));
    }
  }

  /** The schema round trip: a request written by its schema, with any parts in any order, parses,
      and the records found say what was written: in order, each with its last string body, its
      string attributes, its last trace id of 16 or 32 bytes and its last severity, under the last
      namespace and service name of the last Resource. */
  lemma SchemaRoundTrip(q: Request)
    requires |Encoded(q)| < U64 && forall g <- q :: GroupFine(g)
    ensures Parse(Encoded(q)).Ok? && Texts(Parse(Encoded(q)).value) == RequestSaid(q)
  {
    hide Message, Fields, Walked, RequestFields, GroupFields, GroupFine, RequestIn, RequestSaid, Texts;
    GroupsShaped(q);
    Walks(RequestFields(q));
    forall g <- q ensures |Message(GroupFields(g))| < U64 {
      assert Delimited(1, Message(GroupFields(g))) in RequestFields(q);
    }
    GroupsRead(q, 0);
  }
}
