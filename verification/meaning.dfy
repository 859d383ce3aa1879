/** What governing a request does to the records parsed from it. */
module Meaning {
  import opened Prelude
  import opened Varint
  import opened Wire
  import opened Otlp
  import opened Envelope
  import opened Spans
  import opened Govern

  // ----- the text of parsed records, without their positions

  datatype AttrText = AttrText(key: bytes, value: bytes)
  datatype PairText = PairText(key: Option<bytes>, value: Option<Option<bytes>>)
  datatype DraftText = DraftText(body: Option<bytes>, traceId: Option<bytes>, severity: Option<int>,
    attrs: seq<AttrText>)
  datatype ResourceText = ResourceText(namespace: Option<bytes>, service: Option<bytes>)
  datatype RecordText = RecordText(draft: DraftText, resource: ResourceText)

  function Text(v: Option<View>): Option<bytes> {
    if v.Some? then Some(v.value.text) else None
  }

  function Masked(v: View, spans: seq<Span>, masks: Masks): bytes {
    Governed(v.text, v.at, spans, masks)
  }

  function MaskedText(v: Option<View>, spans: seq<Span>, masks: Masks): Option<bytes> {
    if v.Some? then Some(Masked(v.value, spans, masks)) else None
  }

  function PairMasked(p: Pair, spans: seq<Span>, masks: Masks): PairText {
    PairText(Text(p.key), if p.value.Some? then Some(MaskedText(p.value.value, spans, masks)) else None)
  }

  function AttrsMasked(attrs: seq<Attr>, spans: seq<Span>, masks: Masks): seq<AttrText> {
    seq(|attrs|, i requires 0 <= i < |attrs| => AttrText(attrs[i].key.text, Masked(attrs[i].value, spans, masks)))
  }

  function DraftMasked(d: Draft, spans: seq<Span>, masks: Masks): DraftText {
    DraftText(MaskedText(d.body, spans, masks), Text(d.traceId), d.severity, AttrsMasked(d.attrs, spans, masks))
  }

  function ResourceTextOf(r: Resource): ResourceText {
    ResourceText(Text(r.namespace), Text(r.service))
  }

  function RecordMasked(r: RecordView, spans: seq<Span>, masks: Masks): RecordText {
    RecordText(DraftMasked(r.draft, spans, masks), ResourceTextOf(r.resource))
  }

  /** The text of a record as parsed: nothing masked. */
  function Plain(r: RecordView): RecordText {
    RecordMasked(r, [], [])
  }

  function Texts(records: seq<RecordView>): seq<RecordText> {
    seq(|records|, i requires 0 <= i < |records| => Plain(records[i]))
  }

  /** The records that survive sampling, in order, each with its own spans masked. */
  function Kept(records: seq<RecordView>, idx: nat, d: Decided, masks: Masks): seq<RecordText> {
    if records == [] then []
    else
      var later := Kept(records[1..], idx + 1, d, masks);
      if d.VerdictFor(idx).Drop? then later else [RecordMasked(records[0], d.SpansFor(idx), masks)] + later
  }

  // ----- text does not depend on position

  lemma UntouchedText(text: bytes, at: nat, spans: seq<Span>, masks: Masks)
    requires Effective(spans, at, at + |text|) == []
    ensures Governed(text, at, spans, masks) == text
  {
  }

  lemma PlainText(text: bytes, at: nat, masks: Masks)
    ensures Governed(text, at, [], masks) == text
  {
    assert Effective([], at, at + |text|) == [];
  }

  lemma {:induction false} AnyMoved(w: Walk, at: nat, at': nat)
    ensures AnyString(w, at).Ok? == AnyString(w, at').Ok?
    ensures AnyString(w, at).Ok? ==> Text(AnyString(w, at).value) == Text(AnyString(w, at').value)
  {
    if w.Step? { AnyMoved(w.next, at + |w.field.Bytes()|, at' + |w.field.Bytes()|); }
  }

  ghost predicate SamePair(p: Pair, q: Pair) {
    && Text(p.key) == Text(q.key)
    && p.value.Some? == q.value.Some?
    && (p.value.Some? ==> Text(p.value.value) == Text(q.value.value))
  }

  lemma PairFieldMoved(f: Field, at: nat, at': nat)
    ensures PairField(f, at).Ok? == PairField(f, at').Ok?
    ensures PairField(f, at).Ok? ==> SamePair(PairField(f, at).value, PairField(f, at').value)
  {
    hide Fields, AnyString;
    AnyMoved(Fields(f.payload), at + |f.head|, at' + |f.head|);
  }

  lemma {:induction false} PairMoved(w: Walk, at: nat, at': nat)
    ensures PairIn(w, at).Ok? == PairIn(w, at').Ok?
    ensures PairIn(w, at).Ok? ==> SamePair(PairIn(w, at).value, PairIn(w, at').value)
  {
    if w.Step? {
      hide PairField;
      PairFieldMoved(w.field, at, at');
      PairMoved(w.next, at + |w.field.Bytes()|, at' + |w.field.Bytes()|);
    }
  }

  lemma {:induction false} ResourceMoved(w: Walk, at: nat, at': nat)
    ensures ResourceIn(w, at).Ok? == ResourceIn(w, at').Ok?
    ensures ResourceIn(w, at).Ok?
      ==> ResourceTextOf(ResourceIn(w, at).value) == ResourceTextOf(ResourceIn(w, at').value)
  {
    hide Fields, PairIn;
    if w.Step? {
      var f := w.field;
      PairMoved(Fields(f.payload), at + |f.head|, at' + |f.head|);
      ResourceMoved(w.next, at + |f.Bytes()|, at' + |f.Bytes()|);
    }
  }

  // ----- the governed fields are read back as they were written

  lemma StepSound(f: Field, next: Walk)
    requires f.Sound() && AllSound(next) && Clean(next)
    ensures AllSound(Step(f, next)) && Clean(Step(f, next))
  {
  }

  lemma StepParts(w: Walk)
    ensures w.Stop? ==> AllSound(w) && Clean(w) == (w.rest == [])
    ensures w.Step? ==> Unwalk(w) == w.field.Bytes() + Unwalk(w.next)
    ensures w.Step? && AllSound(w) ==> w.field.Sound() && AllSound(w.next)
    ensures w.Step? ==> Clean(w) == Clean(w.next)
  {
  }

  lemma EncloseSound(f: Field, touched: bool, inner: Walk)
    requires f.Sound() && f.num < 16 && |Enclose(f, touched, inner).Bytes()| < U64
    ensures Enclose(f, touched, inner).Sound()
  {
    if touched { CanonicalSound(f.num, Unwalk(inner)); }
  }

  lemma StringSound(f: Field, at: nat, spans: seq<Span>, masks: Masks)
    requires f.Sound() && GovernString(f, at, spans, masks).Ok?
      && |GovernString(f, at, spans, masks).value.Bytes()| < U64
    ensures GovernString(f, at, spans, masks).value.Sound()
  {
    hide Governed, Selected, Field.Sound;
    if StringTouched(f, at, spans) {
      CanonicalSound(1, Governed(f.payload, at + |f.head|, spans, masks));
    }
  }

  lemma {:induction false} AnySound(w: Walk, at: nat, spans: seq<Span>, masks: Masks)
    requires AllSound(w) && GovernAny(w, at, spans, masks).Ok?
    requires |Unwalk(GovernAny(w, at, spans, masks).value)| < U64
    ensures AllSound(GovernAny(w, at, spans, masks).value) && Clean(GovernAny(w, at, spans, masks).value)
  {
    hide *;
    AnyUnfold(w, at, spans, masks);
    StepParts(w);
    if w.Step? {
      var g, n := GovernString(w.field, at, spans, masks).value,
        GovernAny(w.next, at + |w.field.Bytes()|, spans, masks).value;
      StepParts(Step(g, n));
      AnySound(w.next, at + |w.field.Bytes()|, spans, masks);
      StringSound(w.field, at, spans, masks);
      StepSound(g, n);
    }
  }

  lemma {:induction false} AnyUntouched(w: Walk, at: nat, spans: seq<Span>, masks: Masks)
    requires GovernAny(w, at, spans, masks).Ok? && !AnyTouched(w, at, spans)
    ensures GovernAny(w, at, spans, masks).value == w
  {
    if w.Step? { AnyUntouched(w.next, at + |w.field.Bytes()|, spans, masks); }
  }

  /** The payload of an enclosed AnyValue walks to exactly the governed fields. */
  lemma AnyEnclosed(f: Field, at: nat, spans: seq<Span>, masks: Masks)
    requires GovernAny(Fields(f.payload), at, spans, masks).Ok?
    requires var inner := GovernAny(Fields(f.payload), at, spans, masks).value;
      |Enclose(f, AnyTouched(Fields(f.payload), at, spans), inner).Bytes()| < U64
    ensures var inner := GovernAny(Fields(f.payload), at, spans, masks).value;
      Fields(Enclose(f, AnyTouched(Fields(f.payload), at, spans), inner).payload) == inner
  {
    var w := Fields(f.payload);
    WalkFaithful(f.payload);
    if AnyTouched(w, at, spans) {
      AnySound(w, at, spans, masks);
      Rewalk(GovernAny(w, at, spans, masks).value);
    } else {
      AnyUntouched(w, at, spans, masks);
    }
  }

  lemma ValueSound(f: Field, at: nat, spans: seq<Span>, masks: Masks)
    requires f.Sound() && GovernValue(f, at, spans, masks).Ok? && |GovernValue(f, at, spans, masks).value.Bytes()| < U64
    ensures GovernValue(f, at, spans, masks).value.Sound()
  {
    hide Fields, GovernAny, Field.Sound, Enclose;
    if f.Is(2, 2) {
      EncloseSound(f, ValueTouched(f, at, spans), GovernAny(Fields(f.payload), at + |f.head|, spans, masks).value);
    }
  }

  lemma {:induction false} PairSound(w: Walk, at: nat, spans: seq<Span>, masks: Masks)
    requires AllSound(w) && GovernPair(w, at, spans, masks).Ok?
    requires |Unwalk(GovernPair(w, at, spans, masks).value)| < U64
    ensures AllSound(GovernPair(w, at, spans, masks).value) && Clean(GovernPair(w, at, spans, masks).value)
  {
    hide *;
    PairUnfold(w, at, spans, masks);
    StepParts(w);
    if w.Step? {
      var g, n := GovernValue(w.field, at, spans, masks).value,
        GovernPair(w.next, at + |w.field.Bytes()|, spans, masks).value;
      StepParts(Step(g, n));
      PairSound(w.next, at + |w.field.Bytes()|, spans, masks);
      ValueSound(w.field, at, spans, masks);
      StepSound(g, n);
    }
  }

  lemma {:induction false} PairUntouched(w: Walk, at: nat, spans: seq<Span>, masks: Masks)
    requires GovernPair(w, at, spans, masks).Ok? && !PairTouched(w, at, spans)
    ensures GovernPair(w, at, spans, masks).value == w
  {
    if w.Step? { PairUntouched(w.next, at + |w.field.Bytes()|, spans, masks); }
  }

  lemma PairEnclosed(f: Field, at: nat, spans: seq<Span>, masks: Masks)
    requires GovernPair(Fields(f.payload), at, spans, masks).Ok?
    requires var inner := GovernPair(Fields(f.payload), at, spans, masks).value;
      |Enclose(f, PairTouched(Fields(f.payload), at, spans), inner).Bytes()| < U64
    ensures var inner := GovernPair(Fields(f.payload), at, spans, masks).value;
      Fields(Enclose(f, PairTouched(Fields(f.payload), at, spans), inner).payload) == inner
  {
    var w := Fields(f.payload);
    WalkFaithful(f.payload);
    if PairTouched(w, at, spans) {
      PairSound(w, at, spans, masks);
      Rewalk(GovernPair(w, at, spans, masks).value);
    } else {
      PairUntouched(w, at, spans, masks);
    }
  }

  lemma PartSound(f: Field, at: nat, spans: seq<Span>, masks: Masks)
    requires f.Sound() && GovernPart(f, at, spans, masks).Ok? && |GovernPart(f, at, spans, masks).value.Bytes()| < U64
    ensures GovernPart(f, at, spans, masks).value.Sound()
  {
    hide Fields, GovernAny, GovernPair, Field.Sound, Enclose, PartTouched;
    if f.Is(5, 2) {
      EncloseSound(f, PartTouched(f, at, spans), GovernAny(Fields(f.payload), at + |f.head|, spans, masks).value);
    } else if f.Is(6, 2) {
      EncloseSound(f, PartTouched(f, at, spans), GovernPair(Fields(f.payload), at + |f.head|, spans, masks).value);
    }
  }

  lemma {:induction false} RecordSound(w: Walk, at: nat, spans: seq<Span>, masks: Masks)
    requires AllSound(w) && GovernRecord(w, at, spans, masks).Ok?
    requires |Unwalk(GovernRecord(w, at, spans, masks).value)| < U64
    ensures AllSound(GovernRecord(w, at, spans, masks).value) && Clean(GovernRecord(w, at, spans, masks).value)
  {
    hide *;
    RecordUnfold(w, at, spans, masks);
    StepParts(w);
    if w.Step? {
      var g, n := GovernPart(w.field, at, spans, masks).value,
        GovernRecord(w.next, at + |w.field.Bytes()|, spans, masks).value;
      StepParts(Step(g, n));
      RecordSound(w.next, at + |w.field.Bytes()|, spans, masks);
      PartSound(w.field, at, spans, masks);
      StepSound(g, n);
    }
  }

  lemma {:induction false} RecordUntouched(w: Walk, at: nat, spans: seq<Span>, masks: Masks)
    requires GovernRecord(w, at, spans, masks).Ok? && !RecordTouched(w, at, spans)
    ensures GovernRecord(w, at, spans, masks).value == w
  {
    if w.Step? { RecordUntouched(w.next, at + |w.field.Bytes()|, spans, masks); }
  }

  lemma ChildSound(f: Field, at: nat, idx: nat, d: Decided, masks: Masks, level: Level)
    requires f.Sound() && GovernField(f, at, idx, d, masks, level).Ok?
      && GovernField(f, at, idx, d, masks, level).value.Some?
    requires |GovernField(f, at, idx, d, masks, level).value.value.Bytes()| < U64
    ensures GovernField(f, at, idx, d, masks, level).value.value.Sound()
  {
    hide GovernChild, FateOf, Field.Sound, Enclose;
    if f.Is(level.ChildField(), 2) {
      EncloseSound(f, FateOf(f, at, idx, d, level).Rewritten?, GovernChild(f, at, idx, d, masks, level).value);
    }
  }

  lemma {:induction false} AllGovernedSound(w: Walk, at: nat, idx: nat, d: Decided, masks: Masks, level: Level)
    requires AllSound(w) && GovernAll(w, at, idx, d, masks, level).Ok?
    requires |Unwalk(GovernAll(w, at, idx, d, masks, level).value)| < U64
    ensures AllSound(GovernAll(w, at, idx, d, masks, level).value)
      && Clean(GovernAll(w, at, idx, d, masks, level).value)
  {
    hide *;
    AllUnfold(w, at, idx, d, masks, level);
    StepParts(w);
    if w.Step? {
      var at', idx' := at + |w.field.Bytes()|, idx + FieldCount(w.field, level);
      var g, n := GovernField(w.field, at, idx, d, masks, level).value,
        GovernAll(w.next, at', idx', d, masks, level).value;
      if g.Some? {
        StepParts(Step(g.value, n));
        AllGovernedSound(w.next, at', idx', d, masks, level);
        ChildSound(w.field, at, idx, d, masks, level);
        StepSound(g.value, n);
      } else {
        AllGovernedSound(w.next, at', idx', d, masks, level);
      }
    }
  }

  lemma UntouchedUnfold(w: Walk, at: nat, idx: nat, d: Decided, level: Level)
    requires w.Step? && !Touched(w, at, idx, d, level)
    ensures FateOf(w.field, at, idx, d, level).Untouched?
    ensures !Touched(w.next, at + |w.field.Bytes()|, idx + FieldCount(w.field, level), d, level)
  {
    hide FateOf, FieldCount;
  }

  lemma UntouchedField(f: Field, at: nat, idx: nat, d: Decided, masks: Masks, level: Level)
    requires GovernField(f, at, idx, d, masks, level).Ok? && FateOf(f, at, idx, d, level).Untouched?
    ensures GovernField(f, at, idx, d, masks, level).value == Some(f)
  {
    hide GovernChild, FateOf, Unwalk, Header;
  }

  lemma {:induction false} AllUntouched(w: Walk, at: nat, idx: nat, d: Decided, masks: Masks, level: Level)
    requires GovernAll(w, at, idx, d, masks, level).Ok? && !Touched(w, at, idx, d, level)
    ensures GovernAll(w, at, idx, d, masks, level).value == w
  {
    hide *;
    AllUnfold(w, at, idx, d, masks, level);
    if w.Step? {
      UntouchedUnfold(w, at, idx, d, level);
      UntouchedField(w.field, at, idx, d, masks, level);
      AllUntouched(w.next, at + |w.field.Bytes()|, idx + FieldCount(w.field, level), d, masks, level);
    }
  }

  /** The payload of an enclosed container child walks to exactly its governed fields. */
  lemma ChildEnclosed(f: Field, at: nat, idx: nat, d: Decided, masks: Masks, level: Level)
    requires f.Is(level.ChildField(), 2) && !FateOf(f, at, idx, d, level).Omitted?
    requires GovernChild(f, at, idx, d, masks, level).Ok?
    requires |Enclose(f, FateOf(f, at, idx, d, level).Rewritten?,
      GovernChild(f, at, idx, d, masks, level).value).Bytes()| < U64
    ensures var inner := GovernChild(f, at, idx, d, masks, level).value;
      Fields(Enclose(f, FateOf(f, at, idx, d, level).Rewritten?, inner).payload) == inner
  {
    hide GovernRecord, GovernAll, RecordTouched, Touched, Fields;
    var w, base := Fields(f.payload), at + |f.head|;
    WalkFaithful(f.payload);
    var inner := GovernChild(f, at, idx, d, masks, level).value;
    if FateOf(f, at, idx, d, level).Rewritten? {
      if level.Scope? {
        RecordSound(w, base, d.SpansFor(idx), masks);
      } else {
        AllGovernedSound(w, base, idx, d, masks, level.Below());
      }
      Rewalk(inner);
    } else if level.Scope? {
      RecordUntouched(w, base, d.SpansFor(idx), masks);
    } else {
      AllUntouched(w, base, idx, d, masks, level.Below());
    }
  }
}
