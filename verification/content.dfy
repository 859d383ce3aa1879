/** Parsing the governed request yields exactly the surviving records, masked. */
module Content {
  import opened Prelude
  import opened Varint
  import opened Wire
  import opened Otlp
  import opened Envelope
  import opened Spans
  import opened Govern
  import opened Meaning

  // ----- AnyValue

  ghost predicate AnyReads(w: Walk, at: nat, w': Walk, at': nat, spans: seq<Span>, masks: Masks) {
    && AnyString(w, at).Ok?
    && AnyString(w', at').Ok?
    && MaskedText(AnyString(w, at).value, spans, masks) == Text(AnyString(w', at').value)
  }

  lemma StringReads(f: Field, at: nat, spans: seq<Span>, masks: Masks)
    requires GovernString(f, at, spans, masks).Ok?
    ensures var g := GovernString(f, at, spans, masks).value;
      && g.Is(1, 2) == f.Is(1, 2)
      && (f.Is(1, 2) ==> g.payload == Masked(f.PayloadAt(at), spans, masks))
      && (!f.Is(1, 2) ==> g == f)
  {
    hide Governed, Effective, Header, FirstUnknown;
    if f.Is(1, 2) && !StringTouched(f, at, spans) {
      UntouchedText(f.payload, at + |f.head|, spans, masks);
    }
  }

  lemma {:induction false} AnyContent(w: Walk, at: nat, at': nat, spans: seq<Span>, masks: Masks)
    requires GovernAny(w, at, spans, masks).Ok?
    ensures AnyReads(w, at, GovernAny(w, at, spans, masks).value, at', spans, masks)
  {
    hide GovernString, GovernAny, Governed, Fields;
    AnyUnfold(w, at, spans, masks);
    if w.Step? {
      StringReads(w.field, at, spans, masks);
      AnyContent(w.next, at + |w.field.Bytes()|, at' + |GovernString(w.field, at, spans, masks).value.Bytes()|,
        spans, masks);
    }
  }

  /** An enclosed AnyValue, read at its new place, yields the masked string. */
  lemma EnclosedAnyReads(f: Field, at: nat, at': nat, spans: seq<Span>, masks: Masks)
    requires GovernAny(Fields(f.payload), at + |f.head|, spans, masks).Ok?
    requires var inner := GovernAny(Fields(f.payload), at + |f.head|, spans, masks).value;
      |Enclose(f, AnyTouched(Fields(f.payload), at + |f.head|, spans), inner).Bytes()| < U64
    ensures var inner := GovernAny(Fields(f.payload), at + |f.head|, spans, masks).value;
      var g := Enclose(f, AnyTouched(Fields(f.payload), at + |f.head|, spans), inner);
      AnyReads(Fields(f.payload), at + |f.head|, Fields(g.payload), at' + |g.head|, spans, masks)
  {
    hide *;
    AnyEnclosed(f, at + |f.head|, spans, masks);
    var inner := GovernAny(Fields(f.payload), at + |f.head|, spans, masks).value;
    var g := Enclose(f, AnyTouched(Fields(f.payload), at + |f.head|, spans), inner);
    AnyContent(Fields(f.payload), at + |f.head|, at' + |g.head|, spans, masks);
  }

  // ----- KeyValue

  ghost predicate PairReads(p: Parsed<Pair>, q: Parsed<Pair>, spans: seq<Span>, masks: Masks) {
    p.Ok? && q.Ok? && PairMasked(p.value, spans, masks) == PairMasked(q.value, [], [])
  }

  lemma PlainTexts(v: Option<View>, masks: Masks)
    ensures MaskedText(v, [], masks) == Text(v)
  {
    if v.Some? { PlainText(v.value.text, v.value.at, masks); }
  }

  lemma ValueReads(f: Field, at: nat, at': nat, spans: seq<Span>, masks: Masks)
    requires GovernValue(f, at, spans, masks).Ok? && |GovernValue(f, at, spans, masks).value.Bytes()| < U64
    ensures PairReads(PairField(f, at), PairField(GovernValue(f, at, spans, masks).value, at'), spans, masks)
  {
    hide Fields, GovernAny, AnyTouched, AnyString, Governed;
    var g := GovernValue(f, at, spans, masks).value;
    if f.Is(2, 2) {
      EnclosedAnyReads(f, at, at', spans, masks);
      PlainTexts(AnyStringOf(g.PayloadAt(at')).value, []);
    }
  }

  function PairJoin(own: Parsed<Pair>, later: Parsed<Pair>): Parsed<Pair> {
    var o :- own;
    var l :- later;
    Ok(o.Then(l))
  }

  lemma PairReadsJoin(p: Parsed<Pair>, q: Parsed<Pair>, p': Parsed<Pair>, q': Parsed<Pair>, spans: seq<Span>,
      masks: Masks)
    requires PairReads(p, q, spans, masks) && PairReads(p', q', spans, masks)
    ensures PairReads(PairJoin(p, p'), PairJoin(q, q'), spans, masks)
  {
    hide Governed;
  }

  lemma PairInUnfold(w: Walk, at: nat)
    ensures w.Stop? && w.rest == [] ==> PairIn(w, at) == Ok(EMPTY_PAIR)
    ensures w.Step? ==> PairIn(w, at) == PairJoin(PairField(w.field, at), PairIn(w.next, at + |w.field.Bytes()|))
  {
    hide PairField;
  }

  lemma EmptyPairReads(spans: seq<Span>, masks: Masks)
    ensures PairReads(Ok(EMPTY_PAIR), Ok(EMPTY_PAIR), spans, masks)
  {
  }

  lemma {:induction false} PairContent(w: Walk, at: nat, at': nat, spans: seq<Span>, masks: Masks)
    requires GovernPair(w, at, spans, masks).Ok? && |Unwalk(GovernPair(w, at, spans, masks).value)| < U64
    ensures PairReads(PairIn(w, at), PairIn(GovernPair(w, at, spans, masks).value, at'), spans, masks)
  {
    hide *;
    PairUnfold(w, at, spans, masks);
    var w' := GovernPair(w, at, spans, masks).value;
    PairInUnfold(w, at);
    PairInUnfold(w', at');
    if w.Step? {
      StepParts(w');
      var f, g := w.field, w'.field;
      ValueReads(f, at, at', spans, masks);
      PairContent(w.next, at + |f.Bytes()|, at' + |g.Bytes()|, spans, masks);
      PairReadsJoin(PairField(f, at), PairField(g, at'),
                    PairIn(w.next, at + |f.Bytes()|), PairIn(w'.next, at' + |g.Bytes()|), spans, masks);
    } else {
      EmptyPairReads(spans, masks);
    }
  }

  /** An enclosed KeyValue, read at its new place. */
  lemma EnclosedPairReads(f: Field, at: nat, at': nat, spans: seq<Span>, masks: Masks)
    requires GovernPair(Fields(f.payload), at + |f.head|, spans, masks).Ok?
    requires var inner := GovernPair(Fields(f.payload), at + |f.head|, spans, masks).value;
      |Enclose(f, PairTouched(Fields(f.payload), at + |f.head|, spans), inner).Bytes()| < U64
    ensures var inner := GovernPair(Fields(f.payload), at + |f.head|, spans, masks).value;
      var g := Enclose(f, PairTouched(Fields(f.payload), at + |f.head|, spans), inner);
      PairReads(PairIn(Fields(f.payload), at + |f.head|), PairIn(Fields(g.payload), at' + |g.head|), spans, masks)
  {
    hide *;
    PairEnclosed(f, at + |f.head|, spans, masks);
    var inner := GovernPair(Fields(f.payload), at + |f.head|, spans, masks).value;
    var g := Enclose(f, PairTouched(Fields(f.payload), at + |f.head|, spans), inner);
    WalkFaithful(g.payload);
    PairContent(Fields(f.payload), at + |f.head|, at' + |g.head|, spans, masks);
  }

  // ----- LogRecord

  ghost predicate DraftReads(p: Parsed<Draft>, q: Parsed<Draft>, spans: seq<Span>, masks: Masks) {
    p.Ok? && q.Ok? && DraftMasked(p.value, spans, masks) == DraftMasked(q.value, [], [])
  }

  ghost predicate AttrReads(p: Parsed<Option<Attr>>, q: Parsed<Option<Attr>>, spans: seq<Span>, masks: Masks) {
    && p.Ok? && q.Ok?
    && p.value.Some? == q.value.Some?
    && (p.value.Some? ==> AttrsMasked([p.value.value], spans, masks) == AttrsMasked([q.value.value], [], []))
  }

  lemma KeyValueReads(v: View, v': View, spans: seq<Span>, masks: Masks)
    requires PairReads(PairIn(Fields(v.text), v.at), PairIn(Fields(v'.text), v'.at), spans, masks)
    ensures AttrReads(KeyValueOf(v), KeyValueOf(v'), spans, masks)
  {
    hide Governed, Fields, PairIn;
  }

  lemma PartReads(f: Field, at: nat, at': nat, spans: seq<Span>, masks: Masks)
    requires f.Sound()
    requires GovernPart(f, at, spans, masks).Ok? && |GovernPart(f, at, spans, masks).value.Bytes()| < U64
    ensures DraftReads(DraftField(f, at), DraftField(GovernPart(f, at, spans, masks).value, at'), spans, masks)
  {
    hide Fields, GovernAny, AnyTouched, PairTouched, AnyString, PairIn, Governed, Decode, Field.Sound, GovernPair;
    var g := GovernPart(f, at, spans, masks).value;
    if f.Is(5, 2) {
      EnclosedAnyReads(f, at, at', spans, masks);
      PlainTexts(AnyStringOf(g.PayloadAt(at')).value, []);
    } else if f.Is(6, 2) {
      EnclosedPairReads(f, at, at', spans, masks);
      KeyValueReads(f.PayloadAt(at), g.PayloadAt(at'), spans, masks);
    } else if f.Is(2, 0) {
      SoundNumber(f, at + |f.head|, at' + |f.head|);
    }
  }

  lemma SoundNumberParts(f: Field, d: Decoded, e: Extent, at: nat, at': nat)
    requires f.wire == 0
    requires var s := f.Bytes();
      && Decode(s, 0) == Ok(d) && Skipped(d.value % 8, s[d.size..], d.size) == Ok(e)
      && d.size + e.prefix + e.payload <= |s| && f == Cut(s, d, e)
    ensures Decode(f.payload, at).Ok? && Decode(f.payload, at') == Decode(f.payload, at)
  {
    var s := f.Bytes();
    var v := Decode(s[d.size..], d.size);
    assert v.Ok? && e == Extent(0, v.value.size);
    hide Decode, Skipped;
    assert f.payload == s[d.size..d.size + e.payload] == s[d.size..][..e.payload];
    DecodeStable(s[d.size..], f.payload, d.size, at);
    DecodeStable(s[d.size..], f.payload, d.size, at');
  }

  lemma SoundNumber(f: Field, at: nat, at': nat)
    requires f.Sound() && f.wire == 0
    ensures Decode(f.payload, at).Ok? && Decode(f.payload, at') == Decode(f.payload, at)
  {
    var d, e := NextFieldParts(f.Bytes(), 0);
    hide *;
    SoundNumberParts(f, d, e, at, at');
  }

  function DraftJoin(own: Parsed<Draft>, later: Parsed<Draft>): Parsed<Draft> {
    var o :- own;
    var l :- later;
    Ok(o.Then(l))
  }

  lemma AttrsMaskedConcat(a: seq<Attr>, b: seq<Attr>, spans: seq<Span>, masks: Masks)
    ensures AttrsMasked(a + b, spans, masks) == AttrsMasked(a, spans, masks) + AttrsMasked(b, spans, masks)
  {
    hide Governed;
  }

  lemma DraftReadsJoin(p: Parsed<Draft>, q: Parsed<Draft>, p': Parsed<Draft>, q': Parsed<Draft>, spans: seq<Span>,
      masks: Masks)
    requires DraftReads(p, q, spans, masks) && DraftReads(p', q', spans, masks)
    ensures DraftReads(DraftJoin(p, p'), DraftJoin(q, q'), spans, masks)
  {
    hide Governed, AttrsMasked;
    AttrsMaskedConcat(p.value.attrs, p'.value.attrs, spans, masks);
    AttrsMaskedConcat(q.value.attrs, q'.value.attrs, [], []);
  }

  lemma DraftInUnfold(w: Walk, at: nat)
    ensures w.Stop? && w.rest == [] ==> DraftIn(w, at) == Ok(EMPTY_DRAFT)
    ensures w.Step? ==> DraftIn(w, at) == DraftJoin(DraftField(w.field, at), DraftIn(w.next, at + |w.field.Bytes()|))
  {
    hide DraftField;
  }

  lemma EmptyDraftReads(spans: seq<Span>, masks: Masks)
    ensures DraftReads(Ok(EMPTY_DRAFT), Ok(EMPTY_DRAFT), spans, masks)
  {
  }

  lemma {:induction false} RecordContent(w: Walk, at: nat, at': nat, spans: seq<Span>, masks: Masks)
    requires AllSound(w)
    requires GovernRecord(w, at, spans, masks).Ok? && |Unwalk(GovernRecord(w, at, spans, masks).value)| < U64
    ensures DraftReads(DraftIn(w, at), DraftIn(GovernRecord(w, at, spans, masks).value, at'), spans, masks)
  {
    hide *;
    RecordUnfold(w, at, spans, masks);
    var w' := GovernRecord(w, at, spans, masks).value;
    DraftInUnfold(w, at);
    DraftInUnfold(w', at');
    StepParts(w);
    if w.Step? {
      StepParts(w');
      var f, g := w.field, w'.field;
      PartReads(f, at, at', spans, masks);
      RecordContent(w.next, at + |f.Bytes()|, at' + |g.Bytes()|, spans, masks);
      DraftReadsJoin(DraftField(f, at), DraftField(g, at'),
                     DraftIn(w.next, at + |f.Bytes()|), DraftIn(w'.next, at' + |g.Bytes()|), spans, masks);
    } else {
      EmptyDraftReads(spans, masks);
    }
  }
}
