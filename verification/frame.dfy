/** What assembly leaves alone, read back from the output at every depth: a log record is gone
    exactly when its verdict is Drop, a string reads its splice, and every other field of every
    message is there in its place, byte for byte. */
module Frame {
  import opened Prelude
  import opened Varint
  import opened Wire
  import opened Envelope
  import opened Spans
  import opened Govern
  import opened Meaning
  import opened Preservation

  // ----- the relation between the fields of a window and those read back for it

  /** An AnyValue: each of its strings is spliced, in place; one without an effective span, and
      every other field, is as it was. */
  ghost predicate AnyFramed(w: Walk, at: nat, w': Walk, spans: seq<Span>, masks: Masks) {
    match w
    case Stop(_) => w' == w
    case Step(f, next) =>
      && w'.Step? && StringFramed(f, at, w'.field, spans, masks)
      && AnyFramed(next, at + |f.Bytes()|, w'.next, spans, masks)
  }

  ghost predicate StringFramed(f: Field, at: nat, f': Field, spans: seq<Span>, masks: Masks) {
    if f.Is(1, 2) then
      && f'.Is(1, 2) && f'.payload == Governed(f.payload, at + |f.head|, spans, masks)
      && (Selected(f.PayloadAt(at), spans) == [] ==> f' == f)
    else f' == f
  }

  /** A KeyValue: its value is framed, every other field is as it was. */
  ghost predicate PairFramed(w: Walk, at: nat, w': Walk, spans: seq<Span>, masks: Masks) {
    match w
    case Stop(_) => w' == w
    case Step(f, next) =>
      && w'.Step? && ValueFramed(f, at, w'.field, spans, masks)
      && PairFramed(next, at + |f.Bytes()|, w'.next, spans, masks)
  }

  ghost predicate ValueFramed(f: Field, at: nat, f': Field, spans: seq<Span>, masks: Masks) {
    if f.Is(2, 2) then
      && f'.Is(2, 2) && (!ValueTouched(f, at, spans) ==> f' == f)
      && AnyFramed(Fields(f.payload), at + |f.head|, Fields(f'.payload), spans, masks)
    else f' == f
  }

  /** A LogRecord: its body and attributes are framed, every other field is as it was. */
  ghost predicate RecordFramed(w: Walk, at: nat, w': Walk, spans: seq<Span>, masks: Masks) {
    match w
    case Stop(_) => w' == w
    case Step(f, next) =>
      && w'.Step? && PartFramed(f, at, w'.field, spans, masks)
      && RecordFramed(next, at + |f.Bytes()|, w'.next, spans, masks)
  }

  ghost predicate PartFramed(f: Field, at: nat, f': Field, spans: seq<Span>, masks: Masks) {
    if f.Is(5, 2) then
      && f'.Is(5, 2) && (!PartTouched(f, at, spans) ==> f' == f)
      && AnyFramed(Fields(f.payload), at + |f.head|, Fields(f'.payload), spans, masks)
    else if f.Is(6, 2) then
      && f'.Is(6, 2) && (!PartTouched(f, at, spans) ==> f' == f)
      && PairFramed(Fields(f.payload), at + |f.head|, Fields(f'.payload), spans, masks)
    else f' == f
  }

  predicate Dropped(f: Field, idx: nat, d: Decided, level: Level) {
    level.Scope? && f.Is(2, 2) && d.VerdictFor(idx).Drop?
  }

  /** A container, from the whole request down: `idx` is the number of the next log record. */
  ghost predicate DeepFramed(w: Walk, at: nat, w': Walk, idx: nat, d: Decided, masks: Masks, level: Level)
    decreases level.Rank(), 1, w
  {
    match w
    case Stop(_) => w' == w
    case Step(f, next) =>
      var at', idx' := at + |f.Bytes()|, idx + FieldCount(f, level);
      if Dropped(f, idx, d, level) then DeepFramed(next, at', w', idx', d, masks, level)
      else
        && w'.Step? && ChildFramed(f, at, w'.field, idx, d, masks, level)
        && DeepFramed(next, at', w'.next, idx', d, masks, level)
  }

  ghost predicate ChildFramed(f: Field, at: nat, f': Field, idx: nat, d: Decided, masks: Masks, level: Level)
    decreases level.Rank(), 0
  {
    if f.Is(level.ChildField(), 2) then
      && f'.Is(level.ChildField(), 2) && (FateOf(f, at, idx, d, level).Untouched? ==> f' == f)
      && if level.Scope?
         then RecordFramed(Fields(f.payload), at + |f.head|, Fields(f'.payload), d.SpansFor(idx), masks)
         else DeepFramed(Fields(f.payload), at + |f.head|, Fields(f'.payload), idx, d, masks, level.Below())
    else f' == f
  }

  // ----- governing frames

  lemma StringFrame(f: Field, at: nat, spans: seq<Span>, masks: Masks)
    requires GovernString(f, at, spans, masks).Ok?
    ensures StringFramed(f, at, GovernString(f, at, spans, masks).value, spans, masks)
  {
    hide Splice, Effective, Header;
    if f.Is(1, 2) && Selected(f.PayloadAt(at), spans) == [] {
      UntouchedText(f.payload, at + |f.head|, spans, masks);
    }
  }

  lemma {:induction false} AnyFrame(w: Walk, at: nat, spans: seq<Span>, masks: Masks)
    requires GovernAny(w, at, spans, masks).Ok?
    ensures AnyFramed(w, at, GovernAny(w, at, spans, masks).value, spans, masks)
  {
    hide GovernAny, GovernString, StringFramed;
    AnyUnfold(w, at, spans, masks);
    if w.Step? {
      StringFrame(w.field, at, spans, masks);
      AnyFrame(w.next, at + |w.field.Bytes()|, spans, masks);
    }
  }

  lemma ValueFrame(f: Field, at: nat, spans: seq<Span>, masks: Masks)
    requires GovernValue(f, at, spans, masks).Ok? && |GovernValue(f, at, spans, masks).value.Bytes()| < U64
    ensures ValueFramed(f, at, GovernValue(f, at, spans, masks).value, spans, masks)
  {
    hide Fields, GovernAny, AnyFramed, AnyTouched, Unwalk, Header;
    if f.Is(2, 2) {
      AnyEnclosed(f, at + |f.head|, spans, masks);
      AnyFrame(Fields(f.payload), at + |f.head|, spans, masks);
    }
  }

  lemma {:induction false} PairFrame(w: Walk, at: nat, spans: seq<Span>, masks: Masks)
    requires GovernPair(w, at, spans, masks).Ok? && |Unwalk(GovernPair(w, at, spans, masks).value)| < U64
    ensures PairFramed(w, at, GovernPair(w, at, spans, masks).value, spans, masks)
  {
    hide GovernPair, GovernValue, ValueFramed, Unwalk;
    PairUnfold(w, at, spans, masks);
    if w.Step? {
      var g, n := GovernValue(w.field, at, spans, masks).value,
        GovernPair(w.next, at + |w.field.Bytes()|, spans, masks).value;
      StepParts(Step(g, n));
      ValueFrame(w.field, at, spans, masks);
      PairFrame(w.next, at + |w.field.Bytes()|, spans, masks);
    }
  }

  lemma PartFrame(f: Field, at: nat, spans: seq<Span>, masks: Masks)
    requires GovernPart(f, at, spans, masks).Ok? && |GovernPart(f, at, spans, masks).value.Bytes()| < U64
    ensures PartFramed(f, at, GovernPart(f, at, spans, masks).value, spans, masks)
  {
    hide Fields, GovernAny, GovernPair, AnyFramed, PairFramed, AnyTouched, PairTouched, Unwalk, Header;
    if f.Is(5, 2) {
      AnyEnclosed(f, at + |f.head|, spans, masks);
      AnyFrame(Fields(f.payload), at + |f.head|, spans, masks);
    } else if f.Is(6, 2) {
      PairEnclosed(f, at + |f.head|, spans, masks);
      EnclosedSmaller(f, PairTouched(Fields(f.payload), at + |f.head|, spans),
        GovernPair(Fields(f.payload), at + |f.head|, spans, masks).value);
      PairFrame(Fields(f.payload), at + |f.head|, spans, masks);
    }
  }

  /** What an enclosing field reads back to is no longer than the field. */
  lemma EnclosedSmaller(f: Field, touched: bool, inner: Walk)
    requires Fields(Enclose(f, touched, inner).payload) == inner
    ensures |Unwalk(inner)| <= |Enclose(f, touched, inner).Bytes()|
  {
    WalkFaithful(Enclose(f, touched, inner).payload);
  }

  lemma {:induction false} RecordFrame(w: Walk, at: nat, spans: seq<Span>, masks: Masks)
    requires GovernRecord(w, at, spans, masks).Ok? && |Unwalk(GovernRecord(w, at, spans, masks).value)| < U64
    ensures RecordFramed(w, at, GovernRecord(w, at, spans, masks).value, spans, masks)
  {
    hide GovernRecord, GovernPart, PartFramed, Unwalk;
    RecordUnfold(w, at, spans, masks);
    if w.Step? {
      var g, n := GovernPart(w.field, at, spans, masks).value,
        GovernRecord(w.next, at + |w.field.Bytes()|, spans, masks).value;
      StepParts(Step(g, n));
      PartFrame(w.field, at, spans, masks);
      RecordFrame(w.next, at + |w.field.Bytes()|, spans, masks);
    }
  }

  /** A child is left out exactly when it is a log record whose verdict is Drop. */
  lemma OmittedMeansDropped(f: Field, at: nat, idx: nat, d: Decided, masks: Masks, level: Level)
    requires GovernField(f, at, idx, d, masks, level).Ok?
    ensures GovernField(f, at, idx, d, masks, level).value.None? <==> Dropped(f, idx, d, level)
  {
    hide GovernChild, Touched, RecordTouched, Fields, Enclose;
  }

  lemma ChildFrame(f: Field, at: nat, idx: nat, d: Decided, masks: Masks, level: Level)
    requires GovernField(f, at, idx, d, masks, level).Ok? && GovernField(f, at, idx, d, masks, level).value.Some?
    requires |GovernField(f, at, idx, d, masks, level).value.value.Bytes()| < U64
    ensures ChildFramed(f, at, GovernField(f, at, idx, d, masks, level).value.value, idx, d, masks, level)
    decreases level.Rank(), 0
  {
    hide Fields, GovernRecord, GovernAll, FateOf, RecordFramed, DeepFramed, Unwalk, Header;
    if f.Is(level.ChildField(), 2) {
      ChildEnclosed(f, at, idx, d, masks, level);
      EnclosedSmaller(f, FateOf(f, at, idx, d, level).Rewritten?, GovernChild(f, at, idx, d, masks, level).value);
      if level.Scope? {
        RecordFrame(Fields(f.payload), at + |f.head|, d.SpansFor(idx), masks);
      } else {
        ContainerFrame(Fields(f.payload), at + |f.head|, idx, d, masks, level.Below());
      }
    }
  }

  lemma {:induction false} ContainerFrame(w: Walk, at: nat, idx: nat, d: Decided, masks: Masks, level: Level)
    requires GovernAll(w, at, idx, d, masks, level).Ok? && |Unwalk(GovernAll(w, at, idx, d, masks, level).value)| < U64
    ensures DeepFramed(w, at, GovernAll(w, at, idx, d, masks, level).value, idx, d, masks, level)
    decreases level.Rank(), 1, w
  {
    hide GovernAll, GovernField, ChildFramed, FieldCount, Dropped, Unwalk;
    AllUnfold(w, at, idx, d, masks, level);
    if w.Step? {
      var at', idx' := at + |w.field.Bytes()|, idx + FieldCount(w.field, level);
      var g, n := GovernField(w.field, at, idx, d, masks, level).value,
        GovernAll(w.next, at', idx', d, masks, level).value;
      OmittedMeansDropped(w.field, at, idx, d, masks, level);
      if g.Some? {
        StepParts(Step(g.value, n));
        ChildFrame(w.field, at, idx, d, masks, level);
      }
      ContainerFrame(w.next, at', idx', d, masks, level);
    }
  }

  // ----- the fast path: with nothing decided, a window is framed by itself

  lemma {:induction false} AnySelf(w: Walk, at: nat, masks: Masks)
    ensures AnyFramed(w, at, w, [], masks)
  {
    hide Governed, Selected;
    if w.Step? {
      PlainText(w.field.payload, at + |w.field.head|, masks);
      AnySelf(w.next, at + |w.field.Bytes()|, masks);
    }
  }

  lemma {:induction false} PairSelf(w: Walk, at: nat, masks: Masks)
    ensures PairFramed(w, at, w, [], masks)
  {
    hide Fields, AnyFramed, AnyTouched;
    if w.Step? {
      AnySelf(Fields(w.field.payload), at + |w.field.head|, masks);
      PairSelf(w.next, at + |w.field.Bytes()|, masks);
    }
  }

  lemma {:induction false} RecordSelf(w: Walk, at: nat, masks: Masks)
    ensures RecordFramed(w, at, w, [], masks)
  {
    hide Fields, AnyFramed, PairFramed, AnyTouched, PairTouched;
    if w.Step? {
      AnySelf(Fields(w.field.payload), at + |w.field.head|, masks);
      PairSelf(Fields(w.field.payload), at + |w.field.head|, masks);
      RecordSelf(w.next, at + |w.field.Bytes()|, masks);
    }
  }

  lemma ChildSelf(f: Field, at: nat, idx: nat, d: Decided, masks: Masks, level: Level)
    requires NoDecisions(d)
    ensures ChildFramed(f, at, f, idx, d, masks, level) && !Dropped(f, idx, d, level)
    decreases level.Rank(), 0
  {
    hide Fields, RecordFramed, DeepFramed, FateOf;
    if f.Is(level.ChildField(), 2) {
      if level.Scope? {
        NoSpans(d.redactions, idx);
        RecordSelf(Fields(f.payload), at + |f.head|, masks);
      } else {
        ContainerSelf(Fields(f.payload), at + |f.head|, idx, d, masks, level.Below());
      }
    }
  }

  lemma {:induction false} ContainerSelf(w: Walk, at: nat, idx: nat, d: Decided, masks: Masks, level: Level)
    requires NoDecisions(d)
    ensures DeepFramed(w, at, w, idx, d, masks, level)
    decreases level.Rank(), 1, w
  {
    hide ChildFramed, FieldCount, Dropped;
    if w.Step? {
      ChildSelf(w.field, at, idx, d, masks, level);
      ContainerSelf(w.next, at + |w.field.Bytes()|, idx + FieldCount(w.field, level), d, masks, level);
    }
  }

  // ----- the theorem

  /** For every input and every decision: whatever assembly answers is, read back at every depth,
      the input with exactly the dropped records gone, exactly the strings' effective spans
      replaced, and everything else in place, byte for byte. */
  lemma OutputFramed(raw: bytes, parsed: nat, d: Decided, masks: Masks)
    requires AssembleSpec(raw, parsed, d, masks).Ok? && |AssembleSpec(raw, parsed, d, masks).value| < U64
    ensures DeepFramed(Fields(raw), 0, Fields(AssembleSpec(raw, parsed, d, masks).value), 0, d, masks, Request)
  {
    hide Fields, GovernAll, DeepFramed, Count, Unwalk;
    if NoDecisions(d) {
      ContainerSelf(Fields(raw), 0, 0, d, masks, Request);
    } else {
      var w := Fields(raw);
      WalkFaithful(raw);
      AllGovernedSound(w, 0, 0, d, masks, Request);
      Rewalk(GovernAll(w, 0, 0, d, masks, Request).value);
      ContainerFrame(w, 0, 0, d, masks, Request);
    }
  }
}
