/** The guarantees of assembly over the whole request: meaning, frame, and success. */
module Preservation {
  import opened Prelude
  import opened Varint
  import opened Wire
  import opened Otlp
  import opened Envelope
  import opened Spans
  import opened Govern
  import opened Meaning
  import opened Content
  import opened Containers

  // ----- no decisions, no change

  lemma {:induction false} NoSpans(redactions: seq<StageSpan>, record: nat)
    requires redactions == []
    ensures Labelled(redactions, record) == []
  {
  }

  lemma NoSelection(v: View)
    ensures Selected(v, []) == []
  {
  }

  lemma {:induction false} AnyAtRest(w: Walk, at: nat)
    ensures !AnyTouched(w, at, [])
  {
    if w.Step? {
      NoSelection(w.field.PayloadAt(at));
      AnyAtRest(w.next, at + |w.field.Bytes()|);
    }
  }

  lemma {:induction false} PairAtRest(w: Walk, at: nat)
    ensures !PairTouched(w, at, [])
  {
    hide Fields, AnyTouched;
    if w.Step? {
      AnyAtRest(Fields(w.field.payload), at + |w.field.head|);
      PairAtRest(w.next, at + |w.field.Bytes()|);
    }
  }

  lemma {:induction false} RecordAtRest(w: Walk, at: nat)
    ensures !RecordTouched(w, at, [])
  {
    hide Fields, AnyTouched, PairTouched;
    if w.Step? {
      AnyAtRest(Fields(w.field.payload), at + |w.field.head|);
      PairAtRest(Fields(w.field.payload), at + |w.field.head|);
      RecordAtRest(w.next, at + |w.field.Bytes()|);
    }
  }

  predicate NoDecisions(d: Decided) {
    !d.AnyDropped() && d.redactions == []
  }

  lemma FieldAtRest(f: Field, at: nat, idx: nat, d: Decided, level: Level)
    requires NoDecisions(d)
    ensures FateOf(f, at, idx, d, level).Untouched?
    decreases level.Rank(), 0
  {
    hide Fields, RecordTouched, Touched;
    if f.Is(level.ChildField(), 2) {
      if level.Scope? {
        NoSpans(d.redactions, idx);
        RecordAtRest(Fields(f.payload), at + |f.head|);
      } else {
        AllAtRest(Fields(f.payload), at + |f.head|, idx, d, level.Below());
      }
    }
  }

  lemma {:induction false} AllAtRest(w: Walk, at: nat, idx: nat, d: Decided, level: Level)
    requires NoDecisions(d)
    ensures !Touched(w, at, idx, d, level)
    decreases level.Rank(), 1, w
  {
    hide Fields, FateOf, FieldCount;
    if w.Step? {
      FieldAtRest(w.field, at, idx, d, level);
      AllAtRest(w.next, at + |w.field.Bytes()|, idx + FieldCount(w.field, level), d, level);
    }
  }

  /** The identity fast path answers what the full walk would, whenever that walk succeeds. */
  lemma FastPathIsTheFullWalk(raw: bytes, d: Decided, masks: Masks)
    requires NoDecisions(d) && GovernAll(Fields(raw), 0, 0, d, masks, Request).Ok?
    ensures Unwalk(GovernAll(Fields(raw), 0, 0, d, masks, Request).value) == raw
  {
    hide Fields, GovernAll, Touched;
    AllAtRest(Fields(raw), 0, 0, d, Request);
    AllUntouched(Fields(raw), 0, 0, d, masks, Request);
    WalkFaithful(raw);
  }

  lemma RecordUnmasked(r: RecordView, masks: Masks)
    ensures RecordMasked(r, [], masks) == Plain(r)
  {
    hide Governed;
    PlainTexts(r.draft.body, masks);
    PlainTexts(r.draft.body, []);
    forall i | 0 <= i < |r.draft.attrs|
      ensures Masked(r.draft.attrs[i].value, [], masks) == Masked(r.draft.attrs[i].value, [], [])
    {
      PlainText(r.draft.attrs[i].value.text, r.draft.attrs[i].value.at, masks);
      PlainText(r.draft.attrs[i].value.text, r.draft.attrs[i].value.at, []);
    }
  }

  lemma {:induction false} KeptAll(records: seq<RecordView>, idx: nat, d: Decided, masks: Masks)
    requires NoDecisions(d)
    ensures Kept(records, idx, d, masks) == Texts(records)
  {
    hide RecordMasked, Plain;
    if records != [] {
      NoSpans(d.redactions, idx);
      RecordUnmasked(records[0], masks);
      KeptAll(records[1..], idx + 1, d, masks);
    }
  }

  // ----- the main theorem

  /** For every buffer that parses, every verdict vector and every list of spans: if assembly
      succeeds, its output parses, to exactly the kept records in order, each with its body and
      attribute strings spliced and its trace id, severity, keys, namespace and service unchanged. */
  lemma MeaningPreserved(raw: bytes, d: Decided, masks: Masks)
    requires Parse(raw).Ok?
    requires var out := AssembleSpec(raw, |Parse(raw).value|, d, masks); out.Ok? && |out.value| < U64
    ensures var out := AssembleSpec(raw, |Parse(raw).value|, d, masks).value;
      Parse(out).Ok? && Texts(Parse(out).value) == Kept(Parse(raw).value, 0, d, masks)
  {
    hide Fields, GovernAll, RequestIn, Kept, Texts, Count;
    if NoDecisions(d) {
      KeptAll(Parse(raw).value, 0, d, masks);
    } else {
      var w := Fields(raw);
      WalkFaithful(raw);
      var w' := GovernAll(w, 0, 0, d, masks, Request).value;
      AllGovernedSound(w, 0, 0, d, masks, Request);
      Rewalk(w');
      RequestContent(w, 0, 0, 0, d, masks);
    }
  }

  // ----- success

  /** The AnyValue windows of a LogRecord that assembly walks to their end. */
  function ValueWindows(w: Walk, at: nat): seq<View> {
    if w.Stop? then []
    else (if w.field.Is(2, 2) then [w.field.PayloadAt(at)] else []) + ValueWindows(w.next, at + |w.field.Bytes()|)
  }

  function PartWindows(f: Field, at: nat): seq<View> {
    if f.Is(5, 2) then [f.PayloadAt(at)]
    else if f.Is(6, 2) then ValueWindows(Fields(f.payload), at + |f.head|)
    else []
  }

  function RecordValues(w: Walk, at: nat): seq<View> {
    if w.Stop? then [] else PartWindows(w.field, at) + RecordValues(w.next, at + |w.field.Bytes()|)
  }

  /** The LogRecord windows of a request, in the order their records are numbered. */
  function RecordWindows(w: Walk, at: nat, level: Level): seq<View>
    decreases level.Rank(), 1, w
  {
    if w.Stop? then [] else FieldWindows(w.field, at, level) + RecordWindows(w.next, at + |w.field.Bytes()|, level)
  }

  function FieldWindows(f: Field, at: nat, level: Level): seq<View>
    decreases level.Rank(), 0
  {
    if !f.Is(level.ChildField(), 2) then []
    else if level.Scope? then [f.PayloadAt(at)]
    else RecordWindows(Fields(f.payload), at + |f.head|, level.Below())
  }

  /** Every string of an AnyValue asks only for masks that exist. */
  predicate MasksKnown(w: Walk, at: nat, spans: seq<Span>, masks: Masks) {
    w.Step? ==>
      && (w.field.Is(1, 2) ==> Known(Selected(w.field.PayloadAt(at), spans), masks))
      && MasksKnown(w.next, at + |w.field.Bytes()|, spans, masks)
  }

  predicate ValueFine(v: View, spans: seq<Span>, masks: Masks) {
    Clean(Fields(v.text)) && MasksKnown(Fields(v.text), v.at, spans, masks)
  }

  predicate AllFine(values: seq<View>, spans: seq<Span>, masks: Masks) {
    forall v <- values :: ValueFine(v, spans, masks)
  }

  lemma {:induction false} FirstUnknownNone(spans: seq<Span>, masks: Masks)
    ensures FirstUnknown(spans, masks).None? <==> Known(spans, masks)
  {
    if spans != [] { FirstUnknownNone(spans[1..], masks); }
  }

  lemma {:induction false} AnySucceeds(w: Walk, at: nat, spans: seq<Span>, masks: Masks)
    ensures GovernAny(w, at, spans, masks).Ok? <==> Clean(w) && MasksKnown(w, at, spans, masks)
  {
    hide Governed, Effective;
    if w.Step? {
      AnySucceeds(w.next, at + |w.field.Bytes()|, spans, masks);
      FirstUnknownNone(Selected(w.field.PayloadAt(at), spans), masks);
    }
  }

  lemma AllFineConcat(a: seq<View>, b: seq<View>, spans: seq<Span>, masks: Masks)
    ensures AllFine(a + b, spans, masks) <==> AllFine(a, spans, masks) && AllFine(b, spans, masks)
  {
    hide ValueFine;
    if AllFine(a + b, spans, masks) {
      assert forall v <- a :: v in a + b;
      assert forall v <- b :: v in a + b;
    }
  }

  lemma OneFine(v: View, spans: seq<Span>, masks: Masks)
    ensures AllFine([v], spans, masks) <==> ValueFine(v, spans, masks)
  {
    hide ValueFine;
    assert v in [v];
  }

  lemma {:induction false} PairSucceeds(w: Walk, at: nat, spans: seq<Span>, masks: Masks)
    requires PairIn(w, at).Ok?
    ensures GovernPair(w, at, spans, masks).Ok? <==> AllFine(ValueWindows(w, at), spans, masks)
  {
    hide Fields, GovernAny, AnyTouched, AnyString, MasksKnown;
    if w.Step? {
      PairSucceeds(w.next, at + |w.field.Bytes()|, spans, masks);
      AnySucceeds(Fields(w.field.payload), at + |w.field.head|, spans, masks);
      OneFine(w.field.PayloadAt(at), spans, masks);
      var own := if w.field.Is(2, 2) then [w.field.PayloadAt(at)] else [];
      AllFineConcat(own, ValueWindows(w.next, at + |w.field.Bytes()|), spans, masks);
    }
  }

  lemma PartSucceeds(f: Field, at: nat, spans: seq<Span>, masks: Masks)
    requires DraftField(f, at).Ok?
    ensures GovernPart(f, at, spans, masks).Ok? <==> AllFine(PartWindows(f, at), spans, masks)
  {
    hide Fields, GovernAny, GovernPair, AnyTouched, PairTouched, AnyString, PairIn, ValueWindows, MasksKnown, Clean;
    if f.Is(5, 2) {
      AnySucceeds(Fields(f.payload), at + |f.head|, spans, masks);
      OneFine(f.PayloadAt(at), spans, masks);
    } else if f.Is(6, 2) {
      PairSucceeds(Fields(f.payload), at + |f.head|, spans, masks);
    }
  }

  lemma {:induction false} RecordSucceeds(w: Walk, at: nat, spans: seq<Span>, masks: Masks)
    requires DraftIn(w, at).Ok?
    ensures GovernRecord(w, at, spans, masks).Ok? <==> AllFine(RecordValues(w, at), spans, masks)
  {
    hide GovernPart, DraftField, PartWindows, AllFine;
    if w.Step? {
      RecordSucceeds(w.next, at + |w.field.Bytes()|, spans, masks);
      PartSucceeds(w.field, at, spans, masks);
      AllFineConcat(PartWindows(w.field, at), RecordValues(w.next, at + |w.field.Bytes()|), spans, masks);
    } else {
      NothingFine(spans, masks);
    }
  }

  lemma NothingFine(spans: seq<Span>, masks: Masks)
    ensures AllFine([], spans, masks)
  {
  }

  /** What a successful parse guarantees of every window assembly walks. */
  predicate Readable(w: Walk, at: nat, level: Level)
    decreases level.Rank(), 1, w
  {
    match w
    case Stop(rest) => rest == []
    case Step(f, next) => FieldReadable(f, at, level) && Readable(next, at + |f.Bytes()|, level)
  }

  predicate FieldReadable(f: Field, at: nat, level: Level)
    decreases level.Rank(), 0
  {
    f.Is(level.ChildField(), 2) ==>
      if level.Scope? then DraftIn(Fields(f.payload), at + |f.head|).Ok?
      else Readable(Fields(f.payload), at + |f.head|, level.Below())
  }

  lemma {:induction false} ScopeReadable(w: Walk, at: nat, r: Resource)
    requires ScopeIn(w, at, r).Ok?
    ensures Readable(w, at, Scope)
  {
    hide Fields, DraftIn;
    if w.Step? { ScopeReadable(w.next, at + |w.field.Bytes()|, r); }
  }

  lemma {:induction false} ScopesReadable(scopes: seq<View>, r: Resource)
    requires ScopesOf(scopes, r).Ok?
    ensures forall s <- scopes :: Readable(Fields(s.text), s.at, Scope)
  {
    hide Fields, ScopeIn, Readable;
    if scopes != [] {
      ScopeReadable(Fields(scopes[0].text), scopes[0].at, r);
      ScopesReadable(scopes[1..], r);
      assert scopes == [scopes[0]] + scopes[1..];
    }
  }

  lemma GroupFieldReadable(f: Field, at: nat)
    requires GroupField(f, at).Ok? && forall s <- GroupField(f, at).value.scopes ::
      Readable(Fields(s.text), s.at, Scope)
    ensures FieldReadable(f, at, Resources)
  {
    hide Fields, ResourceIn;
    if f.Is(2, 2) { assert f.PayloadAt(at) in GroupField(f, at).value.scopes; }
  }

  lemma {:induction false} GroupReadable(w: Walk, at: nat)
    requires GroupIn(w, at).Ok? && forall s <- GroupIn(w, at).value.scopes :: Readable(Fields(s.text), s.at, Scope)
    ensures Readable(w, at, Resources)
  {
    hide Fields, GroupField, FieldReadable;
    if w.Step? {
      var own, later := GroupField(w.field, at).value, GroupIn(w.next, at + |w.field.Bytes()|).value;
      var scopes := GroupIn(w, at).value.scopes;
      assert scopes == own.scopes + later.scopes;
      assert forall s <- own.scopes :: s in scopes;
      assert forall s <- later.scopes :: s in scopes;
      GroupFieldReadable(w.field, at);
      GroupReadable(w.next, at + |w.field.Bytes()|);
    }
  }

  lemma {:induction false} RequestReadable(w: Walk, at: nat)
    requires RequestIn(w, at).Ok?
    ensures Readable(w, at, Request)
  {
    hide Fields, GroupIn, ScopesOf;
    if w.Step? {
      var f := w.field;
      if f.Is(1, 2) {
        var g := GroupIn(Fields(f.payload), at + |f.head|).value;
        ScopesReadable(g.scopes, if g.resource.Some? then g.resource.value else EMPTY_RESOURCE);
        GroupReadable(Fields(f.payload), at + |f.head|);
      }
      RequestReadable(w.next, at + |f.Bytes()|);
    }
  }

  predicate RecordFine(v: View, record: nat, d: Decided, masks: Masks) {
    d.VerdictFor(record).Keep? ==> AllFine(RecordValues(Fields(v.text), v.at), d.SpansFor(record), masks)
  }

  predicate KeptFine(windows: seq<View>, idx: nat, d: Decided, masks: Masks) {
    forall i | 0 <= i < |windows| :: RecordFine(windows[i], idx + i, d, masks)
  }

  lemma KeptFineConcat(a: seq<View>, b: seq<View>, idx: nat, d: Decided, masks: Masks)
    ensures KeptFine(a + b, idx, d, masks) <==> KeptFine(a, idx, d, masks) && KeptFine(b, idx + |a|, d, masks)
  {
    hide RecordFine;
    if KeptFine(a + b, idx, d, masks) {
      forall i | 0 <= i < |a| ensures RecordFine(a[i], idx + i, d, masks) { assert (a + b)[i] == a[i]; }
      forall i | 0 <= i < |b| ensures RecordFine(b[i], idx + |a| + i, d, masks) {
        assert (a + b)[|a| + i] == b[i];
        assert RecordFine((a + b)[|a| + i], idx + (|a| + i), d, masks);
      }
    } else if KeptFine(a, idx, d, masks) && KeptFine(b, idx + |a|, d, masks) {
      forall i | 0 <= i < |a + b| ensures RecordFine((a + b)[i], idx + i, d, masks) {
        if i >= |a| { assert RecordFine(b[i - |a|], idx + |a| + (i - |a|), d, masks); }
      }
    }
  }

  lemma OneKeptFine(v: View, idx: nat, d: Decided, masks: Masks)
    ensures KeptFine([v], idx, d, masks) <==> RecordFine(v, idx, d, masks)
  {
    hide RecordFine;
    if KeptFine([v], idx, d, masks) { assert RecordFine([v][0], idx + 0, d, masks); }
  }

  lemma FieldSucceeds(f: Field, at: nat, idx: nat, d: Decided, masks: Masks, level: Level)
    requires FieldReadable(f, at, level)
    ensures GovernField(f, at, idx, d, masks, level).Ok? <==> KeptFine(FieldWindows(f, at, level), idx, d, masks)
    ensures |FieldWindows(f, at, level)| == FieldCount(f, level)
    decreases level.Rank(), 0
  {
    hide Fields, GovernRecord, GovernAll, RecordTouched, Touched, AllFine, DraftIn, RecordWindows, Count, Readable,
      KeptFine, RecordValues;
    if !f.Is(level.ChildField(), 2) {
      NothingKeptFine(idx, d, masks);
    } else if level.Scope? {
      RecordSucceeds(Fields(f.payload), at + |f.head|, d.SpansFor(idx), masks);
      OneKeptFine(f.PayloadAt(at), idx, d, masks);
    } else {
      AllSucceeds(Fields(f.payload), at + |f.head|, idx, d, masks, level.Below());
    }
  }

  lemma NothingKeptFine(idx: nat, d: Decided, masks: Masks)
    ensures KeptFine([], idx, d, masks)
  {
  }

  lemma {:induction false} AllSucceeds(w: Walk, at: nat, idx: nat, d: Decided, masks: Masks, level: Level)
    requires Readable(w, at, level)
    ensures GovernAll(w, at, idx, d, masks, level).Ok? <==> KeptFine(RecordWindows(w, at, level), idx, d, masks)
    ensures |RecordWindows(w, at, level)| == Count(w, level)
    decreases level.Rank(), 1, w
  {
    hide GovernField, FieldReadable, FieldWindows, FieldCount, KeptFine;
    if w.Step? {
      var next := at + |w.field.Bytes()|;
      FieldSucceeds(w.field, at, idx, d, masks, level);
      AllSucceeds(w.next, next, idx + FieldCount(w.field, level), d, masks, level);
      KeptFineConcat(FieldWindows(w.field, at, level), RecordWindows(w.next, next, level), idx, d, masks);
    } else {
      NothingKeptFine(idx, d, masks);
    }
  }

  /** Traversal agreement: on a buffer that parsed, the two walks count the same records, and
      assembly succeeds exactly when, in every kept record, every AnyValue walks to its end and
      asks only for known masks. */
  lemma AssemblySucceeds(raw: bytes, d: Decided, masks: Masks)
    requires Parse(raw).Ok?
    ensures |RecordWindows(Fields(raw), 0, Request)| == Count(Fields(raw), Request)
    ensures |Parse(raw).value| == Count(Fields(raw), Request)
    ensures AssembleSpec(raw, |Parse(raw).value|, d, masks).Ok? <==>
      NoDecisions(d) || KeptFine(RecordWindows(Fields(raw), 0, Request), 0, d, masks)
  {
    hide Fields, GovernAll, RequestIn, KeptFine, RecordWindows, Count;
    RequestReadable(Fields(raw), 0);
    AllSucceeds(Fields(raw), 0, 0, d, masks, Request);
    RequestCount(Fields(raw), 0);
  }

  // ----- the masks of one engine

  /** Every span's mask is in the table: what compiling the masks and the rules together gives. */
  predicate MasksCompiled(d: Decided, masks: Masks) {
    forall s <- d.redactions :: s.span.mask < |masks|
  }

  lemma {:induction false} LabelledKnown(redactions: seq<StageSpan>, record: nat, masks: Masks)
    requires forall s <- redactions :: s.span.mask < |masks|
    ensures Known(Labelled(redactions, record), masks)
  {
    if redactions != [] { LabelledKnown(redactions[1..], record, masks); }
  }

  lemma {:induction false} StringsKnown(w: Walk, at: nat, spans: seq<Span>, masks: Masks)
    requires Known(spans, masks)
    ensures MasksKnown(w, at, spans, masks)
  {
    if w.Step? {
      var v := w.field.PayloadAt(at);
      SelectionMeaning(spans, v.at, v.End());
      hide Effective;
      StringsKnown(w.next, at + |w.field.Bytes()|, spans, masks);
    }
  }

  lemma AnyBlames(w: Walk, at: nat, spans: seq<Span>, masks: Masks)
    requires Known(spans, masks) && GovernAny(w, at, spans, masks).Err?
    ensures GovernAny(w, at, spans, masks).error.WireError?
  {
    hide Governed, Effective;
    StringsKnown(w, at, spans, masks);
    if w.Step? {
      FirstUnknownNone(Selected(w.field.PayloadAt(at), spans), masks);
      if GovernAny(w.next, at + |w.field.Bytes()|, spans, masks).Err? {
        AnyBlames(w.next, at + |w.field.Bytes()|, spans, masks);
      }
    }
  }

  lemma PairBlames(w: Walk, at: nat, spans: seq<Span>, masks: Masks)
    requires Known(spans, masks) && GovernPair(w, at, spans, masks).Err?
    ensures GovernPair(w, at, spans, masks).error.WireError?
  {
    hide Fields, GovernAny, AnyTouched, Known;
    if w.Step? {
      if GovernAny(Fields(w.field.payload), at + |w.field.head|, spans, masks).Err? {
        AnyBlames(Fields(w.field.payload), at + |w.field.head|, spans, masks);
      }
      if GovernPair(w.next, at + |w.field.Bytes()|, spans, masks).Err? {
        PairBlames(w.next, at + |w.field.Bytes()|, spans, masks);
      }
    }
  }

  lemma RecordBlames(w: Walk, at: nat, spans: seq<Span>, masks: Masks)
    requires Known(spans, masks) && GovernRecord(w, at, spans, masks).Err?
    ensures GovernRecord(w, at, spans, masks).error.WireError?
  {
    hide Fields, GovernAny, GovernPair, AnyTouched, PairTouched, Known;
    if w.Step? {
      if GovernAny(Fields(w.field.payload), at + |w.field.head|, spans, masks).Err? {
        AnyBlames(Fields(w.field.payload), at + |w.field.head|, spans, masks);
      }
      if GovernPair(Fields(w.field.payload), at + |w.field.head|, spans, masks).Err? {
        PairBlames(Fields(w.field.payload), at + |w.field.head|, spans, masks);
      }
      if GovernRecord(w.next, at + |w.field.Bytes()|, spans, masks).Err? {
        RecordBlames(w.next, at + |w.field.Bytes()|, spans, masks);
      }
    }
  }

  lemma FieldBlames(f: Field, at: nat, idx: nat, d: Decided, masks: Masks, level: Level)
    requires MasksCompiled(d, masks) && GovernField(f, at, idx, d, masks, level).Err?
    ensures GovernField(f, at, idx, d, masks, level).error.WireError?
    decreases level.Rank(), 0
  {
    hide Fields, GovernRecord, GovernAll, RecordTouched, Touched, Known;
    if level.Scope? {
      LabelledKnown(d.redactions, idx, masks);
      RecordBlames(Fields(f.payload), at + |f.head|, d.SpansFor(idx), masks);
    } else {
      AllBlames(Fields(f.payload), at + |f.head|, idx, d, masks, level.Below());
    }
  }

  lemma AllBlames(w: Walk, at: nat, idx: nat, d: Decided, masks: Masks, level: Level)
    requires MasksCompiled(d, masks) && GovernAll(w, at, idx, d, masks, level).Err?
    ensures GovernAll(w, at, idx, d, masks, level).error.WireError?
    decreases level.Rank(), 1, w
  {
    hide GovernField, FieldCount, MasksCompiled;
    if w.Step? {
      var next, idx' := at + |w.field.Bytes()|, idx + FieldCount(w.field, level);
      if GovernField(w.field, at, idx, d, masks, level).Err? {
        FieldBlames(w.field, at, idx, d, masks, level);
      } else {
        AllBlames(w.next, next, idx', d, masks, level);
      }
    }
  }

  /** Every AnyValue of a parsed record has been read up to its first string. */
  lemma {:induction false} AnyStuckAfterString(w: Walk, at: nat)
    requires AnyString(w, at).Ok? && !Clean(w)
    ensures AnyString(w, at).value.Some?
  {
    if w.Step? && !w.field.Is(1, 2) { AnyStuckAfterString(w.next, at + |w.field.Bytes()|); }
  }

  lemma {:induction false} PairValuesRead(w: Walk, at: nat)
    requires PairIn(w, at).Ok?
    ensures forall v <- ValueWindows(w, at) :: AnyStringOf(v).Ok?
  {
    hide Fields, AnyString;
    if w.Step? { PairValuesRead(w.next, at + |w.field.Bytes()|); }
  }

  lemma {:induction false} RecordValuesRead(w: Walk, at: nat)
    requires DraftIn(w, at).Ok?
    ensures forall v <- RecordValues(w, at) :: AnyStringOf(v).Ok?
  {
    hide Fields, AnyString, PairIn, ValueWindows;
    if w.Step? {
      if w.field.Is(6, 2) { PairValuesRead(Fields(w.field.payload), at + |w.field.head|); }
      RecordValuesRead(w.next, at + |w.field.Bytes()|);
    }
  }

  predicate WalksToTheEnd(v: View, record: nat, d: Decided) {
    d.VerdictFor(record).Keep? ==> forall a <- RecordValues(Fields(v.text), v.at) :: Clean(Fields(a.text))
  }

  predicate EveryKeptRecordWalks(raw: bytes, d: Decided) {
    var windows := RecordWindows(Fields(raw), 0, Request);
    forall i | 0 <= i < |windows| :: WalksToTheEnd(windows[i], i, d)
  }

  /** With masks from the same engine assembly never reports a count mismatch or an unknown
      mask, and fails only over a kept record with an AnyValue that does not walk to its end. */
  lemma OnlyWireErrors(raw: bytes, d: Decided, masks: Masks)
    requires Parse(raw).Ok? && MasksCompiled(d, masks)
    ensures var r := AssembleSpec(raw, |Parse(raw).value|, d, masks);
      && (r.Err? ==> r.error.WireError?)
      && (r.Ok? <==> (NoDecisions(d) || EveryKeptRecordWalks(raw, d)))
  {
    hide Fields, GovernAll, Parse, RecordWindows, Count, WalksToTheEnd, RecordFine;
    var windows := RecordWindows(Fields(raw), 0, Request);
    AssemblySucceeds(raw, d, masks);
    if GovernAll(Fields(raw), 0, 0, d, masks, Request).Err? { AllBlames(Fields(raw), 0, 0, d, masks, Request); }
    forall i | 0 <= i < |windows|
      ensures RecordFine(windows[i], 0 + i, d, masks) <==> WalksToTheEnd(windows[i], i, d)
    {
      FineMeansWalks(windows[i], i, d, masks);
    }
  }

  lemma FineMeansWalks(v: View, record: nat, d: Decided, masks: Masks)
    requires MasksCompiled(d, masks)
    ensures RecordFine(v, record, d, masks) <==> WalksToTheEnd(v, record, d)
  {
    hide Fields, Clean, MasksKnown, RecordValues, Known;
    LabelledKnown(d.redactions, record, masks);
    forall a: View
      ensures MasksKnown(Fields(a.text), a.at, d.SpansFor(record), masks)
    {
      StringsKnown(Fields(a.text), a.at, d.SpansFor(record), masks);
    }
  }
}
