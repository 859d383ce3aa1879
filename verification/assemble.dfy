/** The vectored re-encoder: build loops over the raw bytes, proved against the governed walk. */
module Assemble {
  import opened Prelude
  import opened Varint
  import opened Wire
  import opened Cursor
  import opened Envelope
  import opened Spans
  import opened Govern
  import opened Segments
  import opened Meaning

  // ----- spans and scalars

  /** Overlap resolution over the sorted candidates of a window. */
  method EffectiveSpans(d: Decided, idx: nat, window: View) returns (out: seq<Span>)
    ensures out == Selected(window, d.SpansFor(idx))
  {
    hide Sort, Within, Greedy, Labelled;
    var spans := Sort(Within(d.SpansFor(idx), window.at, window.End()));
    out := [];
    assert spans[0..] == spans;
    var cursor, i := window.at, 0;
    while i < |spans|
      invariant i <= |spans|
      invariant Greedy(spans, window.at) == out + Greedy(spans[i..], cursor)
    {
      var r := spans[i];
      GreedyUnfold(spans[i..], cursor);
      assert spans[i..][0] == r && spans[i..][1..] == spans[i + 1..];
      if r.lo >= cursor {
        cursor := r.hi;
        assert out + ([r] + Greedy(spans[i + 1..], cursor)) == (out + [r]) + Greedy(spans[i + 1..], cursor);
        out := out + [r];
      }
      i := i + 1;
    }
    GreedyUnfold(spans[i..], cursor);
    assert out + [] == out;
  }

  lemma GreedyUnfold(spans: seq<Span>, cursor: nat)
    ensures Greedy(spans, cursor) ==
      if spans == [] then []
      else if spans[0].lo < cursor then Greedy(spans[1..], cursor)
      else [spans[0]] + Greedy(spans[1..], spans[0].hi)
  {
  }

  ghost predicate ScalarFor(seg: Seg, field: nat, text: bytes, raw: bytes, masks: Masks) {
    && SegOk(seg, raw, masks)
    && EmitSeg(seg, raw, masks) == Canonical(field, text).Bytes()
  }

  lemma ScalarEmits(field: nat, parts: seq<Part>, size: nat, text: bytes, raw: bytes, masks: Masks)
    requires forall p <- parts :: PartOk(p, raw, masks)
    requires EmitParts(parts, raw, masks) == text && size == |text|
    ensures ScalarFor(Scalar(field, size, parts), field, text, raw, masks)
  {
  }

  function PushGap(parts: seq<Part>, lo: nat, hi: nat): seq<Part> {
    if lo < hi then parts + [Raw(lo, hi)] else parts
  }

  lemma PushGapEmits(parts: seq<Part>, lo: nat, hi: nat, buf: bytes, masks: Masks)
    requires lo <= hi <= |buf|
    ensures EmitParts(PushGap(parts, lo, hi), buf, masks) == EmitParts(parts, buf, masks) + buf[lo..hi]
  {
    hide EmitParts;
    EmitPartsPush(parts, Raw(lo, hi), buf, masks);
    if lo == hi { assert buf[lo..hi] == []; }
  }

  /** One more span: the gap before it, then its mask. */
  lemma PushSpanEmits(parts: seq<Part>, later: bytes, cursor: nat, spans: seq<Span>, buf: bytes, masks: Masks)
    requires spans != [] && Laid(spans, cursor, cursor + |later|) && View(cursor, later).Inside(buf, 0)
    ensures var s := spans[0];
      var parts' := PushGap(parts, cursor, s.lo) + [Mask(s.mask)];
      && |EmitParts(parts', buf, masks)|
        == |EmitParts(parts, buf, masks)| + (s.lo - cursor) + |MaskBytes(masks, s.mask)|
      && EmitParts(parts, buf, masks) + Splice(later, cursor, spans, masks)
      == EmitParts(parts', buf, masks) + Splice(later[s.hi - cursor..], s.hi, spans[1..], masks)
  {
    hide EmitParts, Splice, FirstUnknown;
    var s := spans[0];
    var gap, mask, rest :=
      later[..s.lo - cursor], MaskBytes(masks, s.mask), Splice(later[s.hi - cursor..], s.hi, spans[1..], masks);
    SpliceUnfold(later, cursor, spans, masks);
    PushGapEmits(parts, cursor, s.lo, buf, masks);
    EmitPartsPush(PushGap(parts, cursor, s.lo), Mask(s.mask), buf, masks);
    assert gap == buf[cursor..s.lo];
    Regroup(EmitParts(parts, buf, masks), gap, mask, rest);
  }

  lemma SpliceUnfold(text: bytes, at: nat, spans: seq<Span>, masks: Masks)
    requires spans != [] && Laid(spans, at, at + |text|)
    ensures var s := spans[0];
      Splice(text, at, spans, masks)
      == text[..s.lo - at] + (MaskBytes(masks, s.mask) + Splice(text[s.hi - at..], s.hi, spans[1..], masks))
  {
  }

  lemma Regroup(a: bytes, b: bytes, c: bytes, d: bytes)
    ensures a + (b + (c + d)) == ((a + b) + c) + d
  {
  }

  lemma LaidStep(spans: seq<Span>, i: nat, lo: nat, hi: nat)
    requires i < |spans| && Laid(spans[i..], lo, hi)
    ensures lo <= spans[i].lo && spans[i].hi <= hi && Laid(spans[i + 1..], spans[i].hi, hi)
    ensures spans[i..] != [] && spans[i..][0] == spans[i] && spans[i..][1..] == spans[i + 1..]
  {
    assert spans[i..][1..] == spans[i + 1..];
  }

  lemma UnknownStep(spans: seq<Span>, i: nat, masks: Masks)
    requires i < |spans|
    ensures FirstUnknown(spans[i..], masks)
      == if spans[i].mask >= |masks| then Some(spans[i].mask) else FirstUnknown(spans[i + 1..], masks)
  {
    assert spans[i..][1..] == spans[i + 1..];
  }

  lemma Advance(window: View, cursor: nat, next: nat, buf: bytes)
    requires window.Inside(buf, 0) && window.at <= cursor <= next <= window.End()
    ensures window.text[cursor - window.at..][next - cursor..] == window.text[next - window.at..]
    ensures View(cursor, window.text[cursor - window.at..]).Inside(buf, 0)
  {
  }

  /** The first `i` spans are spliced, up to `cursor`; `whole` is the whole splice. */
  ghost predicate Splicing(window: View, spans: seq<Span>, i: nat, cursor: nat, parts: seq<Part>, size: nat,
                           whole: bytes, buf: bytes, masks: Masks) {
    && i <= |spans| && window.at <= cursor <= window.End() <= |buf|
    && Laid(spans[i..], cursor, window.End())
    && FirstUnknown(spans, masks) == FirstUnknown(spans[i..], masks)
    && whole == EmitParts(parts, buf, masks) + Splice(window.text[cursor - window.at..], cursor, spans[i..], masks)
    && size == |EmitParts(parts, buf, masks)|
    && forall p <- parts :: PartOk(p, buf, masks)
  }

  lemma SplicingStart(window: View, spans: seq<Span>, buf: bytes, masks: Masks)
    requires window.Inside(buf, 0) && Laid(spans, window.at, window.End())
    ensures Splicing(window, spans, 0, window.at, [], 0, Splice(window.text, window.at, spans, masks), buf, masks)
  {
    hide Laid, FirstUnknown, EmitParts, Splice;
    NoParts(buf, masks);
    assert spans[0..] == spans && window.text[0..] == window.text;
  }

  lemma SplicingStep(window: View, spans: seq<Span>, i: nat, cursor: nat, parts: seq<Part>, size: nat,
                     whole: bytes, buf: bytes, masks: Masks)
    requires Splicing(window, spans, i, cursor, parts, size, whole, buf, masks) && i < |spans| && window.Inside(buf, 0)
    ensures var s := spans[i];
      && cursor <= s.lo
      && (s.mask >= |masks| ==> FirstUnknown(spans, masks) == Some(s.mask))
      && (s.mask < |masks| ==>
            Splicing(window, spans, i + 1, s.hi, PushGap(parts, cursor, s.lo) + [Mask(s.mask)],
                     size + (s.lo - cursor) + |masks[s.mask]|, whole, buf, masks))
  {
    hide Laid, FirstUnknown, EmitParts, Splice;
    var s, later := spans[i], window.text[cursor - window.at..];
    LaidStep(spans, i, cursor, window.End());
    UnknownStep(spans, i, masks);
    Advance(window, cursor, s.hi, buf);
    PushSpanEmits(parts, later, cursor, spans[i..], buf, masks);
  }

  lemma SplicingEnd(window: View, spans: seq<Span>, cursor: nat, parts: seq<Part>, size: nat,
                    whole: bytes, buf: bytes, masks: Masks)
    requires Splicing(window, spans, |spans|, cursor, parts, size, whole, buf, masks) && window.Inside(buf, 0)
    ensures FirstUnknown(spans, masks).None?
    ensures var parts' := PushGap(parts, cursor, window.End());
      && whole == EmitParts(parts', buf, masks) && |whole| == size + (window.End() - cursor)
      && forall p <- parts' :: PartOk(p, buf, masks)
  {
    hide Laid, EmitParts, Splice;
    var later := window.text[cursor - window.at..];
    Advance(window, cursor, window.End(), buf);
    assert spans[|spans|..] == [];
    NothingLeft(later, cursor, masks);
    PushGapEmits(parts, cursor, window.End(), buf, masks);
  }

  method BuildScalar(field: nat, window: View, idx: nat, buf: bytes, d: Decided, masks: Masks)
    returns (r: Rebuilt<Option<Seg>>)
    requires window.Inside(buf, 0)
    ensures var e, text := Selected(window, d.SpansFor(idx)), Governed(window.text, window.at, d.SpansFor(idx), masks);
      if e == [] then r == Ok(None)
      else if FirstUnknown(e, masks).Some? then r == Err(UnknownMask(FirstUnknown(e, masks).value))
      else r.Ok? && r.value.Some? && ScalarFor(r.value.value, field, text, buf, masks)
  {
    hide Effective, ScalarFor, EmitParts, Splice, Laid, FirstUnknown, Splicing, PartOk;
    var spans := EffectiveSpans(d, idx, window);
    if spans == [] {
      return Ok(None);
    }
    EffectiveLaid(d.SpansFor(idx), window.at, window.End());
    var parts: seq<Part>, size: nat, cursor: nat, i: nat := [], 0, window.at, 0;
    ghost var whole := Splice(window.text, window.at, spans, masks);
    SplicingStart(window, spans, buf, masks);
    while i < |spans|
      invariant i <= |spans| && cursor <= window.End()
      invariant Splicing(window, spans, i, cursor, parts, size, whole, buf, masks)
    {
      var s := spans[i];
      SplicingStep(window, spans, i, cursor, parts, size, whole, buf, masks);
      if s.lo > cursor {
        size := size + (s.lo - cursor);
        parts := parts + [Raw(cursor, s.lo)];
      }
      if s.mask >= |masks| {
        return Err(UnknownMask(s.mask));
      }
      size := size + |masks[s.mask]|;
      parts := parts + [Mask(s.mask)];
      cursor := s.hi;
      i := i + 1;
      SplicingBounds(window, spans, i, cursor, parts, size, whole, buf, masks);
    }
    SplicingEnd(window, spans, cursor, parts, size, whole, buf, masks);
    if cursor < window.End() {
      size := size + (window.End() - cursor);
      parts := parts + [Raw(cursor, window.End())];
    }
    ScalarEmits(field, parts, size, whole, buf, masks);
    return Ok(Some(Scalar(field, size, parts)));
  }

  lemma SplicingBounds(window: View, spans: seq<Span>, i: nat, cursor: nat, parts: seq<Part>, size: nat,
                       whole: bytes, buf: bytes, masks: Masks)
    requires Splicing(window, spans, i, cursor, parts, size, whole, buf, masks)
    ensures cursor <= window.End()
  {
  }

  lemma NoParts(buf: bytes, masks: Masks)
    ensures EmitParts([], buf, masks) == []
    ensures forall x: bytes {:trigger [] + x} :: [] + x == x
  {
  }

  lemma NothingLeft(later: bytes, cursor: nat, masks: Masks)
    ensures FirstUnknown([], masks).None?
    ensures Laid([], cursor, cursor + |later|) && Splice(later, cursor, [], masks) == later
  {
  }

  // ----- one build loop

  /** What a build method answers for a window: the governed fields, as segments. */
  ghost predicate Builds(r: Rebuilt<Child>, g: Rebuilt<Walk>, touched: bool, buf: bytes, masks: Masks) {
    if g.Err? then r == Err(g.error)
    else
      && r.Ok?
      && if touched then r.value.Rebuilt? && SegsOk(r.value.segs, buf, masks)
        && Emit(r.value.segs, buf, masks) == Unwalk(g.value)
         else r.value.Unchanged?
  }

  /** What a loop has emitted, then the governed rest, is the governed whole. */
  ghost predicate Underway(whole: Rebuilt<Walk>, rest: Rebuilt<Walk>, done: bytes) {
    if rest.Err? then whole == rest
    else whole.Ok? && Unwalk(whole.value) == done + Unwalk(rest.value)
  }

  lemma UnderwayStart(g: Rebuilt<Walk>, at: nat, buf: bytes, masks: Masks)
    requires at <= |buf|
    ensures Underway(g, g, Builder([], at, false).Done(at, buf, masks))
    ensures Builder([], at, false).Valid(at, at, buf, masks)
  {
    assert Slice(buf, at, at) == [];
    if g.Ok? { assert [] + [] + Unwalk(g.value) == Unwalk(g.value); }
  }

  /** One governed field written: `rest` was that field and then `later`. */
  lemma UnderwayStep(whole: Rebuilt<Walk>, rest: Rebuilt<Walk>, later: Rebuilt<Walk>, field: bytes, done: bytes)
    requires Underway(whole, rest, done)
    requires if later.Err? then rest == later else rest.Ok? && Unwalk(rest.value) == field + Unwalk(later.value)
    ensures Underway(whole, later, done + field)
  {
    hide Unwalk;
    if later.Ok? { assert done + (field + Unwalk(later.value)) == (done + field) + Unwalk(later.value); }
  }

  lemma FinishBuilds(b: Builder, start: nat, end: nat, whole: Rebuilt<Walk>, touched: bool, buf: bytes, masks: Masks)
    requires b.Valid(start, end, buf, masks) && b.changed == touched
    requires Underway(whole, Ok(Stop([])), b.Done(end, buf, masks))
    ensures Builds(Ok(b.Finish(end)), whole, touched, buf, masks)
  {
    hide Emit, SegsOk;
    assert Unwalk(Stop([])) == [];
    assert b.Done(end, buf, masks) + [] == b.Done(end, buf, masks);
    if touched { FinishDone(b, start, end, buf, masks); }
  }

  /** A rebuilt child, framed by its field's header, is the enclosed field. */
  lemma NestedEmits(f: Field, field: nat, inner: Walk, segs: seq<Seg>, buf: bytes, masks: Masks)
    requires SegsOk(segs, buf, masks) && Emit(segs, buf, masks) == Unwalk(inner) && f.num == field
    ensures SegOk(Nested(field, SegsLength(segs), segs), buf, masks)
    ensures EmitSeg(Nested(field, SegsLength(segs), segs), buf, masks) == Enclose(f, true, inner).Bytes()
  {
    SegsLengthExact(segs, buf, masks);
    hide Emit, SegsOk, SegsLength;
  }

  ghost predicate EmitsAs(seg: Seg, f: Field, buf: bytes, masks: Masks) {
    SegOk(seg, buf, masks) && EmitSeg(seg, buf, masks) == f.Bytes()
  }

  lemma Prefix(a: bytes, b: bytes, buf: bytes, pos: nat, end: nat)
    requires pos <= end <= |buf| && buf[pos..end] == a + b
    ensures pos + |a| <= end && a == buf[pos..pos + |a|]
  {
    assert |buf[pos..end]| == |a| + |b|;
    forall i | 0 <= i < |a| ensures a[i] == buf[pos + i] {
      assert buf[pos..end][i] == (a + b)[i];
    }
  }

  lemma FieldBytes(buf: bytes, pos: nat, next: nat, end: nat, tag: Tag)
    requires pos <= end <= |buf| && Took(buf, pos, next, end, tag)
    ensures Rest(buf, pos, end).field.Bytes() == buf[pos..next]
  {
    hide Fields, Unwalk, Field.Bytes;
    WalkFaithful(buf[pos..end]);
    var w := Rest(buf, pos, end);
    StepParts(w);
    Prefix(w.field.Bytes(), Unwalk(w.next), buf, pos, end);
  }

  // ----- AnyValue

  lemma AnyStops(w: Walk, at: nat, spans: seq<Span>, masks: Masks)
    requires w.Stop?
    ensures GovernAny(w, at, spans, masks) == if w.rest == [] then Ok(w) else Err(WireError(StopError(w.rest, at)))
    ensures !AnyTouched(w, at, spans)
  {
  }

  lemma AnyStep(whole: Rebuilt<Walk>, w: Walk, at: nat, spans: seq<Span>, masks: Masks, done: bytes)
    requires w.Step? && Underway(whole, GovernAny(w, at, spans, masks), done)
    ensures var g := GovernString(w.field, at, spans, masks);
      if g.Err? then whole == Err(g.error)
      else Underway(whole, GovernAny(w.next, at + |w.field.Bytes()|, spans, masks), done + g.value.Bytes())
    ensures AnyTouched(w, at, spans)
      == (StringTouched(w.field, at, spans) || AnyTouched(w.next, at + |w.field.Bytes()|, spans))
  {
    hide GovernString, StringTouched;
    var g, later := GovernString(w.field, at, spans, masks), GovernAny(w.next, at + |w.field.Bytes()|, spans, masks);
    if g.Ok? { UnderwayStep(whole, GovernAny(w, at, spans, masks), later, g.value.Bytes(), done); }
  }

  /** One arm of the AnyValue loop: a string is spliced if spans touch it. */
  method BuildString(cur: WireCursor, tag: Tag, idx: nat, d: Decided, masks: Masks) returns (r: Rebuilt<Option<Seg>>)
    requires cur.Tagged() && tag == cur.Number()
    modifies cur`pos
    ensures cur.Valid()
    ensures Rest(cur.buf, cur.start, cur.end).Stop? ==>
      r.Err? && r.error.WireError? && Stuck(cur.buf, cur.start, cur.end, r.error.error)
    ensures Rest(cur.buf, cur.start, cur.end).Step? ==>
      var f, spans := Rest(cur.buf, cur.start, cur.end).field, d.SpansFor(idx);
      var g := GovernString(f, cur.start, spans, masks);
      if g.Err? then r == Err(g.error)
      else
        && r.Ok?
        && Took(cur.buf, cur.start, cur.pos, cur.end, tag)
        && r.value.Some? == StringTouched(f, cur.start, spans)
        && if r.value.Some? then EmitsAs(r.value.value, g.value, cur.buf, masks) else g.value == f
  {
    hide Fields, StopError, Effective, Governed, FirstUnknown, Labelled, EmitSeg, SegOk, Unwalk, TagAt, Header;
    if tag == Tag(1, 2) {
      var s := cur.ReadRange();
      if s.Err? { return Err(WireError(s.error)); }
      r := BuildScalar(1, s.value, idx, cur.buf, d, masks);
    } else {
      var skipped := cur.Skip(tag.wire);
      if skipped.Err? { return Err(WireError(skipped.error)); }
      r := Ok(None);
    }
  }

  method BuildAnyValue(buf: bytes, window: View, idx: nat, d: Decided, masks: Masks) returns (r: Rebuilt<Child>)
    requires window.Inside(buf, 0)
    ensures Builds(r, GovernAny(Fields(window.text), window.at, d.SpansFor(idx), masks),
      AnyTouched(Fields(window.text), window.at, d.SpansFor(idx)), buf, masks)
  {
    hide Fields, StopError, GovernAny, AnyTouched, GovernString, StringTouched, Emit, SegsOk, Labelled, EmitSeg,
      SegOk, Unwalk, Builder.Done, Builder.Valid, TagAt;
    RestDone(buf);
    var end := window.End();
    ghost var spans := d.SpansFor(idx);
    ghost var whole, touched :=
      GovernAny(Fields(window.text), window.at, spans, masks), AnyTouched(Fields(window.text), window.at, spans);
    var cur := new WireCursor(buf, window.at, end);
    var b := Builder([], window.at, false);
    UnderwayStart(whole, window.at, buf, masks);
    while !cur.Done()
      invariant cur.Valid() && cur.buf == buf && cur.end == end
      invariant b.Valid(window.at, cur.pos, buf, masks)
      invariant Underway(whole, GovernAny(Rest(buf, cur.pos, end), cur.pos, spans, masks), b.Done(cur.pos, buf, masks))
      invariant touched == (b.changed || AnyTouched(Rest(buf, cur.pos, end), cur.pos, spans))
      decreases end - cur.pos
    {
      var tagStart := cur.pos;
      ghost var w := Rest(buf, tagStart, end);
      if w.Step? {
        AnyStep(whole, w, tagStart, spans, masks, b.Done(tagStart, buf, masks));
      } else {
        AnyStops(w, tagStart, spans, masks);
      }
      var tag := cur.ReadTag();
      if tag.Err? { return Err(WireError(tag.error)); }
      var scalar :- BuildString(cur, tag.value, idx, d, masks);
      FieldBytes(buf, tagStart, cur.pos, end, tag.value);
      if scalar.Some? {
        ReplaceDone(b, window.at, tagStart, cur.pos, scalar.value, buf, masks);
        b := b.Replace(tagStart, cur.pos, scalar.value);
      } else {
        KeepDone(b, window.at, tagStart, cur.pos, buf, masks);
      }
    }
    AnyStops(Stop([]), cur.pos, spans, masks);
    FinishBuilds(b, window.at, end, whole, touched, buf, masks);
    return Ok(b.Finish(end));
  }

  // ----- KeyValue

  lemma PairStops(w: Walk, at: nat, spans: seq<Span>, masks: Masks)
    requires w.Stop?
    ensures GovernPair(w, at, spans, masks) == if w.rest == [] then Ok(w) else Err(WireError(StopError(w.rest, at)))
    ensures !PairTouched(w, at, spans)
  {
  }

  lemma PairStep(whole: Rebuilt<Walk>, w: Walk, at: nat, spans: seq<Span>, masks: Masks, done: bytes)
    requires w.Step? && Underway(whole, GovernPair(w, at, spans, masks), done)
    ensures var g := GovernValue(w.field, at, spans, masks);
      if g.Err? then whole == Err(g.error)
      else Underway(whole, GovernPair(w.next, at + |w.field.Bytes()|, spans, masks), done + g.value.Bytes())
    ensures PairTouched(w, at, spans)
      == (ValueTouched(w.field, at, spans) || PairTouched(w.next, at + |w.field.Bytes()|, spans))
  {
    hide GovernValue, ValueTouched;
    var g, later := GovernValue(w.field, at, spans, masks), GovernPair(w.next, at + |w.field.Bytes()|, spans, masks);
    if g.Ok? { UnderwayStep(whole, GovernPair(w, at, spans, masks), later, g.value.Bytes(), done); }
  }

  /** One arm of the KeyValue loop: a value is rebuilt, anything else is skipped. */
  method BuildValue(cur: WireCursor, tag: Tag, idx: nat, d: Decided, masks: Masks) returns (r: Rebuilt<Child>)
    requires cur.Tagged() && tag == cur.Number()
    modifies cur`pos
    ensures cur.Valid()
    ensures Rest(cur.buf, cur.start, cur.end).Stop? ==>
      r.Err? && r.error.WireError? && Stuck(cur.buf, cur.start, cur.end, r.error.error)
    ensures Rest(cur.buf, cur.start, cur.end).Step? ==>
      var f, spans := Rest(cur.buf, cur.start, cur.end).field, d.SpansFor(idx);
      var g := GovernValue(f, cur.start, spans, masks);
      if g.Err? then r == Err(g.error)
      else
        && r.Ok?
        && Took(cur.buf, cur.start, cur.pos, cur.end, tag)
        && r.value.Rebuilt? == ValueTouched(f, cur.start, spans)
        && if r.value.Rebuilt?
           then EmitsAs(Nested(2, SegsLength(r.value.segs), r.value.segs), g.value, cur.buf, masks)
           else g.value == f
  {
    hide Fields, StopError, GovernAny, AnyTouched, Emit, SegsOk, Labelled, EmitSeg, SegOk, Unwalk, TagAt,
      SegsLength, Header;
    if tag == Tag(2, 2) {
      var av := cur.ReadRange();
      if av.Err? { return Err(WireError(av.error)); }
      r := BuildAnyValue(cur.buf, av.value, idx, d, masks);
      if r.Ok? && r.value.Rebuilt? {
        NestedEmits(Rest(cur.buf, cur.start, cur.end).field, 2,
                    GovernAny(Fields(av.value.text), av.value.at, d.SpansFor(idx), masks).value, r.value.segs,
                      cur.buf, masks);
      }
    } else {
      var skipped := cur.Skip(tag.wire);
      if skipped.Err? { return Err(WireError(skipped.error)); }
      r := Ok(Unchanged);
    }
  }

  method BuildKeyValue(buf: bytes, window: View, idx: nat, d: Decided, masks: Masks) returns (r: Rebuilt<Child>)
    requires window.Inside(buf, 0)
    ensures Builds(r, GovernPair(Fields(window.text), window.at, d.SpansFor(idx), masks),
      PairTouched(Fields(window.text), window.at, d.SpansFor(idx)), buf, masks)
  {
    hide Fields, StopError, GovernPair, PairTouched, GovernValue, ValueTouched, Emit, SegsOk, Labelled, EmitSeg,
      SegOk, Unwalk, Builder.Done, Builder.Valid, TagAt, SegsLength, Header;
    RestDone(buf);
    var end := window.End();
    ghost var spans := d.SpansFor(idx);
    ghost var whole, touched :=
      GovernPair(Fields(window.text), window.at, spans, masks), PairTouched(Fields(window.text), window.at, spans);
    var cur := new WireCursor(buf, window.at, end);
    var b := Builder([], window.at, false);
    UnderwayStart(whole, window.at, buf, masks);
    while !cur.Done()
      invariant cur.Valid() && cur.buf == buf && cur.end == end
      invariant b.Valid(window.at, cur.pos, buf, masks)
      invariant Underway(whole, GovernPair(Rest(buf, cur.pos, end), cur.pos, spans, masks), b.Done(cur.pos, buf, masks))
      invariant touched == (b.changed || PairTouched(Rest(buf, cur.pos, end), cur.pos, spans))
      decreases end - cur.pos
    {
      var tagStart := cur.pos;
      ghost var w := Rest(buf, tagStart, end);
      if w.Step? {
        PairStep(whole, w, tagStart, spans, masks, b.Done(tagStart, buf, masks));
      } else {
        PairStops(w, tagStart, spans, masks);
      }
      var tag := cur.ReadTag();
      if tag.Err? { return Err(WireError(tag.error)); }
      var child :- BuildValue(cur, tag.value, idx, d, masks);
      FieldBytes(buf, tagStart, cur.pos, end, tag.value);
      if child.Rebuilt? {
        var seg := Nested(2, SegsLength(child.segs), child.segs);
        ReplaceDone(b, window.at, tagStart, cur.pos, seg, buf, masks);
        b := b.Replace(tagStart, cur.pos, seg);
      } else {
        KeepDone(b, window.at, tagStart, cur.pos, buf, masks);
      }
    }
    PairStops(Stop([]), cur.pos, spans, masks);
    FinishBuilds(b, window.at, end, whole, touched, buf, masks);
    return Ok(b.Finish(end));
  }

  // ----- LogRecord

  lemma RecordStops(w: Walk, at: nat, spans: seq<Span>, masks: Masks)
    requires w.Stop?
    ensures GovernRecord(w, at, spans, masks) == if w.rest == [] then Ok(w) else Err(WireError(StopError(w.rest, at)))
    ensures !RecordTouched(w, at, spans)
  {
  }

  lemma RecordStep(whole: Rebuilt<Walk>, w: Walk, at: nat, spans: seq<Span>, masks: Masks, done: bytes)
    requires w.Step? && Underway(whole, GovernRecord(w, at, spans, masks), done)
    ensures var g := GovernPart(w.field, at, spans, masks);
      if g.Err? then whole == Err(g.error)
      else Underway(whole, GovernRecord(w.next, at + |w.field.Bytes()|, spans, masks), done + g.value.Bytes())
    ensures RecordTouched(w, at, spans)
      == (PartTouched(w.field, at, spans) || RecordTouched(w.next, at + |w.field.Bytes()|, spans))
  {
    hide GovernPart, PartTouched;
    var g, later := GovernPart(w.field, at, spans, masks), GovernRecord(w.next, at + |w.field.Bytes()|, spans, masks);
    if g.Ok? { UnderwayStep(whole, GovernRecord(w, at, spans, masks), later, g.value.Bytes(), done); }
  }

  /** A kept record; the verdict is consulted before anything is walked. */
  method BuildRecord(buf: bytes, window: View, idx: nat, d: Decided, masks: Masks) returns (r: Rebuilt<Child>)
    requires window.Inside(buf, 0)
    ensures d.VerdictFor(idx).Drop? ==> r == Ok(Dropped)
    ensures d.VerdictFor(idx).Keep? ==>
      Builds(r, GovernRecord(Fields(window.text), window.at, d.SpansFor(idx), masks),
        RecordTouched(Fields(window.text), window.at, d.SpansFor(idx)), buf, masks)
  {
    if d.VerdictFor(idx).Drop? {
      return Ok(Dropped);
    }
    r := BuildKeptRecord(buf, window, idx, d, masks);
  }

  /** One arm of the record loop: the body or an attribute is rebuilt, anything else is skipped. */
  method BuildPart(cur: WireCursor, tag: Tag, idx: nat, d: Decided, masks: Masks) returns (r: Rebuilt<Child>)
    requires cur.Tagged() && tag == cur.Number()
    modifies cur`pos
    ensures cur.Valid()
    ensures Rest(cur.buf, cur.start, cur.end).Stop? ==>
      r.Err? && r.error.WireError? && Stuck(cur.buf, cur.start, cur.end, r.error.error)
    ensures Rest(cur.buf, cur.start, cur.end).Step? ==>
      var f, spans := Rest(cur.buf, cur.start, cur.end).field, d.SpansFor(idx);
      var g := GovernPart(f, cur.start, spans, masks);
      if g.Err? then r == Err(g.error)
      else
        && r.Ok?
        && Took(cur.buf, cur.start, cur.pos, cur.end, tag)
        && r.value.Rebuilt? == PartTouched(f, cur.start, spans)
        && if r.value.Rebuilt?
           then EmitsAs(Nested(tag.num, SegsLength(r.value.segs), r.value.segs), g.value, cur.buf, masks)
           else g.value == f
  {
    hide Fields, StopError, GovernPair, PairTouched, GovernAny, AnyTouched, Emit, SegsOk, Labelled, EmitSeg, SegOk,
      Unwalk, TagAt, SegsLength, Header;
    ghost var spans, w := d.SpansFor(idx), Rest(cur.buf, cur.start, cur.end);
    if tag == Tag(5, 2) || tag == Tag(6, 2) {
      var v := cur.ReadRange();
      if v.Err? { return Err(WireError(v.error)); }
      if tag.num == 5 {
        r := BuildAnyValue(cur.buf, v.value, idx, d, masks);
        if r.Ok? && r.value.Rebuilt? {
          NestedEmits(w.field, 5, GovernAny(Fields(v.value.text), v.value.at, spans, masks).value, r.value.segs,
            cur.buf, masks);
        }
      } else {
        r := BuildKeyValue(cur.buf, v.value, idx, d, masks);
        if r.Ok? && r.value.Rebuilt? {
          NestedEmits(w.field, 6, GovernPair(Fields(v.value.text), v.value.at, spans, masks).value, r.value.segs,
            cur.buf, masks);
        }
      }
    } else {
      var skipped := cur.Skip(tag.wire);
      if skipped.Err? { return Err(WireError(skipped.error)); }
      r := Ok(Unchanged);
    }
  }

  method BuildKeptRecord(buf: bytes, window: View, idx: nat, d: Decided, masks: Masks) returns (r: Rebuilt<Child>)
    requires window.Inside(buf, 0)
    ensures Builds(r, GovernRecord(Fields(window.text), window.at, d.SpansFor(idx), masks),
      RecordTouched(Fields(window.text), window.at, d.SpansFor(idx)), buf, masks)
  {
    hide Fields, StopError, GovernRecord, RecordTouched, GovernPart, PartTouched, Emit, SegsOk, Labelled, EmitSeg,
      SegOk, Unwalk, Builder.Done, Builder.Valid, TagAt, SegsLength, Header;
    RestDone(buf);
    var end := window.End();
    ghost var spans := d.SpansFor(idx);
    ghost var whole, touched :=
      GovernRecord(Fields(window.text), window.at, spans, masks), RecordTouched(Fields(window.text), window.at, spans);
    var cur := new WireCursor(buf, window.at, end);
    var b := Builder([], window.at, false);
    UnderwayStart(whole, window.at, buf, masks);
    while !cur.Done()
      invariant cur.Valid() && cur.buf == buf && cur.end == end
      invariant b.Valid(window.at, cur.pos, buf, masks)
      invariant Underway(whole, GovernRecord(Rest(buf, cur.pos, end), cur.pos, spans, masks),
        b.Done(cur.pos, buf, masks))
      invariant touched == (b.changed || RecordTouched(Rest(buf, cur.pos, end), cur.pos, spans))
      decreases end - cur.pos
    {
      var tagStart := cur.pos;
      ghost var w := Rest(buf, tagStart, end);
      if w.Step? {
        RecordStep(whole, w, tagStart, spans, masks, b.Done(tagStart, buf, masks));
      } else {
        RecordStops(w, tagStart, spans, masks);
      }
      var tag := cur.ReadTag();
      if tag.Err? { return Err(WireError(tag.error)); }
      var child :- BuildPart(cur, tag.value, idx, d, masks);
      FieldBytes(buf, tagStart, cur.pos, end, tag.value);
      if child.Rebuilt? {
        var seg := Nested(tag.value.num, SegsLength(child.segs), child.segs);
        ReplaceDone(b, window.at, tagStart, cur.pos, seg, buf, masks);
        b := b.Replace(tagStart, cur.pos, seg);
      } else {
        KeepDone(b, window.at, tagStart, cur.pos, buf, masks);
      }
    }
    RecordStops(Stop([]), cur.pos, spans, masks);
    FinishBuilds(b, window.at, end, whole, touched, buf, masks);
    return Ok(b.Finish(end));
  }

  // ----- ScopeLogs, ResourceLogs, request

  lemma AllStops(w: Walk, at: nat, idx: nat, d: Decided, masks: Masks, level: Level)
    requires w.Stop?
    ensures GovernAll(w, at, idx, d, masks, level)
      == if w.rest == [] then Ok(w) else Err(WireError(StopError(w.rest, at)))
    ensures !Touched(w, at, idx, d, level) && Count(w, level) == 0
  {
  }

  lemma AllStep(whole: Rebuilt<Walk>, w: Walk, at: nat, idx: nat, d: Decided, masks: Masks, level: Level, done: bytes)
    requires w.Step? && Underway(whole, GovernAll(w, at, idx, d, masks, level), done)
    ensures var g := GovernField(w.field, at, idx, d, masks, level);
      if g.Err? then whole == Err(g.error)
      else Underway(whole, GovernAll(w.next, at + |w.field.Bytes()|, idx + FieldCount(w.field, level), d, masks, level),
                    if g.value.Some? then done + g.value.value.Bytes() else done)
    ensures Touched(w, at, idx, d, level) ==
      (!FateOf(w.field, at, idx, d, level).Untouched?
        || Touched(w.next, at + |w.field.Bytes()|, idx + FieldCount(w.field, level), d, level))
    ensures Count(w, level) == FieldCount(w.field, level) + Count(w.next, level)
  {
    hide GovernField, FateOf, FieldCount;
    var g := GovernField(w.field, at, idx, d, masks, level);
    var later := GovernAll(w.next, at + |w.field.Bytes()|, idx + FieldCount(w.field, level), d, masks, level);
    if g.Ok? && g.value.Some? {
      UnderwayStep(whole, GovernAll(w, at, idx, d, masks, level), later, g.value.value.Bytes(), done);
    }
  }

  /** What building one container child answers, and what it emits. */
  ghost predicate ChildBuilt(r: Rebuilt<Child>, f: Field, at: nat, idx: nat, d: Decided, level: Level, buf: bytes,
      masks: Masks) {
    var g := GovernField(f, at, idx, d, masks, level);
    if g.Err? then r == Err(g.error)
    else
      && r.Ok?
      && match FateOf(f, at, idx, d, level) {
           case Omitted => r.value.Dropped? && g.value.None?
           case Untouched => r.value.Unchanged? && g.value == Some(f)
           case Rewritten =>
             && r.value.Rebuilt?
             && g.value.Some?
             && EmitsAs(Nested(level.ChildField(), SegsLength(r.value.segs), r.value.segs), g.value.value, buf, masks)
         }
  }

  lemma ChildBuiltFrom(r: Rebuilt<Child>, f: Field, at: nat, idx: nat, d: Decided, level: Level, buf: bytes,
      masks: Masks)
    requires f.Is(level.ChildField(), 2)
    requires FateOf(f, at, idx, d, level).Omitted? ==> r == Ok(Dropped)
    requires !FateOf(f, at, idx, d, level).Omitted? ==>
      Builds(r, GovernChild(f, at, idx, d, masks, level), FateOf(f, at, idx, d, level).Rewritten?, buf, masks)
    ensures ChildBuilt(r, f, at, idx, d, level, buf, masks)
  {
    hide GovernChild, FateOf, Emit, SegsOk, EmitSeg, SegOk, SegsLength, Unwalk, Header;
    var fate := FateOf(f, at, idx, d, level);
    if fate.Rewritten? && r.Ok? {
      NestedEmits(f, level.ChildField(), GovernChild(f, at, idx, d, masks, level).value, r.value.segs, buf, masks);
    }
  }

  lemma ScopeChild(f: Field, at: nat, idx: nat, d: Decided, masks: Masks)
    requires f.Is(2, 2)
    ensures FateOf(f, at, idx, d, Scope).Omitted? == d.VerdictFor(idx).Drop?
    ensures d.VerdictFor(idx).Keep? ==>
      && FateOf(f, at, idx, d, Scope).Rewritten? == RecordTouched(Fields(f.payload), at + |f.head|, d.SpansFor(idx))
      && GovernChild(f, at, idx, d, masks, Scope)
        == GovernRecord(Fields(f.payload), at + |f.head|, d.SpansFor(idx), masks)
    ensures FieldCount(f, Scope) == 1
  {
    hide Fields, RecordTouched, GovernRecord, Labelled, Touched, GovernAll, Count;
  }

  lemma ContainerChild(f: Field, at: nat, idx: nat, d: Decided, masks: Masks, level: Level)
    requires f.Is(level.ChildField(), 2) && !level.Scope?
    ensures !FateOf(f, at, idx, d, level).Omitted?
    ensures FateOf(f, at, idx, d, level).Rewritten? == Touched(Fields(f.payload), at + |f.head|, idx, d, level.Below())
    ensures GovernChild(f, at, idx, d, masks, level)
      == GovernAll(Fields(f.payload), at + |f.head|, idx, d, masks, level.Below())
    ensures FieldCount(f, level) == Count(Fields(f.payload), level.Below())
  {
    hide Fields, RecordTouched, GovernRecord, Touched, GovernAll, Count;
  }

  lemma OtherField(f: Field, at: nat, idx: nat, d: Decided, masks: Masks, level: Level)
    requires !f.Is(level.ChildField(), 2)
    ensures GovernField(f, at, idx, d, masks, level) == Ok(Some(f))
    ensures FateOf(f, at, idx, d, level).Untouched? && FieldCount(f, level) == 0
  {
    hide GovernChild, Touched, Fields, RecordTouched, Count;
  }

  /** One arm of the container loop: a child is a record, or a container one level down. */
  method BuildChild(cur: WireCursor, tag: Tag, recIdx: nat, d: Decided, masks: Masks, level: Level)
      returns (r: Rebuilt<Child>, next: nat)
    requires cur.Tagged() && tag == cur.Number()
    modifies cur`pos
    ensures cur.Valid()
    ensures Rest(cur.buf, cur.start, cur.end).Stop? ==>
      r.Err? && r.error.WireError? && Stuck(cur.buf, cur.start, cur.end, r.error.error)
    ensures Rest(cur.buf, cur.start, cur.end).Step? ==>
      var f := Rest(cur.buf, cur.start, cur.end).field;
      && ChildBuilt(r, f, cur.start, recIdx, d, level, cur.buf, masks)
      && (r.Ok? ==> Took(cur.buf, cur.start, cur.pos, cur.end, tag) && next == recIdx + FieldCount(f, level))
    decreases level.Rank(), 0
  {
    hide Fields, GovernAll, GovernRecord, GovernChild, GovernField, FateOf, FieldCount, Touched, RecordTouched,
      Count, Builds, StopError, TagAt, Stuck, EmitsAs;
    next := recIdx;
    ghost var w := Rest(cur.buf, cur.start, cur.end);
    if tag == Tag(level.ChildField(), 2) {
      var v := cur.ReadRange();
      if v.Err? { r := Err(WireError(v.error)); NotAField(cur.buf, cur.start, cur.end, v.error); return; }
      if level.Scope? {
        next := recIdx + 1;
        r := BuildRecord(cur.buf, v.value, recIdx, d, masks);
        ScopeChild(w.field, cur.start, recIdx, d, masks);
      } else {
        r, next := BuildContainer(cur.buf, v.value, recIdx, d, masks, level.Below());
        ContainerChild(w.field, cur.start, recIdx, d, masks, level);
      }
      ChildBuiltFrom(r, w.field, cur.start, recIdx, d, level, cur.buf, masks);
    } else {
      var skipped := cur.Skip(tag.wire);
      if skipped.Err? {
        r := Err(WireError(skipped.error));
        NotAField(cur.buf, cur.start, cur.end, skipped.error);
        return;
      }
      OtherField(w.field, cur.start, recIdx, d, masks, level);
      r := Ok(Unchanged);
    }
  }

  lemma NotAField(buf: bytes, pos: nat, end: nat, e: ParseError)
    requires pos <= end <= |buf| && Stuck(buf, pos, end, e)
    ensures Rest(buf, pos, end).Stop?
  {
  }

  method BuildContainer(buf: bytes, window: View, recIdx: nat, d: Decided, masks: Masks, level: Level)
      returns (r: Rebuilt<Child>, next: nat)
    requires window.Inside(buf, 0)
    ensures Builds(r, GovernAll(Fields(window.text), window.at, recIdx, d, masks, level),
      Touched(Fields(window.text), window.at, recIdx, d, level), buf, masks)
    ensures r.Ok? ==> next == recIdx + Count(Fields(window.text), level)
    decreases level.Rank(), 1
  {
    hide Fields, StopError, GovernAll, GovernField, FateOf, Touched, FieldCount, Count, Emit, SegsOk, EmitSeg, SegOk,
      Unwalk, Builder.Done, Builder.Valid, TagAt, SegsLength, Header;
    RestDone(buf);
    next := recIdx;
    var end := window.End();
    ghost var text := Fields(window.text);
    ghost var whole, touched :=
      GovernAll(text, window.at, recIdx, d, masks, level), Touched(text, window.at, recIdx, d, level);
    var cur := new WireCursor(buf, window.at, end);
    var b := Builder([], window.at, false);
    UnderwayStart(whole, window.at, buf, masks);
    while !cur.Done()
      invariant cur.Valid() && cur.buf == buf && cur.end == end
      invariant b.Valid(window.at, cur.pos, buf, masks)
      invariant Underway(whole, GovernAll(Rest(buf, cur.pos, end), cur.pos, next, d, masks, level),
        b.Done(cur.pos, buf, masks))
      invariant touched == (b.changed || Touched(Rest(buf, cur.pos, end), cur.pos, next, d, level))
      invariant recIdx + Count(text, level) == next + Count(Rest(buf, cur.pos, end), level)
      decreases end - cur.pos
    {
      var tagStart := cur.pos;
      ghost var w := Rest(buf, tagStart, end);
      if w.Step? {
        AllStep(whole, w, tagStart, next, d, masks, level, b.Done(tagStart, buf, masks));
      } else {
        AllStops(w, tagStart, next, d, masks, level);
      }
      var tag := cur.ReadTag();
      if tag.Err? { r := Err(WireError(tag.error)); return; }
      var child;
      child, next := BuildChild(cur, tag.value, next, d, masks, level);
      if child.Err? { r := child; return; }
      FieldBytes(buf, tagStart, cur.pos, end, tag.value);
      match child.value {
        case Unchanged =>
          KeepDone(b, window.at, tagStart, cur.pos, buf, masks);
        case Dropped =>
          OmitDone(b, window.at, tagStart, cur.pos, buf, masks);
          b := b.Omit(tagStart, cur.pos);
        case Rebuilt(segs) =>
          var seg := Nested(level.ChildField(), SegsLength(segs), segs);
          ReplaceDone(b, window.at, tagStart, cur.pos, seg, buf, masks);
          b := b.Replace(tagStart, cur.pos, seg);
      }
    }
    AllStops(Stop([]), cur.pos, next, d, masks, level);
    FinishBuilds(b, window.at, end, whole, touched, buf, masks);
    r := Ok(b.Finish(end));
  }

  /** The request has no length prefix; an unchanged one is emitted as it stands. */
  method BuildRequest(buf: bytes, d: Decided, masks: Masks) returns (r: Rebuilt<seq<Seg>>, walked: nat)
    ensures var g := GovernAll(Fields(buf), 0, 0, d, masks, Request);
      if g.Err? then r == Err(g.error)
      else
        && r.Ok? && SegsOk(r.value, buf, masks) && Emit(r.value, buf, masks) == Unwalk(g.value)
        && walked == Count(Fields(buf), Request)
  {
    hide Fields, GovernAll, Touched, Count, Emit, SegsOk, EmitSeg, SegOk;
    assert buf[0..|buf|] == buf;
    var child;
    child, walked := BuildContainer(buf, View(0, buf), 0, d, masks, Request);
    if child.Err? {
      return Err(child.error), walked;
    }
    if child.value.Rebuilt? {
      return Ok(child.value.segs), walked;
    }
    AllUntouchedBytes(buf, d, masks);
    EmitPush([], Verbatim(0, |buf|), buf, masks);
    VerbatimOk(0, |buf|, buf, masks);
    NothingEmitted(buf, masks);
    assert [] + [Verbatim(0, |buf|)] == [Verbatim(0, |buf|)];
    return Ok([Verbatim(0, |buf|)]), walked;
  }

  lemma NothingEmitted(buf: bytes, masks: Masks)
    ensures SegsOk([], buf, masks) && Emit([], buf, masks) == []
  {
  }

  lemma AllUntouchedBytes(buf: bytes, d: Decided, masks: Masks)
    requires GovernAll(Fields(buf), 0, 0, d, masks, Request).Ok? && !Touched(Fields(buf), 0, 0, d, Request)
    ensures Unwalk(GovernAll(Fields(buf), 0, 0, d, masks, Request).value) == buf
  {
    hide Fields, GovernAll, Touched;
    AllUntouched(Fields(buf), 0, 0, d, masks, Request);
    WalkFaithful(buf);
  }
}
