/** The segment tree of a rebuilt message: what it emits, and that its sizes are exact. */
module Segments {
  import opened Prelude
  import opened Varint
  import opened Spans

  datatype Part = Raw(lo: nat, hi: nat) | Mask(id: nat)

  datatype Seg =
    | Verbatim(lo: nat, hi: nat)
    | Nested(field: nat, size: nat, segs: seq<Seg>)
    | Scalar(field: nat, size: nat, parts: seq<Part>)

  /** What became of a child message during the walk. */
  datatype Child = Unchanged | Dropped | Rebuilt(segs: seq<Seg>)

  // ----- what the tree emits

  function Slice(raw: bytes, lo: nat, hi: nat): bytes {
    if lo <= hi <= |raw| then raw[lo..hi] else []
  }

  function EmitPart(p: Part, raw: bytes, masks: Masks): bytes {
    match p
    case Raw(lo, hi) => Slice(raw, lo, hi)
    case Mask(id) => MaskBytes(masks, id)
  }

  function EmitParts(parts: seq<Part>, raw: bytes, masks: Masks): bytes {
    if parts == [] then []
    else EmitParts(parts[..|parts| - 1], raw, masks) + EmitPart(parts[|parts| - 1], raw, masks)
  }

  function EmitSeg(seg: Seg, raw: bytes, masks: Masks): bytes
    decreases seg
  {
    match seg
    case Verbatim(lo, hi) => Slice(raw, lo, hi)
    case Nested(field, size, segs) => Header(field, size) + Emit(segs, raw, masks)
    case Scalar(field, size, parts) => Header(field, size) + EmitParts(parts, raw, masks)
  }

  function Emit(segs: seq<Seg>, raw: bytes, masks: Masks): bytes
    decreases segs
  {
    if segs == [] then []
    else Emit(segs[..|segs| - 1], raw, masks) + EmitSeg(segs[|segs| - 1], raw, masks)
  }

  // ----- the tree is in bounds, its masks exist, and every size is the size of its content

  predicate PartOk(p: Part, raw: bytes, masks: Masks) {
    match p
    case Raw(lo, hi) => lo <= hi <= |raw|
    case Mask(id) => id < |masks|
  }

  predicate SegOk(seg: Seg, raw: bytes, masks: Masks)
    decreases seg
  {
    match seg
    case Verbatim(lo, hi) => lo <= hi <= |raw|
    case Nested(_, size, segs) => SegsOk(segs, raw, masks) && size == |Emit(segs, raw, masks)|
    case Scalar(_, size, parts) =>
      (forall p <- parts :: PartOk(p, raw, masks)) && size == |EmitParts(parts, raw, masks)|
  }

  predicate SegsOk(segs: seq<Seg>, raw: bytes, masks: Masks)
    decreases segs
  {
    segs != [] ==> SegsOk(segs[..|segs| - 1], raw, masks) && SegOk(segs[|segs| - 1], raw, masks)
  }

  // ----- sizes computed bottom-up, without emitting anything

  function SegLength(seg: Seg): nat {
    match seg
    case Verbatim(lo, hi) => if lo <= hi then hi - lo else 0
    case Nested(field, size, _) => HeaderLength(field, size) + size
    case Scalar(field, size, _) => HeaderLength(field, size) + size
  }

  function SegsLength(segs: seq<Seg>): nat {
    if segs == [] then 0 else SegsLength(segs[..|segs| - 1]) + SegLength(segs[|segs| - 1])
  }

  lemma SegLengthExact(seg: Seg, raw: bytes, masks: Masks)
    requires SegOk(seg, raw, masks)
    ensures SegLength(seg) == |EmitSeg(seg, raw, masks)|
  {
    if !seg.Verbatim? { HeaderLengthExact(seg.field, seg.size); }
  }

  /** The length summed from the recorded sizes is the length emission writes, at every depth. */
  lemma {:induction false} SegsLengthExact(segs: seq<Seg>, raw: bytes, masks: Masks)
    requires SegsOk(segs, raw, masks)
    ensures SegsLength(segs) == |Emit(segs, raw, masks)|
  {
    hide SegOk, SegLength, EmitSeg;
    if segs != [] {
      SegsLengthExact(segs[..|segs| - 1], raw, masks);
      SegLengthExact(segs[|segs| - 1], raw, masks);
    }
  }

  lemma EmitPush(segs: seq<Seg>, seg: Seg, raw: bytes, masks: Masks)
    ensures Emit(segs + [seg], raw, masks) == Emit(segs, raw, masks) + EmitSeg(seg, raw, masks)
    ensures SegsOk(segs + [seg], raw, masks) <==> SegsOk(segs, raw, masks) && SegOk(seg, raw, masks)
  {
    hide EmitSeg, SegOk;
    assert (segs + [seg])[..|segs|] == segs;
  }

  lemma EmitPartsPush(parts: seq<Part>, p: Part, raw: bytes, masks: Masks)
    ensures EmitParts(parts + [p], raw, masks) == EmitParts(parts, raw, masks) + EmitPart(p, raw, masks)
  {
    assert (parts + [p])[..|parts|] == parts;
  }

  // ----- the verbatim run that a build loop keeps open

  /** Segments so far, the start of the open verbatim run, and whether anything changed. */
  datatype Builder = Builder(segs: seq<Seg>, run: nat, changed: bool) {
    /** Everything before `pos`, as it will be emitted. */
    function Done(pos: nat, raw: bytes, masks: Masks): bytes {
      Emit(segs, raw, masks) + Slice(raw, run, pos)
    }

    ghost predicate Valid(start: nat, pos: nat, raw: bytes, masks: Masks) {
      && start <= run <= pos <= |raw|
      && SegsOk(segs, raw, masks)
      && (!changed ==> segs == [] && run == start)
    }

    /** Close the run at `tagStart`, and restart it at `pos`. */
    function Omit(tagStart: nat, pos: nat): Builder {
      Builder(if tagStart > run then segs + [Verbatim(run, tagStart)] else segs, pos, true)
    }

    function Replace(tagStart: nat, pos: nat, seg: Seg): Builder {
      var b := Omit(tagStart, pos);
      b.(segs := b.segs + [seg])
    }

    function Finish(end: nat): Child {
      if !changed then Unchanged
      else Rebuilt(if run < end then segs + [Verbatim(run, end)] else segs)
    }
  }

  lemma OmitDone(b: Builder, start: nat, tagStart: nat, pos: nat, raw: bytes, masks: Masks)
    requires b.Valid(start, tagStart, raw, masks) && tagStart <= pos <= |raw|
    ensures b.Omit(tagStart, pos).Valid(start, pos, raw, masks)
    ensures b.Omit(tagStart, pos).Done(pos, raw, masks) == b.Done(tagStart, raw, masks)
  {
    hide Emit, SegsOk, EmitSeg;
    EmitPush(b.segs, Verbatim(b.run, tagStart), raw, masks);
    VerbatimOk(b.run, tagStart, raw, masks);
    assert Slice(raw, pos, pos) == [];
    if b.run == tagStart { assert Slice(raw, b.run, tagStart) == []; }
  }

  lemma VerbatimOk(lo: nat, hi: nat, raw: bytes, masks: Masks)
    requires lo <= hi <= |raw|
    ensures SegOk(Verbatim(lo, hi), raw, masks) && EmitSeg(Verbatim(lo, hi), raw, masks) == Slice(raw, lo, hi)
  {
  }

  lemma ReplaceDone(b: Builder, start: nat, tagStart: nat, pos: nat, seg: Seg, raw: bytes, masks: Masks)
    requires b.Valid(start, tagStart, raw, masks) && tagStart <= pos <= |raw| && SegOk(seg, raw, masks)
    ensures b.Replace(tagStart, pos, seg).Valid(start, pos, raw, masks)
    ensures b.Replace(tagStart, pos, seg).Done(pos, raw, masks)
      == b.Done(tagStart, raw, masks) + EmitSeg(seg, raw, masks)
  {
    hide Emit, SegsOk, EmitSeg, SegOk;
    OmitDone(b, start, tagStart, pos, raw, masks);
    var o := b.Omit(tagStart, pos);
    EmitPush(o.segs, seg, raw, masks);
    assert Slice(raw, pos, pos) == [];
    assert Emit(o.segs, raw, masks) + [] == Emit(o.segs, raw, masks);
    assert o.Done(pos, raw, masks) == Emit(o.segs, raw, masks);
  }

  lemma KeepDone(b: Builder, start: nat, pos: nat, next: nat, raw: bytes, masks: Masks)
    requires b.Valid(start, pos, raw, masks) && pos <= next <= |raw|
    ensures b.Valid(start, next, raw, masks)
    ensures b.Done(next, raw, masks) == b.Done(pos, raw, masks) + raw[pos..next]
  {
    hide Emit, SegsOk;
    assert Slice(raw, b.run, next) == Slice(raw, b.run, pos) + raw[pos..next];
  }

  lemma FinishDone(b: Builder, start: nat, end: nat, raw: bytes, masks: Masks)
    requires b.Valid(start, end, raw, masks) && b.changed
    ensures var c := b.Finish(end);
      c.Rebuilt? && SegsOk(c.segs, raw, masks) && Emit(c.segs, raw, masks) == b.Done(end, raw, masks)
  {
    hide Emit, SegsOk, EmitSeg;
    EmitPush(b.segs, Verbatim(b.run, end), raw, masks);
    VerbatimOk(b.run, end, raw, masks);
    if b.run == end {
      assert Slice(raw, b.run, end) == [];
      assert Emit(b.segs, raw, masks) + [] == Emit(b.segs, raw, masks);
    }
  }
}
