/** Emission: headers are coalesced in a scratch buffer, payload and masks become chunks. */
module Emission {
  import opened Prelude
  import opened Varint
  import opened Wire
  import opened Envelope
  import opened Spans
  import opened Govern
  import opened Segments
  import opened Assemble

  function Flat(chunks: seq<bytes>): bytes {
    if chunks == [] then [] else Flat(chunks[..|chunks| - 1]) + chunks[|chunks| - 1]
  }

  lemma FlatPush(chunks: seq<bytes>, c: bytes)
    ensures Flat(chunks + [c]) == Flat(chunks) + c
  {
    assert (chunks + [c])[..|chunks|] == chunks;
  }

  /** The assembled request: ordered chunks, and their total length. */
  datatype Payload = Payload(chunks: seq<bytes>, len: nat) {
    predicate Carries(out: bytes) {
      Flat(chunks) == out && len == |out|
    }
  }

  function PassThrough(raw: bytes): (p: Payload)
    ensures p.Carries(raw)
  {
    FlatPush([], raw);
    assert [] + [raw] == [raw];
    Payload([raw], |raw|)
  }

  method Contiguous(p: Payload) returns (out: bytes)
    ensures out == Flat(p.chunks)
  {
    out := [];
    var i := 0;
    while i < |p.chunks|
      invariant i <= |p.chunks| && out == Flat(p.chunks[..i])
    {
      assert p.chunks[..i + 1][..i] == p.chunks[..i];
      out := out + p.chunks[i];
      i := i + 1;
    }
    assert p.chunks[..i] == p.chunks;
  }

  class Assembler {
    const raw: bytes
    var chunks: seq<bytes>
    var scratch: bytes
    var len: nat

    /** Everything written so far. */
    ghost function Written(): bytes
      reads this
    {
      Flat(chunks) + scratch
    }

    ghost predicate Valid()
      reads this
    {
      len == |Written()|
    }

    constructor (raw: bytes)
      ensures Valid() && Written() == [] && this.raw == raw
    {
      this.raw, chunks, scratch, len := raw, [], [], 0;
    }

    method FlushScratch()
      modifies this`chunks, this`scratch
      ensures Written() == old(Written()) && scratch == []
    {
      if scratch != [] {
        FlatPush(chunks, scratch);
        chunks := chunks + [scratch];
        scratch := [];
      }
    }

    method PushChunk(c: bytes)
      modifies this`chunks, this`scratch
      ensures Written() == old(Written()) + c
    {
      FlushScratch();
      FlatPush(chunks, c);
      chunks := chunks + [c];
    }

    method PushRaw(lo: nat, hi: nat)
      requires Valid() && lo <= hi <= |raw|
      modifies this`chunks, this`scratch, this`len
      ensures Valid() && Written() == old(Written()) + raw[lo..hi]
    {
      if lo == hi {
        return;
      }
      len := len + (hi - lo);
      PushChunk(raw[lo..hi]);
    }

    method PutVarint(value: nat)
      modifies this`scratch
      ensures scratch == old(scratch) + Encode(value)
    {
      var v := value;
      while true
        invariant scratch + Encode(v) == old(scratch) + Encode(value)
        decreases v
      {
        var b, high := v % 128, v / 128;
        if high == 0 {
          scratch := scratch + [b];
          return;
        }
        assert scratch + ([b + 128] + Encode(high)) == (scratch + [b + 128]) + Encode(high);
        scratch := scratch + [b + 128];
        v := high;
      }
    }

    method PushHeader(field: nat, size: nat)
      requires Valid()
      modifies this`scratch, this`len
      ensures Valid() && Written() == old(Written()) + Header(field, size)
    {
      PutVarint(8 * field + 2);
      PutVarint(size);
      HeaderLengthExact(field, size);
      assert scratch == old(scratch) + Header(field, size);
      len := len + HeaderLength(field, size);
    }

    method PushMask(mask: bytes)
      requires Valid()
      modifies this`chunks, this`scratch, this`len
      ensures Valid() && Written() == old(Written()) + mask
    {
      len := len + |mask|;
      PushChunk(mask);
    }

    method Finish() returns (p: Payload)
      requires Valid()
      modifies this`chunks, this`scratch
      ensures p.Carries(old(Written()))
    {
      FlushScratch();
      assert Flat(chunks) + [] == Flat(chunks);
      return Payload(chunks, len);
    }

    method EmitPartOf(p: Part, masks: Masks)
      requires Valid() && PartOk(p, raw, masks)
      modifies this`chunks, this`scratch, this`len
      ensures Valid() && Written() == old(Written()) + EmitPart(p, raw, masks)
      ensures p.Mask? ==> Written() == old(Written()) + masks[p.id]
    {
      match p {
        case Raw(lo, hi) => PushRaw(lo, hi);
        case Mask(id) => PushMask(masks[id]);
      }
    }

    method EmitPartsOf(parts: seq<Part>, masks: Masks)
      requires Valid() && forall p <- parts :: PartOk(p, raw, masks)
      modifies this`chunks, this`scratch, this`len
      ensures Valid() && Written() == old(Written()) + EmitParts(parts, raw, masks)
    {
      hide Assembler.Written, Flat, PartOk, EmitPart, EmitParts;
      ghost var start := Written();
      NoParts(raw, masks);
      Concat<byte>();
      var i := 0;
      while i < |parts|
        invariant i <= |parts| && Valid()
        invariant Written() == start + EmitParts(parts[..i], raw, masks)
      {
        EmitPartsPush(parts[..i], parts[i], raw, masks);
        assert parts[..i + 1] == parts[..i] + [parts[i]];
        EmitPartOf(parts[i], masks);
        i := i + 1;
      }
      assert parts[..i] == parts;
    }

    method EmitOne(seg: Seg, masks: Masks)
      requires Valid() && SegOk(seg, raw, masks)
      modifies this`chunks, this`scratch, this`len
      ensures Valid() && Written() == old(Written()) + EmitSeg(seg, raw, masks)
      decreases seg
    {
      hide Assembler.Written, Flat, Emit, EmitParts, Header;
      Concat<byte>();
      match seg {
        case Verbatim(lo, hi) => PushRaw(lo, hi);
        case Nested(field, size, inner) =>
          PushHeader(field, size);
          EmitSegs(inner, masks);
        case Scalar(field, size, parts) =>
          PushHeader(field, size);
          EmitPartsOf(parts, masks);
      }
    }

    /** Depth-first emission. The build loops have looked up every mask of the tree already,
        so the second lookup, here, cannot fail. */
    method EmitSegs(segs: seq<Seg>, masks: Masks)
      requires Valid() && SegsOk(segs, raw, masks)
      modifies this`chunks, this`scratch, this`len
      ensures Valid() && Written() == old(Written()) + Emit(segs, raw, masks)
      decreases segs
    {
      hide Assembler.Written, Flat, EmitSeg, SegOk, SegsOk, Emit;
      ghost var start := Written();
      NothingEmitted(raw, masks);
      Concat<byte>();
      var i := 0;
      while i < |segs|
        invariant i <= |segs| && Valid()
        invariant Written() == start + Emit(segs[..i], raw, masks)
      {
        SegsOkAt(segs, i, raw, masks);
        EmitPush(segs[..i], segs[i], raw, masks);
        assert segs[..i + 1] == segs[..i] + [segs[i]];
        EmitOne(segs[i], masks);
        i := i + 1;
      }
      assert segs[..i] == segs;
    }
  }

  lemma {:induction false} SegsOkAt(segs: seq<Seg>, i: nat, raw: bytes, masks: Masks)
    requires i < |segs| && SegsOk(segs, raw, masks)
    ensures SegOk(segs[i], raw, masks)
  {
    var last := |segs| - 1;
    if i < last {
      SegsOkAt(segs[..last], i, raw, masks);
    }
  }

  /** Assembly of a parsed envelope: the fast path, the record-count check, then emission. */
  method AssembleRequest(raw: bytes, parsed: nat, d: Decided, masks: Masks) returns (r: Rebuilt<Payload>)
    ensures var spec := AssembleSpec(raw, parsed, d, masks);
      if spec.Err? then r == Err(spec.error) else r.Ok? && r.value.Carries(spec.value)
  {
    hide Fields, GovernAll, Count, Emit, SegsOk, Unwalk;
    if !d.AnyDropped() && |d.redactions| == 0 {
      return Ok(PassThrough(raw));
    }
    var segs, walked := BuildRequest(raw, d, masks);
    if segs.Err? {
      return Err(segs.error);
    }
    if walked != parsed {
      return Err(RecordCountMismatch(parsed, walked));
    }
    var asm := new Assembler(raw);
    asm.EmitSegs(segs.value, masks);
    assert [] + Emit(segs.value, raw, masks) == Emit(segs.value, raw, masks);
    var p := asm.Finish();
    return Ok(p);
  }
}
