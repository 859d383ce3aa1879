/** The bounds-checked cursor: every read is a step of the walk, or the reason it stops. */
module Cursor {
  import opened Prelude
  import opened Varint
  import opened Wire

  datatype Tag = Tag(num: nat, wire: nat)

  /** The walk of `buf[pos..end]`. */
  ghost function Rest(buf: bytes, pos: nat, end: nat): Walk
    requires pos <= end <= |buf|
  {
    Fields(buf[pos..end])
  }

  lemma RestDone(buf: bytes)
    ensures forall pos | 0 <= pos <= |buf| :: Rest(buf, pos, pos) == Stop([])
  {
  }

  /** The walk cannot go on at `pos`, because of `e`. */
  ghost predicate Stuck(buf: bytes, pos: nat, end: nat, e: ParseError)
    requires pos <= end <= |buf|
  {
    && pos < end
    && Rest(buf, pos, end) == Stop(buf[pos..end])
    && StopError(buf[pos..end], pos) == e
  }

  /** The walk at `pos` goes on with a field whose payload is `buf[mid..next]`. */
  ghost predicate Goes(buf: bytes, pos: nat, mid: nat, next: nat, end: nat, tag: Tag)
    requires pos <= end <= |buf|
  {
    && pos < mid <= next <= end
    && Rest(buf, pos, end) == Step(Field(tag.num, tag.wire, buf[pos..mid], buf[mid..next]), Rest(buf, next, end))
  }

  /** The walk at `pos` goes on with a field of this tag that ends at `next`. */
  ghost predicate Took(buf: bytes, pos: nat, next: nat, end: nat, tag: Tag)
    requires pos <= end <= |buf|
  {
    var w := Rest(buf, pos, end);
    && pos < next <= end
    && w.Step?
    && w.field.Is(tag.num, tag.wire)
    && pos + |w.field.Bytes()| == next
    && w.next == Rest(buf, next, end)
  }

  ghost predicate TagAt(buf: bytes, pos: nat, end: nat, d: Decoded)
    requires pos <= end <= |buf|
  {
    Decode(buf[pos..end], pos) == Ok(d)
  }

  lemma TagStuck(buf: bytes, pos: nat, end: nat)
    requires pos < end <= |buf|
    requires Decode(buf[pos..end], pos).Err?
    ensures Stuck(buf, pos, end, Decode(buf[pos..end], pos).error)
  {
    hide Decode;
    WalkStep(buf[pos..end], pos);
  }

  lemma SkipStuck(buf: bytes, pos: nat, end: nat, d: Decoded)
    requires pos < end <= |buf| && TagAt(buf, pos, end, d)
    requires Skipped(d.value % 8, buf[pos + d.size..end], pos + d.size).Err?
    ensures Stuck(buf, pos, end, Skipped(d.value % 8, buf[pos + d.size..end], pos + d.size).error)
  {
    hide Decode, Skipped, Fields;
    var s := buf[pos..end];
    Reslice(buf, pos, end, d.size, d.size);
    WalkStep(s, pos);
  }

  lemma SkipGoes(buf: bytes, pos: nat, end: nat, d: Decoded)
    requires pos < end <= |buf| && TagAt(buf, pos, end, d)
    requires Skipped(d.value % 8, buf[pos + d.size..end], pos + d.size).Ok?
    ensures var e := Skipped(d.value % 8, buf[pos + d.size..end], pos + d.size).value;
      var mid := pos + d.size + e.prefix;
      Goes(buf, pos, mid, mid + e.payload, end, Tag(TagNumber(d.value), d.value % 8))
  {
    hide Decode, Skipped, NextField, Fields;
    var s := buf[pos..end];
    Reslice(buf, pos, end, d.size, d.size);
    var e := Skipped(d.value % 8, s[d.size..], pos + d.size).value;
    WalkOn(s, pos, d, e);
    Reslice(buf, pos, end, d.size + e.prefix, d.size + e.prefix + e.payload);
  }

  lemma Reslice(buf: bytes, pos: nat, end: nat, k: nat, n: nat)
    requires pos <= end <= |buf| && k <= n <= end - pos
    ensures buf[pos..end][..k] == buf[pos..pos + k]
    ensures buf[pos..end][k..n] == buf[pos + k..pos + n]
    ensures buf[pos..end][n..] == buf[pos + n..end]
    ensures |buf[pos..end][..n]| == n
  {
    var s := buf[pos..end];
    assert forall i | 0 <= i < |s| :: s[i] == buf[pos + i];
    assert s[..k] == buf[pos..pos + k];
    assert s[k..n] == buf[pos + k..pos + n];
    assert s[n..] == buf[pos + n..end];
  }

  /** A cursor over the message window `buf[pos..end]`. */
  class WireCursor {
    const buf: bytes
    const end: nat
    var pos: nat
    // The tag read last, and where it starts: the field the next read completes.
    ghost var start: nat
    ghost var tag: Decoded

    ghost predicate Valid()
      reads this
    {
      pos <= end <= |buf|
    }

    /** A tag has been read at `start`, and nothing after it. */
    ghost predicate Tagged()
      reads this
    {
      Valid() && start < pos && pos == start + tag.size && TagAt(buf, start, end, tag)
    }

    ghost function Number(): Tag
      reads this
    {
      Tag(TagNumber(tag.value), tag.value % 8)
    }

    constructor (buf: bytes, lo: nat, hi: nat)
      requires lo <= hi <= |buf|
      ensures Valid() && this.buf == buf && pos == lo && end == hi
    {
      this.buf, this.pos, this.end := buf, lo, hi;
      this.start, this.tag := 0, Decoded(0, 0);
    }

    predicate Done()
      reads this
    {
      pos >= end
    }

    method Byte() returns (r: Result<byte, ParseError>)
      requires Valid()
      modifies this`pos
      ensures Valid()
      ensures old(Done()) ==> r == Err(Truncated(old(pos))) && pos == old(pos)
      ensures !old(Done()) ==> r == Ok(buf[old(pos)]) && pos == old(pos) + 1
    {
      if pos >= end {
        return Err(Truncated(pos));
      }
      r := Ok(buf[pos]);
      pos := pos + 1;
    }

    method ReadVarint() returns (r: Result<nat, ParseError>)
      requires Valid()
      modifies this`pos
      ensures Valid()
      ensures match Decode(buf[old(pos)..end], old(pos))
              case Ok(d) => r == Ok(d.value) && pos == old(pos) + d.size
              case Err(e) => r == Err(e)
    {
      var first := pos;
      ghost var s := buf[first..end];
      var v, shift := 0, 0;
      ghost var k := 0;
      while true
        invariant Valid() && pos == first + k && k <= |s| && k <= 10 && shift == 7 * k
        invariant k <= Run(s)
        invariant k < 10 ==> v == Digits(s[..k])
        decreases |s| - k
      {
        RunAtLeast(s, k);
        var b :- Byte();
        if shift >= 64 {
          return Err(VarintOverflow(first));
        }
        assert s[..k + 1] == s[..k] + [b];
        if k < 9 { AccumulateLow(s[..k], b); } else { AccumulateTop(s[..k], b); }
        v := v + ShiftIn(b, shift / 7);
        if b < 128 {
          return Ok(v);
        }
        shift := shift + 7;
        k := k + 1;
      }
    }

    method ReadTag() returns (r: Result<Tag, ParseError>)
      requires Valid() && !Done()
      modifies this
      ensures Valid() && start == old(pos)
      ensures r.Ok? ==> Tagged() && r.value == Number()
      ensures r.Err? ==> Stuck(buf, start, end, r.error)
    {
      hide Decode;
      start := pos;
      if Decode(buf[start..end], start).Err? { TagStuck(buf, start, end); }
      tag := if Decode(buf[start..end], start).Ok? then Decode(buf[start..end], start).value else Decoded(0, 0);
      var t :- ReadVarint();
      return Ok(Tag(TagNumber(t), t % 8));
    }

    method LengthRange() returns (r: Result<View, ParseError>)
      requires Valid()
      modifies this`pos
      ensures Valid()
      ensures match LengthDelimited(buf[old(pos)..end], old(pos))
              case Ok(e) =>
                && pos == old(pos) + e.prefix + e.payload
                && r == Ok(View(old(pos) + e.prefix, buf[old(pos) + e.prefix..pos]))
              case Err(e) => r == Err(e)
    {
      hide Decode;
      var at := pos;
      var len :- ReadVarint();
      var start := pos;
      if start + len > end {
        return Err(LengthOverrun(at));
      }
      pos := start + len;
      return Ok(View(start, buf[start..pos]));
    }

    method Advance(n: nat) returns (r: Result<(), ParseError>)
      requires Valid()
      modifies this`pos
      ensures Valid()
      ensures if old(pos) + n > end then r == Err(Truncated(old(pos)))
              else r == Ok(()) && pos == old(pos) + n
    {
      if pos + n > end {
        return Err(Truncated(pos));
      }
      pos := pos + n;
      return Ok(());
    }

    method SkipPayload(wire: nat) returns (r: Result<(), ParseError>)
      requires Valid()
      modifies this`pos
      ensures Valid()
      ensures match Skipped(wire, buf[old(pos)..end], old(pos))
              case Ok(e) => r == Ok(()) && pos == old(pos) + e.prefix + e.payload
              case Err(e) => r == Err(e)
    {
      hide Decode, LengthDelimited;
      match wire {
        case 0 => var _ :- ReadVarint();
        case 1 => r := Advance(8); return;
        case 2 => var _ :- LengthRange();
        case 5 => r := Advance(4); return;
        case w => return Err(UnsupportedWire(w, pos));
      }
      return Ok(());
    }

    /** The payload of a length-delimited field, as an absolute range. */
    method ReadRange() returns (r: Result<View, ParseError>)
      requires Tagged() && Number().wire == 2
      modifies this`pos
      ensures Valid()
      ensures r.Ok? ==> r.value.Inside(buf, 0) && r.value.End() == pos
      ensures r.Ok? ==> Took(buf, start, pos, end, Number()) && Rest(buf, start, end).field.PayloadAt(start) == r.value
      ensures r.Err? ==> Stuck(buf, start, end, r.error)
    {
      hide Decode, LengthDelimited;
      if Skipped(2, buf[pos..end], pos).Err? {
        SkipStuck(buf, start, end, tag);
      } else {
        SkipGoes(buf, start, end, tag);
      }
      r := LengthRange();
    }

    /** The value of a varint field. */
    method ReadNumber() returns (r: Result<nat, ParseError>)
      requires Tagged() && Number().wire == 0
      modifies this`pos
      ensures Valid()
      ensures r.Ok? ==>
        && Took(buf, start, pos, end, Number())
        && var v := Rest(buf, start, end).field.PayloadAt(start);
        && Decode(v.text, v.at) == Ok(Decoded(r.value, |v.text|))
      ensures r.Err? ==> Stuck(buf, start, end, r.error)
    {
      hide Decode;
      ghost var s, at := buf[pos..end], pos;
      if Skipped(0, s, at).Err? { SkipStuck(buf, start, end, tag); } else { SkipGoes(buf, start, end, tag); }
      r := ReadVarint();
      if r.Ok? {
        assert s[..pos - at] == buf[at..pos];
        DecodeStable(s, buf[at..pos], at, at);
      }
    }

    method Skip(wire: nat) returns (r: Result<(), ParseError>)
      requires Tagged() && wire == Number().wire
      modifies this`pos
      ensures Valid()
      ensures r.Ok? ==> Took(buf, start, pos, end, Number())
      ensures r.Err? ==> Stuck(buf, start, end, r.error)
    {
      hide Skipped, Decode, Fields;
      if Skipped(wire, buf[pos..end], pos).Err? {
        SkipStuck(buf, start, end, tag);
      } else {
        SkipGoes(buf, start, end, tag);
      }
      ghost var ext, at := Skipped(wire, buf[pos..end], pos), pos;
      r := SkipPayload(wire);
      assert r.Ok? ==> Goes(buf, start, at + ext.value.prefix, pos, end, Number());
    }
  }
}
