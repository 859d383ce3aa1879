/** Fields written by the rules of the Protocol Buffers Encoding guide, section "Message Structure",
    and what the walk makes of them: the width of each wire type, and each way to be cut short. */
module WireTypes {
  import opened Prelude
  import opened Varint
  import opened Wire

  /** A field by its wire type; `word` is a fixed-width payload. */
  datatype Wired =
    | Number(num: nat, value: nat)
    | Fixed64(num: nat, word: bytes)
    | Delimited(num: nat, payload: bytes)
    | Fixed32(num: nat, word: bytes)

  predicate Fine(x: Wired) {
    && x.num < U32
    && match x
       case Number(_, v) => v < U64
       case Fixed64(_, word) => |word| == 8
       case Delimited(_, payload) => |payload| < U64
       case Fixed32(_, word) => |word| == 4
  }

  function TagBytes(num: nat, wire: nat): bytes { Encode(8 * num + wire) }

  function Bytes(x: Wired): bytes {
    match x
    case Number(num, v) => TagBytes(num, 0) + Encode(v)
    case Fixed64(num, word) => TagBytes(num, 1) + word
    case Delimited(num, payload) => TagBytes(num, 2) + (Encode(|payload|) + payload)
    case Fixed32(num, word) => TagBytes(num, 5) + word
  }

  function AsField(x: Wired): Field {
    match x
    case Number(num, v) => Field(num, 0, TagBytes(num, 0), Encode(v))
    case Fixed64(num, word) => Field(num, 1, TagBytes(num, 1), word)
    case Delimited(num, payload) => Field(num, 2, TagBytes(num, 2) + Encode(|payload|), payload)
    case Fixed32(num, word) => Field(num, 5, TagBytes(num, 5), word)
  }

  lemma TagArithmetic(num: nat, wire: nat)
    requires num < U32 && wire < 8
    ensures (8 * num + wire) % 8 == wire && TagNumber(8 * num + wire) == num && 8 * num + wire < U64
  {
  }

  lemma TagReads(num: nat, wire: nat, s: bytes, at: nat)
    requires num < U32 && wire < 8
    ensures Decode(TagBytes(num, wire) + s, at) == Ok(Decoded(8 * num + wire, |TagBytes(num, wire)|))
    ensures (8 * num + wire) % 8 == wire && TagNumber(8 * num + wire) == num
    ensures (TagBytes(num, wire) + s)[|TagBytes(num, wire)|..] == s
  {
    hide Decode, Encode, TagNumber;
    TagArithmetic(num, wire);
    DecodeEncode(8 * num + wire, s, at);
  }

  /** A tag, then a payload whose extent is known, is the field cut there. */
  lemma Cuts(num: nat, wire: nat, prefix: bytes, payload: bytes)
    requires num < U32 && wire < 8
    requires Skipped(wire, prefix + payload, |TagBytes(num, wire)|) == Ok(Extent(|prefix|, |payload|))
    ensures NextField(TagBytes(num, wire) + (prefix + payload), 0)
      == Ok(Field(num, wire, TagBytes(num, wire) + prefix, payload))
  {
    hide Skipped, Decode, Encode, TagBytes;
    var tag, tail := TagBytes(num, wire), prefix + payload;
    TagReads(num, wire, tail, 0);
    NextFieldFrom(tag + tail, 0, Decoded(8 * num + wire, |tag|), Extent(|prefix|, |payload|));
    CutParts(tag, prefix, payload);
  }

  lemma CutParts(tag: bytes, prefix: bytes, payload: bytes)
    ensures (tag + (prefix + payload))[..|tag| + |prefix|] == tag + prefix
    ensures (tag + (prefix + payload))[|tag| + |prefix|..|tag| + |prefix| + |payload|] == payload
  {
  }

  lemma BareReads(num: nat, wire: nat, payload: bytes)
    requires num < U32 && wire < 8
    requires Skipped(wire, payload, |TagBytes(num, wire)|) == Ok(Extent(0, |payload|))
    ensures NextField(TagBytes(num, wire) + payload, 0) == Ok(Field(num, wire, TagBytes(num, wire), payload))
  {
    hide NextField, Skipped, Encode, TagBytes;
    assert [] + payload == payload && TagBytes(num, wire) + [] == TagBytes(num, wire);
    Cuts(num, wire, [], payload);
  }

  lemma NumberReads(v: nat, at: nat)
    requires v < U64
    ensures Skipped(0, Encode(v), at) == Ok(Extent(0, |Encode(v)|))
  {
    hide Encode, Decode;
    DecodeEncode(v, [], at);
    assert Encode(v) + [] == Encode(v);
  }

  lemma PrefixReads(payload: bytes, at: nat)
    requires |payload| < U64
    ensures Skipped(2, Encode(|payload|) + payload, at) == Ok(Extent(|Encode(|payload|)|, |payload|))
  {
    hide Encode, Decode;
    DecodeEncode(|payload|, payload, at);
  }

  lemma WiredSound(x: Wired)
    requires Fine(x)
    ensures NextField(Bytes(x), 0) == Ok(AsField(x)) && AsField(x).Bytes() == Bytes(x)
  {
    hide NextField, Encode, TagBytes;
    match x {
      case Number(num, v) =>
        NumberReads(v, |TagBytes(num, 0)|);
        BareReads(num, 0, Encode(v));
      case Fixed64(num, word) => BareReads(num, 1, word);
      case Delimited(num, payload) =>
        PrefixReads(payload, |TagBytes(num, 2)|);
        Cuts(num, 2, Encode(|payload|), payload);
      case Fixed32(num, word) => BareReads(num, 5, word);
    }
  }

  /** Whatever the field number, and whatever follows, a varint, eight bytes, a prefixed payload
      or four bytes are read as the field they were written as. */
  lemma WiredReads(x: Wired, rest: bytes, at: nat)
    requires Fine(x)
    ensures NextField(Bytes(x) + rest, at) == Ok(AsField(x)) && AsField(x).Bytes() == Bytes(x)
  {
    hide NextField, Bytes, AsField, Fine;
    WiredSound(x);
    NextFieldStable(Bytes(x), Bytes(x) + rest, 0, at);
  }

  lemma Fails(num: nat, wire: nat, tail: bytes, at: nat)
    requires num < U32 && wire < 8 && Skipped(wire, tail, at + |TagBytes(num, wire)|).Err?
    ensures NextField(TagBytes(num, wire) + tail, at) == Err(Skipped(wire, tail, at + |TagBytes(num, wire)|).error)
  {
    hide Skipped, Encode, TagBytes;
    TagReads(num, wire, tail, at);
  }

  /** Cut short anywhere, a fixed-width payload is Truncated where it starts, and a prefixed one
      overruns its message at its prefix; the four wire types that do not exist are refused. */
  lemma ShortReads(num: nat, tail: bytes, size: nat, at: nat)
    requires num < U32
    ensures |tail| < 8 ==> NextField(TagBytes(num, 1) + tail, at) == Err(Truncated(at + |TagBytes(num, 1)|))
    ensures |tail| < 4 ==> NextField(TagBytes(num, 5) + tail, at) == Err(Truncated(at + |TagBytes(num, 5)|))
    ensures |tail| < size < U64 ==>
      NextField(TagBytes(num, 2) + (Encode(size) + tail), at) == Err(LengthOverrun(at + |TagBytes(num, 2)|))
    ensures forall wire | wire in {3, 4, 6, 7} ::
      NextField(TagBytes(num, wire) + tail, at) == Err(UnsupportedWire(wire, at + |TagBytes(num, wire)|))
  {
    hide NextField, Encode, TagBytes;
    if |tail| < 8 { Fails(num, 1, tail, at); }
    if |tail| < 4 { Fails(num, 5, tail, at); }
    if |tail| < size < U64 {
      DecodeEncode(size, tail, at + |TagBytes(num, 2)|);
      Fails(num, 2, Encode(size) + tail, at);
    }
    forall wire | wire in {3, 4, 6, 7}
      ensures NextField(TagBytes(num, wire) + tail, at) == Err(UnsupportedWire(wire, at + |TagBytes(num, wire)|))
    {
      Fails(num, wire, tail, at);
    }
  }

  lemma {:induction false} RunStops(s: bytes, n: nat)
    requires n < |s| && s[n] < 128 && forall i | 0 <= i < n :: s[i] >= 128
    ensures Run(s) == n
  {
    if n > 0 { RunStops(s[1..], n - 1); }
  }

  lemma {:induction false} RunIsContinuation(s: bytes)
    ensures forall i | 0 <= i < Run(s) :: s[i] >= 128
  {
    if s != [] && s[0] >= 128 {
      RunIsContinuation(s[1..]);
      forall i | 0 <= i < Run(s) ensures s[i] >= 128 { assert i > 0 ==> s[i] == s[1..][i - 1]; }
    }
  }

  /** A varint ends at its first byte below 128, which is among the first ten or not at all; ten
      bytes that go on overflow as soon as there is an eleventh, and fewer are Truncated. */
  lemma VarintEnds(s: bytes, at: nat, n: nat)
    requires n <= |s| && forall i | 0 <= i < n :: s[i] >= 128
    ensures n < |s| && n < 10 && s[n] < 128 ==> Decode(s, at).Ok? && Decode(s, at).value.size == n + 1
    ensures n >= 10 && |s| > 10 ==> Decode(s, at) == Err(VarintOverflow(at))
    ensures n == |s| <= 10 ==> Decode(s, at) == Err(Truncated(at + |s|))
  {
    RunIsContinuation(s);
    if n < |s| && s[n] < 128 { RunStops(s, n); }
    if Run(s) < |s| { assert Run(s) >= n; }
  }

  // ----- messages

  function Message(xs: seq<Wired>): bytes {
    if xs == [] then [] else Bytes(xs[0]) + Message(xs[1..])
  }

  function Walked(xs: seq<Wired>): Walk {
    if xs == [] then Stop([]) else Step(AsField(xs[0]), Walked(xs[1..]))
  }

  /** A message written field by field walks back to those fields. */
  lemma {:induction false} MessageWalks(xs: seq<Wired>)
    requires forall x <- xs :: Fine(x)
    ensures Fields(Message(xs)) == Walked(xs)
  {
    hide Bytes, AsField, Fine, NextField, Field.Bytes;
    if xs != [] {
      var s, rest := Message(xs), Message(xs[1..]);
      MessageWalks(xs[1..]);
      WiredReads(xs[0], rest, 0);
      NotEmpty(xs[0]);
      WalkStep(s, 0);
      assert s[|Bytes(xs[0])|..] == rest;
    }
  }

  lemma NotEmpty(x: Wired)
    ensures Bytes(x) != []
  {
  }
}
