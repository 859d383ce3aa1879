/** The protobuf wire format as a list of fields, and the cursor that walks it. */
module Wire {
  import opened Prelude
  import opened Varint

  /** A range of the request buffer: its absolute offset and the bytes it denotes. */
  datatype View = View(at: nat, text: bytes) {
    function End(): nat { at + |text| }

    /** The view lies inside the window `s` that starts at offset `base`, and denotes its bytes. */
    ghost predicate Inside(s: bytes, base: nat) {
      && base <= at
      && End() <= base + |s|
      && s[at - base..End() - base] == text
    }
  }

  /** One field: `head` is the tag (and length prefix, for wire type 2) as found on the wire. */
  datatype Field = Field(num: nat, wire: nat, head: bytes, payload: bytes) {
    function Bytes(): (r: bytes)
      ensures |r| == |head| + |payload|
    {
      head + payload
    }

    predicate Is(n: nat, w: nat) { num == n && wire == w }

    /** The payload as a view, for a field whose first byte is at offset `at`. */
    function PayloadAt(at: nat): View { View(at + |head|, payload) }

    /** The field is exactly what a walk reads back from its own bytes. */
    ghost predicate Sound() { NextField(Bytes(), 0) == Ok(this) }
  }

  /** The two sizes that follow a tag: length-prefix bytes, then payload bytes. */
  datatype Extent = Extent(prefix: nat, payload: nat)

  /** A walk over a message window: its fields in order, then the bytes that do not walk. */
  datatype Walk = Stop(rest: bytes) | Step(field: Field, next: Walk)

  function LengthDelimited(s: bytes, at: nat): (r: Result<Extent, ParseError>)
    ensures r.Ok? ==> r.value.prefix + r.value.payload <= |s|
  {
    var d :- Decode(s, at);
    if d.size + d.value > |s| then Err(LengthOverrun(at)) else Ok(Extent(d.size, d.value))
  }

  function Skipped(wire: nat, s: bytes, at: nat): (r: Result<Extent, ParseError>)
    ensures r.Ok? ==> r.value.prefix + r.value.payload <= |s|
  {
    match wire
    case 0 => var d :- Decode(s, at); Ok(Extent(0, d.size))
    case 1 => if |s| < 8 then Err(Truncated(at)) else Ok(Extent(0, 8))
    case 2 => LengthDelimited(s, at)
    case 5 => if |s| < 4 then Err(Truncated(at)) else Ok(Extent(0, 4))
    case w => Err(UnsupportedWire(w, at))
  }

  function TagNumber(tag: nat): nat { tag / 8 % U32 }

  /** The field at the front of `s`; `at` is the offset of `s[0]`, used only in errors. */
  function NextField(s: bytes, at: nat): (r: Result<Field, ParseError>)
    ensures r.Ok? ==> 0 < |r.value.head| && r.value.Bytes() <= s
  {
    var t :- Decode(s, at);
    var e :- Skipped(t.value % 8, s[t.size..], at + t.size);
    Ok(Cut(s, t, e))
  }

  function Cut(s: bytes, t: Decoded, e: Extent): (f: Field)
    requires t.size + e.prefix + e.payload <= |s|
    ensures f.Bytes() == s[..t.size + e.prefix + e.payload]
  {
    var n := t.size + e.prefix;
    Field(TagNumber(t.value), t.value % 8, s[..n], s[n..n + e.payload])
  }

  function Fields(s: bytes): Walk {
    if s == [] then Stop([])
    else match NextField(s, 0)
      case Err(_) => Stop(s)
      case Ok(f) => Step(f, Fields(s[|f.Bytes()|..]))
  }

  function Unwalk(w: Walk): bytes {
    match w
    case Stop(rest) => rest
    case Step(f, next) => f.Bytes() + Unwalk(next)
  }

  /** The walk reaches the end of its window. */
  predicate Clean(w: Walk) {
    match w
    case Stop(rest) => rest == []
    case Step(_, next) => Clean(next)
  }

  ghost predicate AllSound(w: Walk) {
    match w
    case Stop(_) => true
    case Step(f, next) => f.Sound() && AllSound(next)
  }

  /** Why a walk stopped before the end of its window. */
  function StopError(rest: bytes, at: nat): (e: ParseError)
    requires rest != []
  {
    match NextField(rest, at)
    case Err(e) => e
    case Ok(_) => Truncated(at)
  }

  /** The field the re-encoder writes: shortest tag, shortest length prefix. */
  function Canonical(num: nat, payload: bytes): Field {
    Field(num, 2, Header(num, |payload|), payload)
  }

  // ----- walking and un-walking

  lemma SamePart(s: bytes, t: bytes, n: nat, i: nat, j: nat)
    requires i <= j <= n <= |s| && n <= |t| && s[..n] == t[..n]
    ensures s[i..j] == t[i..j]
    ensures s[i..][..j - i] == t[i..][..j - i]
  {
    SubSlice(s, n, i, j);
    SubSlice(t, n, i, j);
  }

  lemma SubSlice(s: bytes, n: nat, i: nat, j: nat)
    requires i <= j <= n <= |s|
    ensures s[..n][i..j] == s[i..j] == s[i..][..j - i]
  {
  }

  lemma SkippedStable(wire: nat, s: bytes, t: bytes, at: nat, at': nat)
    requires Skipped(wire, s, at).Ok?
    requires var n := Skipped(wire, s, at).value.prefix + Skipped(wire, s, at).value.payload;
      n <= |t| && s[..n] == t[..n]
    ensures Skipped(wire, t, at') == Skipped(wire, s, at)
  {
    if wire == 0 || wire == 2 {
      var e, d := Skipped(wire, s, at).value, Decode(s, at).value;
      SamePart(s, t, e.prefix + e.payload, 0, d.size);
      DecodeStable(s, t, at, at');
    }
  }

  lemma NextFieldParts(s: bytes, at: nat) returns (t: Decoded, e: Extent)
    requires NextField(s, at).Ok?
    ensures Decode(s, at) == Ok(t) && Skipped(t.value % 8, s[t.size..], at + t.size) == Ok(e)
    ensures t.size + e.prefix + e.payload <= |s| && NextField(s, at) == Ok(Cut(s, t, e))
  {
    t := Decode(s, at).value;
    e := Skipped(t.value % 8, s[t.size..], at + t.size).value;
  }

  lemma NextFieldFrom(s: bytes, at: nat, t: Decoded, e: Extent)
    requires Decode(s, at) == Ok(t) && Skipped(t.value % 8, s[t.size..], at + t.size) == Ok(e)
    ensures t.size + e.prefix + e.payload <= |s| && NextField(s, at) == Ok(Cut(s, t, e))
  {
  }

  lemma CutStable(s: bytes, t: bytes, d: Decoded, e: Extent)
    requires var n := d.size + e.prefix + e.payload; n <= |s| && n <= |t| && s[..n] == t[..n]
    ensures Cut(s, d, e) == Cut(t, d, e)
  {
    var n := d.size + e.prefix + e.payload;
    SamePart(s, t, n, 0, d.size + e.prefix);
    SamePart(s, t, n, d.size + e.prefix, n);
  }

  /** A field is read from its own bytes alone: neither its offset nor what follows matters. */
  lemma NextFieldStable(s: bytes, t: bytes, at: nat, at': nat)
    requires NextField(s, at).Ok?
    requires NextField(s, at).value.Bytes() <= t
    ensures NextField(t, at') == NextField(s, at)
  {
    var d, e := NextFieldParts(s, at);
    hide *;
    assert NextField(s, at).value.Bytes() == s[..d.size + e.prefix + e.payload] == t[..d.size + e.prefix + e.payload];
    NextFieldAgain(s, t, at, at', d, e);
  }

  lemma NextFieldAgain(s: bytes, t: bytes, at: nat, at': nat, d: Decoded, e: Extent)
    requires Decode(s, at) == Ok(d) && Skipped(d.value % 8, s[d.size..], at + d.size) == Ok(e)
    requires var n := d.size + e.prefix + e.payload; n <= |t| && s[..n] == t[..n]
    ensures NextField(t, at') == Ok(Cut(s, d, e))
  {
    hide *;
    var n := d.size + e.prefix + e.payload;
    SamePart(s, t, n, 0, d.size);
    SamePart(s, t, n, d.size, n);
    DecodeStable(s, t, at, at');
    SkippedStable(d.value % 8, s[d.size..], t[d.size..], at + d.size, at' + d.size);
    NextFieldFrom(t, at', d, e);
    CutStable(s, t, d, e);
  }

  lemma NextFieldSound(s: bytes, at: nat)
    requires NextField(s, at).Ok?
    ensures NextField(s, at).value.Sound()
  {
    NextFieldStable(s, NextField(s, at).value.Bytes(), at, 0);
  }

  /** A walk loses nothing: its fields and its unwalked rest are the window, byte for byte. */
  lemma {:induction false} WalkFaithful(s: bytes)
    ensures Unwalk(Fields(s)) == s
    ensures AllSound(Fields(s))
    decreases |s|
  {
    if s != [] && NextField(s, 0).Ok? {
      var f := NextField(s, 0).value;
      WalkFaithful(s[|f.Bytes()|..]);
      NextFieldSound(s, 0);
      assert s == f.Bytes() + s[|f.Bytes()|..];
    }
  }

  /** Every list of sound fields is the walk of its own encoding. */
  lemma {:induction false} Rewalk(w: Walk)
    requires AllSound(w) && Clean(w)
    ensures Fields(Unwalk(w)) == w
  {
    match w
    case Stop(_) =>
    case Step(f, next) =>
      Rewalk(next);
      var s := Unwalk(w);
      NextFieldStable(f.Bytes(), s, 0, 0);
      assert s[|f.Bytes()|..] == Unwalk(next);
  }

  lemma CanonicalCut(num: nat, payload: bytes)
    requires 8 * num + 2 < U32
    ensures var f, tag, len := Canonical(num, payload), Encode(8 * num + 2), Encode(|payload|);
      && f.Bytes() == tag + (len + payload)
      && f.Bytes()[|tag|..] == len + payload
      && Cut(f.Bytes(), Decoded(8 * num + 2, |tag|), Extent(|len|, |payload|)) == f
  {
    var f, tag, len := Canonical(num, payload), Encode(8 * num + 2), Encode(|payload|);
    assert f.Bytes() == tag + (len + payload);
    assert f.Bytes()[..|tag| + |len|] == f.head;
    assert f.Bytes()[|tag| + |len|..|f.Bytes()|] == payload;
    assert TagNumber(8 * num + 2) == num;
  }

  lemma CanonicalSound(num: nat, payload: bytes)
    requires 8 * num + 2 < U32 && |payload| < U64
    ensures Canonical(num, payload).Sound()
  {
    var s, tag, len := Canonical(num, payload).Bytes(), Encode(8 * num + 2), Encode(|payload|);
    CanonicalCut(num, payload);
    DecodeEncode(8 * num + 2, len + payload, 0);
    LengthDelimitedExact(payload, |tag|);
    NextFieldFrom(s, 0, Decoded(8 * num + 2, |tag|), Extent(|len|, |payload|));
  }

  lemma LengthDelimitedExact(payload: bytes, at: nat)
    requires |payload| < U64
    ensures LengthDelimited(Encode(|payload|) + payload, at) == Ok(Extent(|Encode(|payload|)|, |payload|))
  {
    DecodeEncode(|payload|, payload, at);
  }

  /** One step of a walk, at any offset: what each parse loop does once per iteration. */
  lemma WalkStep(s: bytes, at: nat)
    requires s != []
    ensures var r := NextField(s, at);
      if r.Ok? then r.value.Sound() && Fields(s) == Step(r.value, Fields(s[|r.value.Bytes()|..]))
      else Fields(s) == Stop(s) && StopError(s, at) == r.error
  {
    if NextField(s, at).Ok? {
      NextFieldStable(s, s, at, 0);
      NextFieldSound(s, at);
    } else if NextField(s, 0).Ok? {
      NextFieldStable(s, s, 0, at);
    }
  }

  lemma {:induction false} RunAtLeast(s: bytes, k: nat)
    requires k <= Run(s)
    ensures k < |s| && s[k] >= 128 ==> Run(s) >= k + 1
    ensures k < |s| && s[k] < 128 ==> Run(s) == k
  {
    if k > 0 { RunAtLeast(s[1..], k - 1); }
  }

  lemma WalkOn(s: bytes, at: nat, t: Decoded, e: Extent)
    requires Decode(s, at) == Ok(t) && Skipped(t.value % 8, s[t.size..], at + t.size) == Ok(e)
    ensures t.size > 0 && s != []
    ensures var n := t.size + e.prefix + e.payload;
      n <= |s| && Fields(s) == Step(Cut(s, t, e), Fields(s[n..]))
  {
    hide *;
    NextFieldFrom(s, at, t, e);
    WalkStep(s, at);
    assert |Cut(s, t, e).Bytes()| == t.size + e.prefix + e.payload;
  }
}
