/** Parsing does not depend on where a message stands, nor on how the fields of a ResourceLogs
    are interleaved: what its records read is fixed by its Resource fields in their order and
    its ScopeLogs fields in theirs. */
module Order {
  import opened Prelude
  import opened Varint
  import opened Wire
  import opened Otlp
  import opened Meaning
  import opened Content
  import opened Containers

  // ----- records read the same wherever they stand

  ghost predicate SameDraft(p: Parsed<Draft>, q: Parsed<Draft>) {
    p.Ok? == q.Ok? && (p.Ok? ==> DraftMasked(p.value, [], []) == DraftMasked(q.value, [], []))
  }

  ghost predicate SameRecords(p: Records, q: Records) {
    p.Ok? == q.Ok? && (p.Ok? ==> Texts(p.value) == Texts(q.value))
  }

  lemma SameText(v: Option<View>, w: Option<View>)
    requires Text(v) == Text(w)
    ensures MaskedText(v, [], []) == MaskedText(w, [], [])
  {
    PlainTexts(v, []);
    PlainTexts(w, []);
  }

  lemma KeyValueMoved(f: Field, at: nat, at': nat)
    ensures var p, q := KeyValueOf(f.PayloadAt(at)), KeyValueOf(f.PayloadAt(at'));
      && p.Ok? == q.Ok?
      && (p.Ok? ==> p.value.Some? == q.value.Some?)
      && (p.Ok? && p.value.Some? ==>
            p.value.value.key.text == q.value.value.key.text && p.value.value.value.text == q.value.value.value.text)
  {
    hide Fields, PairIn;
    PairMoved(Fields(f.payload), at + |f.head|, at' + |f.head|);
  }

  lemma DraftFieldMoved(f: Field, at: nat, at': nat)
    ensures SameDraft(DraftField(f, at), DraftField(f, at'))
  {
    hide Fields, AnyString, KeyValueOf;
    AnyMoved(Fields(f.payload), at + |f.head|, at' + |f.head|);
    KeyValueMoved(f, at, at');
    if f.Is(5, 2) && AnyStringOf(f.PayloadAt(at)).Ok? {
      SameText(AnyStringOf(f.PayloadAt(at)).value, AnyStringOf(f.PayloadAt(at')).value);
    } else if f.Is(6, 2) && KeyValueOf(f.PayloadAt(at)).Ok? && KeyValueOf(f.PayloadAt(at)).value.Some? {
      SameText(Some(KeyValueOf(f.PayloadAt(at)).value.value.value),
        Some(KeyValueOf(f.PayloadAt(at')).value.value.value));
    }
  }

  lemma SameDraftJoin(p: Parsed<Draft>, q: Parsed<Draft>, p': Parsed<Draft>, q': Parsed<Draft>)
    requires SameDraft(p, q) && SameDraft(p', q')
    ensures SameDraft(DraftJoin(p, p'), DraftJoin(q, q'))
  {
    hide Masked;
    if p.Ok? && p'.Ok? {
      AttrsMaskedConcat(p.value.attrs, p'.value.attrs, [], []);
      AttrsMaskedConcat(q.value.attrs, q'.value.attrs, [], []);
    }
  }

  lemma DraftStops(w: Walk, at: nat, at': nat)
    ensures w.Stop? ==> SameDraft(DraftIn(w, at), DraftIn(w, at'))
  {
    hide DraftMasked, DraftField;
  }

  lemma {:induction false} DraftMoved(w: Walk, at: nat, at': nat)
    ensures SameDraft(DraftIn(w, at), DraftIn(w, at'))
  {
    hide *;
    DraftStops(w, at, at');
    if w.Step? {
      DraftFieldMoved(w.field, at, at');
      DraftMoved(w.next, at + |w.field.Bytes()|, at' + |w.field.Bytes()|);
      DraftInUnfold(w, at);
      DraftInUnfold(w, at');
      SameDraftJoin(DraftField(w.field, at), DraftField(w.field, at'),
                    DraftIn(w.next, at + |w.field.Bytes()|), DraftIn(w.next, at' + |w.field.Bytes()|));
    }
  }

  lemma ScopeFieldMoved(f: Field, at: nat, at': nat, r: Resource, r': Resource)
    requires ResourceTextOf(r) == ResourceTextOf(r')
    ensures SameRecords(ScopeField(f, at, r), ScopeField(f, at', r'))
  {
    hide Fields, DraftIn, DraftMasked;
    DraftMoved(Fields(f.payload), at + |f.head|, at' + |f.head|);
  }

  lemma SameRecordsJoin(p: Records, q: Records, p': Records, q': Records)
    requires SameRecords(p, q) && SameRecords(p', q')
    ensures SameRecords(Join(p, p'), Join(q, q'))
  {
    hide Texts;
    if p.Ok? && p'.Ok? {
      TextsConcat(p.value, p'.value);
      TextsConcat(q.value, q'.value);
    }
  }

  lemma {:induction false} ScopeMoved(w: Walk, at: nat, at': nat, r: Resource, r': Resource)
    requires ResourceTextOf(r) == ResourceTextOf(r')
    ensures SameRecords(ScopeIn(w, at, r), ScopeIn(w, at', r'))
  {
    hide ScopeField, Texts;
    ScopeInUnfold(w, at, r);
    ScopeInUnfold(w, at', r');
    if w.Step? {
      ScopeFieldMoved(w.field, at, at', r, r');
      ScopeMoved(w.next, at + |w.field.Bytes()|, at' + |w.field.Bytes()|, r, r');
      SameRecordsJoin(ScopeField(w.field, at, r), ScopeField(w.field, at', r'),
                      ScopeIn(w.next, at + |w.field.Bytes()|, r), ScopeIn(w.next, at' + |w.field.Bytes()|, r'));
    }
  }

  function WindowTexts(views: seq<View>): seq<bytes> {
    seq(|views|, i requires 0 <= i < |views| => views[i].text)
  }

  lemma {:induction false} ScopesMoved(vs: seq<View>, ws: seq<View>, r: Resource, r': Resource)
    requires WindowTexts(vs) == WindowTexts(ws) && ResourceTextOf(r) == ResourceTextOf(r')
    ensures SameRecords(ScopesOf(vs, r), ScopesOf(ws, r'))
  {
    hide ScopeIn, Fields, Texts;
    assert |WindowTexts(vs)| == |WindowTexts(ws)|;
    ScopesOfUnfold(vs, r);
    ScopesOfUnfold(ws, r');
    if vs != [] {
      assert WindowTexts(vs)[0] == WindowTexts(ws)[0];
      assert WindowTexts(vs[1..]) == WindowTexts(vs)[1..] && WindowTexts(ws[1..]) == WindowTexts(ws)[1..];
      ScopeMoved(Fields(vs[0].text), vs[0].at, ws[0].at, r, r');
      ScopesMoved(vs[1..], ws[1..], r, r');
      SameRecordsJoin(ScopeIn(Fields(vs[0].text), vs[0].at, r), ScopeIn(Fields(ws[0].text), ws[0].at, r'),
                      ScopesOf(vs[1..], r), ScopesOf(ws[1..], r'));
    }
  }

  // ----- what a ResourceLogs keeps of its fields

  /** The payloads of the length-delimited fields of one number, in order. */
  function Payloads(w: Walk, num: nat): seq<bytes> {
    if w.Stop? then []
    else (if w.field.Is(num, 2) then [w.field.payload] else []) + Payloads(w.next, num)
  }

  predicate ResourceReads(p: bytes) {
    ResourceIn(Fields(p), 0).Ok?
  }

  function LastResource(ps: seq<bytes>): ResourceText
    requires forall p <- ps :: ResourceReads(p)
  {
    if ps == [] then ResourceTextOf(EMPTY_RESOURCE)
    else
      assert ResourceReads(ps[|ps| - 1]);
      ResourceTextOf(ResourceIn(Fields(ps[|ps| - 1]), 0).value)
  }

  function Found(r: Option<Resource>): Resource {
    if r.Some? then r.value else EMPTY_RESOURCE
  }

  /** One pass keeps the last Resource and every scope window, wherever they stand. */
  ghost predicate Projects(g: Parsed<Group>, clean: bool, resources: seq<bytes>, scopes: seq<bytes>) {
    && (g.Ok? <==> clean && forall p <- resources :: ResourceReads(p))
    && (g.Ok? ==>
          && (g.value.resource.Some? <==> resources != [])
          && ResourceTextOf(Found(g.value.resource)) == LastResource(resources)
          && WindowTexts(g.value.scopes) == scopes)
  }

  lemma FieldProjects(f: Field, at: nat)
    ensures Projects(GroupField(f, at), true, if f.Is(1, 2) then [f.payload] else [],
      if f.Is(2, 2) then [f.payload] else [])
  {
    hide Fields, ResourceIn, ResourceTextOf;
    if f.Is(1, 2) {
      ResourceMoved(Fields(f.payload), at + |f.head|, 0);
      assert forall p <- [f.payload] :: p == f.payload;
      assert f.payload in [f.payload];
    }
  }

  lemma ProjectsJoin(g: Parsed<Group>, h: Parsed<Group>, clean: bool,
                     r: seq<bytes>, s: seq<bytes>, r': seq<bytes>, s': seq<bytes>)
    requires Projects(g, true, r, s) && Projects(h, clean, r', s')
    ensures Projects(GroupJoin(g, h), clean, r + r', s + s')
  {
    hide ResourceReads, ResourceIn, Fields;
    assert forall p :: p in r + r' <==> p in r || p in r';
    if g.Ok? && h.Ok? {
      assert WindowTexts(g.value.scopes + h.value.scopes) == WindowTexts(g.value.scopes) + WindowTexts(h.value.scopes);
      if r' == [] {
        assert r + r' == r;
      }
    }
  }

  lemma {:induction false} GroupProjects(w: Walk, at: nat)
    ensures Projects(GroupIn(w, at), Clean(w), Payloads(w, 1), Payloads(w, 2))
  {
    hide GroupField, ResourceReads, ResourceIn, Fields;
    if w.Step? {
      hide Projects;
      FieldProjects(w.field, at);
      GroupProjects(w.next, at + |w.field.Bytes()|);
      GroupInUnfold(w, at);
      ProjectsJoin(GroupField(w.field, at), GroupIn(w.next, at + |w.field.Bytes()|), Clean(w.next),
                   if w.field.Is(1, 2) then [w.field.payload] else [],
                   if w.field.Is(2, 2) then [w.field.payload] else [],
                   Payloads(w.next, 1), Payloads(w.next, 2));
    }
  }

  /** `s` holds the Resource fields and the ScopeLogs fields of `t`, each kind in its order. */
  ghost predicate Rearranged(s: bytes, t: bytes) {
    && Clean(Fields(s)) == Clean(Fields(t))
    && Payloads(Fields(s), 1) == Payloads(Fields(t), 1)
    && Payloads(Fields(s), 2) == Payloads(Fields(t), 2)
  }

  /** Field-order independence: moving Resource fields past ScopeLogs fields leaves the records
      of a ResourceLogs as they were, namespace and service name included. */
  lemma FieldOrderIndependence(s: View, t: View)
    requires Rearranged(s.text, t.text)
    ensures SameRecords(GroupOf(s), GroupOf(t))
  {
    hide Fields, GroupIn, ScopesOf, Payloads, Clean, ResourceReads, ResourceIn;
    GroupProjects(Fields(s.text), s.at);
    GroupProjects(Fields(t.text), t.at);
    var g, h := GroupIn(Fields(s.text), s.at), GroupIn(Fields(t.text), t.at);
    if g.Ok? && h.Ok? {
      ScopesMoved(g.value.scopes, h.value.scopes, Found(g.value.resource), Found(h.value.resource));
    }
  }

  /** The two requests have the same fields, but for the inside of their ResourceLogs. */
  ghost predicate Reordered(w: Walk, w': Walk) {
    match w
    case Stop(rest) => w'.Stop? && (w'.rest == []) == (rest == [])
    case Step(f, next) =>
      && w'.Step? && f.Is(1, 2) == w'.field.Is(1, 2)
      && (f.Is(1, 2) ==> Rearranged(f.payload, w'.field.payload))
      && Reordered(next, w'.next)
  }

  lemma {:induction false} RequestReordered(w: Walk, w': Walk, at: nat, at': nat)
    requires Reordered(w, w')
    ensures SameRecords(RequestIn(w, at), RequestIn(w', at'))
  {
    hide GroupOf, Texts, Rearranged;
    RequestInUnfold(w, at);
    RequestInUnfold(w', at');
    if w.Step? {
      if w.field.Is(1, 2) { FieldOrderIndependence(w.field.PayloadAt(at), w'.field.PayloadAt(at')); }
      RequestReordered(w.next, w'.next, at + |w.field.Bytes()|, at' + |w'.field.Bytes()|);
      SameRecordsJoin(RequestField(w.field, at), RequestField(w'.field, at'),
                      RequestIn(w.next, at + |w.field.Bytes()|), RequestIn(w'.next, at' + |w'.field.Bytes()|));
    }
  }

  /** The same for whole requests: the same records parse, with the same text. */
  lemma ParseReordered(raw: bytes, raw': bytes)
    requires Reordered(Fields(raw), Fields(raw'))
    ensures SameRecords(Parse(raw), Parse(raw'))
  {
    RequestReordered(Fields(raw), Fields(raw'), 0, 0);
  }
}
