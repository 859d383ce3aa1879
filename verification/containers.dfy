/** From records to the whole request: the governed buffer parses to the kept records. */
module Containers {
  import opened Prelude
  import opened Varint
  import opened Wire
  import opened Otlp
  import opened Envelope
  import opened Spans
  import opened Govern
  import opened Meaning
  import opened Content

  type Records = Parsed<seq<RecordView>>

  /** `q` parses to the records of `p`, numbered from `idx`, that sampling keeps, masked. */
  ghost predicate Reads(p: Records, q: Records, idx: nat, d: Decided, masks: Masks) {
    p.Ok? && q.Ok? && Texts(q.value) == Kept(p.value, idx, d, masks)
  }

  function Join(own: Records, later: Records): Records {
    var o :- own;
    var l :- later;
    Ok(o + l)
  }

  lemma {:induction false} KeptConcat(a: seq<RecordView>, b: seq<RecordView>, idx: nat, d: Decided, masks: Masks)
    ensures Kept(a + b, idx, d, masks) == Kept(a, idx, d, masks) + Kept(b, idx + |a|, d, masks)
  {
    hide RecordMasked;
    if a == [] {
      assert a + b == b;
    } else {
      KeptConcat(a[1..], b, idx + 1, d, masks);
      assert (a + b)[1..] == a[1..] + b && (a + b)[0] == a[0];
    }
  }

  lemma TextsConcat(a: seq<RecordView>, b: seq<RecordView>)
    ensures Texts(a + b) == Texts(a) + Texts(b)
  {
    hide Plain;
  }

  lemma ReadsJoin(p: Records, q: Records, p': Records, q': Records, idx: nat, d: Decided, masks: Masks)
    requires Reads(p, q, idx, d, masks)
    requires Reads(p', q', idx + |p.value|, d, masks)
    ensures Reads(Join(p, p'), Join(q, q'), idx, d, masks)
  {
    hide Kept, Texts;
    KeptConcat(p.value, p'.value, idx, d, masks);
    TextsConcat(q.value, q'.value);
  }

  lemma ReadsNothing(idx: nat, d: Decided, masks: Masks)
    ensures Reads(Ok([]), Ok([]), idx, d, masks)
  {
  }

  lemma JoinUnit(p: Records)
    ensures Join(Ok([]), p) == p
  {
    if p.Ok? { assert [] + p.value == p.value; }
  }

  // ----- unfolding, and the number of records each window holds

  lemma JoinOk(own: Records, later: Records)
    requires Join(own, later).Ok?
    ensures own.Ok? && later.Ok? && Join(own, later).value == own.value + later.value
  {
  }

  lemma ScopeInUnfold(w: Walk, at: nat, r: Resource)
    ensures w.Stop? && w.rest == [] ==> ScopeIn(w, at, r) == Ok([])
    ensures w.Step?
      ==> ScopeIn(w, at, r) == Join(ScopeField(w.field, at, r), ScopeIn(w.next, at + |w.field.Bytes()|, r))
  {
    hide ScopeField;
  }

  function ScopeTotal(scopes: seq<View>): nat {
    if scopes == [] then 0 else Count(Fields(scopes[0].text), Scope) + ScopeTotal(scopes[1..])
  }

  lemma ScopesOfUnfold(scopes: seq<View>, r: Resource)
    ensures scopes == [] ==> ScopesOf(scopes, r) == Ok([]) && ScopeTotal(scopes) == 0
    ensures scopes != [] ==>
      && ScopesOf(scopes, r) == Join(ScopeIn(Fields(scopes[0].text), scopes[0].at, r), ScopesOf(scopes[1..], r))
      && ScopeTotal(scopes) == Count(Fields(scopes[0].text), Scope) + ScopeTotal(scopes[1..])
  {
    hide ScopeIn, Fields, Count;
  }

  function GroupJoin(own: Parsed<Group>, later: Parsed<Group>): Parsed<Group> {
    var o :- own;
    var l :- later;
    Ok(o.Then(l))
  }

  lemma GroupJoinOk(own: Parsed<Group>, later: Parsed<Group>)
    requires GroupJoin(own, later).Ok?
    ensures own.Ok? && later.Ok?
  {
  }

  lemma GroupInUnfold(w: Walk, at: nat)
    ensures w.Stop? && w.rest == [] ==> GroupIn(w, at) == Ok(EMPTY_GROUP)
    ensures w.Step? ==> GroupIn(w, at) == GroupJoin(GroupField(w.field, at), GroupIn(w.next, at + |w.field.Bytes()|))
  {
    hide GroupField;
  }

  function RequestField(f: Field, at: nat): Records {
    if f.Is(1, 2) then GroupOf(f.PayloadAt(at)) else Ok([])
  }

  lemma RequestInUnfold(w: Walk, at: nat)
    ensures w.Stop? && w.rest == [] ==> RequestIn(w, at) == Ok([])
    ensures w.Step? ==> RequestIn(w, at) == Join(RequestField(w.field, at), RequestIn(w.next, at + |w.field.Bytes()|))
  {
    hide GroupOf;
  }

  lemma ScopeFieldCount(f: Field, at: nat, r: Resource)
    requires ScopeField(f, at, r).Ok?
    ensures |ScopeField(f, at, r).value| == FieldCount(f, Scope)
  {
    hide RecordOf;
  }

  lemma {:induction false} ScopeCount(w: Walk, at: nat, r: Resource)
    requires ScopeIn(w, at, r).Ok?
    ensures |ScopeIn(w, at, r).value| == Count(w, Scope)
  {
    hide Fields, RecordOf;
    if w.Step? { ScopeCount(w.next, at + |w.field.Bytes()|, r); }
  }

  lemma {:induction false} ScopesCount(scopes: seq<View>, r: Resource)
    requires ScopesOf(scopes, r).Ok?
    ensures |ScopesOf(scopes, r).value| == ScopeTotal(scopes)
  {
    hide *;
    ScopesOfUnfold(scopes, r);
    if scopes != [] {
      JoinOk(ScopeIn(Fields(scopes[0].text), scopes[0].at, r), ScopesOf(scopes[1..], r));
      ScopeCount(Fields(scopes[0].text), scopes[0].at, r);
      ScopesCount(scopes[1..], r);
    }
  }

  lemma {:induction false} ScopeTotalConcat(a: seq<View>, b: seq<View>)
    ensures ScopeTotal(a + b) == ScopeTotal(a) + ScopeTotal(b)
  {
    hide Fields, Count;
    if a == [] {
      assert a + b == b;
    } else {
      ScopeTotalConcat(a[1..], b);
      assert (a + b)[1..] == a[1..] + b;
    }
  }

  lemma GroupFieldCount(f: Field, at: nat)
    requires GroupField(f, at).Ok?
    ensures ScopeTotal(GroupField(f, at).value.scopes) == FieldCount(f, Resources)
  {
    hide Fields, Count, ResourceIn;
    if f.Is(2, 2) { assert ScopeTotal([f.PayloadAt(at)][1..]) == 0; }
  }

  lemma {:induction false} GroupCount(w: Walk, at: nat)
    requires GroupIn(w, at).Ok?
    ensures ScopeTotal(GroupIn(w, at).value.scopes) == Count(w, Resources)
  {
    hide GroupField, FieldCount;
    if w.Step? {
      var next := at + |w.field.Bytes()|;
      GroupCount(w.next, next);
      GroupFieldCount(w.field, at);
      ScopeTotalConcat(GroupField(w.field, at).value.scopes, GroupIn(w.next, next).value.scopes);
    }
  }

  lemma GroupOfCount(v: View)
    requires GroupOf(v).Ok?
    ensures |GroupOf(v).value| == Count(Fields(v.text), Resources)
  {
    hide Fields, GroupIn, ScopesOf, Count;
    var g := GroupIn(Fields(v.text), v.at).value;
    GroupCount(Fields(v.text), v.at);
    ScopesCount(g.scopes, if g.resource.Some? then g.resource.value else EMPTY_RESOURCE);
  }

  lemma RequestFieldCount(f: Field, at: nat)
    requires RequestField(f, at).Ok?
    ensures |RequestField(f, at).value| == FieldCount(f, Request)
  {
    hide Fields, GroupOf, Count;
    if f.Is(1, 2) { GroupOfCount(f.PayloadAt(at)); }
  }

  /** The parser finds exactly as many records as the re-encoder's walk numbers. */
  lemma {:induction false} RequestCount(w: Walk, at: nat)
    requires RequestIn(w, at).Ok?
    ensures |RequestIn(w, at).value| == Count(w, Request)
  {
    hide Fields, GroupOf;
    if w.Step? {
      if w.field.Is(1, 2) { GroupOfCount(w.field.PayloadAt(at)); }
      RequestCount(w.next, at + |w.field.Bytes()|);
    }
  }

  // ----- ScopeLogs

  lemma RecordReads(v: View, v': View, r: Resource, r': Resource, idx: nat, d: Decided, masks: Masks)
    requires DraftReads(DraftIn(Fields(v.text), v.at), DraftIn(Fields(v'.text), v'.at), d.SpansFor(idx), masks)
    requires ResourceTextOf(r) == ResourceTextOf(r') && d.VerdictFor(idx).Keep?
    ensures RecordOf(v, r).Ok? && RecordOf(v', r').Ok?
    ensures Reads(Ok([RecordOf(v, r).value]), Ok([RecordOf(v', r').value]), idx, d, masks)
  {
    hide DraftIn, Fields, DraftMasked;
    var rec := RecordOf(v, r).value;
    assert Kept([rec], idx, d, masks) == [RecordMasked(rec, d.SpansFor(idx), masks)];
  }

  lemma DroppedReads(rec: RecordView, idx: nat, d: Decided, masks: Masks)
    requires d.VerdictFor(idx).Drop?
    ensures Reads(Ok([rec]), Ok([]), idx, d, masks)
  {
    hide RecordMasked;
    assert Kept([rec][1..], idx + 1, d, masks) == [];
  }

  /** What one field of a ScopeLogs contributes before and after governing. */
  lemma ScopeFieldReads(f: Field, at: nat, at': nat, idx: nat, d: Decided, masks: Masks, r: Resource, r': Resource)
    requires ScopeField(f, at, r).Ok? && ResourceTextOf(r) == ResourceTextOf(r')
    requires GovernField(f, at, idx, d, masks, Scope).Ok?
    requires GovernField(f, at, idx, d, masks, Scope).value.Some?
      ==> |GovernField(f, at, idx, d, masks, Scope).value.value.Bytes()| < U64
    ensures var g := GovernField(f, at, idx, d, masks, Scope).value;
      Reads(ScopeField(f, at, r), if g.Some? then ScopeField(g.value, at', r') else Ok([]), idx, d, masks)
  {
    hide Fields, DraftIn, GovernRecord, RecordTouched, RecordMasked, DraftReads;
    var g := GovernField(f, at, idx, d, masks, Scope).value;
    if f.Is(2, 2) && g.Some? {
      ChildEnclosed(f, at, idx, d, masks, Scope);
      WalkFaithful(f.payload);
      WalkFaithful(g.value.payload);
      RecordContent(Fields(f.payload), at + |f.head|, at' + |g.value.head|, d.SpansFor(idx), masks);
      RecordReads(f.PayloadAt(at), g.value.PayloadAt(at'), r, r', idx, d, masks);
    } else if f.Is(2, 2) {
      DroppedReads(RecordOf(f.PayloadAt(at), r).value, idx, d, masks);
    }
  }

  lemma {:induction false} ScopeContent(w: Walk, at: nat, at': nat, idx: nat, d: Decided, masks: Masks, r: Resource,
      r': Resource)
    requires ScopeIn(w, at, r).Ok? && ResourceTextOf(r) == ResourceTextOf(r')
    requires GovernAll(w, at, idx, d, masks, Scope).Ok? && |Unwalk(GovernAll(w, at, idx, d, masks, Scope).value)| < U64
    ensures Reads(ScopeIn(w, at, r), ScopeIn(GovernAll(w, at, idx, d, masks, Scope).value, at', r'), idx, d, masks)
  {
    hide *;
    AllUnfold(w, at, idx, d, masks, Scope);
    var w' := GovernAll(w, at, idx, d, masks, Scope).value;
    ScopeInUnfold(w, at, r);
    ScopeInUnfold(w', at', r');
    if w.Step? {
      var f, next := w.field, at + |w.field.Bytes()|;
      var g := GovernField(f, at, idx, d, masks, Scope).value;
      JoinOk(ScopeField(f, at, r), ScopeIn(w.next, next, r));
      if g.Some? { StepParts(w'); }
      ScopeFieldReads(f, at, at', idx, d, masks, r, r');
      ScopeFieldCount(f, at, r);
      var n, next' :=
        GovernAll(w.next, next, idx + FieldCount(f, Scope), d, masks, Scope).value,
        at' + if g.Some? then |g.value.Bytes()| else 0;
      ScopeContent(w.next, next, next', idx + FieldCount(f, Scope), d, masks, r, r');
      var own' := if g.Some? then ScopeField(g.value, at', r') else Ok([]);
      JoinUnit(ScopeIn(n, next', r'));
      ReadsJoin(ScopeField(f, at, r), own', ScopeIn(w.next, next, r), ScopeIn(n, next', r'), idx, d, masks);
    } else {
      ReadsNothing(idx, d, masks);
    }
  }

  // ----- ResourceLogs

  /** Each window of `scopes'` walks to the governed fields of the same window of `scopes`. */
  ghost predicate ScopesMatch(scopes: seq<View>, scopes': seq<View>, idx: nat, d: Decided, masks: Masks) {
    && |scopes| == |scopes'|
    && (scopes != [] ==>
        && |scopes'[0].text| < U64
        && GovernAll(Fields(scopes[0].text), scopes[0].at, idx, d, masks, Scope) == Ok(Fields(scopes'[0].text))
        && ScopesMatch(scopes[1..], scopes'[1..], idx + Count(Fields(scopes[0].text), Scope), d, masks))
  }

  lemma ScopesMatchUnfold(scopes: seq<View>, scopes': seq<View>, idx: nat, d: Decided, masks: Masks)
    requires ScopesMatch(scopes, scopes', idx, d, masks)
    ensures |scopes| == |scopes'|
    ensures scopes != [] ==>
        && |scopes'[0].text| < U64
        && GovernAll(Fields(scopes[0].text), scopes[0].at, idx, d, masks, Scope) == Ok(Fields(scopes'[0].text))
        && ScopesMatch(scopes[1..], scopes'[1..], idx + Count(Fields(scopes[0].text), Scope), d, masks)
  {
    hide GovernAll, Fields, Count;
  }

  lemma {:induction false} ScopesContent(scopes: seq<View>, scopes': seq<View>, idx: nat, d: Decided, masks: Masks,
      r: Resource, r': Resource)
    requires ScopesMatch(scopes, scopes', idx, d, masks)
    requires ScopesOf(scopes, r).Ok? && ResourceTextOf(r) == ResourceTextOf(r')
    ensures Reads(ScopesOf(scopes, r), ScopesOf(scopes', r'), idx, d, masks)
  {
    hide *;
    ScopesOfUnfold(scopes, r);
    ScopesOfUnfold(scopes', r');
    ScopesMatchUnfold(scopes, scopes', idx, d, masks);
    if scopes != [] {
      var s, s' := scopes[0], scopes'[0];
      var own, later := ScopeIn(Fields(s.text), s.at, r), ScopesOf(scopes[1..], r);
      JoinOk(own, later);
      WalkFaithful(s'.text);
      ScopeCount(Fields(s.text), s.at, r);
      ScopeContent(Fields(s.text), s.at, s'.at, idx, d, masks, r, r');
      ScopesContent(scopes[1..], scopes'[1..], idx + Count(Fields(s.text), Scope), d, masks, r, r');
      ReadsJoin(own, ScopeIn(Fields(s'.text), s'.at, r'), later, ScopesOf(scopes'[1..], r'), idx, d, masks);
    } else {
      ReadsNothing(idx, d, masks);
    }
  }

  function OptionResourceText(r: Option<Resource>): Option<ResourceText> {
    if r.Some? then Some(ResourceTextOf(r.value)) else None
  }

  ghost predicate GroupReads(p: Parsed<Group>, q: Parsed<Group>, idx: nat, d: Decided, masks: Masks) {
    && p.Ok? && q.Ok?
    && OptionResourceText(p.value.resource) == OptionResourceText(q.value.resource)
    && ScopesMatch(p.value.scopes, q.value.scopes, idx, d, masks)
  }

  lemma {:induction false} ScopesMatchConcat(a: seq<View>, a': seq<View>, b: seq<View>, b': seq<View>, idx: nat,
      d: Decided, masks: Masks)
    requires ScopesMatch(a, a', idx, d, masks) && ScopesMatch(b, b', idx + ScopeTotal(a), d, masks)
    ensures ScopesMatch(a + b, a' + b', idx, d, masks)
  {
    hide GovernAll, Fields, Count;
    if a == [] {
      assert a + b == b && a' + b' == b';
    } else {
      ScopesMatchConcat(a[1..], a'[1..], b, b', idx + Count(Fields(a[0].text), Scope), d, masks);
      assert (a + b)[1..] == a[1..] + b && (a' + b')[1..] == a'[1..] + b';
    }
  }

  lemma GroupReadsJoin(p: Parsed<Group>, q: Parsed<Group>, p': Parsed<Group>, q': Parsed<Group>, idx: nat,
      d: Decided, masks: Masks)
    requires GroupReads(p, q, idx, d, masks) && GroupReads(p', q', idx + ScopeTotal(p.value.scopes), d, masks)
    ensures GroupReads(GroupJoin(p, p'), GroupJoin(q, q'), idx, d, masks)
  {
    hide ScopesMatch, ScopeTotal;
    ScopesMatchConcat(p.value.scopes, q.value.scopes, p'.value.scopes, q'.value.scopes, idx, d, masks);
  }

  lemma OneScope(s: View, s': View, idx: nat, d: Decided, masks: Masks)
    requires |s'.text| < U64 && GovernAll(Fields(s.text), s.at, idx, d, masks, Scope) == Ok(Fields(s'.text))
    ensures ScopesMatch([s], [s'], idx, d, masks)
  {
    hide GovernAll, Fields, Count;
    assert ScopesMatch([s][1..], [s'][1..], idx + Count(Fields(s.text), Scope), d, masks);
  }

  lemma ContainerNeverOmits(f: Field, at: nat, idx: nat, d: Decided, masks: Masks, level: Level)
    requires !level.Scope? && GovernField(f, at, idx, d, masks, level).Ok?
    ensures GovernField(f, at, idx, d, masks, level).value.Some?
    ensures !FateOf(f, at, idx, d, level).Omitted?
    ensures var g := GovernField(f, at, idx, d, masks, level).value.value;
      && g.num == f.num && g.wire == f.wire
      && (!f.Is(level.ChildField(), 2) ==> g == f)
      && (f.Is(level.ChildField(), 2) ==>
          && GovernChild(f, at, idx, d, masks, level).Ok?
          && g == Enclose(f, FateOf(f, at, idx, d, level).Rewritten?, GovernChild(f, at, idx, d, masks, level).value))
  {
    hide GovernChild, Touched, Fields, Unwalk, Header;
  }

  lemma GroupFieldReads(f: Field, at: nat, at': nat, idx: nat, d: Decided, masks: Masks)
    requires GroupField(f, at).Ok?
    requires GovernField(f, at, idx, d, masks, Resources).Ok?
      && GovernField(f, at, idx, d, masks, Resources).value.Some?
    requires |GovernField(f, at, idx, d, masks, Resources).value.value.Bytes()| < U64
    ensures GroupReads(GroupField(f, at), GroupField(GovernField(f, at, idx, d, masks, Resources).value.value, at'),
      idx, d, masks)
  {
    hide Fields, GovernAll, Touched, ResourceIn, Count, GovernField, FateOf;
    ContainerNeverOmits(f, at, idx, d, masks, Resources);
    var g := GovernField(f, at, idx, d, masks, Resources).value.value;
    if f.Is(2, 2) {
      ChildEnclosed(f, at, idx, d, masks, Resources);
      OneScope(f.PayloadAt(at), g.PayloadAt(at'), idx, d, masks);
    } else if f.Is(1, 2) {
      ResourceMoved(Fields(f.payload), at + |f.head|, at' + |f.head|);
    }
  }

  lemma EmptyGroupReads(idx: nat, d: Decided, masks: Masks)
    ensures GroupReads(Ok(EMPTY_GROUP), Ok(EMPTY_GROUP), idx, d, masks)
  {
  }

  lemma {:induction false} GroupContent(w: Walk, at: nat, at': nat, idx: nat, d: Decided, masks: Masks)
    requires GroupIn(w, at).Ok?
    requires GovernAll(w, at, idx, d, masks, Resources).Ok?
      && |Unwalk(GovernAll(w, at, idx, d, masks, Resources).value)| < U64
    ensures GroupReads(GroupIn(w, at), GroupIn(GovernAll(w, at, idx, d, masks, Resources).value, at'), idx, d, masks)
  {
    hide *;
    AllUnfold(w, at, idx, d, masks, Resources);
    var w' := GovernAll(w, at, idx, d, masks, Resources).value;
    GroupInUnfold(w, at);
    GroupInUnfold(w', at');
    if w.Step? {
      var f, next := w.field, at + |w.field.Bytes()|;
      ContainerNeverOmits(f, at, idx, d, masks, Resources);
      var g := w'.field;
      GroupJoinOk(GroupField(f, at), GroupIn(w.next, next));
      StepParts(w');
      GroupFieldReads(f, at, at', idx, d, masks);
      GroupFieldCount(f, at);
      GroupContent(w.next, next, at' + |g.Bytes()|, idx + FieldCount(f, Resources), d, masks);
      GroupReadsJoin(GroupField(f, at), GroupField(g, at'), GroupIn(w.next, next),
        GroupIn(w'.next, at' + |g.Bytes()|), idx, d, masks);
    } else {
      EmptyGroupReads(idx, d, masks);
    }
  }

  lemma GroupOfReads(v: View, v': View, idx: nat, d: Decided, masks: Masks)
    requires GroupReads(GroupIn(Fields(v.text), v.at), GroupIn(Fields(v'.text), v'.at), idx, d, masks)
    requires GroupOf(v).Ok?
    ensures Reads(GroupOf(v), GroupOf(v'), idx, d, masks)
  {
    hide GroupIn, Fields, ScopesMatch, ScopesOf, ScopeTotal;
    var p, q := GroupIn(Fields(v.text), v.at).value, GroupIn(Fields(v'.text), v'.at).value;
    ScopesContent(p.scopes, q.scopes, idx, d, masks,
                  if p.resource.Some? then p.resource.value else EMPTY_RESOURCE,
                  if q.resource.Some? then q.resource.value else EMPTY_RESOURCE);
  }

  // ----- the request

  lemma RequestFieldReads(f: Field, at: nat, at': nat, idx: nat, d: Decided, masks: Masks)
    requires RequestField(f, at).Ok?
    requires GovernField(f, at, idx, d, masks, Request).Ok? && GovernField(f, at, idx, d, masks, Request).value.Some?
    requires |GovernField(f, at, idx, d, masks, Request).value.value.Bytes()| < U64
    ensures Reads(RequestField(f, at), RequestField(GovernField(f, at, idx, d, masks, Request).value.value, at'),
      idx, d, masks)
  {
    hide Fields, GovernAll, Touched, GroupIn, Count, GovernField, FateOf, ScopesOf, GroupReads, ScopeTotal, Kept, Texts;
    ContainerNeverOmits(f, at, idx, d, masks, Request);
    var g := GovernField(f, at, idx, d, masks, Request).value.value;
    if f.Is(1, 2) {
      ChildEnclosed(f, at, idx, d, masks, Request);
      WalkFaithful(g.payload);
      GroupContent(Fields(f.payload), at + |f.head|, at' + |g.head|, idx, d, masks);
      GroupOfReads(f.PayloadAt(at), g.PayloadAt(at'), idx, d, masks);
    } else {
      ReadsNothing(idx, d, masks);
    }
  }

  lemma {:induction false} RequestContent(w: Walk, at: nat, at': nat, idx: nat, d: Decided, masks: Masks)
    requires RequestIn(w, at).Ok?
    requires GovernAll(w, at, idx, d, masks, Request).Ok?
      && |Unwalk(GovernAll(w, at, idx, d, masks, Request).value)| < U64
    ensures Reads(RequestIn(w, at), RequestIn(GovernAll(w, at, idx, d, masks, Request).value, at'), idx, d, masks)
  {
    hide *;
    AllUnfold(w, at, idx, d, masks, Request);
    var w' := GovernAll(w, at, idx, d, masks, Request).value;
    RequestInUnfold(w, at);
    RequestInUnfold(w', at');
    if w.Step? {
      var f, next := w.field, at + |w.field.Bytes()|;
      ContainerNeverOmits(f, at, idx, d, masks, Request);
      var g := w'.field;
      JoinOk(RequestField(f, at), RequestIn(w.next, next));
      StepParts(w');
      RequestFieldReads(f, at, at', idx, d, masks);
      RequestFieldCount(f, at);
      RequestContent(w.next, next, at' + |g.Bytes()|, idx + FieldCount(f, Request), d, masks);
      ReadsJoin(RequestField(f, at), RequestField(g, at'), RequestIn(w.next, next),
        RequestIn(w'.next, at' + |g.Bytes()|), idx, d, masks);
    } else {
      ReadsNothing(idx, d, masks);
    }
  }
}
