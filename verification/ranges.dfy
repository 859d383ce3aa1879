/** Every range the parser emits lies in the window of the message that encloses it, and denotes
    the bytes found there. */
module Ranges {
  import opened Prelude
  import opened Wire
  import opened Otlp
  import opened Govern
  import opened Containers
  import opened Content
  import opened Preservation

  ghost predicate LiesIn(v: View, outer: View) {
    v.Inside(outer.text, outer.at)
  }

  lemma Nested(v: View, mid: View, outer: View)
    requires LiesIn(v, mid) && LiesIn(mid, outer)
    ensures LiesIn(v, outer)
  {
    SliceOfSlice(outer.text, mid.at - outer.at, mid.End() - outer.at, v.at - mid.at, v.End() - mid.at);
  }

  lemma SliceOfSlice(s: bytes, a: nat, b: nat, i: nat, j: nat)
    requires a <= b <= |s| && i <= j <= b - a
    ensures s[a..b][i..j] == s[a + i..a + j]
  {
    var t := s[a..b];
    forall k | 0 <= k < j - i ensures t[i..j][k] == s[a + i..a + j][k] {
      assert t[i..j][k] == t[i + k] == s[a + (i + k)];
    }
  }

  /** The rest of a walk, at offset `at`, is a stretch of the window. */
  ghost predicate Sits(w: Walk, at: nat, outer: View) {
    LiesIn(View(at, Unwalk(w)), outer)
  }

  lemma StepSits(w: Walk, at: nat, outer: View)
    requires w.Step? && Sits(w, at, outer)
    ensures LiesIn(w.field.PayloadAt(at), outer) && Sits(w.next, at + |w.field.Bytes()|, outer)
  {
    hide Unwalk;
    var all := View(at, Unwalk(w));
    UnwalkStep(w);
    assert all.text[|w.field.head|..|w.field.Bytes()|] == w.field.payload;
    assert all.text[|w.field.Bytes()|..|all.text|] == Unwalk(w.next);
    Nested(w.field.PayloadAt(at), all, outer);
    Nested(View(at + |w.field.Bytes()|, Unwalk(w.next)), all, outer);
  }

  lemma UnwalkStep(w: Walk)
    requires w.Step?
    ensures Unwalk(w) == w.field.head + w.field.payload + Unwalk(w.next)
  {
  }

  lemma FieldsSit(v: View)
    ensures Sits(Fields(v.text), v.at, v)
  {
    hide Fields;
    WalkFaithful(v.text);
    assert v.text[0..|v.text|] == v.text;
  }

  ghost predicate SomeWithin(v: Option<View>, outer: View) {
    v.Some? ==> LiesIn(v.value, outer)
  }

  ghost predicate AttrWithin(a: Attr, outer: View) {
    LiesIn(a.key, outer) && LiesIn(a.value, outer)
  }

  ghost predicate DraftWithin(d: Draft, outer: View) {
    && SomeWithin(d.body, outer) && SomeWithin(d.traceId, outer)
    && forall a <- d.attrs :: AttrWithin(a, outer)
  }

  ghost predicate ResourceWithin(r: Resource, outer: View) {
    SomeWithin(r.namespace, outer) && SomeWithin(r.service, outer)
  }

  lemma {:induction false} AnyWithin(w: Walk, at: nat, outer: View)
    requires Sits(w, at, outer) && AnyString(w, at).Ok?
    ensures SomeWithin(AnyString(w, at).value, outer)
  {
    hide Sits, LiesIn;
    if w.Step? {
      StepSits(w, at, outer);
      if !w.field.Is(1, 2) { AnyWithin(w.next, at + |w.field.Bytes()|, outer); }
    }
  }

  lemma AnyOfWithin(v: View, outer: View)
    requires LiesIn(v, outer) && AnyStringOf(v).Ok?
    ensures SomeWithin(AnyStringOf(v).value, outer)
  {
    hide Fields, AnyString, Sits, LiesIn;
    FieldsSit(v);
    AnyWithin(Fields(v.text), v.at, v);
    if AnyStringOf(v).value.Some? { Nested(AnyStringOf(v).value.value, v, outer); }
  }

  ghost predicate PairWithin(p: Pair, outer: View) {
    SomeWithin(p.key, outer) && (p.value.Some? ==> SomeWithin(p.value.value, outer))
  }

  lemma {:induction false} PairInWithin(w: Walk, at: nat, outer: View)
    requires Sits(w, at, outer) && PairIn(w, at).Ok?
    ensures PairWithin(PairIn(w, at).value, outer)
  {
    hide Sits, LiesIn, AnyStringOf;
    if w.Step? {
      StepSits(w, at, outer);
      if w.field.Is(2, 2) { AnyOfWithin(w.field.PayloadAt(at), outer); }
      PairInWithin(w.next, at + |w.field.Bytes()|, outer);
    }
  }

  lemma KeyValueWithin(v: View, outer: View)
    requires LiesIn(v, outer) && KeyValueOf(v).Ok?
    ensures KeyValueOf(v).value.Some? ==> AttrWithin(KeyValueOf(v).value.value, outer)
  {
    hide Fields, PairIn, Sits, LiesIn;
    FieldsSit(v);
    PairInWithin(Fields(v.text), v.at, v);
    if KeyValueOf(v).value.Some? {
      Nested(KeyValueOf(v).value.value.key, v, outer);
      Nested(KeyValueOf(v).value.value.value, v, outer);
    }
  }

  lemma DraftFieldWithin(f: Field, at: nat, outer: View)
    requires LiesIn(f.PayloadAt(at), outer) && DraftField(f, at).Ok?
    ensures DraftWithin(DraftField(f, at).value, outer)
  {
    hide LiesIn, AnyStringOf, KeyValueOf;
    if f.Is(5, 2) {
      AnyOfWithin(f.PayloadAt(at), outer);
    } else if f.Is(6, 2) {
      KeyValueWithin(f.PayloadAt(at), outer);
    }
  }

  lemma {:induction false} DraftInWithin(w: Walk, at: nat, outer: View)
    requires Sits(w, at, outer) && DraftIn(w, at).Ok?
    ensures DraftWithin(DraftIn(w, at).value, outer)
  {
    hide Sits, LiesIn, DraftField;
    if w.Step? {
      StepSits(w, at, outer);
      DraftFieldWithin(w.field, at, outer);
      DraftInWithin(w.next, at + |w.field.Bytes()|, outer);
    }
  }

  lemma {:induction false} ResourceInWithin(w: Walk, at: nat, outer: View)
    requires Sits(w, at, outer) && ResourceIn(w, at).Ok?
    ensures ResourceWithin(ResourceIn(w, at).value, outer)
  {
    hide Sits, LiesIn, KeyValueOf;
    if w.Step? {
      StepSits(w, at, outer);
      if w.field.Is(1, 2) { KeyValueWithin(w.field.PayloadAt(at), outer); }
      ResourceInWithin(w.next, at + |w.field.Bytes()|, outer);
    }
  }

  predicate Apart(v: View, w: View) {
    v.End() < w.at || w.End() < v.at
  }

  /** The body and the attribute values of a record share no byte, and do not even touch. */
  ghost predicate StringsApart(d: Draft) {
    && (d.body.Some? ==> forall a <- d.attrs :: Apart(d.body.value, a.value))
    && forall i, j | 0 <= i < j < |d.attrs| :: Apart(d.attrs[i].value, d.attrs[j].value)
  }

  /** The strings of a record start beyond `at`, where a header stands. */
  ghost predicate StringsPast(d: Draft, at: nat) {
    (d.body.Some? ==> at < d.body.value.at) && forall a <- d.attrs :: at < a.value.at
  }

  lemma {:induction false} DraftPast(w: Walk, at: nat)
    requires AllSound(w) && DraftIn(w, at).Ok?
    ensures StringsPast(DraftIn(w, at).value, at)
  {
    hide DraftField, LiesIn, Field.Sound;
    if w.Step? {
      var payload := w.field.PayloadAt(at);
      Itself(payload);
      DraftFieldWithin(w.field, at, payload);
      HeaderFirst(w.field);
      WithinPast(DraftField(w.field, at).value, payload, at);
      DraftPast(w.next, at + |w.field.Bytes()|);
    }
  }

  lemma HeaderFirst(f: Field)
    requires f.Sound()
    ensures |f.head| > 0
  {
    hide NextField;
    assert NextField(f.Bytes(), 0).Ok?;
  }

  lemma WithinPast(d: Draft, outer: View, at: nat)
    requires DraftWithin(d, outer) && at < outer.at
    ensures StringsPast(d, at)
  {
    assert forall a <- d.attrs :: AttrWithin(a, outer);
  }

  lemma StringsApartJoin(own: Draft, later: Draft, payload: View)
    requires DraftWithin(own, payload) && StringsPast(later, payload.End())
    requires StringsApart(own) && StringsApart(later)
    ensures StringsApart(own.Then(later))
  {
    forall a <- own.attrs, b <- later.attrs ensures Apart(a.value, b.value) {
      assert AttrWithin(a, payload);
    }
  }

  lemma {:induction false} DraftApart(w: Walk, at: nat)
    requires AllSound(w) && DraftIn(w, at).Ok?
    ensures StringsApart(DraftIn(w, at).value)
  {
    hide DraftWithin, DraftField, StringsApart, StringsPast, Unwalk, Field.Sound;
    if w.Step? {
      var payload, mid := w.field.PayloadAt(at), at + |w.field.Bytes()|;
      Itself(payload);
      DraftFieldWithin(w.field, at, payload);
      DraftPast(w.next, mid);
      OneString(w.field, at);
      DraftApart(w.next, mid);
      StringsApartJoin(DraftField(w.field, at).value, DraftIn(w.next, mid).value, payload);
    } else {
      NoStrings();
    }
  }

  lemma Itself(v: View)
    ensures LiesIn(v, v)
  {
  }

  lemma NoStrings()
    ensures StringsApart(EMPTY_DRAFT)
  {
  }

  lemma OneString(f: Field, at: nat)
    requires DraftField(f, at).Ok?
    ensures StringsApart(DraftField(f, at).value)
  {
    hide AnyStringOf, KeyValueOf;
  }

  /** Record by record: its body, trace id and attributes lie in its own LogRecord window, and
      that window and its Resource strings lie in `outer`; its strings share no byte. */
  ghost predicate Aligned(records: seq<RecordView>, windows: seq<View>, outer: View) {
    && |records| == |windows|
    && (forall i | 0 <= i < |records| :: DraftWithin(records[i].draft, windows[i]) && StringsApart(records[i].draft))
    && (forall i | 0 <= i < |records| :: LiesIn(windows[i], outer) && ResourceWithin(records[i].resource, outer))
  }

  lemma AlignedJoin(a: seq<RecordView>, b: seq<RecordView>, v: seq<View>, w: seq<View>, outer: View)
    requires Aligned(a, v, outer) && Aligned(b, w, outer)
    ensures Aligned(a + b, v + w, outer)
  {
    hide DraftWithin, LiesIn, ResourceWithin, StringsApart;
  }

  lemma {:induction false} ScopeAligned(w: Walk, at: nat, r: Resource, outer: View)
    requires Sits(w, at, outer) && ScopeIn(w, at, r).Ok? && ResourceWithin(r, outer)
    ensures Aligned(ScopeIn(w, at, r).value, RecordWindows(w, at, Scope), outer)
  {
    hide Sits, LiesIn, DraftIn, Fields, DraftWithin, ResourceWithin, StringsApart;
    if w.Step? {
      StepSits(w, at, outer);
      var f := w.field;
      if f.Is(2, 2) {
        FieldsSit(f.PayloadAt(at));
        DraftInWithin(Fields(f.payload), f.PayloadAt(at).at, f.PayloadAt(at));
        WalkFaithful(f.payload);
        DraftApart(Fields(f.payload), f.PayloadAt(at).at);
      }
      ScopeAligned(w.next, at + |f.Bytes()|, r, outer);
      AlignedJoin(ScopeField(f, at, r).value, ScopeIn(w.next, at + |f.Bytes()|, r).value,
                  FieldWindows(f, at, Scope), RecordWindows(w.next, at + |f.Bytes()|, Scope), outer);
    }
  }

  /** The LogRecord windows of a list of ScopeLogs windows. */
  function ScopesWindows(scopes: seq<View>): seq<View> {
    if scopes == [] then [] else RecordWindows(Fields(scopes[0].text), scopes[0].at, Scope) + ScopesWindows(scopes[1..])
  }

  lemma {:induction false} ScopesWindowsJoin(a: seq<View>, b: seq<View>)
    ensures ScopesWindows(a + b) == ScopesWindows(a) + ScopesWindows(b)
  {
    hide RecordWindows, Fields;
    if a == [] {
      assert a + b == b;
    } else {
      ScopesWindowsJoin(a[1..], b);
      assert (a + b)[1..] == a[1..] + b && (a + b)[0] == a[0];
    }
  }

  lemma WindowSits(v: View, outer: View)
    requires LiesIn(v, outer)
    ensures Sits(Fields(v.text), v.at, outer)
  {
    hide Fields;
    WalkFaithful(v.text);
  }

  lemma {:induction false} ScopesAligned(scopes: seq<View>, r: Resource, outer: View)
    requires (forall s <- scopes :: LiesIn(s, outer)) && ScopesOf(scopes, r).Ok? && ResourceWithin(r, outer)
    ensures Aligned(ScopesOf(scopes, r).value, ScopesWindows(scopes), outer)
  {
    hide LiesIn, ScopeIn, RecordWindows, Fields, DraftWithin, ResourceWithin, Sits, StringsApart;
    if scopes != [] {
      var s := scopes[0];
      WindowSits(s, outer);
      ScopeAligned(Fields(s.text), s.at, r, outer);
      ScopesAligned(scopes[1..], r, outer);
      AlignedJoin(ScopeIn(Fields(s.text), s.at, r).value, ScopesOf(scopes[1..], r).value,
                  RecordWindows(Fields(s.text), s.at, Scope), ScopesWindows(scopes[1..]), outer);
    }
  }

  ghost predicate GroupWithin(g: Group, outer: View) {
    && (g.resource.Some? ==> ResourceWithin(g.resource.value, outer))
    && forall s <- g.scopes :: LiesIn(s, outer)
  }

  lemma GroupFieldWithin(f: Field, at: nat, outer: View)
    requires LiesIn(f.PayloadAt(at), outer) && GroupField(f, at).Ok?
    ensures GroupWithin(GroupField(f, at).value, outer)
    ensures ScopesWindows(GroupField(f, at).value.scopes) == FieldWindows(f, at, Resources)
  {
    hide LiesIn, Sits, ResourceIn, Fields, RecordWindows;
    if f.Is(1, 2) {
      WindowSits(f.PayloadAt(at), outer);
      ResourceInWithin(Fields(f.payload), f.PayloadAt(at).at, outer);
    }
  }

  lemma {:induction false} GroupInWithin(w: Walk, at: nat, outer: View)
    requires Sits(w, at, outer) && GroupIn(w, at).Ok?
    ensures GroupWithin(GroupIn(w, at).value, outer)
    ensures ScopesWindows(GroupIn(w, at).value.scopes) == RecordWindows(w, at, Resources)
  {
    hide LiesIn, Sits, GroupField, ScopesWindows, FieldWindows, ResourceWithin;
    NoWindows();
    if w.Step? {
      StepSits(w, at, outer);
      GroupFieldWithin(w.field, at, outer);
      GroupInWithin(w.next, at + |w.field.Bytes()|, outer);
      ScopesWindowsJoin(GroupField(w.field, at).value.scopes, GroupIn(w.next, at + |w.field.Bytes()|).value.scopes);
    }
  }

  lemma NoWindows()
    ensures ScopesWindows([]) == []
  {
  }

  /** In one ResourceLogs: everything its records view lies in its window. */
  lemma GroupAligned(v: View, outer: View)
    requires LiesIn(v, outer) && GroupOf(v).Ok?
    ensures Aligned(GroupOf(v).value, RecordWindows(Fields(v.text), v.at, Resources), outer)
  {
    hide LiesIn, Sits, Fields, GroupIn, ScopesOf, ScopesWindows, RecordWindows, Aligned;
    WindowSits(v, outer);
    GroupInWithin(Fields(v.text), v.at, outer);
    var g := GroupIn(Fields(v.text), v.at).value;
    ScopesAligned(g.scopes, if g.resource.Some? then g.resource.value else EMPTY_RESOURCE, outer);
  }

  lemma {:induction false} RequestAligned(w: Walk, at: nat, outer: View)
    requires Sits(w, at, outer) && RequestIn(w, at).Ok?
    ensures Aligned(RequestIn(w, at).value, RecordWindows(w, at, Request), outer)
  {
    hide LiesIn, Sits, GroupOf, Fields, DraftWithin, ResourceWithin, StringsApart;
    if w.Step? {
      StepSits(w, at, outer);
      var f := w.field;
      if f.Is(1, 2) { GroupAligned(f.PayloadAt(at), outer); }
      RequestAligned(w.next, at + |f.Bytes()|, outer);
      AlignedJoin(if f.Is(1, 2) then GroupOf(f.PayloadAt(at)).value else [], RequestIn(w.next, at + |f.Bytes()|).value,
                  FieldWindows(f, at, Request), RecordWindows(w.next, at + |f.Bytes()|, Request), outer);
    }
  }

  /** Every range of every parsed record lies in the window of its own LogRecord (of the whole
      request, for the Resource strings) and denotes the bytes of the request found there; the
      strings of a record never touch. */
  lemma ParseWithin(raw: bytes)
    requires Parse(raw).Ok?
    ensures Aligned(Parse(raw).value, RecordWindows(Fields(raw), 0, Request), View(0, raw))
  {
    hide Fields, RequestIn, RecordWindows, Sits;
    FieldsSit(View(0, raw));
    RequestAligned(Fields(raw), 0, View(0, raw));
  }
}
