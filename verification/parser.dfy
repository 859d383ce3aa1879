/** The parse loops of the ingest walker, proved against the folds over fields. */
module Parser {
  import opened Prelude
  import opened Varint
  import opened Wire
  import opened Cursor
  import opened Otlp

  // What a loop has accumulated, joined with the fold over the fields still unread.

  ghost function PairOnto(acc: Pair, later: Parsed<Pair>): Parsed<Pair> {
    if later.Ok? then Ok(acc.Then(later.value)) else later
  }

  ghost function DraftOnto(acc: Draft, later: Parsed<Draft>): Parsed<Draft> {
    if later.Ok? then Ok(acc.Then(later.value)) else later
  }

  ghost function ResourceOnto(acc: Resource, later: Parsed<Resource>): Parsed<Resource> {
    if later.Ok? then Ok(acc.Then(later.value)) else later
  }

  ghost function GroupOnto(acc: Group, later: Parsed<Group>): Parsed<Group> {
    if later.Ok? then Ok(acc.Then(later.value)) else later
  }

  ghost function RecordsOnto(acc: seq<RecordView>, later: Parsed<seq<RecordView>>): Parsed<seq<RecordView>> {
    if later.Ok? then Ok(acc + later.value) else later
  }

  method ParseAnyValue(buf: bytes, window: View) returns (r: Parsed<Option<View>>)
    requires window.Inside(buf, 0)
    ensures r == AnyStringOf(window)
  {
    hide NextField, Skipped, Decode, Fields, StopError;
    RestDone(buf);
    var hi := window.End();
    var cur := new WireCursor(buf, window.at, hi);
    while !cur.Done()
      invariant cur.Valid() && cur.buf == buf && cur.end == hi
      invariant AnyStringOf(window) == AnyString(Rest(buf, cur.pos, hi), cur.pos)
      decreases hi - cur.pos
    {
      var tag :- cur.ReadTag();
      if tag == Tag(1, 2) {
        var s :- cur.ReadRange();
        return Ok(Some(s));
      }
      var _ :- cur.Skip(tag.wire);
    }
    return Ok(None);
  }

  method ParseKeyValue(buf: bytes, window: View) returns (r: Parsed<Option<Attr>>)
    requires window.Inside(buf, 0)
    ensures r == KeyValueOf(window)
  {
    hide NextField, Skipped, Decode, Fields, StopError, AnyStringOf;
    RestDone(buf);
    var key: Option<View>, value: Option<Option<View>> := None, None;
    var hi := window.End();
    var cur := new WireCursor(buf, window.at, hi);
    while !cur.Done()
      invariant cur.Valid() && cur.buf == buf && cur.end == hi
      invariant PairIn(Fields(window.text), window.at)
        == PairOnto(Pair(key, value), PairIn(Rest(buf, cur.pos, hi), cur.pos))
      decreases hi - cur.pos
    {
      var tag :- cur.ReadTag();
      if tag == Tag(1, 2) {
        var k :- cur.ReadRange();
        key := Some(k);
      } else if tag == Tag(2, 2) {
        var av :- cur.ReadRange();
        var s :- ParseAnyValue(buf, av);
        value := Some(s);
      } else {
        var _ :- cur.Skip(tag.wire);
      }
    }
    return Ok(Pair(key, value).ToAttr());
  }

  lemma DraftStep(acc: Draft, w: Walk, at: nat)
    requires w.Step?
    ensures var own := DraftField(w.field, at);
      if own.Err? then DraftIn(w, at) == Err(own.error)
      else DraftOnto(acc, DraftIn(w, at)) == DraftOnto(acc.Then(own.value), DraftIn(w.next, at + |w.field.Bytes()|))
  {
    hide DraftField;
    Concat<Attr>();
  }

  lemma DraftUnit(later: Parsed<Draft>)
    ensures DraftOnto(EMPTY_DRAFT, later) == later
    ensures later.Ok? ==> later.value.Then(EMPTY_DRAFT) == later.value
  {
    if later.Ok? {
      assert [] + later.value.attrs == later.value.attrs == later.value.attrs + [];
    }
  }

  /** One arm of the record loop: read the tagged field's payload into the draft. */
  method ReadDraftField(cur: WireCursor, tag: Tag, d: Draft) returns (r: Parsed<Draft>)
    requires cur.Tagged() && tag == cur.Number()
    modifies cur`pos
    ensures cur.Valid()
    ensures var w := Rest(cur.buf, cur.start, cur.end);
      if r.Err? then
        || Stuck(cur.buf, cur.start, cur.end, r.error)
        || (w.Step? && DraftField(w.field, cur.start) == Err(r.error))
      else
        && Took(cur.buf, cur.start, cur.pos, cur.end, tag) && DraftField(w.field, cur.start).Ok?
        && r.value == d.Then(DraftField(w.field, cur.start).value)
  {
    hide NextField, Skipped, Decode, Fields, StopError, AnyStringOf, KeyValueOf, Stuck, TagAt;
    if tag == Tag(2, 0) {
      var n :- cur.ReadNumber();
      r := Ok(d.(severity := Some(AsI32(n))));
    } else if tag == Tag(5, 2) {
      var av :- cur.ReadRange();
      var s :- ParseAnyValue(cur.buf, av);
      r := Ok(if s.Some? then d.(body := s) else d);
    } else if tag == Tag(6, 2) {
      var kv :- cur.ReadRange();
      var a :- ParseKeyValue(cur.buf, kv);
      r := Ok(if a.Some? then d.(attrs := d.attrs + [a.value]) else d);
    } else if tag == Tag(9, 2) {
      var t :- cur.ReadRange();
      r := Ok(if |t.text| == 16 || |t.text| == 32 then d.(traceId := Some(t)) else d);
    } else {
      var _ :- cur.Skip(tag.wire);
      r := Ok(d);
    }
    ghost var own := DraftField(Rest(cur.buf, cur.start, cur.end).field, cur.start).value;
    assert r.value.attrs == d.attrs + own.attrs;
  }

  method ParseRecord(buf: bytes, window: View, resource: Resource) returns (r: Parsed<RecordView>)
    requires window.Inside(buf, 0)
    ensures r == RecordOf(window, resource)
  {
    hide NextField, Skipped, Decode, Fields, StopError, DraftField;
    RestDone(buf);
    var d := EMPTY_DRAFT;
    ghost var whole := DraftIn(Fields(window.text), window.at);
    DraftUnit(whole);
    var hi := window.End();
    var cur := new WireCursor(buf, window.at, hi);
    while !cur.Done()
      invariant cur.Valid() && cur.buf == buf && cur.end == hi
      invariant whole == DraftOnto(d, DraftIn(Rest(buf, cur.pos, hi), cur.pos))
      decreases hi - cur.pos
    {
      ghost var w := Rest(buf, cur.pos, hi);
      if w.Step? { DraftStep(d, w, cur.pos); }
      var tag :- cur.ReadTag();
      d :- ReadDraftField(cur, tag, d);
    }
    DraftUnit(Ok(d));
    return Ok(RecordView(d, resource));
  }

  lemma ScopeStep(acc: seq<RecordView>, w: Walk, at: nat, resource: Resource)
    requires w.Step?
    ensures var own := ScopeField(w.field, at, resource);
      if own.Err? then ScopeIn(w, at, resource) == Err(own.error)
      else
        RecordsOnto(acc, ScopeIn(w, at, resource))
        == RecordsOnto(acc + own.value, ScopeIn(w.next, at + |w.field.Bytes()|, resource))
  {
    hide ScopeField;
    Concat<RecordView>();
  }

  lemma RecordsUnit(later: Parsed<seq<RecordView>>)
    ensures RecordsOnto([], later) == later
    ensures later.Ok? ==> later.value + [] == later.value
  {
    if later.Ok? { assert [] + later.value == later.value == later.value + []; }
  }

  method ParseScope(buf: bytes, window: View, resource: Resource) returns (r: Parsed<seq<RecordView>>)
    requires window.Inside(buf, 0)
    ensures r == ScopeIn(Fields(window.text), window.at, resource)
  {
    hide NextField, Skipped, Decode, Fields, StopError, RecordOf, TagAt;
    RestDone(buf);
    var out: seq<RecordView> := [];
    var hi := window.End();
    ghost var whole := ScopeIn(Fields(window.text), window.at, resource);
    RecordsUnit(whole);
    var cur := new WireCursor(buf, window.at, hi);
    while !cur.Done()
      invariant cur.Valid() && cur.buf == buf && cur.end == hi
      invariant whole == RecordsOnto(out, ScopeIn(Rest(buf, cur.pos, hi), cur.pos, resource))
      decreases hi - cur.pos
    {
      ghost var w := Rest(buf, cur.pos, hi);
      if w.Step? { ScopeStep(out, w, cur.pos, resource); }
      RecordsUnit(Ok(out));
      var tag :- cur.ReadTag();
      if tag == Tag(2, 2) {
        var lr :- cur.ReadRange();
        var rec :- ParseRecord(buf, lr, resource);
        out := out + [rec];
      } else {
        var _ :- cur.Skip(tag.wire);
      }
    }
    RecordsUnit(Ok(out));
    return Ok(out);
  }

  lemma ResourceStep(acc: Resource, w: Walk, at: nat)
    requires w.Step?
    ensures var own := ResourceField(w.field, at);
      if own.Err? then ResourceIn(w, at) == Err(own.error)
      else
        ResourceOnto(acc, ResourceIn(w, at))
        == ResourceOnto(acc.Then(own.value), ResourceIn(w.next, at + |w.field.Bytes()|))
  {
    hide ResourceField;
  }

  lemma ResourceStop(w: Walk, at: nat)
    ensures w.Stop? ==> ResourceIn(w, at) == if w.rest == [] then Ok(EMPTY_RESOURCE) else Err(StopError(w.rest, at))
  {
  }

  lemma ResourceUnit(later: Parsed<Resource>)
    ensures ResourceOnto(EMPTY_RESOURCE, later) == later
    ensures later.Ok? ==> later.value.Then(EMPTY_RESOURCE) == later.value
  {
  }

  method ParseResourceAttrs(buf: bytes, window: View) returns (r: Parsed<Resource>)
    requires window.Inside(buf, 0)
    ensures r == ResourceIn(Fields(window.text), window.at)
  {
    hide NextField, Skipped, PairIn, Decode, Fields, StopError, ResourceIn;
    RestDone(buf);
    var res := EMPTY_RESOURCE;
    ghost var whole := ResourceIn(Fields(window.text), window.at);
    ResourceUnit(whole);
    var hi := window.End();
    var cur := new WireCursor(buf, window.at, hi);
    while !cur.Done()
      invariant cur.Valid() && cur.buf == buf && cur.end == hi
      invariant whole == ResourceOnto(res, ResourceIn(Rest(buf, cur.pos, hi), cur.pos))
      decreases hi - cur.pos
    {
      ghost var w := Rest(buf, cur.pos, hi);
      if w.Step? { ResourceStep(res, w, cur.pos); }
      ResourceStop(w, cur.pos);
      var tag :- cur.ReadTag();
      if tag == Tag(1, 2) {
        var kv :- cur.ReadRange();
        var a :- ParseKeyValue(buf, kv);
        if a.Some? {
          if a.value.key.text == NAMESPACE_KEY {
            res := res.(namespace := Some(a.value.value));
          } else if a.value.key.text == SERVICE_KEY {
            res := res.(service := Some(a.value.value));
          }
        }
      } else {
        var _ :- cur.Skip(tag.wire);
      }
    }
    ResourceStop(Stop([]), hi);
    ResourceUnit(Ok(res));
    return Ok(res);
  }

  lemma GroupStep(acc: Group, w: Walk, at: nat)
    requires w.Step?
    ensures var own := GroupField(w.field, at);
      if own.Err? then GroupIn(w, at) == Err(own.error)
      else GroupOnto(acc, GroupIn(w, at)) == GroupOnto(acc.Then(own.value), GroupIn(w.next, at + |w.field.Bytes()|))
  {
    hide GroupField;
    Concat<View>();
  }

  lemma GroupStop(w: Walk, at: nat)
    ensures w.Stop? ==> GroupIn(w, at) == if w.rest == [] then Ok(EMPTY_GROUP) else Err(StopError(w.rest, at))
  {
  }

  lemma GroupUnit(later: Parsed<Group>)
    ensures GroupOnto(EMPTY_GROUP, later) == later
    ensures later.Ok? ==> later.value.Then(EMPTY_GROUP) == later.value
  {
    if later.Ok? {
      assert [] + later.value.scopes == later.value.scopes == later.value.scopes + [];
    }
  }

  method ParseResourceLogs(buf: bytes, window: View) returns (r: Parsed<seq<RecordView>>)
    requires window.Inside(buf, 0)
    ensures r == GroupOf(window)
  {
    hide NextField, Skipped, ResourceIn, ScopeIn, Decode, Fields, StopError, GroupIn;
    RestDone(buf);
    var g := EMPTY_GROUP;
    ghost var whole := GroupIn(Fields(window.text), window.at);
    GroupUnit(whole);
    var hi := window.End();
    var cur := new WireCursor(buf, window.at, hi);
    while !cur.Done()
      invariant cur.Valid() && cur.buf == buf && cur.end == hi
      invariant whole == GroupOnto(g, GroupIn(Rest(buf, cur.pos, hi), cur.pos))
      invariant forall s <- g.scopes :: s.Inside(buf, 0)
      decreases hi - cur.pos
    {
      ghost var before, at, w := g, cur.pos, Rest(buf, cur.pos, hi);
      if w.Step? { GroupStep(g, w, at); }
      GroupStop(w, at);
      var tag :- cur.ReadTag();
      if tag == Tag(1, 2) {
        var res :- cur.ReadRange();
        var attrs :- ParseResourceAttrs(buf, res);
        g := g.(resource := Some(attrs));
      } else if tag == Tag(2, 2) {
        var sl :- cur.ReadRange();
        g := g.(scopes := g.scopes + [sl]);
      } else {
        var _ :- cur.Skip(tag.wire);
      }
      ghost var own := GroupField(w.field, at).value;
      assert g.scopes == before.scopes + own.scopes;
      assert g == before.Then(GroupField(w.field, at).value);
    }
    GroupStop(Stop([]), hi);
    GroupUnit(Ok(g));
    r := ParseScopes(buf, g.scopes, if g.resource.Some? then g.resource.value else EMPTY_RESOURCE);
  }

  method ParseScopes(buf: bytes, scopes: seq<View>, resource: Resource) returns (r: Parsed<seq<RecordView>>)
    requires forall s <- scopes :: s.Inside(buf, 0)
    ensures r == ScopesOf(scopes, resource)
  {
    hide Fields, ScopeIn;
    Concat<RecordView>();
    var out, i := [], 0;
    while i < |scopes|
      invariant i <= |scopes|
      invariant ScopesOf(scopes, resource) == RecordsOnto(out, ScopesOf(scopes[i..], resource))
    {
      var records :- ParseScope(buf, scopes[i], resource);
      assert scopes[i..][1..] == scopes[i + 1..];
      out := out + records;
      i := i + 1;
    }
    return Ok(out);
  }

  method ParseRequest(buf: bytes) returns (r: Parsed<seq<RecordView>>)
    ensures r == Parse(buf)
  {
    hide NextField, Skipped,  GroupIn, ScopesOf, Decode;
    Concat<RecordView>();
    var out: seq<RecordView> := [];
    var cur := new WireCursor(buf, 0, |buf|);
    assert buf[0..|buf|] == buf;
    while !cur.Done()
      invariant cur.Valid() && cur.buf == buf && cur.end == |buf|
      invariant Parse(buf) == RecordsOnto(out, RequestIn(Rest(buf, cur.pos, |buf|), cur.pos))
      decreases |buf| - cur.pos
    {
      var tag :- cur.ReadTag();
      if tag == Tag(1, 2) {
        var rl :- cur.ReadRange();
        var records :- ParseResourceLogs(buf, rl);
        out := out + records;
      } else {
        var _ :- cur.Skip(tag.wire);
      }
    }
    return Ok(out);
  }
}
