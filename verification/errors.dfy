/** Where parsing fails: every error of a request is that of a walk stuck inside it, and its offset
    is a position of the request. */
module Errors {
  import opened Prelude
  import opened Varint
  import opened Wire
  import opened Otlp
  import opened Govern
  import opened Meaning
  import opened Content
  import opened Containers
  import opened Ranges

  function Offset(e: ParseError): nat {
    match e
    case Truncated(at) => at
    case VarintOverflow(at) => at
    case UnsupportedWire(_, at) => at
    case LengthOverrun(at) => at
  }

  /** The walk is stuck at a stretch of `outer`, at its front or inside its first field. */
  ghost predicate StuckIn(e: ParseError, outer: View) {
    exists v: View :: StuckAt(e, v, outer)
  }

  ghost predicate StuckAt(e: ParseError, v: View, outer: View) {
    LiesIn(v, outer) && v.text != [] && NextField(v.text, v.at) == Err(e)
  }

  lemma StuckOffset(s: bytes, at: nat)
    requires NextField(s, at).Err?
    ensures at <= Offset(NextField(s, at).error) <= at + |s|
  {
  }

  /** Where a walk stops short, no field can be read, at any offset. */
  ghost predicate StopsStuck(w: Walk) {
    match w
    case Stop(rest) => rest == [] || NextField(rest, 0).Err?
    case Step(_, next) => StopsStuck(next)
  }

  lemma {:induction false} FieldsStopStuck(s: bytes)
    ensures StopsStuck(Fields(s)) && AllSound(Fields(s))
    decreases |s|
  {
    hide NextField;
    WalkFaithful(s);
    if s != [] {
      WalkStep(s, 0);
      if NextField(s, 0).Ok? {
        Headed(s);
        FieldsStopStuck(s[|NextField(s, 0).value.Bytes()|..]);
      }
    }
  }

  lemma Headed(s: bytes)
    requires NextField(s, 0).Ok?
    ensures 0 < |NextField(s, 0).value.Bytes()| <= |s|
  {
    hide NextField;
    assert NextField(s, 0).value.Bytes() <= s;
  }

  /** The rest of a sound walk of a window. */
  ghost predicate Rests(w: Walk, at: nat, outer: View) {
    Sits(w, at, outer) && StopsStuck(w) && AllSound(w)
  }

  lemma WindowRests(v: View, outer: View)
    requires LiesIn(v, outer)
    ensures Rests(Fields(v.text), v.at, outer)
  {
    hide Fields, Sits, StopsStuck, AllSound, LiesIn;
    WindowSits(v, outer);
    FieldsStopStuck(v.text);
  }

  lemma StepRests(w: Walk, at: nat, outer: View)
    requires w.Step? && Rests(w, at, outer)
    ensures LiesIn(w.field.PayloadAt(at), outer) && Rests(w.next, at + |w.field.Bytes()|, outer)
    ensures w.field.Sound()
  {
    hide Sits, LiesIn, Field.Sound;
    StepSits(w, at, outer);
  }

  lemma StopStuck(w: Walk, at: nat, outer: View)
    requires w.Stop? && w.rest != [] && Rests(w, at, outer)
    ensures StuckIn(StopError(w.rest, at), outer)
  {
    hide NextField, LiesIn;
    if NextField(w.rest, at).Ok? {
      NextFieldStable(w.rest, w.rest, at, 0);
    }
    StopSits(w, at, outer);
    assert StuckAt(StopError(w.rest, at), View(at, w.rest), outer);
  }

  lemma StopSits(w: Walk, at: nat, outer: View)
    requires w.Stop? && Sits(w, at, outer)
    ensures LiesIn(View(at, w.rest), outer)
  {
  }

  lemma {:induction false} AnyStuck(w: Walk, at: nat, outer: View)
    requires Rests(w, at, outer) && AnyString(w, at).Err?
    ensures StuckIn(AnyString(w, at).error, outer)
  {
    hide Rests, StuckIn, LiesIn;
    if w.Stop? {
      StopStuck(w, at, outer);
    } else {
      StepRests(w, at, outer);
      AnyStuck(w.next, at + |w.field.Bytes()|, outer);
    }
  }

  lemma AnyOfStuck(v: View, outer: View)
    requires LiesIn(v, outer) && AnyStringOf(v).Err?
    ensures StuckIn(AnyStringOf(v).error, outer)
  {
    hide Rests, StuckIn, LiesIn, Fields, AnyString;
    WindowRests(v, outer);
    AnyStuck(Fields(v.text), v.at, outer);
  }

  lemma {:induction false} PairStuck(w: Walk, at: nat, outer: View)
    requires Rests(w, at, outer) && PairIn(w, at).Err?
    ensures StuckIn(PairIn(w, at).error, outer)
  {
    hide Rests, StuckIn, LiesIn, AnyStringOf;
    if w.Stop? {
      StopStuck(w, at, outer);
    } else {
      StepRests(w, at, outer);
      if PairField(w.field, at).Err? {
        AnyOfStuck(w.field.PayloadAt(at), outer);
      } else {
        PairStuck(w.next, at + |w.field.Bytes()|, outer);
      }
    }
  }

  lemma KeyValueStuck(v: View, outer: View)
    requires LiesIn(v, outer) && KeyValueOf(v).Err?
    ensures StuckIn(KeyValueOf(v).error, outer)
  {
    hide Rests, StuckIn, LiesIn, Fields, PairIn;
    WindowRests(v, outer);
    PairStuck(Fields(v.text), v.at, outer);
  }

  lemma DraftFieldStuck(f: Field, at: nat, outer: View)
    requires f.Sound() && LiesIn(f.PayloadAt(at), outer) && DraftField(f, at).Err?
    ensures StuckIn(DraftField(f, at).error, outer)
  {
    hide Rests, StuckIn, LiesIn, AnyStringOf, KeyValueOf, Decode, Field.Sound;
    if f.Is(2, 0) {
      SoundNumber(f, at + |f.head|, at + |f.head|);
    } else if f.Is(5, 2) {
      AnyOfStuck(f.PayloadAt(at), outer);
    } else {
      KeyValueStuck(f.PayloadAt(at), outer);
    }
  }

  lemma {:induction false} DraftStuck(w: Walk, at: nat, outer: View)
    requires Rests(w, at, outer) && DraftIn(w, at).Err?
    ensures StuckIn(DraftIn(w, at).error, outer)
  {
    hide Rests, StuckIn, LiesIn, DraftField, Field.Sound;
    if w.Stop? {
      StopStuck(w, at, outer);
    } else {
      StepRests(w, at, outer);
      if DraftField(w.field, at).Err? {
        DraftFieldStuck(w.field, at, outer);
      } else {
        DraftStuck(w.next, at + |w.field.Bytes()|, outer);
      }
    }
  }

  lemma ScopeFieldStuck(f: Field, at: nat, r: Resource, outer: View)
    requires LiesIn(f.PayloadAt(at), outer) && ScopeField(f, at, r).Err?
    ensures StuckIn(ScopeField(f, at, r).error, outer)
  {
    hide Rests, StuckIn, LiesIn, DraftIn, Fields;
    WindowRests(f.PayloadAt(at), outer);
    DraftStuck(Fields(f.payload), f.PayloadAt(at).at, outer);
  }

  lemma {:induction false} ScopeStuck(w: Walk, at: nat, r: Resource, outer: View)
    requires Rests(w, at, outer) && ScopeIn(w, at, r).Err?
    ensures StuckIn(ScopeIn(w, at, r).error, outer)
  {
    hide Rests, StuckIn, LiesIn, ScopeField;
    if w.Stop? {
      StopStuck(w, at, outer);
    } else {
      StepRests(w, at, outer);
      if ScopeField(w.field, at, r).Err? {
        ScopeFieldStuck(w.field, at, r, outer);
      } else {
        ScopeStuck(w.next, at + |w.field.Bytes()|, r, outer);
      }
    }
  }

  lemma {:induction false} ScopesStuck(scopes: seq<View>, r: Resource, outer: View)
    requires (forall s <- scopes :: LiesIn(s, outer)) && ScopesOf(scopes, r).Err?
    ensures StuckIn(ScopesOf(scopes, r).error, outer)
  {
    hide Rests, StuckIn, LiesIn, ScopeIn, Fields;
    var s := scopes[0];
    if ScopeIn(Fields(s.text), s.at, r).Err? {
      WindowRests(s, outer);
      ScopeStuck(Fields(s.text), s.at, r, outer);
    } else {
      ScopesStuck(scopes[1..], r, outer);
    }
  }

  lemma ResourceFieldStuck(f: Field, at: nat, outer: View)
    requires LiesIn(f.PayloadAt(at), outer) && ResourceField(f, at).Err?
    ensures StuckIn(ResourceField(f, at).error, outer)
  {
    hide StuckIn, LiesIn, KeyValueOf;
    KeyValueStuck(f.PayloadAt(at), outer);
  }

  lemma {:induction false} ResourceStuck(w: Walk, at: nat, outer: View)
    requires Rests(w, at, outer) && ResourceIn(w, at).Err?
    ensures StuckIn(ResourceIn(w, at).error, outer)
  {
    hide Rests, StuckIn, LiesIn, ResourceField;
    if w.Stop? {
      StopStuck(w, at, outer);
    } else {
      StepRests(w, at, outer);
      if ResourceField(w.field, at).Err? {
        ResourceFieldStuck(w.field, at, outer);
      } else {
        ResourceStuck(w.next, at + |w.field.Bytes()|, outer);
      }
    }
  }

  lemma GroupFieldStuck(f: Field, at: nat, outer: View)
    requires LiesIn(f.PayloadAt(at), outer) && GroupField(f, at).Err?
    ensures StuckIn(GroupField(f, at).error, outer)
  {
    hide Rests, StuckIn, LiesIn, ResourceIn, Fields;
    WindowRests(f.PayloadAt(at), outer);
    ResourceStuck(Fields(f.payload), f.PayloadAt(at).at, outer);
  }

  lemma {:induction false} GroupStuck(w: Walk, at: nat, outer: View)
    requires Rests(w, at, outer) && GroupIn(w, at).Err?
    ensures StuckIn(GroupIn(w, at).error, outer)
  {
    hide Rests, StuckIn, LiesIn, GroupField;
    if w.Stop? {
      StopStuck(w, at, outer);
    } else {
      StepRests(w, at, outer);
      if GroupField(w.field, at).Err? {
        GroupFieldStuck(w.field, at, outer);
      } else {
        GroupStuck(w.next, at + |w.field.Bytes()|, outer);
      }
    }
  }

  lemma GroupOfStuck(v: View, outer: View)
    requires LiesIn(v, outer) && GroupOf(v).Err?
    ensures StuckIn(GroupOf(v).error, outer)
  {
    hide Rests, StuckIn, LiesIn, Fields, GroupIn, ScopesOf, Sits, ScopesWindows;
    WindowRests(v, outer);
    if GroupIn(Fields(v.text), v.at).Err? {
      GroupStuck(Fields(v.text), v.at, outer);
    } else {
      WindowSits(v, outer);
      GroupInWithin(Fields(v.text), v.at, outer);
      var g := GroupIn(Fields(v.text), v.at).value;
      ScopesStuck(g.scopes, if g.resource.Some? then g.resource.value else EMPTY_RESOURCE, outer);
    }
  }

  lemma {:induction false} RequestStuck(w: Walk, at: nat, outer: View)
    requires Rests(w, at, outer) && RequestIn(w, at).Err?
    ensures StuckIn(RequestIn(w, at).error, outer)
  {
    hide Rests, StuckIn, LiesIn, GroupOf;
    if w.Stop? {
      StopStuck(w, at, outer);
    } else {
      StepRests(w, at, outer);
      if w.field.Is(1, 2) && GroupOf(w.field.PayloadAt(at)).Err? {
        GroupOfStuck(w.field.PayloadAt(at), outer);
      } else {
        RequestStuck(w.next, at + |w.field.Bytes()|, outer);
      }
    }
  }

  /** A request that does not parse has a stretch from which no field can be read; the error is the
      one of reading there, and its offset is a position in that stretch, counted from the front
      of the request however deep the stretch is nested. */
  lemma ErrorsPointIntoTheRequest(raw: bytes) returns (lo: nat, hi: nat)
    requires Parse(raw).Err?
    ensures lo < hi <= |raw| && NextField(raw[lo..hi], lo) == Err(Parse(raw).error)
    ensures lo <= Offset(Parse(raw).error) <= hi
  {
    hide Fields, RequestIn, NextField, Rests;
    assert raw[0..|raw|] == raw;
    WindowRests(View(0, raw), View(0, raw));
    RequestStuck(Fields(raw), 0, View(0, raw));
    var v :| StuckAt(Parse(raw).error, v, View(0, raw));
    lo, hi := v.at, v.End();
    StuckOffset(raw[lo..hi], lo);
  }
}
