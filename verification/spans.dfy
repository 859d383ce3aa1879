/** Which redaction spans of a string window take effect, and what splicing them in yields. */
module Spans {
  import opened Prelude
  import opened Envelope

  type Masks = seq<bytes>

  function MaskBytes(masks: Masks, id: nat): bytes {
    if id < |masks| then masks[id] else []
  }

  predicate Leq(a: Span, b: Span) {
    a.lo < b.lo || (a.lo == b.lo && a.hi <= b.hi)
  }

  function Within(spans: seq<Span>, lo: nat, hi: nat): (r: seq<Span>)
    ensures forall s :: s in r <==> s in spans && lo <= s.lo && s.hi <= hi
  {
    if spans == [] then []
    else (if lo <= spans[0].lo && spans[0].hi <= hi then [spans[0]] else []) + Within(spans[1..], lo, hi)
  }

  /** Insertion after every span that is not greater: the sort is stable. */
  function Insert(sorted: seq<Span>, x: Span): (r: seq<Span>)
    ensures multiset(r) == multiset(sorted) + multiset{x}
  {
    if sorted == [] then [x]
    else
      var last := |sorted| - 1;
      assert sorted == sorted[..last] + [sorted[last]];
      if Leq(sorted[last], x) then sorted + [x] else Insert(sorted[..last], x) + [sorted[last]]
  }

  function Sort(spans: seq<Span>): (r: seq<Span>)
    ensures multiset(r) == multiset(spans)
  {
    if spans == [] then []
    else
      var last := |spans| - 1;
      assert spans == spans[..last] + [spans[last]];
      Insert(Sort(spans[..last]), spans[last])
  }

  /** Left to right, a span that starts inside the previous selected one is discarded whole. */
  function Greedy(spans: seq<Span>, cursor: nat): seq<Span> {
    if spans == [] then []
    else if spans[0].lo < cursor then Greedy(spans[1..], cursor)
    else [spans[0]] + Greedy(spans[1..], spans[0].hi)
  }

  function Effective(spans: seq<Span>, lo: nat, hi: nat): seq<Span> {
    Greedy(Sort(Within(spans, lo, hi)), lo)
  }

  /** In order, disjoint, and inside `[lo, hi]`. */
  predicate Laid(spans: seq<Span>, lo: nat, hi: nat) {
    if spans == [] then lo <= hi
    else lo <= spans[0].lo && spans[0].hi <= hi && Laid(spans[1..], spans[0].hi, hi)
  }

  predicate Known(spans: seq<Span>, masks: Masks) {
    forall s <- spans :: s.mask < |masks|
  }

  /** `text`, which starts at offset `at`, with every span replaced by its mask. */
  function Splice(text: bytes, at: nat, spans: seq<Span>, masks: Masks): bytes
    requires Laid(spans, at, at + |text|)
  {
    if spans == [] then text
    else
      var s := spans[0];
      text[..s.lo - at] + (MaskBytes(masks, s.mask) + Splice(text[s.hi - at..], s.hi, spans[1..], masks))
  }

  function Governed(text: bytes, at: nat, spans: seq<Span>, masks: Masks): bytes {
    var e := Effective(spans, at, at + |text|);
    EffectiveLaid(spans, at, at + |text|);
    Splice(text, at, e, masks)
  }

  // ----- the selection

  ghost predicate Sorted(spans: seq<Span>) {
    forall i, j | 0 <= i < j < |spans| :: Leq(spans[i], spans[j])
  }

  lemma {:induction false} InsertSorted(sorted: seq<Span>, x: Span)
    requires Sorted(sorted)
    ensures Sorted(Insert(sorted, x))
  {
    if sorted != [] {
      var last := |sorted| - 1;
      if !Leq(sorted[last], x) {
        InsertSorted(sorted[..last], x);
        var r := Insert(sorted[..last], x);
        forall s | s in r ensures Leq(s, sorted[last]) {
          assert s in multiset(r);
          assert s in sorted[..last] || s == x;
        }
      }
    }
  }

  lemma {:induction false} SortSorted(spans: seq<Span>)
    ensures Sorted(Sort(spans))
  {
    if spans != [] {
      SortSorted(spans[..|spans| - 1]);
      InsertSorted(Sort(spans[..|spans| - 1]), spans[|spans| - 1]);
    }
  }

  lemma {:induction false} GreedyLaid(spans: seq<Span>, cursor: nat, hi: nat)
    requires cursor <= hi && forall s <- spans :: s.hi <= hi
    ensures Laid(Greedy(spans, cursor), cursor, hi)
  {
    if spans != [] {
      GreedyLaid(spans[1..], if spans[0].lo < cursor then cursor else spans[0].hi, hi);
    }
  }

  lemma SameElements(a: seq<Span>, b: seq<Span>)
    requires multiset(a) == multiset(b)
    ensures forall s :: s in a <==> s in b
  {
    forall s ensures s in a <==> s in b { assert s in multiset(a) <==> s in multiset(b); }
  }

  lemma EffectiveLaid(spans: seq<Span>, lo: nat, hi: nat)
    requires lo <= hi
    ensures Laid(Effective(spans, lo, hi), lo, hi)
  {
    SameElements(Sort(Within(spans, lo, hi)), Within(spans, lo, hi));
    GreedyLaid(Sort(Within(spans, lo, hi)), lo, hi);
  }

  lemma {:induction false} GreedyCovers(spans: seq<Span>, cursor: nat, r: Span, q: Span)
    requires Sorted([q] + spans) && cursor <= q.hi && r in spans
    ensures forall s <- Greedy(spans, cursor) :: s in spans
    ensures r in Greedy(spans, cursor) || exists c <- [q] + Greedy(spans, cursor) :: c.lo <= r.lo < c.hi
    decreases |spans|
  {
    var h, t := spans[0], spans[1..];
    var g := Greedy(spans, cursor);
    assert Leq(q, h) by { assert ([q] + spans)[0] == q && ([q] + spans)[1] == h; }
    assert Sorted([q] + t) && Sorted([h] + t) by {
      assert forall i | 0 <= i < |spans| :: ([q] + spans)[i + 1] == spans[i];
    }
    GreedyWithin(spans, cursor);
    if h.lo < cursor {
      if r == h && r !in t {
        assert q.lo <= r.lo < q.hi && q in [q] + g;
      } else {
        GreedyCovers(t, cursor, r, q);
      }
    } else {
      var g' := Greedy(t, h.hi);
      assert g == [h] + g';
      if r != h {
        GreedyCovers(t, h.hi, r, h);
        if r !in g' {
          var c :| c in [h] + g' && c.lo <= r.lo < c.hi;
          assert c in [q] + g;
        }
      }
    }
  }

  lemma {:induction false} GreedyWithin(spans: seq<Span>, cursor: nat)
    ensures forall s <- Greedy(spans, cursor) :: s in spans
  {
    if spans != [] {
      GreedyWithin(spans[1..], if spans[0].lo < cursor then cursor else spans[0].hi);
    }
  }

  lemma {:induction false} LaidApart(spans: seq<Span>, lo: nat, hi: nat)
    requires Laid(spans, lo, hi)
    ensures lo <= hi
    ensures forall i | 0 <= i < |spans| :: lo <= spans[i].lo && spans[i].hi <= hi
    ensures forall i, j | 0 <= i < j < |spans| :: spans[i].hi <= spans[j].lo
  {
    if spans != [] {
      LaidApart(spans[1..], spans[0].hi, hi);
      assert spans == [spans[0]] + spans[1..];
    }
  }

  /** The selected spans are disjoint, in order and inside the window, each is one of the
      given spans, and every candidate left out starts inside a selected one. */
  lemma SelectionMeaning(spans: seq<Span>, lo: nat, hi: nat)
    requires lo <= hi
    ensures var e := Effective(spans, lo, hi);
      && (forall s <- e :: s in spans && lo <= s.lo && s.hi <= hi)
      && (forall i, j | 0 <= i < j < |e| :: e[i].hi <= e[j].lo)
      && (forall r <- spans | lo <= r.lo && r.hi <= hi :: r in e || exists c <- e :: c.lo <= r.lo < c.hi)
  {
    var e, sorted := Effective(spans, lo, hi), Sort(Within(spans, lo, hi));
    SameElements(sorted, Within(spans, lo, hi));
    EffectiveLaid(spans, lo, hi);
    LaidApart(e, lo, hi);
    GreedyWithin(sorted, lo);
    SortSorted(Within(spans, lo, hi));
    forall r | r in spans && lo <= r.lo && r.hi <= hi
      ensures r in e || exists c <- e :: c.lo <= r.lo < c.hi
    {
      assert r in sorted;
      var h, t := sorted[0], sorted[1..];
      assert sorted == [h] + t;
      assert h in Within(spans, lo, hi);
      if r != h {
        GreedyCovers(t, h.hi, r, h);
      }
    }
  }

  // ----- which of the candidates are selected

  function Same(spans: seq<Span>, lo: nat, hi: nat): seq<Span> {
    if spans == [] then []
    else
      var before, last := spans[..|spans| - 1], spans[|spans| - 1];
      Same(before, lo, hi) + if last.lo == lo && last.hi == hi then [last] else []
  }

  lemma SameSnoc(spans: seq<Span>, x: Span, lo: nat, hi: nat)
    ensures Same(spans + [x], lo, hi) == Same(spans, lo, hi) + if x.lo == lo && x.hi == hi then [x] else []
  {
    assert (spans + [x])[..|spans|] == spans;
  }

  lemma {:induction false} InsertStable(sorted: seq<Span>, x: Span, lo: nat, hi: nat)
    ensures Same(Insert(sorted, x), lo, hi) == Same(sorted + [x], lo, hi)
  {
    hide Same;
    if sorted == [] {
      assert [] + [x] == [x];
    } else {
      var before, last := sorted[..|sorted| - 1], sorted[|sorted| - 1];
      assert sorted == before + [last];
      if !Leq(last, x) {
        InsertStable(before, x, lo, hi);
        SameSnoc(Insert(before, x), last, lo, hi);
        SameSnoc(before, x, lo, hi);
        SameSnoc(before, last, lo, hi);
        SameSnoc(sorted, x, lo, hi);
      }
    }
  }

  /** The sort is stable: candidates of one stretch keep the order they were pushed in. */
  lemma {:induction false} SortStable(spans: seq<Span>, lo: nat, hi: nat)
    ensures Same(Sort(spans), lo, hi) == Same(spans, lo, hi)
  {
    hide Same, Insert;
    if spans != [] {
      var before, last := spans[..|spans| - 1], spans[|spans| - 1];
      assert spans == before + [last];
      SortStable(before, lo, hi);
      InsertStable(Sort(before), last, lo, hi);
      SameSnoc(Sort(before), last, lo, hi);
      SameSnoc(before, last, lo, hi);
    }
  }

  lemma {:induction false} SameCons(x: Span, spans: seq<Span>, lo: nat, hi: nat)
    ensures Same([x] + spans, lo, hi) == (if x.lo == lo && x.hi == hi then [x] else []) + Same(spans, lo, hi)
  {
    if spans == [] {
      assert [x] + [] == [] + [x];
      SameSnoc([], x, lo, hi);
    } else {
      var before, last := spans[..|spans| - 1], spans[|spans| - 1];
      SameCons(x, before, lo, hi);
      SameSnoc([x] + before, last, lo, hi);
      assert [x] + spans == ([x] + before) + [last];
    }
  }

  lemma {:induction false} SameWithin(spans: seq<Span>, lo: nat, hi: nat, a: nat, b: nat)
    requires a <= lo && hi <= b
    ensures Same(Within(spans, a, b), lo, hi) == Same(spans, lo, hi)
  {
    hide Same;
    if spans != [] {
      var x, later := spans[0], spans[1..];
      assert spans == [x] + later;
      SameWithin(later, lo, hi, a, b);
      SameCons(x, later, lo, hi);
      SameCons(x, Within(later, a, b), lo, hi);
      var kept := Within(later, a, b);
      assert if a <= x.lo && x.hi <= b then Within(spans, a, b) == [x] + kept else Within(spans, a, b) == kept;
    } else {
      assert Within(spans, a, b) == spans;
    }
  }

  /** The span is the first of its stretch in the list. */
  ghost predicate FirstOfStretch(spans: seq<Span>, s: Span) {
    exists k :: 0 <= k < |spans| && spans[k] == s
      && forall j | 0 <= j < k :: spans[j].lo != s.lo || spans[j].hi != s.hi
  }

  lemma SameNone(lo: nat, hi: nat)
    ensures Same([], lo, hi) == []
  {
  }

  lemma {:induction false} SameFirst(spans: seq<Span>, lo: nat, hi: nat)
    requires Same(spans, lo, hi) != []
    ensures var s := Same(spans, lo, hi)[0]; s.lo == lo && s.hi == hi && FirstOfStretch(spans, s)
  {
    hide Same;
    SameNone(lo, hi);
    var x, later := spans[0], spans[1..];
    assert spans == [x] + later;
    SameCons(x, later, lo, hi);
    if !(x.lo == lo && x.hi == hi) {
      SameFirst(later, lo, hi);
      var s := Same(later, lo, hi)[0];
      var k :| 0 <= k < |later| && later[k] == s
        && forall j | 0 <= j < k :: later[j].lo != s.lo || later[j].hi != s.hi;
      assert spans[k + 1] == s;
      assert forall j | 0 < j < k + 1 :: spans[j] == later[j - 1];
    }
  }

  lemma SameNonempty(spans: seq<Span>)
    requires spans != []
    ensures Same(spans, spans[0].lo, spans[0].hi) != [] && Same(spans, spans[0].lo, spans[0].hi)[0] == spans[0]
  {
    SameCons(spans[0], spans[1..], spans[0].lo, spans[0].hi);
    assert spans == [spans[0]] + spans[1..];
  }

  lemma {:induction false} GreedyTakesFirst(spans: seq<Span>, cursor: nat, s: Span)
    requires s in Greedy(spans, cursor) && s.lo < s.hi
    ensures Same(spans, s.lo, s.hi) != [] && Same(spans, s.lo, s.hi)[0] == s
  {
    hide Same;
    var h, rest := spans[0], spans[1..];
    assert spans == [h] + rest;
    SameCons(h, rest, s.lo, s.hi);
    GreedyFrom(rest, h.hi);
    GreedyFrom(rest, cursor);
    if h.lo < cursor {
      GreedyTakesFirst(rest, cursor, s);
    } else if s in Greedy(rest, h.hi) {
      GreedyTakesFirst(rest, h.hi, s);
    } else {
      SameNonempty(spans);
    }
  }

  /** Where the selection stands before its `i`-th span. */
  function Reached(selected: seq<Span>, i: nat, lo: nat): nat
    requires i <= |selected|
  {
    if i == 0 then lo else selected[i - 1].hi
  }

  lemma {:induction false} GreedyTakesLeast(spans: seq<Span>, cursor: nat, i: nat, r: Span)
    requires Sorted(spans) && r in spans && r.lo < r.hi
    requires i <= |Greedy(spans, cursor)| && Reached(Greedy(spans, cursor), i, cursor) <= r.lo
    ensures i < |Greedy(spans, cursor)| && Leq(Greedy(spans, cursor)[i], r)
  {
    var h, rest := spans[0], spans[1..];
    var g := Greedy(spans, cursor);
    if i > 0 {
      GreedyFrom(spans, cursor);
      assert g[i - 1] in g;
    }
    if h.lo < cursor {
      GreedyTakesLeast(rest, cursor, i, r);
    } else if i == 0 {
      assert r == h || r in rest;
    } else {
      var g' := Greedy(rest, h.hi);
      GreedyFrom(rest, h.hi);
      if i > 1 { assert g'[i - 2] in g' && g[i - 1] == g'[i - 2]; }
      assert Reached(g', i - 1, h.hi) == Reached(g, i, cursor);
      GreedyTakesLeast(rest, h.hi, i - 1, r);
    }
  }

  /** The selection, span by span: of the candidates that hold a byte and start where the previous
      selected one ends or later, the next is the one that starts first and, of those, ends first,
      and it is none only when none is left; of equal stretches it is the one pushed first. */
  lemma SelectionExact(spans: seq<Span>, lo: nat, hi: nat, i: nat)
    requires lo <= hi && i <= |Effective(spans, lo, hi)|
    ensures var e := Effective(spans, lo, hi);
      var from := if i == 0 then lo else e[i - 1].hi;
      && (forall r <- spans | from <= r.lo < r.hi <= hi ::
            i < |e| && (e[i].lo < r.lo || (e[i].lo == r.lo && e[i].hi <= r.hi)))
      && (i < |e| && e[i].lo < e[i].hi ==>
            exists k :: 0 <= k < |spans| && spans[k] == e[i]
              && forall j | 0 <= j < k :: spans[j].lo != e[i].lo || spans[j].hi != e[i].hi)
  {
    var candidates := Within(spans, lo, hi);
    var sorted, e := Sort(candidates), Effective(spans, lo, hi);
    SortSorted(candidates);
    SameElements(sorted, candidates);
    EffectiveLaid(spans, lo, hi);
    LaidApart(e, lo, hi);
    hide Sort, Greedy, Within;
    forall r | r in spans && Reached(e, i, lo) <= r.lo < r.hi <= hi
      ensures i < |e| && Leq(e[i], r)
    {
      if i > 0 { assert lo <= e[i - 1].lo; }
      assert r in candidates;
      GreedyTakesLeast(sorted, lo, i, r);
    }
    if i < |e| && e[i].lo < e[i].hi {
      assert e[i] in e;
      GreedyTakesFirst(sorted, lo, e[i]);
      SortStable(candidates, e[i].lo, e[i].hi);
      SameWithin(spans, e[i].lo, e[i].hi, lo, hi);
      SameFirst(spans, e[i].lo, e[i].hi);
    }
  }

  // ----- which bytes are masked

  predicate Covers(spans: seq<Span>, x: nat) {
    exists c <- spans :: c.lo <= x < c.hi
  }

  /** Every byte of every candidate, from `from` on, lies in a selected span. */
  ghost predicate AllMasked(candidates: seq<Span>, from: nat, selected: seq<Span>) {
    forall r, x: nat | r in candidates && r.lo <= x < r.hi && from <= x :: Covers(selected, x)
  }

  ghost predicate StretchMasked(lo: nat, hi: nat, selected: seq<Span>) {
    forall x: nat | lo <= x < hi :: Covers(selected, x)
  }

  ghost predicate StretchReadable(lo: nat, hi: nat, selected: seq<Span>) {
    forall x: nat | lo <= x < hi :: !Covers(selected, x)
  }

  function Later(a: nat, b: nat): nat { if a >= b then a else b }

  /** One pass over the sorted candidates: `cursor` is where the last selected span ends, and
      `reach` where the furthest candidate so far ends; no gap may open while `reach` is ahead. */
  predicate NoTail(sorted: seq<Span>, cursor: nat, reach: nat) {
    if sorted == [] then reach <= cursor
    else
      var h, rest := sorted[0], sorted[1..];
      if h.lo < cursor then NoTail(rest, cursor, Later(reach, h.hi))
      else (reach <= cursor || h.lo == cursor) && NoTail(rest, h.hi, reach)
  }

  lemma {:induction false} GreedyFrom(spans: seq<Span>, cursor: nat)
    ensures forall c <- Greedy(spans, cursor) :: cursor <= c.lo
  {
    if spans != [] {
      GreedyFrom(spans[1..], if spans[0].lo < cursor then cursor else spans[0].hi);
    }
  }

  /** What is left to mask when the pass has come this far. */
  ghost predicate TailsMasked(sorted: seq<Span>, cursor: nat, reach: nat) {
    StretchMasked(cursor, reach, Greedy(sorted, cursor)) && AllMasked(sorted, cursor, Greedy(sorted, cursor))
  }

  lemma SkippedTails(h: Span, rest: seq<Span>, cursor: nat, reach: nat)
    requires h.lo < cursor
    ensures TailsMasked([h] + rest, cursor, reach) <==> TailsMasked(rest, cursor, Later(reach, h.hi))
  {
    hide Greedy, Covers;
    GreedyStep(h, rest, cursor);
    var g := Greedy(rest, cursor);
    assert h in [h] + rest && forall r <- rest :: r in [h] + rest;
  }

  lemma GreedyStep(h: Span, rest: seq<Span>, cursor: nat)
    ensures Greedy([h] + rest, cursor) == if h.lo < cursor then Greedy(rest, cursor) else [h] + Greedy(rest, h.hi)
  {
  }

  lemma CoversStep(h: Span, selected: seq<Span>, x: nat)
    ensures Covers([h] + selected, x) <==> h.lo <= x < h.hi || Covers(selected, x)
  {
    assert h in [h] + selected && forall c <- selected :: c in [h] + selected;
  }

  lemma NotBefore(selected: seq<Span>, x: nat, from: nat)
    requires forall c <- selected :: from <= c.lo
    ensures Covers(selected, x) ==> from <= x
  {
  }

  lemma TakenTails(h: Span, rest: seq<Span>, cursor: nat, reach: nat)
    requires cursor <= h.lo && forall r <- rest :: h.lo <= r.lo
    ensures TailsMasked([h] + rest, cursor, reach) <==>
      (reach <= cursor || h.lo == cursor) && TailsMasked(rest, h.hi, reach)
  {
    hide Greedy, Covers;
    GreedyStep(h, rest, cursor);
    GreedyFrom(rest, h.hi);
    var g := Greedy(rest, h.hi);
    forall x: nat ensures Covers([h] + g, x) <==> h.lo <= x < h.hi || Covers(g, x) { CoversStep(h, g, x); }
    NotBefore(g, cursor, h.hi);
    assert h in [h] + rest && forall r <- rest :: r in [h] + rest;
  }

  lemma {:induction false} NoTailExact(sorted: seq<Span>, cursor: nat, reach: nat)
    requires Sorted(sorted)
    ensures TailsMasked(sorted, cursor, reach) <==> NoTail(sorted, cursor, reach)
  {
    hide TailsMasked;
    if sorted == [] {
      NothingToMask(cursor, reach);
    } else {
      var h, rest := sorted[0], sorted[1..];
      assert sorted == [h] + rest;
      if h.lo < cursor {
        SkippedTails(h, rest, cursor, reach);
        NoTailExact(rest, cursor, Later(reach, h.hi));
      } else {
        TakenTails(h, rest, cursor, reach);
        NoTailExact(rest, h.hi, reach);
      }
    }
  }

  lemma NothingToMask(cursor: nat, reach: nat)
    ensures TailsMasked([], cursor, reach) <==> reach <= cursor
  {
    assert reach > cursor ==> !Covers([], cursor);
  }

  /** Every byte of every candidate of a window is masked if and only if, in one pass over the
      sorted candidates, no discarded one reaches past the selected spans into a gap. */
  lemma MaskedExactly(spans: seq<Span>, lo: nat, hi: nat)
    ensures AllMasked(Within(spans, lo, hi), lo, Effective(spans, lo, hi))
      <==> NoTail(Sort(Within(spans, lo, hi)), lo, lo)
  {
    var candidates := Within(spans, lo, hi);
    SortSorted(candidates);
    NoTailExact(Sort(candidates), lo, lo);
    SameElements(Sort(candidates), candidates);
  }

  /** No candidate that starts inside another ends outside it. */
  ghost predicate WellNested(spans: seq<Span>) {
    forall a <- spans, b <- spans :: a.lo <= b.lo < a.hi ==> b.hi <= a.hi
  }

  /** A condition to check beforehand: nested candidates are masked to the last byte. */
  lemma NestedMasked(spans: seq<Span>, lo: nat, hi: nat)
    requires lo <= hi && WellNested(Within(spans, lo, hi))
    ensures AllMasked(Within(spans, lo, hi), lo, Effective(spans, lo, hi))
  {
    hide Effective;
    SelectionMeaning(spans, lo, hi);
  }

  lemma PairWithin(a: Span, b: Span, lo: nat, hi: nat)
    requires lo <= a.lo && a.hi <= hi && lo <= b.lo && b.hi <= hi
    ensures Within([a, b], lo, hi) == [a, b]
  {
    assert [a, b][1..] == [b] && [b][1..] == [];
    assert Within([b], lo, hi) == [b] + Within([], lo, hi);
    assert Within([a, b], lo, hi) == [a] + Within([b], lo, hi);
  }

  lemma PairSorted(a: Span, b: Span)
    requires Leq(a, b)
    ensures Sort([a, b]) == [a, b]
  {
    assert [a, b][..1] == [a] && [a][..0] == [];
    assert Sort([a]) == Insert(Sort([]), a) == [a];
    assert Sort([a, b]) == Insert([a], b);
  }

  /** Of two matches that start in order, the second inside the first and ending beyond it, only
      the first is selected, and the rest of the second stays readable: so for `[0, 2)` and
      `[0, 5)`, two rules matching at one place, bytes 2 to 4 are not masked. */
  lemma TailStays(a: Span, b: Span, lo: nat, hi: nat)
    requires lo <= a.lo <= b.lo < a.hi < b.hi <= hi
    ensures Effective([a, b], lo, hi) == [a]
    ensures StretchReadable(a.hi, b.hi, Effective([a, b], lo, hi))
    ensures !AllMasked(Within([a, b], lo, hi), lo, Effective([a, b], lo, hi))
  {
    hide Within, Sort;
    PairWithin(a, b, lo, hi);
    PairSorted(a, b);
    assert [a, b][1..] == [b] && [b][1..] == [];
    assert Greedy([b], a.hi) == [];
    assert Effective([a, b], lo, hi) == [a];
    assert b in [a, b] && !Covers([a], a.hi);
  }

  // ----- the splice, against an interleaving of untouched gaps with fills

  function Interleave(gaps: seq<bytes>, fills: seq<bytes>): bytes
    requires |gaps| == |fills| + 1
  {
    if fills == [] then gaps[0] else gaps[0] + (fills[0] + Interleave(gaps[1..], fills[1..]))
  }

  function Gaps(text: bytes, at: nat, spans: seq<Span>): (r: seq<bytes>)
    requires Laid(spans, at, at + |text|)
    ensures |r| == |spans| + 1
  {
    if spans == [] then [text]
    else [text[..spans[0].lo - at]] + Gaps(text[spans[0].hi - at..], spans[0].hi, spans[1..])
  }

  function Covered(text: bytes, at: nat, spans: seq<Span>): (r: seq<bytes>)
    requires Laid(spans, at, at + |text|)
    ensures |r| == |spans|
  {
    if spans == [] then []
    else [text[spans[0].lo - at..spans[0].hi - at]] + Covered(text[spans[0].hi - at..], spans[0].hi, spans[1..])
  }

  function Fills(spans: seq<Span>, masks: Masks): (r: seq<bytes>)
    ensures |r| == |spans|
  {
    seq(|spans|, i requires 0 <= i < |spans| => MaskBytes(masks, spans[i].mask))
  }

  lemma InterleaveUnfold(gaps: seq<bytes>, fills: seq<bytes>)
    requires |gaps| == |fills| + 1
    ensures Interleave(gaps, fills)
      == if fills == [] then gaps[0] else gaps[0] + (fills[0] + Interleave(gaps[1..], fills[1..]))
  {
  }

  lemma GapsUnfold(text: bytes, at: nat, spans: seq<Span>)
    requires Laid(spans, at, at + |text|)
    ensures spans == [] ==> Gaps(text, at, spans) == [text] && Covered(text, at, spans) == []
    ensures spans != [] ==>
      var s, later := spans[0], text[spans[0].hi - at..];
      && Gaps(text, at, spans) == [text[..s.lo - at]] + Gaps(later, s.hi, spans[1..])
      && Covered(text, at, spans) == [text[s.lo - at..s.hi - at]] + Covered(later, s.hi, spans[1..])
  {
  }

  lemma InterleaveCons(gap: bytes, gaps: seq<bytes>, fill: bytes, fills: seq<bytes>)
    requires |gaps| == |fills| + 1
    ensures Interleave([gap] + gaps, [fill] + fills) == gap + (fill + Interleave(gaps, fills))
  {
    assert ([gap] + gaps)[1..] == gaps && ([fill] + fills)[1..] == fills;
  }

  lemma ThreeParts(text: bytes, i: nat, j: nat)
    requires i <= j <= |text|
    ensures text[..i] + (text[i..j] + text[j..]) == text
  {
  }

  lemma LaidParts(spans: seq<Span>, lo: nat, hi: nat)
    requires spans != [] && Laid(spans, lo, hi)
    ensures lo <= spans[0].lo <= spans[0].hi <= hi && Laid(spans[1..], spans[0].hi, hi)
  {
  }

  lemma {:induction false} GapsMeaning(text: bytes, at: nat, spans: seq<Span>)
    requires Laid(spans, at, at + |text|)
    ensures Interleave(Gaps(text, at, spans), Covered(text, at, spans)) == text
  {
    hide *;
    GapsUnfold(text, at, spans);
    if spans == [] {
      InterleaveUnfold([text], []);
    } else {
      LaidParts(spans, at, at + |text|);
      var s := spans[0];
      var gap, fill, later := text[..s.lo - at], text[s.lo - at..s.hi - at], text[s.hi - at..];
      GapsMeaning(later, s.hi, spans[1..]);
      InterleaveCons(gap, Gaps(later, s.hi, spans[1..]), fill, Covered(later, s.hi, spans[1..]));
      ThreeParts(text, s.lo - at, s.hi - at);
    }
  }

  /** The same gaps, in the same order, hold the original spans apart in the text and the
      masks apart in the splice: exactly the selected spans are replaced. */
  lemma {:induction false} SpliceMeaning(text: bytes, at: nat, spans: seq<Span>, masks: Masks)
    requires Laid(spans, at, at + |text|)
    ensures Interleave(Gaps(text, at, spans), Covered(text, at, spans)) == text
    ensures Interleave(Gaps(text, at, spans), Fills(spans, masks)) == Splice(text, at, spans, masks)
    ensures Known(spans, masks) ==> forall i | 0 <= i < |spans| :: Fills(spans, masks)[i] == masks[spans[i].mask]
  {
    hide Covered, Interleave;
    GapsMeaning(text, at, spans);
    InterleaveUnfold(Gaps(text, at, spans), Fills(spans, masks));
    if spans != [] {
      var s, later := spans[0], text[spans[0].hi - at..];
      SpliceMeaning(later, s.hi, spans[1..], masks);
      assert Gaps(text, at, spans)[1..] == Gaps(later, s.hi, spans[1..]);
      assert Fills(spans, masks)[1..] == Fills(spans[1..], masks);
    }
  }
}
