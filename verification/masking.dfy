/** What redaction comes to for a reader of the output: every string of every kept record is its
    original with stretches that rules matched replaced by those rules' own masks. */
module Masking {
  import opened Prelude
  import opened Wire
  import opened Otlp
  import opened Envelope
  import opened Spans
  import opened Govern
  import opened Meaning
  import opened Preservation
  import opened Ranges
  import opened Redact
  import Glob
  import Sampling

  /** A stretch of a text, and the number of the rule whose mask stands in its place. */
  datatype Piece = Piece(lo: nat, hi: nat, rule: nat)

  /** The pieces follow each other in the text, from `from` on. */
  ghost predicate InOrder(text: bytes, from: nat, pieces: seq<Piece>)
    decreases pieces
  {
    if pieces == [] then from <= |text|
    else from <= pieces[0].lo <= pieces[0].hi && InOrder(text, pieces[0].hi, pieces[1..])
  }

  /** The text from `from` on, each piece replaced by its rule's mask. */
  ghost function Rewritten(text: bytes, from: nat, pieces: seq<Piece>, specs: seq<RuleSpec>): bytes
    requires InOrder(text, from, pieces) && forall p <- pieces :: p.rule < |specs|
    decreases pieces
  {
    if pieces == [] then text[from..]
    else
      EndsInside(text, from, pieces);
      text[from..pieces[0].lo] + (specs[pieces[0].rule].mask + Rewritten(text, pieces[0].hi, pieces[1..], specs))
  }

  lemma {:induction false} EndsInside(text: bytes, from: nat, pieces: seq<Piece>)
    requires InOrder(text, from, pieces)
    ensures from <= |text| && forall p <- pieces :: from <= p.lo <= p.hi <= |text|
    decreases pieces
  {
    if pieces != [] { EndsInside(text, pieces[0].hi, pieces[1..]); }
  }

  /** The rule's fields select the string, and its pattern matches this stretch of it. */
  ghost predicate Finds(spec: RuleSpec, find: Finder, text: bytes, key: Option<bytes>, lo: nat, hi: nat) {
    && text != [] && Match(lo, hi) in find(spec.pattern, text)
    && if key.None? then Body in spec.fields else exists g :: Attrs(g) in spec.fields && Glob.Matches(g, key.value)
  }

  /** Every replaced stretch is a match of the rule whose mask replaces it. */
  ghost predicate Earned(text: bytes, key: Option<bytes>, pieces: seq<Piece>, specs: seq<RuleSpec>, find: Finder) {
    forall p <- pieces :: p.rule < |specs| && Finds(specs[p.rule], find, text, key, p.lo, p.hi)
  }

  ghost predicate Meets(pieces: seq<Piece>, lo: nat, hi: nat) {
    exists p <- pieces :: (p.lo == lo && p.hi == hi) || p.lo <= lo < p.hi
  }

  /** Every match is replaced, or starts in a replaced stretch. */
  ghost predicate Complete(text: bytes, key: Option<bytes>, pieces: seq<Piece>, specs: seq<RuleSpec>, find: Finder) {
    forall spec <- specs, lo, hi | Finds(spec, find, text, key, lo, hi) :: Meets(pieces, lo, hi)
  }

  function Reach(pieces: seq<Piece>, i: nat): nat
    requires i <= |pieces|
  {
    if i == 0 then 0 else pieces[i - 1].hi
  }

  /** Of the matches that hold a byte and start where the previous piece ends or later, the next
      piece is the one that starts first and, of those, ends first; it is none when none is left. */
  ghost predicate Leftmost(text: bytes, key: Option<bytes>, pieces: seq<Piece>, specs: seq<RuleSpec>, find: Finder) {
    forall i: nat, spec <- specs, lo, hi | i <= |pieces| && Finds(spec, find, text, key, lo, hi) && lo < hi ::
      Reach(pieces, i) <= lo
      ==> i < |pieces| && (pieces[i].lo < lo || (pieces[i].lo == lo && pieces[i].hi <= hi))
  }

  /** Of the rules that match one stretch, the first has its mask there. */
  ghost predicate FirstOfRules(text: bytes, key: Option<bytes>, lo: nat, hi: nat, n: nat, specs: seq<RuleSpec>,
                               find: Finder) {
    forall k | 0 <= k < n && k < |specs| :: !Finds(specs[k], find, text, key, lo, hi)
  }

  ghost predicate FirstRules(text: bytes, key: Option<bytes>, pieces: seq<Piece>, specs: seq<RuleSpec>, find: Finder) {
    forall p <- pieces | p.lo < p.hi :: FirstOfRules(text, key, p.lo, p.hi, p.rule, specs, find)
  }

  /** A key with a star before its last character may escape a pattern that matches it. */
  ghost predicate Exact(key: Option<bytes>) { key.Some? ==> Glob.StarOnlyLast(key.value) }

  /** `out` is `text`, viewed under `key`, masked by the rules in their order. */
  ghost predicate MaskedBy(text: bytes, key: Option<bytes>, out: bytes, specs: seq<RuleSpec>, find: Finder) {
    exists pieces: seq<Piece> ::
      && InOrder(text, 0, pieces) && Earned(text, key, pieces, specs, find)
      && out == Rewritten(text, 0, pieces, specs)
      && (Exact(key) ==>
            && Complete(text, key, pieces, specs, find) && Leftmost(text, key, pieces, specs, find)
            && FirstRules(text, key, pieces, specs, find))
  }

  // ----- one string

  /** The pieces stand where the spans do, and their rules' masks where the spans point. */
  ghost predicate Mirrors(pieces: seq<Piece>, spans: seq<Span>, at: nat, specs: seq<RuleSpec>, masks: Masks) {
    && |pieces| == |spans|
    && forall i | 0 <= i < |spans| ::
         && pieces[i].lo + at == spans[i].lo && pieces[i].hi + at == spans[i].hi
         && pieces[i].rule < |specs|
         && spans[i].mask < |masks| && masks[spans[i].mask] == specs[pieces[i].rule].mask
  }

  lemma MirrorsTail(pieces: seq<Piece>, spans: seq<Span>, at: nat, specs: seq<RuleSpec>, masks: Masks)
    requires Mirrors(pieces, spans, at, specs, masks) && spans != []
    ensures Mirrors(pieces[1..], spans[1..], at, specs, masks)
  {
  }

  lemma {:induction false} MirrorsInOrder(text: bytes, at: nat, from: nat, spans: seq<Span>, masks: Masks,
                                          pieces: seq<Piece>, specs: seq<RuleSpec>)
    requires Laid(spans, at + from, at + |text|) && Mirrors(pieces, spans, at, specs, masks)
    ensures InOrder(text, from, pieces)
    decreases spans
  {
    hide Mirrors;
    if spans != [] {
      MirrorsTail(pieces, spans, at, specs, masks);
      MirrorsHead(pieces, spans, at, specs, masks);
      MirrorsInOrder(text, at, pieces[0].hi, spans[1..], masks, pieces[1..], specs);
    } else {
      assert |pieces| == 0 by { MirrorsLength(pieces, spans, at, specs, masks); }
    }
  }

  lemma MirrorsLength(pieces: seq<Piece>, spans: seq<Span>, at: nat, specs: seq<RuleSpec>, masks: Masks)
    requires Mirrors(pieces, spans, at, specs, masks)
    ensures |pieces| == |spans|
  {
  }

  lemma MirrorsHead(pieces: seq<Piece>, spans: seq<Span>, at: nat, specs: seq<RuleSpec>, masks: Masks)
    requires Mirrors(pieces, spans, at, specs, masks) && spans != []
    ensures |pieces| == |spans|
    ensures pieces[0].lo + at == spans[0].lo && pieces[0].hi + at == spans[0].hi && pieces[0].rule < |specs|
    ensures MaskBytes(masks, spans[0].mask) == specs[pieces[0].rule].mask
  {
  }

  lemma RewrittenUnfold(text: bytes, from: nat, pieces: seq<Piece>, specs: seq<RuleSpec>)
    requires InOrder(text, from, pieces) && forall p <- pieces :: p.rule < |specs|
    ensures pieces == [] ==> from <= |text| && Rewritten(text, from, pieces, specs) == text[from..]
    ensures pieces != [] ==>
      && from <= pieces[0].lo <= pieces[0].hi <= |text| && InOrder(text, pieces[0].hi, pieces[1..])
      && pieces[0].rule < |specs|
      && Rewritten(text, from, pieces, specs) == text[from..pieces[0].lo]
        + (specs[pieces[0].rule].mask + Rewritten(text, pieces[0].hi, pieces[1..], specs))
  {
    EndsInside(text, from, pieces);
    hide InOrder;
    if pieces != [] { assert pieces[0] in pieces; }
  }

  lemma SpliceUnfold(text: bytes, at: nat, spans: seq<Span>, masks: Masks)
    requires Laid(spans, at, at + |text|)
    ensures spans == [] ==> Splice(text, at, spans, masks) == text
    ensures spans != [] ==>
      && at <= spans[0].lo <= spans[0].hi <= at + |text| && Laid(spans[1..], spans[0].hi, at + |text|)
      && Splice(text, at, spans, masks) == text[..spans[0].lo - at]
        + (MaskBytes(masks, spans[0].mask) + Splice(text[spans[0].hi - at..], spans[0].hi, spans[1..], masks))
  {
    if spans != [] { LaidParts(spans, at, at + |text|); }
  }

  lemma RestSlices(text: bytes, from: nat, lo: nat, hi: nat)
    requires from <= lo <= hi <= |text|
    ensures text[from..][..lo - from] == text[from..lo] && text[from..][hi - from..] == text[hi..]
  {
  }

  lemma MirrorsRules(pieces: seq<Piece>, spans: seq<Span>, at: nat, specs: seq<RuleSpec>, masks: Masks)
    requires Mirrors(pieces, spans, at, specs, masks)
    ensures forall p <- pieces :: p.rule < |specs|
  {
  }

  /** Splicing masks in by id is rewriting the pieces by their rules' masks. */
  lemma {:induction false} SpliceRewrites(text: bytes, at: nat, from: nat, spans: seq<Span>, masks: Masks,
                                          pieces: seq<Piece>, specs: seq<RuleSpec>)
    requires from <= |text| && Laid(spans, at + from, at + |text|) && Mirrors(pieces, spans, at, specs, masks)
    ensures InOrder(text, from, pieces) && forall p <- pieces :: p.rule < |specs|
    ensures Splice(text[from..], at + from, spans, masks) == Rewritten(text, from, pieces, specs)
    decreases spans
  {
    hide *;
    MirrorsInOrder(text, at, from, spans, masks, pieces, specs);
    MirrorsRules(pieces, spans, at, specs, masks);
    MirrorsLength(pieces, spans, at, specs, masks);
    RewrittenUnfold(text, from, pieces, specs);
    SpliceUnfold(text[from..], at + from, spans, masks);
    if spans != [] {
      MirrorsTail(pieces, spans, at, specs, masks);
      MirrorsHead(pieces, spans, at, specs, masks);
      RestSlices(text, from, pieces[0].lo, pieces[0].hi);
      SpliceRewrites(text, at, pieces[0].hi, spans[1..], masks, pieces[1..], specs);
    }
  }

  // ----- which rule a stretch is masked by

  /** The first span pushed for a record at a stretch. */
  function FirstAt(xs: seq<StageSpan>, record: nat, lo: nat, hi: nat): Option<Span> {
    if xs == [] then None
    else if xs[0].record == record && xs[0].span.lo == lo && xs[0].span.hi == hi then Some(xs[0].span)
    else FirstAt(xs[1..], record, lo, hi)
  }

  lemma {:induction false} FirstAtConcat(a: seq<StageSpan>, b: seq<StageSpan>, record: nat, lo: nat, hi: nat)
    ensures var f := FirstAt(a, record, lo, hi);
      FirstAt(a + b, record, lo, hi) == if f.Some? then f else FirstAt(b, record, lo, hi)
  {
    if a == [] {
      assert a + b == b;
    } else {
      FirstAtConcat(a[1..], b, record, lo, hi);
      assert (a + b)[1..] == a[1..] + b && (a + b)[0] == a[0];
    }
  }

  lemma {:induction false} FirstAtIn(xs: seq<StageSpan>, record: nat, lo: nat, hi: nat)
    ensures FirstAt(xs, record, lo, hi).Some? <==>
      exists x <- xs :: x.record == record && x.span.lo == lo && x.span.hi == hi
    ensures var f := FirstAt(xs, record, lo, hi);
      f.Some? ==> f.value.lo == lo && f.value.hi == hi && exists x <- xs :: x.record == record && x.span == f.value
  {
    if xs != [] {
      FirstAtIn(xs[1..], record, lo, hi);
      assert xs[0] in xs && forall x <- xs[1..] :: x in xs;
      assert forall x <- xs :: x == xs[0] || x in xs[1..];
      var f := FirstAt(xs[1..], record, lo, hi);
      if f.Some? {
        var x :| x in xs[1..] && x.record == record && x.span == f.value;
        assert x in xs;
      }
    }
  }

  lemma {:induction false} FirstLabelled(xs: seq<StageSpan>, record: nat, s: Span)
    requires FirstOfStretch(Labelled(xs, record), s)
    ensures FirstAt(xs, record, s.lo, s.hi) == Some(s)
  {
    if xs != [] {
      var all, later := Labelled(xs, record), Labelled(xs[1..], record);
      var k :| 0 <= k < |all| && all[k] == s && forall j | 0 <= j < k :: all[j].lo != s.lo || all[j].hi != s.hi;
      if xs[0].record == record {
        assert all == [xs[0].span] + later;
        if k > 0 {
          assert later[k - 1] == s && all[0] == xs[0].span;
          assert forall j | 0 <= j < k - 1 :: later[j] == all[j + 1];
          FirstLabelled(xs[1..], record, s);
        }
      } else {
        assert all == later;
        FirstLabelled(xs[1..], record, s);
      }
    }
  }

  /** The rule applies under the key and matches the stretch. */
  ghost predicate Hits(rule: CompiledRule, find: Finder, v: View, key: Option<bytes>, lo: nat, hi: nat) {
    Applies(rule, key) && exists m <- find(rule.pattern, v.text) :: v.at + m.lo == lo && v.at + m.hi == hi
  }

  /** Of the rules that hit the stretch, the `n`-th comes first. */
  ghost predicate Wins(n: nat, rules: seq<CompiledRule>, find: Finder, v: View, key: Option<bytes>, lo: nat, hi: nat) {
    n < |rules| && Hits(rules[n], find, v, key, lo, hi)
      && forall k | 0 <= k < n :: !Hits(rules[k], find, v, key, lo, hi)
  }

  lemma RuleFirst(rule: CompiledRule, find: Finder, v: View, key: Option<bytes>, record: nat, lo: nat, hi: nat)
    requires Proper(find) && Applies(rule, key)
    ensures var f := FirstAt(MatchSpans(rule, v, find(rule.pattern, v.text), record), record, lo, hi);
      f == if lo <= hi && Hits(rule, find, v, key, lo, hi) then Some(Redaction(lo, hi, rule.mask)) else None
  {
    hide MatchSpans, Applies, FirstAt;
    var ms := find(rule.pattern, v.text);
    var xs := MatchSpans(rule, v, ms, record);
    FirstAtIn(xs, record, lo, hi);
    forall x ensures x in xs <==>
      x.stage == STAGE_REDACT_REGEX && x.record == record && exists m <- ms :: x.span == SpanOf(rule, v, m)
    {
      MatchSpansMeaning(rule, v, ms, record, x);
    }
    if lo <= hi && Hits(rule, find, v, key, lo, hi) {
      assert StageSpan(STAGE_REDACT_REGEX, record, Redaction(lo, hi, rule.mask)) in xs;
    }
  }

  lemma {:induction false} RulesFirst(rules: seq<CompiledRule>, find: Finder, v: View, key: Option<bytes>,
                                      record: nat, lo: nat, hi: nat) returns (n: nat)
    requires Proper(find)
    ensures var f := FirstAt(RulesSpans(rules, find, v, key, record), record, lo, hi);
      f.Some? ==> Wins(n, rules, find, v, key, lo, hi) && f.value == Redaction(lo, hi, rules[n].mask)
    ensures FirstAt(RulesSpans(rules, find, v, key, record), record, lo, hi).None? ==>
      forall rule <- rules :: !Hits(rule, find, v, key, lo, hi)
  {
    hide FirstAt, Applies, MatchSpans;
    n := 0;
    if rules == [] {
      NoneFirst(record, lo, hi);
    } else {
      var before, last := rules[..|rules| - 1], rules[|rules| - 1];
      assert rules == before + [last];
      n := RulesFirst(before, find, v, key, record, lo, hi);
      var own := if Applies(last, key) then MatchSpans(last, v, find(last.pattern, v.text), record) else [];
      FirstAtConcat(RulesSpans(before, find, v, key, record), own, record, lo, hi);
      if FirstAt(RulesSpans(before, find, v, key, record), record, lo, hi).None? { n := |before|; }
      NoneFirst(record, lo, hi);
      if Applies(last, key) { RuleFirst(last, find, v, key, record, lo, hi); }
    }
  }

  lemma NoneFirst(record: nat, lo: nat, hi: nat)
    ensures FirstAt([], record, lo, hi) == None
  {
  }

  /** A string apart from the stretch pushes nothing there. */
  lemma ElsewhereFirst(rules: seq<CompiledRule>, find: Finder, w: View, key: Option<bytes>, record: nat, lo: nat,
                       hi: nat)
    requires Proper(find) && !(w.at <= lo && hi <= w.End())
    ensures FirstAt(FieldSpans(rules, find, w, key, record), record, lo, hi) == None
  {
    hide FirstAt;
    NoneFirst(record, lo, hi);
    if w.text != [] {
      forall rule: CompiledRule ensures !Hits(rule, find, w, key, lo, hi) {}
      var n := RulesFirst(rules, find, w, key, record, lo, hi);
    }
  }

  /** The attributes but the `i`-th push nothing inside its value. */
  lemma {:induction false} AttrsFirst(rules: seq<CompiledRule>, find: Finder, attrs: seq<Attr>, i: nat, record: nat,
                                      lo: nat, hi: nat)
    requires Proper(find) && i <= |attrs|
    requires forall k | 0 <= k < |attrs| && k != i :: !(attrs[k].value.at <= lo && hi <= attrs[k].value.End())
    ensures FirstAt(AttrsSpans(rules, find, attrs, record), record, lo, hi)
      == if i < |attrs|
         then FirstAt(FieldSpans(rules, find, attrs[i].value, Some(attrs[i].key.text), record), record, lo, hi)
         else None
  {
    hide FieldSpans, FirstAt;
    NoneFirst(record, lo, hi);
    if attrs != [] {
      var before, a := attrs[..|attrs| - 1], attrs[|attrs| - 1];
      var own := FieldSpans(rules, find, a.value, Some(a.key.text), record);
      AttrsFirst(rules, find, before, if i < |before| then i else |before|, record, lo, hi);
      FirstAtConcat(AttrsSpans(rules, find, before, record), own, record, lo, hi);
      if i != |before| { ElsewhereFirst(rules, find, a.value, Some(a.key.text), record, lo, hi); }
    }
  }

  lemma RecordFirst(rules: seq<CompiledRule>, find: Finder, r: RecordView, v: View, key: Option<bytes>, record: nat,
                    lo: nat, hi: nat)
    requires Proper(find) && StringsApart(r.draft) && Scanned(r, v, key) && v.at <= lo && lo <= hi <= v.End()
    ensures FirstAt(RecordSpans(rules, find, r, record), record, lo, hi)
      == FirstAt(FieldSpans(rules, find, v, key, record), record, lo, hi)
  {
    hide FieldSpans, FirstAt, AttrsSpans;
    NoneFirst(record, lo, hi);
    var attrs := r.draft.attrs;
    var i := |attrs|;
    if key.Some? { i :| 0 <= i < |attrs| && attrs[i].value == v && attrs[i].key.text == key.value; }
    forall k | 0 <= k < |attrs| && k != i ensures !(attrs[k].value.at <= lo && hi <= attrs[k].value.End()) {
      if i < |attrs| { assert i < k || k < i; }
      assert Apart(attrs[k].value, v);
    }
    AttrsFirst(rules, find, attrs, i, record, lo, hi);
    var own := if r.draft.body.Some? then FieldSpans(rules, find, r.draft.body.value, None, record) else [];
    FirstAtConcat(own, AttrsSpans(rules, find, attrs, record), record, lo, hi);
    if key.Some? && r.draft.body.Some? {
      assert attrs[i] in attrs;
      ElsewhereFirst(rules, find, r.draft.body.value, None, record, lo, hi);
    }
  }

  lemma OtherRecord(rules: seq<CompiledRule>, find: Finder, r: RecordView, other: nat, record: nat, lo: nat, hi: nat)
    requires Proper(find) && other != record
    ensures FirstAt(RecordSpans(rules, find, r, other), record, lo, hi) == None
  {
    hide RecordSpans, FirstAt, FoundBy;
    var xs := RecordSpans(rules, find, r, other);
    FirstAtIn(xs, record, lo, hi);
    forall x | x in xs ensures x.record == other { RecordSpansMeaning(rules, find, r, other, x); }
  }

  lemma {:induction false} StageFirst(rules: seq<CompiledRule>, find: Finder, records: seq<RecordView>, record: nat,
                                      lo: nat, hi: nat)
    requires Proper(find)
    ensures FirstAt(StageSpans(rules, find, records), record, lo, hi)
      == if record < |records| then FirstAt(RecordSpans(rules, find, records[record], record), record, lo, hi)
         else None
  {
    hide RecordSpans, FirstAt;
    NoneFirst(record, lo, hi);
    if records != [] {
      var last := |records| - 1;
      StageFirst(rules, find, records[..last], record, lo, hi);
      FirstAtConcat(StageSpans(rules, find, records[..last]), RecordSpans(rules, find, records[last], last),
        record, lo, hi);
      if last != record { OtherRecord(rules, find, records[last], last, record, lo, hi); }
    }
  }

  lemma NoMirrors(at: nat, specs: seq<RuleSpec>, masks: Masks)
    ensures Mirrors([], [], at, specs, masks)
  {
  }

  lemma MirrorsCons(pieces: seq<Piece>, spans: seq<Span>, at: nat, specs: seq<RuleSpec>, masks: Masks)
    requires pieces != [] && spans != [] && Mirrors(pieces[1..], spans[1..], at, specs, masks)
    requires pieces[0].lo + at == spans[0].lo && pieces[0].hi + at == spans[0].hi && pieces[0].rule < |specs|
    requires spans[0].mask < |masks| && masks[spans[0].mask] == specs[pieces[0].rule].mask
    ensures Mirrors(pieces, spans, at, specs, masks)
  {
  }

  /** The span is where a match of the rule stands in the string, and points at the rule's mask. */
  ghost predicate StandsFor(s: Span, n: nat, v: View, key: Option<bytes>, specs: seq<RuleSpec>, find: Finder,
                            masks: Masks) {
    && n < |specs| && v.at <= s.lo && Finds(specs[n], find, v.text, key, s.lo - v.at, s.hi - v.at)
    && s.mask < |masks| && masks[s.mask] == specs[n].mask
    && (s.lo < s.hi && Exact(key) ==> FirstOfRules(v.text, key, s.lo - v.at, s.hi - v.at, n, specs, find))
  }

  lemma {:induction false} Pieces(spans: seq<Span>, v: View, key: Option<bytes>, specs: seq<RuleSpec>, find: Finder,
                                  masks: Masks) returns (pieces: seq<Piece>)
    requires forall s <- spans :: exists n: nat :: StandsFor(s, n, v, key, specs, find, masks)
    ensures Mirrors(pieces, spans, v.at, specs, masks) && Earned(v.text, key, pieces, specs, find)
    ensures Exact(key) ==> FirstRules(v.text, key, pieces, specs, find)
  {
    hide Finds, FirstOfRules, Exact, Mirrors;
    if spans == [] {
      pieces := [];
      NoMirrors(v.at, specs, masks);
    } else {
      forall s | s in spans[1..] ensures exists n: nat :: StandsFor(s, n, v, key, specs, find, masks) {
        assert s in spans;
      }
      var later := Pieces(spans[1..], v, key, specs, find, masks);
      var s := spans[0];
      assert s in spans;
      var n: nat :| StandsFor(s, n, v, key, specs, find, masks);
      pieces := [Piece(s.lo - v.at, s.hi - v.at, n)] + later;
      MirrorsCons(pieces, spans, v.at, specs, masks);
    }
  }

  lemma HitsMeansFinds(rule: CompiledRule, spec: RuleSpec, find: Finder, v: View, key: Option<bytes>, lo: nat, hi: nat)
    requires rule.pattern == spec.pattern && rule.fields == spec.fields && v.text != [] && v.at <= lo && v.at <= hi
    ensures Hits(rule, find, v, key, lo, hi) ==> Finds(spec, find, v.text, key, lo - v.at, hi - v.at)
    ensures Exact(key) ==>
      (Hits(rule, find, v, key, lo, hi) <==> Finds(spec, find, v.text, key, lo - v.at, hi - v.at))
  {
    hide Applies, Glob.Matches, Glob.StarOnlyLast;
    AppliesMeaning(rule, key);
    if Hits(rule, find, v, key, lo, hi) {
      var m :| m in find(rule.pattern, v.text) && v.at + m.lo == lo && v.at + m.hi == hi;
      assert m == Match(lo - v.at, hi - v.at);
    }
  }

  lemma WinnerStands(e: Engine, specs: seq<RuleSpec>, find: Finder, v: View, key: Option<bytes>, s: Span, n: nat)
    requires Compiles(e, specs) && Deduplicated(e, specs) && |e.masks| <= U32
    requires v.text != [] && v.at <= s.lo && Wins(n, e.rules, find, v, key, s.lo, s.hi) && s.mask == e.rules[n].mask
    ensures StandsFor(s, n, v, key, specs, find, e.masks)
  {
    hide Hits, Finds, Exact, Deduplicated;
    MasksFaithful(e, specs);
    assert FindsItsMask(e, specs, n);
    forall k | 0 <= k <= n
      ensures Hits(e.rules[k], find, v, key, s.lo, s.hi) ==>
        Finds(specs[k], find, v.text, key, s.lo - v.at, s.hi - v.at)
      ensures Exact(key) ==>
        (Hits(e.rules[k], find, v, key, s.lo, s.hi) <==>
         Finds(specs[k], find, v.text, key, s.lo - v.at, s.hi - v.at))
    {
      HitsMeansFinds(e.rules[k], specs[k], find, v, key, s.lo, s.hi);
    }
  }

  /** The spans of the stage, each standing for a match of a rule that selects the string. */
  lemma SpanStandsFor(e: Engine, specs: seq<RuleSpec>, find: Finder, r: RecordView, v: View, key: Option<bytes>,
                      s: Span) returns (n: nat)
    requires Compiles(e, specs) && Deduplicated(e, specs) && |e.masks| <= U32 && Proper(find)
    requires s.lo == s.hi && exists rule <- e.rules :: FoundBy(s, rule, find, r, v, key)
    ensures StandsFor(s, n, v, key, specs, find, e.masks)
  {
    hide Scanned, Applies, Deduplicated, Glob.Matches;
    MasksFaithful(e, specs);
    var rule :| rule in e.rules && FoundBy(s, rule, find, r, v, key);
    n :| 0 <= n < |e.rules| && e.rules[n] == rule;
    assert FindsItsMask(e, specs, n);
    AppliesMeaning(rule, key);
    var m :| m in find(rule.pattern, v.text) && s == SpanOf(rule, v, m);
    assert m == Match(s.lo - v.at, s.hi - v.at);
  }

  /** Every match of a rule that selects the string stands among its candidates. */
  lemma FoundStands(e: Engine, specs: seq<RuleSpec>, find: Finder, r: RecordView, v: View, key: Option<bytes>,
                    spec: RuleSpec, lo: nat, hi: nat) returns (s: Span)
    requires Compiles(e, specs) && Proper(find) && Scanned(r, v, key)
    requires Exact(key)
    requires spec in specs && Finds(spec, find, v.text, key, lo, hi)
    ensures s.lo == v.at + lo && s.hi == v.at + hi && exists rule <- e.rules :: FoundBy(s, rule, find, r, v, key)
  {
    hide Scanned, Applies, Glob.Matches, Glob.StarOnlyLast;
    var n :| 0 <= n < |specs| && specs[n] == spec;
    var rule := e.rules[n];
    AppliesMeaning(rule, key);
    s := SpanOf(rule, v, Match(lo, hi));
    assert FoundBy(s, rule, find, r, v, key);
  }

  lemma {:induction false} MeetsSelected(pieces: seq<Piece>, spans: seq<Span>, at: nat, specs: seq<RuleSpec>,
                                         masks: Masks, s: Span)
    requires Mirrors(pieces, spans, at, specs, masks) && at <= s.lo
    requires s in spans || exists c <- spans :: c.lo <= s.lo < c.hi
    ensures Meets(pieces, s.lo - at, s.hi - at)
  {
    var c :| c in spans && (c == s || c.lo <= s.lo < c.hi);
    var i :| 0 <= i < |spans| && spans[i] == c;
    assert pieces[i] in pieces;
  }

  lemma GovernedRewrites(v: View, spans: seq<Span>, masks: Masks, pieces: seq<Piece>, specs: seq<RuleSpec>)
    requires Mirrors(pieces, Effective(spans, v.at, v.End()), v.at, specs, masks)
    ensures InOrder(v.text, 0, pieces) && forall p <- pieces :: p.rule < |specs|
    ensures Masked(v, spans, masks) == Rewritten(v.text, 0, pieces, specs)
  {
    hide Effective, Mirrors, Splice, Laid, InOrder, Rewritten;
    EffectiveLaid(spans, v.at, v.End());
    SpliceRewrites(v.text, v.at, 0, Effective(spans, v.at, v.End()), masks, pieces, specs);
    assert v.text[0..] == v.text;
  }

  lemma IsMasked(text: bytes, key: Option<bytes>, pieces: seq<Piece>, out: bytes, specs: seq<RuleSpec>, find: Finder)
    requires InOrder(text, 0, pieces) && Earned(text, key, pieces, specs, find)
    requires out == Rewritten(text, 0, pieces, specs)
    requires Exact(key) ==>
      && Complete(text, key, pieces, specs, find) && Leftmost(text, key, pieces, specs, find)
      && FirstRules(text, key, pieces, specs, find)
    ensures MaskedBy(text, key, out, specs, find)
  {
    hide InOrder, Earned, Rewritten, Complete, Leftmost, FirstRules, Exact;
  }

  /** The stage of the compiled rules has decided on a request; `v` is one of a record's strings. */
  ghost predicate Redacted(raw: bytes, e: Engine, specs: seq<RuleSpec>, find: Finder, d: Decided, record: nat, v: View,
                           key: Option<bytes>) {
    && Compiles(e, specs) && Deduplicated(e, specs) && |e.masks| <= U32 && Proper(find)
    && Parse(raw).Ok? && d.redactions == StageSpans(e.rules, find, Parse(raw).value)
    && record < |Parse(raw).value| && Scanned(Parse(raw).value[record], v, key)
  }

  lemma SelectedFirst(spans: seq<Span>, lo: nat, hi: nat, s: Span)
    requires lo <= hi && s in Effective(spans, lo, hi) && s.lo < s.hi
    ensures FirstOfStretch(spans, s)
  {
    hide Effective;
    var i :| 0 <= i < |Effective(spans, lo, hi)| && Effective(spans, lo, hi)[i] == s;
    SelectionExact(spans, lo, hi, i);
  }

  /** A selected span that holds a byte carries the mask of the first rule that matches there. */
  lemma {:induction false} SelectedStandsFor(raw: bytes, e: Engine, specs: seq<RuleSpec>, find: Finder, d: Decided,
                                             record: nat, v: View, key: Option<bytes>, s: Span) returns (n: nat)
    requires Redacted(raw, e, specs, find, d, record, v, key)
    requires s in Effective(d.SpansFor(record), v.at, v.End())
    ensures StandsFor(s, n, v, key, specs, find, e.masks)
  {
    hide Parse, Scanned, Effective, StageSpans, RecordSpans, RulesSpans, Labelled, FirstAt, StandsFor, Wins, FoundBy,
      StringsApart, Compiles, Deduplicated, FirstOfStretch;
    var records := Parse(raw).value;
    var r := records[record];
    RecordApart(raw, record);
    SelectionMeaning(d.SpansFor(record), v.at, v.End());
    OwnMatch(e.rules, find, records, d, record, v, key, s);
    if s.lo == s.hi {
      n := SpanStandsFor(e, specs, find, r, v, key, s);
    } else {
      SelectedFirst(d.SpansFor(record), v.at, v.End(), s);
      FirstLabelled(d.redactions, record, s);
      StageFirst(e.rules, find, records, record, s.lo, s.hi);
      RecordFirst(e.rules, find, r, v, key, record, s.lo, s.hi);
      NoneFirst(record, s.lo, s.hi);
      n := RulesFirst(e.rules, find, v, key, record, s.lo, s.hi);
      WinnerStands(e, specs, find, v, key, s, n);
    }
  }

  /** A match of a rule that selects the string is a candidate of its window. */
  lemma {:induction false} FoundIsCandidate(raw: bytes, e: Engine, specs: seq<RuleSpec>, find: Finder, d: Decided,
                                            record: nat, v: View, key: Option<bytes>, spec: RuleSpec, lo: nat, hi: nat)
      returns (s: Span)
    requires Redacted(raw, e, specs, find, d, record, v, key) && Exact(key)
    requires spec in specs && Finds(spec, find, v.text, key, lo, hi)
    ensures s.lo == v.at + lo && s.hi == v.at + hi && s in d.SpansFor(record) && s.hi <= v.End()
  {
    hide Parse, Scanned, StageSpans, Labelled, FoundBy, Finds, StringsApart, Compiles, Deduplicated, Exact;
    RecordApart(raw, record);
    s := FoundStands(e, specs, find, Parse(raw).value[record], v, key, spec, lo, hi);
    OwnMatch(e.rules, find, Parse(raw).value, d, record, v, key, s);
  }

  lemma {:induction false} PiecesComplete(raw: bytes, e: Engine, specs: seq<RuleSpec>, find: Finder, d: Decided,
                                          record: nat, v: View, key: Option<bytes>, pieces: seq<Piece>)
    requires Redacted(raw, e, specs, find, d, record, v, key) && Exact(key)
    requires Mirrors(pieces, Effective(d.SpansFor(record), v.at, v.End()), v.at, specs, e.masks)
    ensures Complete(v.text, key, pieces, specs, find)
  {
    hide Redacted, Effective, Finds, Meets, Exact, Labelled, Mirrors;
    var spans, selected := d.SpansFor(record), Effective(d.SpansFor(record), v.at, v.End());
    SelectionMeaning(spans, v.at, v.End());
    forall spec, lo, hi | spec in specs && Finds(spec, find, v.text, key, lo, hi) ensures Meets(pieces, lo, hi) {
      var s := FoundIsCandidate(raw, e, specs, find, d, record, v, key, spec, lo, hi);
      MeetsSelected(pieces, selected, v.at, specs, e.masks, s);
    }
  }

  lemma {:induction false} NextPiece(spans: seq<Span>, v: View, pieces: seq<Piece>, specs: seq<RuleSpec>, masks: Masks,
                                     i: nat, s: Span)
    requires Mirrors(pieces, Effective(spans, v.at, v.End()), v.at, specs, masks)
    requires s in spans && s.lo < s.hi <= v.End() && i <= |pieces| && v.at + Reach(pieces, i) <= s.lo
    ensures i < |pieces|
    ensures v.at + pieces[i].lo < s.lo || (v.at + pieces[i].lo == s.lo && v.at + pieces[i].hi <= s.hi)
  {
    hide Effective;
    SelectionExact(spans, v.at, v.End(), i);
  }

  lemma {:induction false} PiecesLeftmost(raw: bytes, e: Engine, specs: seq<RuleSpec>, find: Finder, d: Decided,
                                          record: nat, v: View, key: Option<bytes>, pieces: seq<Piece>)
    requires Redacted(raw, e, specs, find, d, record, v, key) && Exact(key)
    requires Mirrors(pieces, Effective(d.SpansFor(record), v.at, v.End()), v.at, specs, e.masks)
    ensures Leftmost(v.text, key, pieces, specs, find)
  {
    hide Redacted, Effective, Finds, Exact, Labelled, Mirrors, Reach;
    forall i: nat, spec, lo, hi |
      spec in specs && i <= |pieces| && Finds(spec, find, v.text, key, lo, hi) && lo < hi && Reach(pieces, i) <= lo
      ensures i < |pieces| && (pieces[i].lo < lo || (pieces[i].lo == lo && pieces[i].hi <= hi))
    {
      var s := FoundIsCandidate(raw, e, specs, find, d, record, v, key, spec, lo, hi);
      NextPiece(d.SpansFor(record), v, pieces, specs, e.masks, i, s);
    }
  }

  /** One string of a record, governed by the stage's spans, is masked by the rules. */
  lemma {:induction false} StringMasked(raw: bytes, e: Engine, specs: seq<RuleSpec>, find: Finder, d: Decided,
                                        record: nat, v: View, key: Option<bytes>)
    requires Redacted(raw, e, specs, find, d, record, v, key)
    ensures MaskedBy(v.text, key, Masked(v, d.SpansFor(record), e.masks), specs, find)
  {
    hide *;
    var spans := d.SpansFor(record);
    var selected := Effective(spans, v.at, v.End());
    forall s | s in selected ensures exists n: nat :: StandsFor(s, n, v, key, specs, find, e.masks) {
      var n := SelectedStandsFor(raw, e, specs, find, d, record, v, key, s);
    }
    var pieces := Pieces(selected, v, key, specs, find, e.masks);
    GovernedRewrites(v, spans, e.masks, pieces, specs);
    if Exact(key) {
      PiecesComplete(raw, e, specs, find, d, record, v, key, pieces);
      PiecesLeftmost(raw, e, specs, find, d, record, v, key, pieces);
    }
    IsMasked(v.text, key, pieces, Masked(v, spans, e.masks), specs, find);
  }

  // ----- the output

  /** `out` is the record `r` with every one of its strings masked by the rules. */
  ghost predicate RecordMaskedBy(r: DraftText, out: DraftText, specs: seq<RuleSpec>, find: Finder) {
    && out.traceId == r.traceId && out.severity == r.severity
    && out.body.Some? == r.body.Some?
    && (r.body.Some? ==> MaskedBy(r.body.value, None, out.body.value, specs, find))
    && |out.attrs| == |r.attrs|
    && forall i | 0 <= i < |r.attrs| ::
         && out.attrs[i].key == r.attrs[i].key
         && MaskedBy(r.attrs[i].value, Some(r.attrs[i].key), out.attrs[i].value, specs, find)
  }

  /** Masking, end to end: each record of the output is a kept record of the input whose body and
      attribute values have the stretches its rules match, and no others, replaced by the masks
      written in the rules. */
  lemma {:induction false} OutputIsMasked(raw: bytes, e: Engine, specs: seq<RuleSpec>, find: Finder, d: Decided, i: nat)
      returns (j: nat)
    requires Compiles(e, specs) && Deduplicated(e, specs) && |e.masks| <= U32 && Proper(find)
    requires Parse(raw).Ok? && d.redactions == StageSpans(e.rules, find, Parse(raw).value)
    requires var out := AssembleSpec(raw, |Parse(raw).value|, d, e.masks); out.Ok? && |out.value| < U64
    requires i < |Kept(Parse(raw).value, 0, d, e.masks)|
    ensures var records, out := Parse(raw).value, Parse(AssembleSpec(raw, |Parse(raw).value|, d, e.masks).value);
      && out.Ok? && i < |out.value| && j < |records| && d.VerdictFor(j).Keep?
      && Plain(out.value[i]).resource == Plain(records[j]).resource
      && RecordMaskedBy(Plain(records[j]).draft, Plain(out.value[i]).draft, specs, find)
  {
    hide Parse, AssembleSpec, Kept, RecordMasked, Plain, StageSpans, RecordMaskedBy;
    var records := Parse(raw).value;
    MeaningPreserved(raw, d, e.masks);
    j := Sampling.KeptSurvives(records, 0, d, e.masks, i);
    var out := Parse(AssembleSpec(raw, |records|, d, e.masks).value).value;
    assert Texts(out)[i] == Plain(out[i]);
    GovernedIsMasked(raw, e, specs, find, d, j);
  }

  lemma {:induction false} GovernedIsMasked(raw: bytes, e: Engine, specs: seq<RuleSpec>, find: Finder, d: Decided,
                                            j: nat)
    requires Compiles(e, specs) && Deduplicated(e, specs) && |e.masks| <= U32 && Proper(find)
    requires Parse(raw).Ok? && d.redactions == StageSpans(e.rules, find, Parse(raw).value) && j < |Parse(raw).value|
    ensures var r := Parse(raw).value[j];
      var t := RecordMasked(r, d.SpansFor(j), e.masks);
      t.resource == Plain(r).resource && RecordMaskedBy(Plain(r).draft, t.draft, specs, find)
  {
    hide Parse, StageSpans, MaskedBy, Masked, Compiles, Deduplicated;
    var r := Parse(raw).value[j];
    Sampling.PlainBody(r);
    if r.draft.body.Some? { StringMasked(raw, e, specs, find, d, j, r.draft.body.value, None); }
    forall i | 0 <= i < |r.draft.attrs|
      ensures var a := r.draft.attrs[i];
        MaskedBy(a.value.text, Some(a.key.text), Masked(a.value, d.SpansFor(j), e.masks), specs, find)
    {
      assert r.draft.attrs[i] in r.draft.attrs;
      StringMasked(raw, e, specs, find, d, j, r.draft.attrs[i].value, Some(r.draft.attrs[i].key.text));
    }
    forall i | 0 <= i < |r.draft.attrs| ensures Plain(r).draft.attrs[i].value == r.draft.attrs[i].value.text {
      PlainAttr(r.draft.attrs[i].value);
    }
  }

  lemma PlainAttr(v: View)
    ensures Masked(v, [], []) == v.text
  {
    PlainText(v.text, v.at, []);
  }
}
