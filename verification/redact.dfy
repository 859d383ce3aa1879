/** The regex redaction stage: compiling rules into a deduplicated mask table, and emitting one
    span per match. The regex engine is a parameter: which patterns it accepts, what it finds. */
module Redact {
  import opened Prelude
  import opened Wire
  import opened Otlp
  import opened Envelope
  import opened Spans
  import opened Govern
  import opened Preservation
  import opened Ranges
  import Glob
  import Lint

  const STAGE_REDACT_REGEX := "redact-regex"

  datatype Selector = Body | Attrs(glob: bytes)

  datatype RuleSpec = RuleSpec(name: bytes, pattern: bytes, mask: bytes, fields: seq<Selector>)

  datatype CompiledRule = CompiledRule(name: bytes, pattern: bytes, mask: nat, fields: seq<Selector>)

  datatype CompileError = NoFields(rule: bytes) | NestedRepetition(rule: bytes) | Rejected(rule: bytes) | SetRejected

  datatype Engine = Engine(rules: seq<CompiledRule>, masks: seq<bytes>)

  // ----- compiling

  predicate SpecFine(s: RuleSpec, accepts: bytes -> bool) {
    s.fields != [] && Lint.Accepted(s.pattern) && accepts(s.pattern)
  }

  /** A rule whose pattern is a well-formed one passes if and only if it names a field, no unbounded
      repetition in it contains another, and the regex engine takes it. */
  lemma SpecFineExactly(s: RuleSpec, accepts: bytes -> bool, t: Lint.Regex)
    requires Lint.Good(t) && s.pattern == Lint.Print(t)
    ensures SpecFine(s, accepts) <==> s.fields != [] && !Lint.NestedRepetition(t) && accepts(s.pattern)
  {
    hide Lint.Accepted, Lint.Good, Lint.Print, Lint.NestedRepetition;
    Lint.LintIsExact(t);
  }

  ghost predicate Blames(e: CompileError, s: RuleSpec, accepts: bytes -> bool) {
    match e
    case NoFields(r) => r == s.name && s.fields == []
    case NestedRepetition(r) => r == s.name && s.fields != [] && !Lint.Accepted(s.pattern)
    case Rejected(r) => r == s.name && s.fields != [] && Lint.Accepted(s.pattern) && !accepts(s.pattern)
    case SetRejected => false
  }

  ghost predicate BlamesFirst(e: CompileError, specs: seq<RuleSpec>, accepts: bytes -> bool) {
    exists i | 0 <= i < |specs| ::
      Blames(e, specs[i], accepts) && forall j | 0 <= j < i :: SpecFine(specs[j], accepts)
  }

  method CheckSpecs(specs: seq<RuleSpec>, accepts: bytes -> bool) returns (e: Option<CompileError>)
    ensures e.None? ==> forall s <- specs :: SpecFine(s, accepts)
    ensures e.Some? ==> BlamesFirst(e.value, specs, accepts)
  {
    for i := 0 to |specs|
      invariant forall j | 0 <= j < i :: SpecFine(specs[j], accepts)
    {
      var s := specs[i];
      if s.fields == [] {
        e := Some(NoFields(s.name));
        assert Blames(e.value, s, accepts);
        return;
      }
      var linted := Lint.CheckNestedRepetition(s.pattern);
      if !linted {
        e := Some(NestedRepetition(s.name));
        assert Blames(e.value, s, accepts);
        return;
      }
      if !accepts(s.pattern) {
        e := Some(Rejected(s.name));
        assert Blames(e.value, s, accepts);
        return;
      }
    }
    e := None;
  }

  /** The mask stands in the table, at an index that `id` is, cut to 32 bits. */
  ghost predicate Placed(masks: seq<bytes>, mask: bytes, id: nat) {
    exists p: nat :: p < |masks| && masks[p] == mask && id == p % U32
  }

  /** The engine runs the given rules in order, with ids of places in the mask table. */
  ghost predicate Compiles(e: Engine, specs: seq<RuleSpec>) {
    && |e.rules| == |specs|
    && forall i | 0 <= i < |specs| ::
         && e.rules[i].name == specs[i].name && e.rules[i].pattern == specs[i].pattern
         && e.rules[i].fields == specs[i].fields
         && Placed(e.masks, specs[i].mask, e.rules[i].mask)
  }

  ghost predicate Wanted(specs: seq<RuleSpec>, mask: bytes) {
    exists s <- specs :: s.mask == mask
  }

  /** No mask stands twice in the table, and every one of them is a rule's. */
  ghost predicate Deduplicated(e: Engine, specs: seq<RuleSpec>) {
    && (forall i, j | 0 <= i < j < |e.masks| :: e.masks[i] != e.masks[j])
    && forall i | 0 <= i < |e.masks| :: Wanted(specs, e.masks[i])
  }

  /** Every rule's id finds the rule's own mask. */
  ghost predicate FindsItsMask(e: Engine, specs: seq<RuleSpec>, i: nat)
    requires i < |specs| && i < |e.rules|
  {
    e.rules[i].mask < |e.masks| && e.masks[e.rules[i].mask] == specs[i].mask
  }

  /** Ids are 32-bit: every rule finds its own mask if and only if there are no more masks than
      that can number; beyond, the first mask past the end is mistaken for the first of all. */
  lemma MasksFaithful(e: Engine, specs: seq<RuleSpec>)
    requires Compiles(e, specs) && Deduplicated(e, specs)
    ensures |e.masks| <= U32 <==> forall i | 0 <= i < |specs| :: FindsItsMask(e, specs, i)
  {
    if |e.masks| > U32 {
      assert Wanted(specs, e.masks[U32]);
      var i :| 0 <= i < |specs| && specs[i].mask == e.masks[U32];
      var p: nat :| p < |e.masks| && e.masks[p] == specs[i].mask && e.rules[i].mask == p % U32;
      assert p == U32;
      assert !FindsItsMask(e, specs, i);
    } else {
      forall i | 0 <= i < |specs| ensures FindsItsMask(e, specs, i) {
        var p: nat :| p < |e.masks| && e.masks[p] == specs[i].mask && e.rules[i].mask == p % U32;
      }
    }
  }

  method Position(masks: seq<bytes>, mask: bytes) returns (at: Option<nat>)
    ensures at.Some? ==> at.value < |masks| && masks[at.value] == mask
    ensures at.None? ==> mask !in masks
  {
    for i := 0 to |masks|
      invariant forall j | 0 <= j < i :: masks[j] != mask
    {
      if masks[i] == mask { return Some(i); }
    }
    return None;
  }

  /** The table as it was, or with the missing mask added at its end. */
  ghost predicate Extends(e: Engine, masks: seq<bytes>, mask: bytes, p: nat) {
    || (masks == e.masks && p < |masks| && masks[p] == mask)
    || (masks == e.masks + [mask] && mask !in e.masks && p == |e.masks|)
  }

  lemma StillPlaced(masks: seq<bytes>, more: seq<bytes>, mask: bytes, id: nat)
    requires Placed(masks, mask, id) && masks <= more
    ensures Placed(more, mask, id)
  {
  }

  lemma PlacedAt(masks: seq<bytes>, p: nat)
    requires p < |masks|
    ensures Placed(masks, masks[p], p % U32)
  {
  }

  lemma AddRuleCompiles(e: Engine, specs: seq<RuleSpec>, s: RuleSpec, masks: seq<bytes>, p: nat)
    requires Compiles(e, specs) && Extends(e, masks, s.mask, p)
    ensures Compiles(Engine(e.rules + [CompiledRule(s.name, s.pattern, p % U32, s.fields)], masks), specs + [s])
  {
    hide Placed;
    assert p < |masks| && masks[p] == s.mask && e.masks <= masks;
    PlacedAt(masks, p);
    forall i | 0 <= i < |specs| ensures Placed(masks, specs[i].mask, e.rules[i].mask) {
      StillPlaced(e.masks, masks, specs[i].mask, e.rules[i].mask);
    }
  }

  lemma AddRuleDeduplicated(e: Engine, rules: seq<CompiledRule>, specs: seq<RuleSpec>, s: RuleSpec,
      masks: seq<bytes>, p: nat)
    requires Deduplicated(e, specs) && Extends(e, masks, s.mask, p)
    ensures Deduplicated(Engine(rules, masks), specs + [s])
  {
    assert s in specs + [s] && forall r <- specs :: r in specs + [s];
    forall i | 0 <= i < |masks| ensures Wanted(specs + [s], masks[i]) {
      assert masks[i] == s.mask || Wanted(specs, masks[i]);
    }
  }

  method CompileMasks(specs: seq<RuleSpec>) returns (e: Engine)
    ensures Compiles(e, specs) && Deduplicated(e, specs)
  {
    hide Compiles, Deduplicated, Extends;
    var rules: seq<CompiledRule>, masks: seq<bytes> := [], [];
    EmptyTable();
    for i := 0 to |specs|
      invariant Compiles(Engine(rules, masks), specs[..i]) && Deduplicated(Engine(rules, masks), specs[..i])
    {
      var s := specs[i];
      var at := Position(masks, s.mask);
      ghost var before := Engine(rules, masks);
      var p;
      if at.Some? {
        p := at.value;
      } else {
        masks := masks + [s.mask];
        p := |masks| - 1;
      }
      ExtendsEither(before, masks, s.mask, p);
      AddRuleCompiles(before, specs[..i], s, masks, p);
      AddRuleDeduplicated(before, rules + [CompiledRule(s.name, s.pattern, p % U32, s.fields)], specs[..i], s,
        masks, p);
      rules := rules + [CompiledRule(s.name, s.pattern, p % U32, s.fields)];
      assert specs[..i + 1] == specs[..i] + [s];
    }
    assert specs[..|specs|] == specs;
    e := Engine(rules, masks);
  }

  lemma EmptyTable()
    ensures Compiles(Engine([], []), []) && Deduplicated(Engine([], []), [])
  {
  }

  lemma ExtendsEither(e: Engine, masks: seq<bytes>, mask: bytes, p: nat)
    requires || (masks == e.masks && p < |masks| && masks[p] == mask)
             || (masks == e.masks + [mask] && mask !in e.masks && p == |e.masks|)
    ensures Extends(e, masks, mask, p)
  {
  }

  function Patterns(specs: seq<RuleSpec>): seq<bytes> {
    seq(|specs|, i requires 0 <= i < |specs| => specs[i].pattern)
  }

  method Compile(specs: seq<RuleSpec>, accepts: bytes -> bool, acceptsSet: seq<bytes> -> bool)
    returns (r: Result<Engine, CompileError>)
    ensures r.Ok? ==>
      (forall s <- specs :: SpecFine(s, accepts)) && Compiles(r.value, specs) && Deduplicated(r.value, specs)
    ensures r.Err? && !r.error.SetRejected? ==> BlamesFirst(r.error, specs, accepts)
    ensures r == Err(SetRejected) <==> (forall s <- specs :: SpecFine(s, accepts)) && !acceptsSet(Patterns(specs))
  {
    var bad := CheckSpecs(specs, accepts);
    if bad.Some? {
      assert exists s <- specs :: !SpecFine(s, accepts);
      return Err(bad.value);
    }
    if !acceptsSet(Patterns(specs)) {
      return Err(SetRejected);
    }
    var e := CompileMasks(specs);
    return Ok(e);
  }

  // ----- emitting spans

  datatype Match = Match(lo: nat, hi: nat)

  /** What the engine finds of a pattern in a text, in order. */
  type Finder = (bytes, bytes) -> seq<Match>

  ghost predicate Proper(find: Finder) {
    forall p, t :: forall m <- find(p, t) :: m.lo <= m.hi <= |t|
  }

  /** Bodies are viewed without a key, attribute values under theirs. */
  predicate Applies(rule: CompiledRule, key: Option<bytes>) {
    if key.None? then Body in rule.fields
    else exists f <- rule.fields :: f.Attrs? && Glob.GlobMatches(f.glob, key.value)
  }

  function SpanOf(rule: CompiledRule, v: View, m: Match): Span
    requires m.lo <= m.hi
  {
    Redaction(v.at + m.lo, v.at + m.hi, rule.mask)
  }

  ghost function MatchSpans(rule: CompiledRule, v: View, ms: seq<Match>, record: nat): seq<StageSpan>
    requires forall m <- ms :: m.lo <= m.hi
  {
    seq(|ms|, i requires 0 <= i < |ms| => StageSpan(STAGE_REDACT_REGEX, record, SpanOf(rule, v, ms[i])))
  }

  ghost function RulesSpans(rules: seq<CompiledRule>, find: Finder, v: View, key: Option<bytes>,
      record: nat): seq<StageSpan>
    requires Proper(find)
  {
    if rules == [] then []
    else
      RulesSpans(rules[..|rules| - 1], find, v, key, record) +
      if Applies(rules[|rules| - 1], key)
      then MatchSpans(rules[|rules| - 1], v, find(rules[|rules| - 1].pattern, v.text), record) else []
  }

  ghost function FieldSpans(rules: seq<CompiledRule>, find: Finder, v: View, key: Option<bytes>,
      record: nat): seq<StageSpan>
    requires Proper(find)
  {
    if v.text == [] then [] else RulesSpans(rules, find, v, key, record)
  }

  ghost function AttrsSpans(rules: seq<CompiledRule>, find: Finder, attrs: seq<Attr>, record: nat): seq<StageSpan>
    requires Proper(find)
  {
    if attrs == [] then []
    else
      var a := attrs[|attrs| - 1];
      AttrsSpans(rules, find, attrs[..|attrs| - 1], record) + FieldSpans(rules, find, a.value, Some(a.key.text), record)
  }

  ghost function RecordSpans(rules: seq<CompiledRule>, find: Finder, r: RecordView, record: nat): seq<StageSpan>
    requires Proper(find)
  {
    (if r.draft.body.Some? then FieldSpans(rules, find, r.draft.body.value, None, record) else [])
    + AttrsSpans(rules, find, r.draft.attrs, record)
  }

  ghost function StageSpans(rules: seq<CompiledRule>, find: Finder, records: seq<RecordView>): seq<StageSpan>
    requires Proper(find)
  {
    if records == [] then []
    else
      var last := |records| - 1;
      StageSpans(rules, find, records[..last]) + RecordSpans(rules, find, records[last], last)
  }

  method AppliesTo(rule: CompiledRule, key: Option<bytes>) returns (r: bool)
    ensures r == Applies(rule, key)
    ensures r ==> Takes(rule.fields, key)
    ensures key.None? || Glob.StarOnlyLast(key.value) ==> (r <==> Takes(rule.fields, key))
  {
    AppliesMeaning(rule, key);
    if key.None? {
      return Body in rule.fields;
    }
    for i := 0 to |rule.fields|
      invariant forall f <- rule.fields[..i] :: !(f.Attrs? && Glob.GlobMatches(f.glob, key.value))
    {
      assert rule.fields[..i + 1] == rule.fields[..i] + [rule.fields[i]];
      if rule.fields[i].Attrs? {
        var matched := Glob.MatchGlob(rule.fields[i].glob, key.value);
        if matched { return true; }
      }
    }
    assert rule.fields[..|rule.fields|] == rule.fields;
    return false;
  }

  function Total(counts: seq<nat>): nat {
    if counts == [] then 0 else Total(counts[..|counts| - 1]) + counts[|counts| - 1]
  }

  lemma {:induction false} TotalBumped(counts: seq<nat>, i: nat, n: nat)
    requires i < |counts|
    ensures Total(counts[i := counts[i] + n]) == Total(counts) + n
  {
    var last, t := |counts| - 1, counts[i := counts[i] + n];
    if i < last {
      TotalBumped(counts[..last], i, n);
      assert t[..last] == counts[..last][i := counts[i] + n];
    } else {
      assert t[..last] == counts[..last];
    }
  }

  class RedactStage {
    const rules: seq<CompiledRule>
    const find: Finder
    /** Matches so far, rule by rule. */
    var counts: seq<nat>

    constructor (rules: seq<CompiledRule>, find: Finder)
      ensures this.rules == rules && this.find == find && counts == seq(|rules|, _ => 0)
    {
      this.rules, this.find := rules, find;
      counts := seq(|rules|, _ => 0);
    }

    ghost predicate Valid()
      reads this
    {
      Proper(find) && |counts| == |rules|
    }

    /** One rule over one field: a span per match, and the rule's own counter. */
    method RedactRule(v: View, record: nat, rule: nat, decisions: Decisions)
      requires Valid() && rule < |rules|
      modifies this`counts, decisions
      ensures Valid() && decisions.sampling == old(decisions.sampling)
      ensures decisions.redactions
        == old(decisions.redactions) + MatchSpans(rules[rule], v, find(rules[rule].pattern, v.text), record)
      ensures counts == old(counts)[rule := old(counts)[rule] + |find(rules[rule].pattern, v.text)|]
    {
      var ms := find(rules[rule].pattern, v.text);
      for i := 0 to |ms|
        invariant |counts| == |rules| && decisions.sampling == old(decisions.sampling)
        invariant decisions.redactions == old(decisions.redactions) + MatchSpans(rules[rule], v, ms, record)[..i]
        invariant counts == old(counts)[rule := old(counts)[rule] + i]
      {
        assert ms[i] in ms;
        decisions.PushRedaction(STAGE_REDACT_REGEX, record,
          Redaction(v.at + ms[i].lo, v.at + ms[i].hi, rules[rule].mask));
        counts := counts[rule := counts[rule] + 1];
      }
    }

    method RedactField(v: View, key: Option<bytes>, record: nat, decisions: Decisions)
      requires Valid()
      modifies this`counts, decisions
      ensures Valid() && decisions.sampling == old(decisions.sampling)
      ensures decisions.redactions == old(decisions.redactions) + FieldSpans(rules, find, v, key, record)
      ensures Total(counts) + |old(decisions.redactions)| == old(Total(counts)) + |decisions.redactions|
    {
      hide Total;
      if |v.text| == 0 {
        return;
      }
      for i := 0 to |rules|
        invariant Valid() && decisions.sampling == old(decisions.sampling)
        invariant Total(counts) + |old(decisions.redactions)| == old(Total(counts)) + |decisions.redactions|
        invariant decisions.redactions == old(decisions.redactions) + RulesSpans(rules[..i], find, v, key, record)
      {
        assert rules[..i + 1][..i] == rules[..i];
        var applies := AppliesTo(rules[i], key);
        if applies {
          TotalBumped(counts, i, |find(rules[i].pattern, v.text)|);
          RedactRule(v, record, i, decisions);
        }
      }
      assert rules[..|rules|] == rules;
    }

    method RedactRecord(r: RecordView, record: nat, decisions: Decisions)
      requires Valid()
      modifies this`counts, decisions
      ensures Valid() && decisions.sampling == old(decisions.sampling)
      ensures decisions.redactions == old(decisions.redactions) + RecordSpans(rules, find, r, record)
      ensures Total(counts) + |old(decisions.redactions)| == old(Total(counts)) + |decisions.redactions|
    {
      hide FieldSpans, Total;
      if r.draft.body.Some? {
        RedactField(r.draft.body.value, None, record, decisions);
      }
      ghost var start := decisions.redactions;
      var attrs := r.draft.attrs;
      for i := 0 to |attrs|
        invariant Valid() && decisions.sampling == old(decisions.sampling)
        invariant Total(counts) + |old(decisions.redactions)| == old(Total(counts)) + |decisions.redactions|
        invariant decisions.redactions == start + AttrsSpans(rules, find, attrs[..i], record)
      {
        assert attrs[..i + 1][..i] == attrs[..i];
        RedactField(attrs[i].value, Some(attrs[i].key.text), record, decisions);
      }
      assert attrs[..|attrs|] == attrs;
    }

    method Apply(records: seq<RecordView>, decisions: Decisions)
      requires Valid()
      modifies this`counts, decisions
      ensures Valid() && decisions.sampling == old(decisions.sampling)
      ensures decisions.redactions == old(decisions.redactions) + StageSpans(rules, find, records)
      ensures Total(counts) + |old(decisions.redactions)| == old(Total(counts)) + |decisions.redactions|
    {
      hide RecordSpans, Total;
      for i := 0 to |records|
        invariant Valid() && decisions.sampling == old(decisions.sampling)
        invariant Total(counts) + |old(decisions.redactions)| == old(Total(counts)) + |decisions.redactions|
        invariant decisions.redactions == old(decisions.redactions) + StageSpans(rules, find, records[..i])
      {
        assert records[..i + 1][..i] == records[..i];
        RedactRecord(records[i], i, decisions);
      }
      assert records[..|records|] == records;
    }
  }

  // ----- what the spans mean

  /** `v`, under `key`, is one of the strings the stage scans in a record. */
  ghost predicate Scanned(r: RecordView, v: View, key: Option<bytes>) {
    || (key.None? && r.draft.body == Some(v))
    || (key.Some? && exists a <- r.draft.attrs :: a.value == v && a.key.text == key.value)
  }

  /** The span is one match of an applicable rule in a string the stage scans in the record. */
  ghost predicate Justified(s: StageSpan, rules: seq<CompiledRule>, find: Finder, records: seq<RecordView>)
    requires Proper(find)
  {
    s.stage == STAGE_REDACT_REGEX && s.record < |records| &&
    exists rule <- rules, v: View, key :: FoundBy(s.span, rule, find, records[s.record], v, key)
  }

  ghost predicate FoundBy(s: Span, rule: CompiledRule, find: Finder, r: RecordView, v: View, key: Option<bytes>)
    requires Proper(find)
  {
    && Scanned(r, v, key) && v.text != [] && Applies(rule, key)
    && exists m <- find(rule.pattern, v.text) :: s == SpanOf(rule, v, m)
  }

  lemma {:induction false} RulesSpansMeaning(rules: seq<CompiledRule>, find: Finder, v: View, key: Option<bytes>,
      record: nat, s: StageSpan)
    requires Proper(find)
    ensures s in RulesSpans(rules, find, v, key, record) <==>
      s.stage == STAGE_REDACT_REGEX && s.record == record
      && exists rule <- rules :: Applies(rule, key) && exists m <- find(rule.pattern, v.text) ::
        s.span == SpanOf(rule, v, m)
  {
    hide Applies;
    if rules != [] {
      var last := |rules| - 1;
      RulesSpansMeaning(rules[..last], find, v, key, record, s);
      assert rules == rules[..last] + [rules[last]];
      MatchSpansMeaning(rules[last], v, find(rules[last].pattern, v.text), record, s);
    }
  }

  lemma MatchSpansMeaning(rule: CompiledRule, v: View, ms: seq<Match>, record: nat, s: StageSpan)
    requires forall m <- ms :: m.lo <= m.hi
    ensures s in MatchSpans(rule, v, ms, record) <==>
      s.stage == STAGE_REDACT_REGEX && s.record == record && exists m <- ms :: s.span == SpanOf(rule, v, m)
  {
    if s.stage == STAGE_REDACT_REGEX && s.record == record && exists m <- ms :: s.span == SpanOf(rule, v, m) {
      var m :| m in ms && s.span == SpanOf(rule, v, m);
      var i :| 0 <= i < |ms| && ms[i] == m;
      assert MatchSpans(rule, v, ms, record)[i] == s;
    }
  }

  lemma {:induction false} AttrsSpansMeaning(rules: seq<CompiledRule>, find: Finder, attrs: seq<Attr>, record: nat,
      s: StageSpan)
    requires Proper(find)
    ensures s in AttrsSpans(rules, find, attrs, record) <==>
      exists a <- attrs :: s in FieldSpans(rules, find, a.value, Some(a.key.text), record)
  {
    hide FieldSpans;
    if attrs != [] {
      var last := |attrs| - 1;
      AttrsSpansMeaning(rules, find, attrs[..last], record, s);
      assert attrs == attrs[..last] + [attrs[last]];
    }
  }

  lemma FieldSpansMeaning(rules: seq<CompiledRule>, find: Finder, r: RecordView, v: View, key: Option<bytes>,
      record: nat, s: StageSpan)
    requires Proper(find) && Scanned(r, v, key)
    ensures s in FieldSpans(rules, find, v, key, record) <==>
      s.stage == STAGE_REDACT_REGEX && s.record == record && exists rule <- rules ::
        FoundBy(s.span, rule, find, r, v, key)
  {
    hide Applies, Scanned;
    RulesSpansMeaning(rules, find, v, key, record, s);
  }

  lemma RecordSpansMeaning(rules: seq<CompiledRule>, find: Finder, r: RecordView, record: nat, s: StageSpan)
    requires Proper(find)
    ensures s in RecordSpans(rules, find, r, record) <==>
      s.stage == STAGE_REDACT_REGEX && s.record == record
      && exists rule <- rules, v: View, key :: FoundBy(s.span, rule, find, r, v, key)
  {
    hide FieldSpans, FoundBy;
    AttrsSpansMeaning(rules, find, r.draft.attrs, record, s);
    forall v: View, key | Scanned(r, v, key)
      ensures s in FieldSpans(rules, find, v, key, record) <==>
        s.stage == STAGE_REDACT_REGEX && s.record == record && exists rule <- rules ::
          FoundBy(s.span, rule, find, r, v, key)
    {
      FieldSpansMeaning(rules, find, r, v, key, record, s);
    }
    forall rule <- rules, v: View, key | FoundBy(s.span, rule, find, r, v, key) ensures Scanned(r, v, key) {
      FoundScanned(s.span, rule, find, r, v, key);
    }
    if r.draft.body.Some? { assert Scanned(r, r.draft.body.value, None); }
    forall a <- r.draft.attrs ensures Scanned(r, a.value, Some(a.key.text)) {}
  }

  lemma FoundScanned(s: Span, rule: CompiledRule, find: Finder, r: RecordView, v: View, key: Option<bytes>)
    requires Proper(find) && FoundBy(s, rule, find, r, v, key)
    ensures Scanned(r, v, key)
  {
  }

  /** The stage emits exactly one kind of span: the matches of the applicable rules in the
      strings of the records, all of them, and nothing else. */
  lemma {:induction false} StageSpansMeaning(rules: seq<CompiledRule>, find: Finder, records: seq<RecordView>,
      s: StageSpan)
    requires Proper(find)
    ensures s in StageSpans(rules, find, records) <==> Justified(s, rules, find, records)
  {
    hide RecordSpans, FoundBy;
    if records != [] {
      var last := |records| - 1;
      StageSpansMeaning(rules, find, records[..last], s);
      RecordSpansMeaning(rules, find, records[last], last, s);
    }
  }

  lemma {:induction false} LabelledMeaning(redactions: seq<StageSpan>, record: nat, s: Span)
    ensures s in Labelled(redactions, record) <==> exists x <- redactions :: x.record == record && x.span == s
  {
    if redactions != [] {
      LabelledMeaning(redactions[1..], record, s);
      assert redactions == [redactions[0]] + redactions[1..];
    }
  }

  /** The span of every match of an applicable rule is a candidate of its string's window. */
  lemma MatchIsCandidate(
        rules: seq<CompiledRule>, find: Finder, records: seq<RecordView>, d: Decided,
        record: nat, v: View, key: Option<bytes>, rule: CompiledRule, m: Match)
    requires Proper(find) && d.redactions == StageSpans(rules, find, records)
    requires record < |records| && Scanned(records[record], v, key) && v.text != []
    requires rule in rules && Applies(rule, key) && m in find(rule.pattern, v.text)
    ensures SpanOf(rule, v, m) in Within(d.SpansFor(record), v.at, v.End())
  {
    hide StageSpans, Scanned, Applies, Labelled;
    var s := SpanOf(rule, v, m);
    var x := StageSpan(STAGE_REDACT_REGEX, record, s);
    assert FoundBy(s, rule, find, records[record], v, key);
    StageSpansMeaning(rules, find, records, x);
    LabelledMeaning(d.redactions, record, s);
  }

  /** What a rule's selectors say, a body being viewed under no key. */
  ghost predicate Takes(fields: seq<Selector>, key: Option<bytes>) {
    if key.None? then Body in fields else exists g :: Attrs(g) in fields && Glob.Matches(g, key.value)
  }

  lemma AppliesMeaning(rule: CompiledRule, key: Option<bytes>)
    ensures Applies(rule, key) ==> Takes(rule.fields, key)
    ensures key.None? || Glob.StarOnlyLast(key.value) ==> (Applies(rule, key) <==> Takes(rule.fields, key))
  {
    hide Glob.GlobMatches, Glob.Matches, Glob.StarOnlyLast;
    if key.Some? {
      if Applies(rule, key) {
        var f :| f in rule.fields && f.Attrs? && Glob.GlobMatches(f.glob, key.value);
        assert Attrs(f.glob) in rule.fields;
        Glob.MatcherIsSound(f.glob, key.value);
      }
      Glob.FaithfulKeys(key.value);
    }
  }

  lemma ScannedApart(r: RecordView, v: View, key: Option<bytes>, w: View, key': Option<bytes>)
    requires StringsApart(r.draft) && Scanned(r, v, key) && Scanned(r, w, key')
    ensures (v == w && key == key') || Apart(v, w)
  {
    if key.Some? && key'.Some? {
      var a :| a in r.draft.attrs && a.value == v && a.key.text == key.value;
      var b :| b in r.draft.attrs && b.value == w && b.key.text == key'.value;
      var i :| 0 <= i < |r.draft.attrs| && r.draft.attrs[i] == a;
      var j :| 0 <= j < |r.draft.attrs| && r.draft.attrs[j] == b;
      assert i == j || i < j || j < i;
    }
  }

  /** A span that stands in the window of a string comes from that string and no other. */
  lemma OwnSpans(rules: seq<CompiledRule>, find: Finder, records: seq<RecordView>, record: nat, v: View,
                 key: Option<bytes>, s: Span)
    requires Proper(find) && record < |records| && StringsApart(records[record].draft)
    requires Scanned(records[record], v, key) && v.at <= s.lo && s.hi <= v.End()
    ensures StageSpan(STAGE_REDACT_REGEX, record, s) in StageSpans(rules, find, records)
      <==> exists rule <- rules :: FoundBy(s, rule, find, records[record], v, key)
  {
    hide StageSpans, Scanned, Applies, StringsApart;
    var r, x := records[record], StageSpan(STAGE_REDACT_REGEX, record, s);
    StageSpansMeaning(rules, find, records, x);
    if Justified(x, rules, find, records) {
      var rule, w: View, k :| rule in rules && FoundBy(s, rule, find, r, w, k);
      ScannedApart(r, v, key, w, k);
      InWindow(s, rule, find, r, w, k);
    }
  }

  /** In a record's body the stage emits a span if and only if it is a match of a rule that lists
      Body among its fields, and it carries that rule's mask. */
  lemma BodySpans(rules: seq<CompiledRule>, find: Finder, records: seq<RecordView>, record: nat, lo: nat, hi: nat,
                  mask: nat)
    requires Proper(find) && record < |records| && StringsApart(records[record].draft)
    requires records[record].draft.body.Some?
    requires var v := records[record].draft.body.value; v.at <= lo <= hi <= v.End()
    ensures var v := records[record].draft.body.value;
      StageSpan(STAGE_REDACT_REGEX, record, Redaction(lo, hi, mask)) in StageSpans(rules, find, records) <==>
      v.text != [] && exists rule <- rules ::
        (Body in rule.fields && rule.mask == mask
         && exists m <- find(rule.pattern, v.text) :: v.at + m.lo == lo && v.at + m.hi == hi)
  {
    hide StageSpans, StringsApart;
    var v := records[record].draft.body.value;
    OwnSpans(rules, find, records, record, v, None, Redaction(lo, hi, mask));
  }

  /** In an attribute's value the stage emits a span if and only if it is a match of a rule one of
      whose key patterns matches the key, and it carries that rule's mask. */
  lemma ValueSpans(rules: seq<CompiledRule>, find: Finder, records: seq<RecordView>, record: nat, a: Attr, lo: nat,
                   hi: nat, mask: nat)
    requires Proper(find) && record < |records| && StringsApart(records[record].draft)
    requires a in records[record].draft.attrs && Glob.StarOnlyLast(a.key.text)
    requires a.value.at <= lo <= hi <= a.value.End()
    ensures StageSpan(STAGE_REDACT_REGEX, record, Redaction(lo, hi, mask)) in StageSpans(rules, find, records) <==>
      a.value.text != [] && exists rule <- rules ::
        (rule.mask == mask && (exists g :: Attrs(g) in rule.fields && Glob.Matches(g, a.key.text))
         && exists m <- find(rule.pattern, a.value.text) :: a.value.at + m.lo == lo && a.value.at + m.hi == hi)
  {
    hide StageSpans, StringsApart, Applies, Glob.StarOnlyLast, Glob.Matches;
    OwnSpans(rules, find, records, record, a.value, Some(a.key.text), Redaction(lo, hi, mask));
    forall rule <- rules
      ensures Applies(rule, Some(a.key.text)) <==>
        exists g :: Attrs(g) in rule.fields && Glob.Matches(g, a.key.text)
    {
      AppliesMeaning(rule, Some(a.key.text));
    }
  }

  /** A candidate is replaced whole or starts inside a replaced span. */
  lemma {:induction false} CandidateIsCovered(
        rules: seq<CompiledRule>, find: Finder, records: seq<RecordView>, d: Decided,
        record: nat, v: View, key: Option<bytes>, rule: CompiledRule, m: Match)
    requires Proper(find) && d.redactions == StageSpans(rules, find, records)
    requires record < |records| && Scanned(records[record], v, key) && v.text != []
    requires rule in rules && Applies(rule, key) && m in find(rule.pattern, v.text)
    ensures var s, selected := SpanOf(rule, v, m), Selected(v, d.SpansFor(record));
      && (s in selected || exists c <- selected :: c.lo <= s.lo < c.hi)
      && (s.lo < s.hi ==> Covers(selected, s.lo))
  {
    hide Effective, StageSpans, Scanned, Applies, Labelled;
    MatchIsCandidate(rules, find, records, d, record, v, key, rule, m);
    SelectionMeaning(d.SpansFor(record), v.at, v.End());
  }

  /** Every match of a rule in a string its fields select is replaced whole, or starts inside a
      replaced span: its first byte is never readable; what can stay readable is a tail of it. */
  lemma {:induction false} EveryMatchIsCovered(
        rules: seq<CompiledRule>, find: Finder, records: seq<RecordView>, d: Decided,
        record: nat, v: View, key: Option<bytes>, rule: CompiledRule, m: Match)
    requires Proper(find) && d.redactions == StageSpans(rules, find, records)
    requires record < |records| && Scanned(records[record], v, key) && v.text != []
    requires rule in rules && m in find(rule.pattern, v.text)
    requires if key.None? then Body in rule.fields
      else Glob.StarOnlyLast(key.value) && exists g :: Attrs(g) in rule.fields && Glob.Matches(g, key.value)
    ensures var lo, hi, selected := v.at + m.lo, v.at + m.hi, Selected(v, d.SpansFor(record));
      && (Redaction(lo, hi, rule.mask) in selected || exists c <- selected :: c.lo <= lo < c.hi)
      && (lo < hi ==> exists c <- selected :: c.lo <= lo < c.hi)
  {
    hide Effective, StageSpans, Scanned, Applies, Labelled, Glob.StarOnlyLast, Glob.Matches;
    AppliesMeaning(rule, key);
    CandidateIsCovered(rules, find, records, d, record, v, key, rule, m);
  }

  // ----- when every matched byte is masked

  /** One match of one applicable rule in the string `v` of a record. */
  ghost predicate Matched(r: RecordView, v: View, rules: seq<CompiledRule>, find: Finder, s: Span)
    requires Proper(find)
  {
    exists rule <- rules, key :: FoundBy(s, rule, find, r, v, key)
  }

  ghost predicate MatchesMasked(r: RecordView, v: View, rules: seq<CompiledRule>, find: Finder, selected: seq<Span>)
    requires Proper(find)
  {
    forall s: Span, x: nat | Matched(r, v, rules, find, s) && s.lo <= x < s.hi :: Covers(selected, x)
  }

  /** The candidates of a string's window are exactly the matches of its own rules. */
  lemma OwnMatch(
        rules: seq<CompiledRule>, find: Finder, records: seq<RecordView>, d: Decided,
        record: nat, v: View, key: Option<bytes>, s: Span)
    requires Proper(find) && d.redactions == StageSpans(rules, find, records)
    requires record < |records| && StringsApart(records[record].draft) && Scanned(records[record], v, key)
    ensures s in d.SpansFor(record) && v.at <= s.lo && s.hi <= v.End()
      <==> exists rule <- rules :: FoundBy(s, rule, find, records[record], v, key)
  {
    hide StageSpans, Scanned, Applies, Labelled, StringsApart;
    var r, x := records[record], StageSpan(STAGE_REDACT_REGEX, record, s);
    LabelledMeaning(d.redactions, record, s);
    forall y | y in d.redactions && y.record == record && y.span == s ensures y == x {
      StageSpansMeaning(rules, find, records, y);
    }
    forall rule <- rules | FoundBy(s, rule, find, r, v, key) ensures v.at <= s.lo && s.hi <= v.End() {
      InWindow(s, rule, find, r, v, key);
    }
    if v.at <= s.lo && s.hi <= v.End() { OwnSpans(rules, find, records, record, v, key, s); }
  }

  lemma CandidatesAreMatches(
        rules: seq<CompiledRule>, find: Finder, records: seq<RecordView>, d: Decided,
        record: nat, v: View, key: Option<bytes>, s: Span)
    requires Proper(find) && d.redactions == StageSpans(rules, find, records)
    requires record < |records| && StringsApart(records[record].draft) && Scanned(records[record], v, key)
    ensures s in Within(d.SpansFor(record), v.at, v.End()) <==> Matched(records[record], v, rules, find, s)
  {
    hide StageSpans, Scanned, Applies, Labelled, StringsApart;
    OwnMatch(rules, find, records, d, record, v, key, s);
    if Matched(records[record], v, rules, find, s) {
      var rule, k :| rule in rules && FoundBy(s, rule, find, records[record], v, k);
      ScannedApart(records[record], v, key, v, k);
    }
  }

  lemma InWindow(s: Span, rule: CompiledRule, find: Finder, r: RecordView, v: View, key: Option<bytes>)
    requires Proper(find) && FoundBy(s, rule, find, r, v, key)
    ensures v.at <= s.lo && s.hi <= v.End()
  {
  }

  /** The decisions of the stage on a parsed request, and one string of one of its records. */
  ghost predicate Redacts(
        raw: bytes, rules: seq<CompiledRule>, find: Finder, d: Decided, record: nat, v: View)
    requires Proper(find)
  {
    && Parse(raw).Ok? && d.redactions == StageSpans(rules, find, Parse(raw).value)
    && record < |Parse(raw).value| && v.text != []
    && exists key :: Scanned(Parse(raw).value[record], v, key)
  }

  lemma RecordApart(raw: bytes, record: nat)
    requires Parse(raw).Ok? && record < |Parse(raw).value|
    ensures StringsApart(Parse(raw).value[record].draft)
  {
    hide Parse, RecordWindows, Fields, StringsApart, DraftWithin;
    ParseWithin(raw);
  }

  lemma OwnCandidates(raw: bytes, rules: seq<CompiledRule>, find: Finder, d: Decided, record: nat, v: View)
    requires Proper(find) && Redacts(raw, rules, find, d, record, v)
    ensures Parse(raw).Ok? && record < |Parse(raw).value|
    ensures var r, candidates := Parse(raw).value[record], Within(d.SpansFor(record), v.at, v.End());
      && (forall s: Span :: Matched(r, v, rules, find, s) ==> s in candidates)
      && (forall s <- candidates :: v.at <= s.lo && (s.lo < s.hi ==> Matched(r, v, rules, find, s)))
  {
    hide Parse, StageSpans, Scanned, Matched, Labelled, StringsApart;
    var records := Parse(raw).value;
    var key :| Scanned(records[record], v, key);
    RecordApart(raw, record);
    forall s: Span
      ensures Matched(records[record], v, rules, find, s) ==> s in Within(d.SpansFor(record), v.at, v.End())
      ensures s in Within(d.SpansFor(record), v.at, v.End()) && s.lo < s.hi ==>
        Matched(records[record], v, rules, find, s)
    {
      CandidatesAreMatches(rules, find, records, d, record, v, key, s);
    }
  }

  /** Every byte that any rule matches in a string is masked if and only if, in one pass over the
      matches in order, no discarded one reaches past the selected ones into a gap. */
  lemma EveryMatchedByteIsMasked(
        raw: bytes, rules: seq<CompiledRule>, find: Finder, d: Decided, record: nat, v: View)
    requires Proper(find) && Redacts(raw, rules, find, d, record, v)
    ensures MatchesMasked(Parse(raw).value[record], v, rules, find, Selected(v, d.SpansFor(record)))
      <==> NoTail(Sort(Within(d.SpansFor(record), v.at, v.End())), v.at, v.at)
  {
    hide Parse, Redacts, Matched, Labelled, Covers, NoTail, Sort, Greedy, Within;
    OwnCandidates(raw, rules, find, d, record, v);
    MaskedExactly(d.SpansFor(record), v.at, v.End());
  }

  /** No match of a string starts inside another and ends outside it. */
  ghost predicate MatchesNest(r: RecordView, v: View, rules: seq<CompiledRule>, find: Finder)
    requires Proper(find)
  {
    forall a: Span, b: Span | Matched(r, v, rules, find, a) && Matched(r, v, rules, find, b) ::
      a.lo <= b.lo < a.hi ==> b.hi <= a.hi
  }

  /** A condition to check on the matches alone: when they nest, every matched byte is masked. */
  lemma NestedMatchesAreMasked(
        raw: bytes, rules: seq<CompiledRule>, find: Finder, d: Decided, record: nat, v: View)
    requires Proper(find) && Redacts(raw, rules, find, d, record, v)
    requires MatchesNest(Parse(raw).value[record], v, rules, find)
    ensures MatchesMasked(Parse(raw).value[record], v, rules, find, Selected(v, d.SpansFor(record)))
  {
    hide Parse, Redacts, Matched, Labelled, Covers, Sort, Greedy, Within;
    OwnCandidates(raw, rules, find, d, record, v);
    NestedMasked(d.SpansFor(record), v.at, v.End());
  }

  /** Any two matches of a string are one and the same stretch, or share no byte. */
  ghost predicate MatchesDisjoint(r: RecordView, v: View, rules: seq<CompiledRule>, find: Finder)
    requires Proper(find)
  {
    forall a: Span, b: Span | Matched(r, v, rules, find, a) && Matched(r, v, rules, find, b) ::
      (a.lo == b.lo && a.hi == b.hi) || a.hi <= b.lo || b.hi <= a.lo
  }

  /** So it is when the matches are pairwise disjoint. */
  lemma DisjointMatchesAreMasked(
        raw: bytes, rules: seq<CompiledRule>, find: Finder, d: Decided, record: nat, v: View)
    requires Proper(find) && Redacts(raw, rules, find, d, record, v)
    requires MatchesDisjoint(Parse(raw).value[record], v, rules, find)
    ensures MatchesMasked(Parse(raw).value[record], v, rules, find, Selected(v, d.SpansFor(record)))
  {
    hide Parse, Matched, Redacts, MatchesMasked;
    NestedMatchesAreMasked(raw, rules, find, d, record, v);
  }

  /** The engine's matches of one pattern in one text are in order and share no byte. */
  ghost predicate NonOverlapping(find: Finder) {
    forall p, t :: forall i, j | 0 <= i < j < |find(p, t)| :: find(p, t)[i].hi <= find(p, t)[j].lo
  }

  /** And so it is whenever all the rules that apply to the string share one pattern. */
  lemma OnePatternIsMasked(
        raw: bytes, rules: seq<CompiledRule>, find: Finder, d: Decided, record: nat, v: View, pattern: bytes)
    requires Proper(find) && NonOverlapping(find) && Redacts(raw, rules, find, d, record, v)
    requires forall rule <- rules, key | Scanned(Parse(raw).value[record], v, key) && Applies(rule, key) ::
      rule.pattern == pattern
    ensures MatchesMasked(Parse(raw).value[record], v, rules, find, Selected(v, d.SpansFor(record)))
  {
    hide Parse, StageSpans, MatchesMasked, Scanned, Applies;
    var r := Parse(raw).value[record];
    forall a: Span, b: Span | Matched(r, v, rules, find, a) && Matched(r, v, rules, find, b)
      ensures (a.lo == b.lo && a.hi == b.hi) || a.hi <= b.lo || b.hi <= a.lo
    {
      var i := MatchOf(r, v, rules, find, pattern, a);
      var j := MatchOf(r, v, rules, find, pattern, b);
      assert i == j || i < j || j < i;
    }
    DisjointMatchesAreMasked(raw, rules, find, d, record, v);
  }

  lemma MatchOf(r: RecordView, v: View, rules: seq<CompiledRule>, find: Finder, pattern: bytes, s: Span)
      returns (i: nat)
    requires Proper(find) && Matched(r, v, rules, find, s)
    requires forall rule <- rules, key | Scanned(r, v, key) && Applies(rule, key) :: rule.pattern == pattern
    ensures i < |find(pattern, v.text)|
    ensures s.lo == v.at + find(pattern, v.text)[i].lo && s.hi == v.at + find(pattern, v.text)[i].hi
  {
    hide Scanned, Applies;
    var rule, key :| rule in rules && FoundBy(s, rule, find, r, v, key);
    var m :| m in find(rule.pattern, v.text) && s == SpanOf(rule, v, m);
    i :| 0 <= i < |find(pattern, v.text)| && find(pattern, v.text)[i] == m;
  }

  /** Spans of the stage use masks of the engine the rules were compiled in, so assembly never
      meets an unknown mask. */
  lemma StageMasksCompiled(e: Engine, specs: seq<RuleSpec>, find: Finder, records: seq<RecordView>, d: Decided)
    requires Compiles(e, specs) && Proper(find) && d.redactions == StageSpans(e.rules, find, records)
    ensures MasksCompiled(d, e.masks)
  {
    hide StageSpans, Applies, Scanned;
    forall s <- d.redactions ensures s.span.mask < |e.masks| {
      StageSpansMeaning(e.rules, find, records, s);
      var rule, v: View, key :| rule in e.rules && FoundBy(s.span, rule, find, records[s.record], v, key);
    }
  }

  /** Every span the stage emits for a parsed request lies inside the window of its own record. */
  lemma StageSpansInside(raw: bytes, rules: seq<CompiledRule>, find: Finder, s: StageSpan)
    requires Parse(raw).Ok? && Proper(find) && s in StageSpans(rules, find, Parse(raw).value)
    ensures var windows := RecordWindows(Fields(raw), 0, Request);
      s.record < |windows| && windows[s.record].at <= s.span.lo && s.span.hi <= windows[s.record].End()
  {
    hide StageSpans, Applies, Parse, RecordWindows, Fields;
    ParseWithin(raw);
    StageSpansMeaning(rules, find, Parse(raw).value, s);
    var r := Parse(raw).value[s.record];
    var rule, v: View, key :| rule in rules && FoundBy(s.span, rule, find, r, v, key);
    if key.Some? {
      var a :| a in r.draft.attrs && a.value == v;
      assert AttrWithin(a, RecordWindows(Fields(raw), 0, Request)[s.record]);
    }
  }
}
