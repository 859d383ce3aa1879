/** The byte stream the policy fingerprint hashes, and why it can be read back in one way only. */
module Fingerprint {
  import opened Prelude

  type u16 = n: int | 0 <= n < 0x1_0000

  datatype SamplingRule = SamplingRule(namespace: Option<bytes>, severityLte: Option<bytes>, target: u16)

  datatype RegexRule = RegexRule(name: bytes, pattern: bytes, mask: bytes, fields: seq<bytes>)

  datatype Policy = Policy(defaultTarget: u16, rules: seq<SamplingRule>, redaction: seq<RegexRule>)

  // ----- UTF-8 (RFC 3629, section 4)

  predicate Tail(b: byte) { 0x80 <= b <= 0xBF }

  function CharLength(s: bytes): Option<nat>
    ensures CharLength(s).Some? ==> 0 < CharLength(s).value <= |s|
  {
    if s == [] then None
    else if s[0] <= 0x7F then Some(1)
    else if 0xC2 <= s[0] <= 0xDF && |s| >= 2 && Tail(s[1]) then Some(2)
    else if 0xE0 <= s[0] <= 0xEF && |s| >= 3 && Tail(s[2])
      && (if s[0] == 0xE0 then 0xA0 <= s[1] <= 0xBF else if s[0] == 0xED then 0x80 <= s[1] <= 0x9F else Tail(s[1]))
        then Some(3)
    else if 0xF0 <= s[0] <= 0xF4 && |s| >= 4 && Tail(s[2]) && Tail(s[3])
      && (if s[0] == 0xF0 then 0x90 <= s[1] <= 0xBF else if s[0] == 0xF4 then 0x80 <= s[1] <= 0x8F else Tail(s[1]))
        then Some(4)
    else None
  }

  predicate Utf8(s: bytes) {
    s == [] || (CharLength(s).Some? && Utf8(s[CharLength(s).value..]))
  }

  /** A string the stream can carry: UTF-8 without NUL. */
  predicate Fit(s: bytes) { Utf8(s) && 0 !in s }

  /** UTF-8 has no use for the bytes the stream separates its sections with. */
  lemma {:induction false} Utf8Bytes(s: bytes)
    requires Utf8(s)
    ensures 0xFE !in s && 0xFF !in s
  {
    if s != [] {
      var n := CharLength(s).value;
      Utf8Bytes(s[n..]);
      assert s == s[..n] + s[n..];
    }
  }

  // ----- the stream

  function OrEmpty(s: Option<bytes>): bytes {
    if s.Some? then s.value else []
  }

  function LittleEndian(n: u16): bytes { [n % 256, n / 256] }

  function FromLittleEndian(lo: byte, hi: byte): u16 { lo as int + 256 * (hi as int) }

  /** Each text, then a NUL. */
  function TextsBytes(texts: seq<bytes>): bytes {
    if texts == [] then [] else texts[0] + [0] + TextsBytes(texts[1..])
  }

  function RuleBytes(r: SamplingRule): bytes {
    OrEmpty(r.namespace) + [0] + (OrEmpty(r.severityLte) + [0] + LittleEndian(r.target))
  }

  function RulesBytes(rules: seq<SamplingRule>): bytes {
    if rules == [] then [] else RuleBytes(rules[0]) + RulesBytes(rules[1..])
  }

  function RegexBytes(r: RegexRule): bytes {
    TextsBytes([r.name, r.pattern, r.mask]) + (TextsBytes(r.fields) + [0xFE])
  }

  function RedactionBytes(rules: seq<RegexRule>): bytes {
    if rules == [] then [] else RegexBytes(rules[0]) + RedactionBytes(rules[1..])
  }

  function Stream(p: Policy): bytes {
    LittleEndian(p.defaultTarget) + (RulesBytes(p.rules) + ([0xFF] + RedactionBytes(p.redaction)))
  }

  lemma Regroup(a: bytes, b: bytes, c: bytes)
    ensures a + b + c == a + (b + c)
  {
  }

  /** Everything the hasher has been fed. */
  class Hasher {
    var fed: bytes

    constructor ()
      ensures fed == []
    {
      fed := [];
    }

    method Update(s: bytes)
      modifies this
      ensures fed == old(fed) + s
    {
      fed := fed + s;
    }

    method FeedTexts(texts: seq<bytes>)
      modifies this
      ensures fed == old(fed) + TextsBytes(texts)
    {
      hide TextsBytes;
      TextsUnfold(texts);
      for i := 0 to |texts|
        invariant fed + TextsBytes(texts[i..]) == old(fed) + TextsBytes(texts)
      {
        TextsUnfold(texts[i..]);
        ghost var before := fed;
        Update(texts[i]);
        Update([0]);
        assert texts[i..][1..] == texts[i + 1..];
        Regroup(before, texts[i], [0]);
        Regroup(before, texts[i] + [0], TextsBytes(texts[i + 1..]));
      }
      TextsUnfold(texts[|texts|..]);
    }

    method FeedRule(r: SamplingRule)
      modifies this
      ensures fed == old(fed) + RuleBytes(r)
    {
      var namespace, severity := OrEmpty(r.namespace), OrEmpty(r.severityLte);
      Update(namespace);
      Update([0]);
      Regroup(old(fed), namespace, [0]);
      ghost var half := fed;
      Update(severity);
      Update([0]);
      Update(LittleEndian(r.target));
      Regroup(half, severity, [0]);
      Regroup(half, severity + [0], LittleEndian(r.target));
      Regroup(old(fed), namespace + [0], severity + [0] + LittleEndian(r.target));
    }

    method FeedRegexRule(r: RegexRule)
      modifies this
      ensures fed == old(fed) + RegexBytes(r)
    {
      hide TextsBytes;
      FeedTexts([r.name, r.pattern, r.mask]);
      ghost var half := fed;
      FeedTexts(r.fields);
      Update([0xFE]);
      Regroup(half, TextsBytes(r.fields), [0xFE]);
      Regroup(old(fed), TextsBytes([r.name, r.pattern, r.mask]), TextsBytes(r.fields) + [0xFE]);
    }

    method FeedRules(rules: seq<SamplingRule>)
      modifies this
      ensures fed == old(fed) + RulesBytes(rules)
    {
      hide RuleBytes;
      for i := 0 to |rules|
        invariant fed + RulesBytes(rules[i..]) == old(fed) + RulesBytes(rules)
      {
        ghost var before := fed;
        FeedRule(rules[i]);
        assert rules[i..][1..] == rules[i + 1..];
        Regroup(before, RuleBytes(rules[i]), RulesBytes(rules[i + 1..]));
      }
    }

    method FeedRedaction(rules: seq<RegexRule>)
      modifies this
      ensures fed == old(fed) + RedactionBytes(rules)
    {
      hide RegexBytes;
      for i := 0 to |rules|
        invariant fed + RedactionBytes(rules[i..]) == old(fed) + RedactionBytes(rules)
      {
        ghost var before := fed;
        FeedRegexRule(rules[i]);
        assert rules[i..][1..] == rules[i + 1..];
        Regroup(before, RegexBytes(rules[i]), RedactionBytes(rules[i + 1..]));
      }
    }

    method FeedPolicy(p: Policy)
      modifies this
      ensures fed == old(fed) + Stream(p)
    {
      hide RulesBytes, RedactionBytes;
      Update(LittleEndian(p.defaultTarget));
      ghost var first := fed;
      FeedRules(p.rules);
      ghost var second := fed;
      Update([0xFF]);
      FeedRedaction(p.redaction);
      Regroup(second, [0xFF], RedactionBytes(p.redaction));
      Regroup(first, RulesBytes(p.rules), [0xFF] + RedactionBytes(p.redaction));
      Regroup(old(fed), LittleEndian(p.defaultTarget), RulesBytes(p.rules) + ([0xFF] + RedactionBytes(p.redaction)));
    }
  }

  lemma TextsUnfold(texts: seq<bytes>)
    ensures TextsBytes(texts) == if texts == [] then [] else texts[0] + [0] + TextsBytes(texts[1..])
  {
  }

  // ----- reading it back

  /** The bytes up to the first NUL, and what follows it. */
  function Cut(s: bytes): Option<(bytes, bytes)>
    ensures Cut(s).Some? ==> |Cut(s).value.1| < |s|
  {
    if s == [] then None
    else if s[0] == 0 then Some(([], s[1..]))
    else
      var c := Cut(s[1..]);
      if c.None? then None else Some(([s[0]] + c.value.0, c.value.1))
  }

  lemma {:induction false} CutsBack(t: bytes, rest: bytes)
    requires 0 !in t
    ensures Cut(t + [0] + rest) == Some((t, rest))
  {
    var s := t + [0] + rest;
    if t == [] {
      assert s[1..] == rest;
    } else {
      CutsBack(t[1..], rest);
      assert s[0] == t[0] && s[1..] == t[1..] + [0] + rest;
      assert t == [t[0]] + t[1..];
    }
  }

  function ReadRule(s: bytes): Option<(SamplingRule, bytes)>
    ensures ReadRule(s).Some? ==> |ReadRule(s).value.1| < |s|
  {
    var namespace := Cut(s);
    if namespace.None? then None else
    var severity := Cut(namespace.value.1);
    if severity.None? || |severity.value.1| < 2 then None else
    var tail := severity.value.1;
    Some((SamplingRule(Some(namespace.value.0), Some(severity.value.0), FromLittleEndian(tail[0], tail[1])), tail[2..]))
  }

  /** Sampling rules up to the section separator. */
  function ReadRules(s: bytes): Option<(seq<SamplingRule>, bytes)>
    decreases |s|
  {
    if s == [] then None
    else if s[0] == 0xFF then Some(([], s[1..]))
    else
      var first := ReadRule(s);
      if first.None? then None else
      var later := ReadRules(first.value.1);
      if later.None? then None else Some(([first.value.0] + later.value.0, later.value.1))
  }

  /** Field selectors up to the rule terminator. */
  function ReadFields(s: bytes): Option<(seq<bytes>, bytes)>
    ensures ReadFields(s).Some? ==> |ReadFields(s).value.1| < |s|
    decreases |s|
  {
    if s == [] then None
    else if s[0] == 0xFE then Some(([], s[1..]))
    else
      var field := Cut(s);
      if field.None? then None else
      var later := ReadFields(field.value.1);
      if later.None? then None else Some(([field.value.0] + later.value.0, later.value.1))
  }

  function ReadRegexRule(s: bytes): Option<(RegexRule, bytes)>
    ensures ReadRegexRule(s).Some? ==> |ReadRegexRule(s).value.1| < |s|
  {
    var name := Cut(s);
    if name.None? then None else
    var pattern := Cut(name.value.1);
    if pattern.None? then None else
    var mask := Cut(pattern.value.1);
    if mask.None? then None else
    var fields := ReadFields(mask.value.1);
    if fields.None? then None else
    Some((RegexRule(name.value.0, pattern.value.0, mask.value.0, fields.value.0), fields.value.1))
  }

  function ReadRedaction(s: bytes): Option<seq<RegexRule>>
    decreases |s|
  {
    if s == [] then Some([])
    else
      var first := ReadRegexRule(s);
      if first.None? then None else
      var later := ReadRedaction(first.value.1);
      if later.None? then None else Some([first.value.0] + later.value)
  }

  function Read(s: bytes): Option<Policy> {
    if |s| < 2 then None else
    var rules := ReadRules(s[2..]);
    if rules.None? then None else
    var redaction := ReadRedaction(rules.value.1);
    if redaction.None? then None else
    Some(Policy(FromLittleEndian(s[0], s[1]), rules.value.0, redaction.value))
  }

  // ----- round trip

  predicate RuleFit(r: SamplingRule) { Fit(OrEmpty(r.namespace)) && Fit(OrEmpty(r.severityLte)) }

  predicate RegexFit(r: RegexRule) {
    Fit(r.name) && Fit(r.pattern) && Fit(r.mask) && forall f <- r.fields :: Fit(f)
  }

  predicate PolicyFit(p: Policy) {
    (forall r <- p.rules :: RuleFit(r)) && (forall r <- p.redaction :: RegexFit(r))
  }

  /** An absent selector is written as an empty one. */
  function Normal(r: SamplingRule): SamplingRule {
    SamplingRule(Some(OrEmpty(r.namespace)), Some(OrEmpty(r.severityLte)), r.target)
  }

  function NormalRules(rules: seq<SamplingRule>): seq<SamplingRule> {
    seq(|rules|, i requires 0 <= i < |rules| => Normal(rules[i]))
  }

  function NormalPolicy(p: Policy): Policy {
    p.(rules := NormalRules(p.rules))
  }

  lemma RuleReadsBack(r: SamplingRule, rest: bytes)
    requires RuleFit(r)
    ensures ReadRule(RuleBytes(r) + rest) == Some((Normal(r), rest))
    ensures (RuleBytes(r) + rest)[0] != 0xFF
  {
    hide Cut, Utf8;
    var namespace, severity := OrEmpty(r.namespace), OrEmpty(r.severityLte);
    var s2 := LittleEndian(r.target) + rest;
    var s1 := severity + [0] + s2;
    var s0 := namespace + [0] + s1;
    assert RuleBytes(r) + rest == s0;
    Utf8Bytes(namespace);
    CutsBack(namespace, s1);
    CutsBack(severity, s2);
    assert s2[2..] == rest;
  }

  lemma {:induction false} RulesReadBack(rules: seq<SamplingRule>, rest: bytes)
    requires forall r <- rules :: RuleFit(r)
    ensures ReadRules(RulesBytes(rules) + ([0xFF] + rest)) == Some((NormalRules(rules), rest))
  {
    hide ReadRule, RuleBytes, RuleFit;
    var end := [0xFF] + rest;
    if rules == [] {
      assert RulesBytes(rules) + end == end && end[1..] == rest;
      assert NormalRules(rules) == [];
    } else {
      var later := RulesBytes(rules[1..]) + end;
      assert RulesBytes(rules) + end == RuleBytes(rules[0]) + later;
      assert RuleFit(rules[0]);
      RuleReadsBack(rules[0], later);
      RulesReadBack(rules[1..], rest);
      assert NormalRules(rules) == [Normal(rules[0])] + NormalRules(rules[1..]);
    }
  }

  lemma {:induction false} FieldsReadBack(fields: seq<bytes>, rest: bytes)
    requires forall f <- fields :: Fit(f)
    ensures ReadFields(TextsBytes(fields) + ([0xFE] + rest)) == Some((fields, rest))
  {
    hide Cut, Utf8;
    var end := [0xFE] + rest;
    if fields == [] {
      assert TextsBytes(fields) + end == end && end[1..] == rest;
    } else {
      var later := TextsBytes(fields[1..]) + end;
      var s := fields[0] + [0] + later;
      assert Fit(fields[0]);
      Utf8Bytes(fields[0]);
      assert s == TextsBytes(fields) + end;
      CutsBack(fields[0], later);
      FieldsReadBack(fields[1..], rest);
      assert fields == [fields[0]] + fields[1..];
    }
  }

  lemma ThreeTexts(a: bytes, b: bytes, c: bytes, rest: bytes)
    ensures TextsBytes([a, b, c]) + rest == a + [0] + (b + [0] + (c + [0] + rest))
  {
    hide TextsBytes;
    TextsUnfold([a, b, c]);
    TextsUnfold([b, c]);
    TextsUnfold([c]);
    TextsUnfold([]);
    assert [a, b, c][1..] == [b, c] && [b, c][1..] == [c] && [c][1..] == [];
  }

  lemma RegexReadsBack(r: RegexRule, rest: bytes)
    requires RegexFit(r)
    ensures ReadRegexRule(RegexBytes(r) + rest) == Some((r, rest))
  {
    hide Cut, Utf8, ReadFields, TextsBytes;
    var s3 := TextsBytes(r.fields) + ([0xFE] + rest);
    var s2 := r.mask + [0] + s3;
    var s1 := r.pattern + [0] + s2;
    var s0 := r.name + [0] + s1;
    ThreeTexts(r.name, r.pattern, r.mask, s3);
    assert RegexBytes(r) + rest == s0;
    CutsBack(r.name, s1);
    CutsBack(r.pattern, s2);
    CutsBack(r.mask, s3);
    FieldsReadBack(r.fields, rest);
  }

  lemma {:induction false} RedactionReadsBack(rules: seq<RegexRule>)
    requires forall r <- rules :: RegexFit(r)
    ensures ReadRedaction(RedactionBytes(rules)) == Some(rules)
  {
    hide RegexBytes, ReadRegexRule, RegexFit;
    if rules != [] {
      assert RegexFit(rules[0]);
      RegexReadsBack(rules[0], RedactionBytes(rules[1..]));
      RedactionReadsBack(rules[1..]);
      RegexNotEmpty(rules[0]);
      assert rules == [rules[0]] + rules[1..];
    }
  }

  lemma RegexNotEmpty(r: RegexRule)
    ensures RegexBytes(r) != []
  {
  }

  /** The stream of a policy whose strings are UTF-8 without NUL reads back to that policy. */
  lemma StreamReadsBack(p: Policy)
    requires PolicyFit(p)
    ensures Read(Stream(p)) == Some(NormalPolicy(p))
  {
    hide ReadRules, ReadRedaction, RulesBytes, RedactionBytes, RuleFit, RegexFit;
    var s := Stream(p);
    assert s[2..] == RulesBytes(p.rules) + ([0xFF] + RedactionBytes(p.redaction));
    RulesReadBack(p.rules, RedactionBytes(p.redaction));
    RedactionReadsBack(p.redaction);
  }

  lemma {:induction false} NormalSameBytes(a: seq<SamplingRule>, b: seq<SamplingRule>)
    requires NormalRules(a) == NormalRules(b)
    ensures RulesBytes(a) == RulesBytes(b)
  {
    assert |NormalRules(a)| == |a| && |NormalRules(b)| == |b|;
    if a != [] {
      assert NormalRules(a)[0] == Normal(a[0]) && NormalRules(b)[0] == Normal(b[0]);
      assert NormalRules(a[1..]) == NormalRules(a)[1..] && NormalRules(b[1..]) == NormalRules(b)[1..];
      NormalSameBytes(a[1..], b[1..]);
    }
  }

  /** Before hashing, two policies are told apart exactly when they differ in more than an
      absent selector against an empty one. */
  lemma FingerprintTellsApart(p: Policy, q: Policy)
    requires PolicyFit(p) && PolicyFit(q)
    ensures Stream(p) == Stream(q) <==> NormalPolicy(p) == NormalPolicy(q)
  {
    hide Read, RulesBytes, RedactionBytes, PolicyFit, NormalRules;
    StreamReadsBack(p);
    StreamReadsBack(q);
    if NormalPolicy(p) == NormalPolicy(q) { NormalSameBytes(p.rules, q.rules); }
  }

  /** With a NUL in a string the stream is ambiguous: every such pair of policies shares one. */
  lemma NulIsAmbiguous(target: u16, a: bytes, b: bytes, c: bytes, d: bytes)
    ensures var r, t := RegexRule(a + [0] + b, c, d, []), RegexRule(a, b, c, [d]);
      r != t && Stream(Policy(target, [], [r])) == Stream(Policy(target, [], [t]))
  {
    hide Stream, RegexBytes, TextsBytes;
    var r, t := RegexRule(a + [0] + b, c, d, []), RegexRule(a, b, c, [d]);
    ThreeTexts(a + [0] + b, c, d, TextsBytes([]) + [0xFE]);
    ThreeTexts(a, b, c, TextsBytes([d]) + [0xFE]);
    TextsUnfold([d]);
    TextsUnfold([]);
    assert [d][1..] == [];
    assert RegexBytes(r) == RegexBytes(t) by {
      RegexBytesUnfold(r);
      RegexBytesUnfold(t);
      assert d + [0] + [] + [0xFE] == d + [0] + ([] + [0xFE]);
      var end := d + [0] + [0xFE];
      assert a + [0] + b + [0] + (c + [0] + end) == a + [0] + (b + [0] + (c + [0] + end));
    }
    OneRule(target, r);
    OneRule(target, t);
  }

  lemma RegexBytesUnfold(r: RegexRule)
    ensures RegexBytes(r) == TextsBytes([r.name, r.pattern, r.mask]) + (TextsBytes(r.fields) + [0xFE])
  {
  }

  lemma OneRule(target: u16, r: RegexRule)
    ensures Stream(Policy(target, [], [r])) == LittleEndian(target) + ([] + ([0xFF] + (RegexBytes(r) + [])))
  {
    hide RegexBytes;
    assert [r][1..] == [];
    assert RedactionBytes([r]) == RegexBytes(r) + RedactionBytes([r][1..]) == RegexBytes(r) + [];
    assert RulesBytes([]) == [];
  }

  /** The layout, on one rule of each kind: little-endian targets, a NUL after every text, an absent
      selector as an empty text, 0xFE after a redaction rule and 0xFF between the two sections. */
  lemma Layout(p: Policy, r: SamplingRule, x: RegexRule, field: bytes)
    requires p == Policy(p.defaultTarget, [r], [x]) && x.fields == [field]
    ensures Stream(p)
      == [p.defaultTarget % 256, p.defaultTarget / 256]
      + ((if r.namespace.Some? then r.namespace.value else []) + [0]
      + ((if r.severityLte.Some? then r.severityLte.value else []) + [0]
      + ([r.target % 256, r.target / 256] + ([0xFF]
      + (x.name + [0] + (x.pattern + [0] + (x.mask + [0] + (field + [0] + [0xFE]))))))))
  {
    OneText(field);
    NamedTexts(x.name, x.pattern, x.mask);
    assert [r][1..] == [] && [x][1..] == [];
    assert RulesBytes([r]) == RuleBytes(r) && RedactionBytes([x]) == RegexBytes(x);
  }

  lemma OneText(a: bytes)
    ensures TextsBytes([a]) == a + [0]
  {
    assert [a][1..] == [];
  }

  lemma NamedTexts(a: bytes, b: bytes, c: bytes)
    ensures TextsBytes([a, b, c]) == a + [0] + (b + [0] + (c + [0]))
  {
    assert [a, b, c][1..] == [b, c] && [b, c][1..] == [c];
    OneText(c);
    assert TextsBytes([b, c]) == b + [0] + TextsBytes([c]);
  }
}
