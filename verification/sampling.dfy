/** The sampling decision, and what makes it agree across agents and across hops: the trace id
    it hashes, the policy that resolves its target, and the verdict of a record. */
module Sampling {
  import opened Prelude
  import opened Wire
  import opened Otlp
  import opened Envelope
  import opened Spans
  import opened Govern
  import opened Glob
  import opened Meaning
  import opened Preservation

  // ----- trace ids

  function Nibble(b: byte): Option<byte> {
    if 48 <= b <= 57 then Some(b - 48)
    else if 97 <= b <= 102 then Some(b - 97 + 10)
    else if 65 <= b <= 70 then Some(b - 65 + 10)
    else None
  }

  /** The two characters `hi`, `lo` spell the byte `b`, each in either case. */
  predicate Spells(hi: byte, lo: byte, b: byte) {
    Nibble(hi) == Some(b / 16) && Nibble(lo) == Some(b % 16)
  }

  predicate HexOf(hex: bytes, id: bytes) {
    |hex| == 2 * |id| && forall i | 0 <= i < |id| :: Spells(hex[2 * i], hex[2 * i + 1], id[i])
  }

  /** Exactly one id is spelled by a hex string of 32 digits of either case, and nothing else
      is accepted. */
  method DecodeHex16(hex: bytes) returns (r: Option<bytes>)
    ensures r.Some? ==> |r.value| == 16 && HexOf(hex, r.value)
    ensures r.None? ==> forall id: bytes | |id| == 16 :: !HexOf(hex, id)
  {
    if |hex| != 32 {
      return None;
    }
    var out := new byte[16](_ => 0);
    var i := 0;
    while i < 16
      invariant 0 <= i <= 16
      invariant forall j | 0 <= j < i :: Spells(hex[2 * j], hex[2 * j + 1], out[j])
    {
      var hi, lo := Nibble(hex[2 * i]), Nibble(hex[2 * i + 1]);
      if hi.None? || lo.None? {
        forall id: bytes | |id| == 16 ensures !HexOf(hex, id) {
          assert !Spells(hex[2 * i], hex[2 * i + 1], id[i]);
        }
        return None;
      }
      out[i] := hi.value * 16 + lo.value;
      i := i + 1;
    }
    return Some(out[..]);
  }

  lemma SpelledOnce(hex: bytes, a: bytes, b: bytes)
    requires HexOf(hex, a) && HexOf(hex, b)
    ensures a == b
  {
    forall i | 0 <= i < |a| ensures a[i] == b[i] {
      assert Spells(hex[2 * i], hex[2 * i + 1], a[i]) && Spells(hex[2 * i], hex[2 * i + 1], b[i]);
    }
  }

  const LOWER := "0123456789abcdef"
  const UPPER := "0123456789ABCDEF"

  function Digit(n: nat, upper: bool): byte
    requires n < 16
  {
    (if upper then UPPER[n] else LOWER[n]) as int % 256
  }

  /** The id written out, two digits a byte, high one first, each digit in the case asked for. */
  function Written(id: bytes, upper: seq<bool>): bytes
    requires |upper| == 2 * |id|
  {
    seq(|upper|, i requires 0 <= i < |upper| => Digit(if i % 2 == 0 then id[i / 2] / 16 else id[i / 2] % 16, upper[i]))
  }

  predicate IsDigit(b: byte) { exists n | 0 <= n < 16 :: b == Digit(n, false) || b == Digit(n, true) }

  lemma DigitCodes(n: nat)
    requires n < 16
    ensures Digit(n, false) == if n < 10 then 48 + n else 87 + n
    ensures Digit(n, true) == if n < 10 then 48 + n else 55 + n
  {
  }

  lemma Digits(b: byte)
    ensures forall n | 0 <= n < 16 :: Nibble(b) == Some(n) <==> b == Digit(n, false) || b == Digit(n, true)
    ensures Nibble(b).Some? <==> IsDigit(b)
  {
    hide Digit;
    forall n | 0 <= n < 16
      ensures Digit(n, false) == if n < 10 then 48 + n else 87 + n
      ensures Digit(n, true) == if n < 10 then 48 + n else 55 + n
    {
      DigitCodes(n);
    }
    if Nibble(b).Some? {
      var n := Nibble(b).value;
      assert b == Digit(n, false) || b == Digit(n, true);
    }
  }

  lemma WrittenAt(id: bytes, upper: seq<bool>, i: nat)
    requires |upper| == 2 * |id| && i < |id|
    ensures |Written(id, upper)| == 2 * |id|
    ensures Written(id, upper)[2 * i] == Digit(id[i] / 16, upper[2 * i])
    ensures Written(id, upper)[2 * i + 1] == Digit(id[i] % 16, upper[2 * i + 1])
  {
    hide Digit;
    assert (2 * i + 1) % 2 == 1 && (2 * i + 1) / 2 == i;
  }

  lemma WrittenSpells(id: bytes, upper: seq<bool>)
    requires |upper| == 2 * |id|
    ensures HexOf(Written(id, upper), id)
  {
    WrittenLength(id, upper);
    hide Nibble, IsDigit, Digit, Written;
    forall i | 0 <= i < |id| ensures Spells(Written(id, upper)[2 * i], Written(id, upper)[2 * i + 1], id[i]) {
      WrittenAt(id, upper, i);
      Digits(Digit(id[i] / 16, upper[2 * i]));
      Digits(Digit(id[i] % 16, upper[2 * i + 1]));
    }
  }

  lemma WrittenLength(id: bytes, upper: seq<bool>)
    requires |upper| == 2 * |id|
    ensures |Written(id, upper)| == 2 * |id|
  {
  }

  lemma SpelledIsWritten(hex: bytes, id: bytes) returns (upper: seq<bool>)
    requires HexOf(hex, id)
    ensures |upper| == 2 * |id| && hex == Written(id, upper)
  {
    hide Nibble, IsDigit, Digit;
    upper := seq(|hex|, i requires 0 <= i < |hex| =>
      hex[i] == Digit(if i % 2 == 0 then id[i / 2] / 16 else id[i / 2] % 16, true));
    forall i | 0 <= i < |hex| ensures hex[i] == Written(id, upper)[i] {
      assert Spells(hex[2 * (i / 2)], hex[2 * (i / 2) + 1], id[i / 2]);
      Digits(hex[i]);
    }
  }

  /** A hex string spells an id if and only if it is the id written out, in whatever cases. */
  lemma HexIsWritten(hex: bytes, id: bytes)
    ensures HexOf(hex, id) <==> exists upper: seq<bool> :: |upper| == 2 * |id| && hex == Written(id, upper)
  {
    hide HexOf, Written;
    if HexOf(hex, id) { var upper := SpelledIsWritten(hex, id); }
    if upper: seq<bool> :| |upper| == 2 * |id| && hex == Written(id, upper) { WrittenSpells(id, upper); }
  }

  /** What a record's trace id field denotes: 16 binary bytes, or the 16 bytes its 32 hex
      characters spell. */
  ghost predicate Denotes(field: Option<bytes>, id: bytes) {
    && |id| == 16 && field.Some?
    && (field.value == id || HexOf(field.value, id))
  }

  ghost predicate Traced(field: Option<bytes>) {
    exists id :: Denotes(field, id)
  }

  lemma DenotesOnce(field: Option<bytes>, a: bytes, b: bytes)
    requires Denotes(field, a) && Denotes(field, b)
    ensures a == b
  {
    if |field.value| == 32 { SpelledOnce(field.value, a, b); }
  }

  method TraceIdBytes(field: Option<bytes>) returns (r: Option<bytes>)
    ensures r.Some? ==> Denotes(field, r.value)
    ensures r.None? <==> !Traced(field)
  {
    if field.None? {
      return None;
    }
    if |field.value| == 16 {
      assert Denotes(field, field.value);
      return field;
    }
    if |field.value| == 32 {
      r := DecodeHex16(field.value);
      if r.Some? { assert Denotes(field, r.value); }
    } else {
      r := None;
    }
  }

  // ----- policy

  datatype Rule = Rule(namespaceGlob: Option<bytes>, severityLte: Option<int>, target: nat)

  datatype Policy = Policy(rules: seq<Rule>, defaultTarget: nat)

  predicate RuleMatches(rule: Rule, namespace: Option<bytes>, severity: Option<int>) {
    && (rule.namespaceGlob.Some? ==> namespace.Some? && GlobMatches(rule.namespaceGlob.value, namespace.value))
    && (rule.severityLte.Some? ==> severity.Some? && severity.value <= rule.severityLte.value)
  }

  ghost predicate FirstMatch(p: Policy, namespace: Option<bytes>, severity: Option<int>, i: nat) {
    && i < |p.rules| && RuleMatches(p.rules[i], namespace, severity)
    && forall j | 0 <= j < i :: !RuleMatches(p.rules[j], namespace, severity)
  }

  /** `target` is that of the first rule every specified condition of which holds, else the default. */
  ghost predicate Resolves(p: Policy, namespace: Option<bytes>, severity: Option<int>, target: nat) {
    || (exists i: nat :: FirstMatch(p, namespace, severity, i) && p.rules[i].target == target)
    || (target == p.defaultTarget && forall r <- p.rules :: !RuleMatches(r, namespace, severity))
  }

  lemma ResolvesOnce(p: Policy, namespace: Option<bytes>, severity: Option<int>, a: nat, b: nat)
    requires Resolves(p, namespace, severity, a) && Resolves(p, namespace, severity, b)
    ensures a == b
  {
    hide RuleMatches;
    if i: nat :| FirstMatch(p, namespace, severity, i) && p.rules[i].target == a {
      assert p.rules[i] in p.rules;
      var k: nat :| FirstMatch(p, namespace, severity, k) && p.rules[k].target == b;
      assert !(i < k) && !(k < i);
    }
  }

  /** The conditions a rule specifies, each one true of the record. */
  ghost predicate Holds(rule: Rule, namespace: Option<bytes>, severity: Option<int>) {
    && (rule.namespaceGlob.None? || (namespace.Some? && Matches(rule.namespaceGlob.value, namespace.value)))
    && (rule.severityLte.None? || (severity.Some? && severity.value <= rule.severityLte.value))
  }

  ghost predicate FirstHolding(p: Policy, namespace: Option<bytes>, severity: Option<int>, i: nat) {
    && i < |p.rules| && Holds(p.rules[i], namespace, severity)
    && forall j | 0 <= j < i :: !Holds(p.rules[j], namespace, severity)
  }

  lemma MatchesIfHolds(rule: Rule, namespace: Option<bytes>, severity: Option<int>)
    ensures RuleMatches(rule, namespace, severity) ==> Holds(rule, namespace, severity)
    ensures namespace.None? || StarOnlyLast(namespace.value) ==>
      (RuleMatches(rule, namespace, severity) <==> Holds(rule, namespace, severity))
  {
    hide GlobMatches, Matches, StarOnlyLast;
    if rule.namespaceGlob.Some? && namespace.Some? {
      if GlobMatches(rule.namespaceGlob.value, namespace.value) {
        MatcherIsSound(rule.namespaceGlob.value, namespace.value);
      }
      FaithfulKeys(namespace.value);
    }
  }

  /** The target is decided by the first rule both of whose conditions hold, a severity at most the
      bound and a namespace the pattern matches; by the default when there is none. A namespace
      with a star before its last character may escape a pattern that matches it. */
  lemma TargetDecided(p: Policy, namespace: Option<bytes>, severity: Option<int>, target: nat)
    requires namespace.None? || StarOnlyLast(namespace.value)
    ensures Resolves(p, namespace, severity, target) <==>
      || (exists i: nat :: FirstHolding(p, namespace, severity, i) && p.rules[i].target == target)
      || (target == p.defaultTarget && forall i | 0 <= i < |p.rules| :: !Holds(p.rules[i], namespace, severity))
  {
    hide RuleMatches, Holds, StarOnlyLast;
    forall r: Rule ensures RuleMatches(r, namespace, severity) <==> Holds(r, namespace, severity) {
      MatchesIfHolds(r, namespace, severity);
    }
    forall i: nat ensures FirstMatch(p, namespace, severity, i) <==> FirstHolding(p, namespace, severity, i) {}
  }

  method RuleMatchesRecord(rule: Rule, namespace: Option<bytes>, severity: Option<int>) returns (r: bool)
    ensures r == RuleMatches(rule, namespace, severity)
    ensures r ==> Holds(rule, namespace, severity)
    ensures namespace.None? || StarOnlyLast(namespace.value) ==> (r <==> Holds(rule, namespace, severity))
  {
    MatchesIfHolds(rule, namespace, severity);
    if rule.namespaceGlob.Some? {
      if namespace.None? {
        return false;
      }
      var matched := MatchGlob(rule.namespaceGlob.value, namespace.value);
      if !matched {
        return false;
      }
    }
    return rule.severityLte.Some? ==> severity.Some? && severity.value <= rule.severityLte.value;
  }

  method Resolve(p: Policy, namespace: Option<bytes>, severity: Option<int>) returns (target: nat)
    ensures Resolves(p, namespace, severity, target)
  {
    hide RuleMatches;
    for i := 0 to |p.rules|
      invariant forall j | 0 <= j < i :: !RuleMatches(p.rules[j], namespace, severity)
    {
      var matched := RuleMatchesRecord(p.rules[i], namespace, severity);
      if matched {
        assert FirstMatch(p, namespace, severity, i);
        return p.rules[i].target;
      }
    }
    return p.defaultTarget;
  }

  // ----- verdicts

  /** The hash is a parameter: any function of the bytes fed to it. */
  type Hash = bytes -> nat

  function Bytes(v: Option<bytes>): bytes {
    if v.Some? then v.value else []
  }

  /** The key a record is sampled by: its trace id when it has one, else service, NUL, body. */
  ghost predicate SampledBy(r: RecordText, key: bytes) {
    if Traced(r.draft.traceId) then Denotes(r.draft.traceId, key)
    else key == Bytes(r.resource.service) + [0] + Bytes(r.draft.body)
  }

  ghost predicate Sampled(p: Policy, hash: Hash, r: RecordText, v: Verdict) {
    exists key, target ::
      && SampledBy(r, key) && Resolves(p, r.resource.namespace, r.draft.severity, target)
      && v == if hash(key) % 100 < target then Keep else Drop
  }

  method SampleVerdict(p: Policy, hash: Hash, r: RecordView) returns (v: Verdict)
    ensures Sampled(p, hash, Plain(r), v)
  {
    PlainBody(r);
    var target := Resolve(p, Text(r.resource.namespace), r.draft.severity);
    var id := TraceIdBytes(Text(r.draft.traceId));
    var key := if id.Some? then id.value else Bytes(Text(r.resource.service)) + [0] + Bytes(Text(r.draft.body));
    assert SampledBy(Plain(r), key);
    v := if hash(key) % 100 < target then Keep else Drop;
  }

  lemma PlainBody(r: RecordView)
    ensures Plain(r).draft.body == Text(r.draft.body)
  {
    if r.draft.body.Some? { PlainText(r.draft.body.value.text, r.draft.body.value.at, []); }
  }

  lemma SampledByOnce(r: RecordText, a: bytes, b: bytes)
    requires SampledBy(r, a) && SampledBy(r, b)
    ensures a == b
  {
    if Traced(r.draft.traceId) { DenotesOnce(r.draft.traceId, a, b); }
  }

  /** No field, a field of a length no id has, or one of 32 characters that are not all hex digits. */
  predicate NoTraceId(field: Option<bytes>) {
    || field.None?
    || |field.value| !in {16, 32}
    || (|field.value| == 32 && exists b <- field.value :: !IsDigit(b))
  }

  lemma SpelledByDigits(hex: bytes, id: bytes, i: nat)
    requires HexOf(hex, id) && i < |hex|
    ensures IsDigit(hex[i])
  {
    hide Nibble, IsDigit;
    assert Spells(hex[2 * (i / 2)], hex[2 * (i / 2) + 1], id[i / 2]);
    Digits(hex[i]);
  }

  lemma NotSpelled(hex: bytes, id: bytes, i: nat)
    requires |hex| == 2 * |id| && i < |hex| && !IsDigit(hex[i])
    ensures !HexOf(hex, id)
  {
    hide Nibble, IsDigit, HexOf;
    if HexOf(hex, id) { SpelledByDigits(hex, id, i); }
  }

  lemma Untraced(field: Option<bytes>)
    requires NoTraceId(field)
    ensures !Traced(field)
  {
    hide HexOf, IsDigit;
    if field.Some? && |field.value| == 32 {
      var i :| 0 <= i < 32 && !IsDigit(field.value[i]);
      forall id: bytes | |id| == 16 ensures !HexOf(field.value, id) { NotSpelled(field.value, id, i); }
    }
    if field.Some? && |field.value| !in {16, 32} {
      forall id: bytes | |id| == 16 ensures !HexOf(field.value, id) { OtherLength(field.value, id); }
    }
  }

  lemma OtherLength(hex: bytes, id: bytes)
    requires |hex| != 2 * |id|
    ensures !HexOf(hex, id)
  {
  }

  /** The verdict, for the target resolved: a trace id of 16 bytes, or those bytes written in hex,
      keeps exactly when its hash falls below the target in a hundred; so does, without one,
      service, NUL and body. */
  lemma VerdictDecided(p: Policy, hash: Hash, r: RecordText, v: Verdict, target: nat)
    requires Sampled(p, hash, r, v) && Resolves(p, r.resource.namespace, r.draft.severity, target)
    ensures forall id: bytes | |id| == 16 && r.draft.traceId == Some(id) :: v.Keep? <==> hash(id) % 100 < target
    ensures forall id: bytes, upper: seq<bool> |
      |id| == 16 && |upper| == 32 && r.draft.traceId == Some(Written(id, upper)) ::
      v.Keep? <==> hash(id) % 100 < target
    ensures NoTraceId(r.draft.traceId) ==>
      var service, body := if r.resource.service.Some? then r.resource.service.value else [],
                           if r.draft.body.Some? then r.draft.body.value else [];
      v.Keep? <==> hash(service + [0] + body) % 100 < target
  {
    hide Resolves, HexOf, Written, NoTraceId;
    var k, t :| SampledBy(r, k) && Resolves(p, r.resource.namespace, r.draft.severity, t)
      && v == if hash(k) % 100 < t then Keep else Drop;
    ResolvesOnce(p, r.resource.namespace, r.draft.severity, t, target);
    forall id: bytes, upper: seq<bool> |
      |id| == 16 && |upper| == 32 && r.draft.traceId == Some(Written(id, upper))
      ensures k == id
    {
      HexIsWritten(Written(id, upper), id);
      assert Denotes(r.draft.traceId, id);
      DenotesOnce(r.draft.traceId, k, id);
    }
    forall id: bytes | |id| == 16 && r.draft.traceId == Some(id) ensures k == id {
      assert Denotes(r.draft.traceId, id);
      DenotesOnce(r.draft.traceId, k, id);
    }
    if NoTraceId(r.draft.traceId) { Untraced(r.draft.traceId); }
  }

  /** Two records sampled by one key under one target get one verdict, on any two agents that
      share the policy. */
  lemma SameKeySameVerdict(p: Policy, hash: Hash, r: RecordText, s: RecordText, v: Verdict, w: Verdict)
    requires r.resource.namespace == s.resource.namespace && r.draft.severity == s.draft.severity
    requires exists key :: SampledBy(r, key) && SampledBy(s, key)
    requires Sampled(p, hash, r, v) && Sampled(p, hash, s, w)
    ensures v == w
  {
    hide SampledBy, Resolves;
    var key :| SampledBy(r, key) && SampledBy(s, key);
    var k1, t1 :| SampledBy(r, k1) && Resolves(p, r.resource.namespace, r.draft.severity, t1)
      && v == if hash(k1) % 100 < t1 then Keep else Drop;
    var k2, t2 :| SampledBy(s, k2) && Resolves(p, s.resource.namespace, s.draft.severity, t2)
      && w == if hash(k2) % 100 < t2 then Keep else Drop;
    SampledByOnce(r, key, k1);
    SampledByOnce(s, key, k2);
    ResolvesOnce(p, r.resource.namespace, r.draft.severity, t1, t2);
  }

  /** A record that carries its id as 32 hex characters, of either case and even mixed, gets
      the verdict of one that carries the 16 bytes, whatever else differs outside the matchers. */
  lemma HexAndBinaryAgree(p: Policy, hash: Hash, r: RecordText, s: RecordText, v: Verdict, w: Verdict)
    requires r.resource.namespace == s.resource.namespace && r.draft.severity == s.draft.severity
    requires r.draft.traceId.Some? && s.draft.traceId.Some?
    requires |s.draft.traceId.value| == 16 && HexOf(r.draft.traceId.value, s.draft.traceId.value)
    requires Sampled(p, hash, r, v) && Sampled(p, hash, s, w)
    ensures v == w
  {
    hide HexOf, Resolves, Sampled;
    var id := s.draft.traceId.value;
    assert Denotes(r.draft.traceId, id) && Denotes(s.draft.traceId, id);
    assert SampledBy(r, id) && SampledBy(s, id);
    SameKeySameVerdict(p, hash, r, s, v, w);
  }

  // ----- the second hop

  /** Each record's verdict is the one the policy gives it. */
  ghost predicate Decides(p: Policy, hash: Hash, records: seq<RecordView>, verdicts: seq<Verdict>) {
    |verdicts| == |records| && forall i | 0 <= i < |records| :: Sampled(p, hash, Plain(records[i]), verdicts[i])
  }

  /** The record that the `i`-th survivor was. */
  ghost predicate Survivor(records: seq<RecordView>, idx: nat, d: Decided, masks: Masks, t: RecordText, j: nat) {
    && j < |records| && d.VerdictFor(idx + j).Keep?
    && t == RecordMasked(records[j], d.SpansFor(idx + j), masks)
  }

  lemma {:induction false} KeptSurvives(records: seq<RecordView>, idx: nat, d: Decided, masks: Masks, i: nat)
      returns (j: nat)
    requires i < |Kept(records, idx, d, masks)|
    ensures Survivor(records, idx, d, masks, Kept(records, idx, d, masks)[i], j)
  {
    hide RecordMasked, Decided.SpansFor, Decided.VerdictFor;
    if d.VerdictFor(idx).Drop? {
      j := KeptSurvives(records[1..], idx + 1, d, masks, i);
      j := j + 1;
    } else if i == 0 {
      j := 0;
    } else {
      j := KeptSurvives(records[1..], idx + 1, d, masks, i - 1);
      j := j + 1;
    }
  }

  /** Masking changes nothing the verdict of a traced record depends on, and nothing the verdict
      of an untraced one depends on unless its body is masked. */
  lemma VerdictSurvivesMasking(p: Policy, hash: Hash, r: RecordView, spans: seq<Span>, masks: Masks, v: Verdict,
      w: Verdict)
    requires var t := RecordMasked(r, spans, masks);
      Traced(t.draft.traceId) || t.draft.body == Text(r.draft.body)
    requires Sampled(p, hash, Plain(r), v) && Sampled(p, hash, RecordMasked(r, spans, masks), w)
    ensures v == w
  {
    hide Traced, Denotes, Resolves, Masked;
    PlainBody(r);
    var key, target :| SampledBy(Plain(r), key)
      && Resolves(p, Plain(r).resource.namespace, Plain(r).draft.severity, target)
      && v == if hash(key) % 100 < target then Keep else Drop;
    assert SampledBy(RecordMasked(r, spans, masks), key);
    SameKeySameVerdict(p, hash, Plain(r), RecordMasked(r, spans, masks), v, w);
  }

  ghost predicate BodyUnmasked(records: seq<RecordView>, d: Decided, masks: Masks, t: RecordText) {
    forall j: nat | Survivor(records, 0, d, masks, t, j) :: t.draft.body == Text(records[j].draft.body)
  }

  /** Fleet consistency across hops: when the first agent's output was assembled under its
      policy's verdicts, a second agent with the same policy keeps every record of it whose
      trace id decodes, and every untraced one whose body was not masked. */
  lemma SecondHopKeeps(raw: bytes, p: Policy, hash: Hash, d: Decided, masks: Masks, again: seq<Verdict>, i: nat)
    requires Parse(raw).Ok? && Decides(p, hash, Parse(raw).value, d.sampling)
    requires var out := AssembleSpec(raw, |Parse(raw).value|, d, masks); out.Ok? && |out.value| < U64
    requires var out := Parse(AssembleSpec(raw, |Parse(raw).value|, d, masks).value);
      out.Ok? && Decides(p, hash, out.value, again) && i < |out.value|
    requires var out := Parse(AssembleSpec(raw, |Parse(raw).value|, d, masks).value);
      Traced(Plain(out.value[i]).draft.traceId) || BodyUnmasked(Parse(raw).value, d, masks, Plain(out.value[i]))
    ensures again[i] == Keep
  {
    hide Parse, AssembleSpec, Sampled, Traced, RecordMasked, Plain, Kept;
    var records := Parse(raw).value;
    MeaningPreserved(raw, d, masks);
    var out := Parse(AssembleSpec(raw, |records|, d, masks).value).value;
    assert Texts(out)[i] == Plain(out[i]);
    var j := KeptSurvives(records, 0, d, masks, i);
    assert d.VerdictFor(j) == d.sampling[j];
    VerdictSurvivesMasking(p, hash, records[j], d.SpansFor(j), masks, d.sampling[j], again[i]);
  }
}
