/** One request through the fixed stage order, failing open: parse, sample, redact, assemble;
    and what the server answers for it. */
module Pipelines {
  import opened Prelude
  import opened Wire
  import opened Otlp
  import opened Parser
  import opened Envelope
  import opened Spans
  import opened Govern
  import opened Meaning
  import opened Preservation
  import opened Emission
  import opened Sampling
  import Breaker
  import Metrics
  import Spool
  import Redact

  const STAGE_PARSE := "parse"

  // ----- the guard

  /** What a stage does to the decisions: the spans it pushes, under whatever ids, and whether it
      then fails, by an error or a panic. */
  datatype StageRun = StageRun(pushes: seq<StageSpan>, failed: bool)

  method RunStage(run: StageRun, decisions: Decisions)
    modifies decisions
    ensures decisions.sampling == old(decisions.sampling)
    ensures decisions.redactions == old(decisions.redactions) + run.pushes
  {
    for i := 0 to |run.pushes|
      invariant decisions.sampling == old(decisions.sampling)
      invariant decisions.redactions == old(decisions.redactions) + run.pushes[..i]
    {
      var p := run.pushes[i];
      decisions.PushRedaction(p.stage, p.record, p.span);
    }
  }

  method Guarded(stage: string, run: StageRun, decisions: Decisions) returns (applied: bool)
    modifies decisions
    ensures applied == !run.failed
    ensures decisions.redactions
      == if applied then old(decisions.redactions) + run.pushes
         else WithoutStage(old(decisions.redactions) + run.pushes, stage)
    ensures decisions.sampling == if !applied && stage == STAGE_SAMPLE then [] else old(decisions.sampling)
  {
    RunStage(run, decisions);
    applied := !run.failed;
    if run.failed {
      decisions.ClearStage(stage);
    }
  }

  /** Failing leaves no trace, however far the stage got, if and only if it pushed under no id
      but its own; every other stage's spans survive in order. */
  lemma GuardLeavesNoTrace(before: seq<StageSpan>, pushed: seq<StageSpan>, stage: string)
    requires forall s <- before :: s.stage != stage
    ensures WithoutStage(before + pushed, stage) == before <==> forall s <- pushed :: s.stage == stage
  {
    if forall s <- pushed :: s.stage == stage {
      BypassUndoes(before, pushed, stage);
    } else {
      WithoutStageConcat(before, pushed, stage);
      WithoutStageSame(before, stage);
      var s :| s in pushed && s.stage != stage;
      WithoutStageMeaning(pushed, stage, s);
      assert |before + WithoutStage(pushed, stage)| > |before|;
    }
  }

  datatype Push = Push(record: nat, span: Span)

  /** Any run of a stage that pushes under its own id. */
  datatype OwnRun = OwnRun(pushes: seq<Push>, failed: bool) {
    function As(stage: string): StageRun { StageRun(Pushed(stage, pushes), failed) }
  }

  function Pushed(stage: string, pushes: seq<Push>): (r: seq<StageSpan>)
    ensures forall s <- r :: s.stage == stage
  {
    seq(|pushes|, i requires 0 <= i < |pushes| => StageSpan(stage, pushes[i].record, pushes[i].span))
  }

  /** The regex stage is such a run, one that does not fail. */
  lemma RedactIsAStage(rules: seq<Redact.CompiledRule>, find: Redact.Finder, records: seq<RecordView>)
      returns (run: OwnRun)
    requires Redact.Proper(find)
    ensures !run.failed
    ensures Pushed(Redact.STAGE_REDACT_REGEX, run.pushes) == Redact.StageSpans(rules, find, records)
  {
    var spans := Redact.StageSpans(rules, find, records);
    run := OwnRun(seq(|spans|, i requires 0 <= i < |spans| => Push(spans[i].record, spans[i].span)), false);
    forall i | 0 <= i < |spans| ensures spans[i].stage == Redact.STAGE_REDACT_REGEX {
      Redact.StageSpansMeaning(rules, find, records, spans[i]);
    }
  }

  // ----- sampling a request

  function Keeps(verdicts: seq<Verdict>): nat {
    if verdicts == [] then 0 else (if verdicts[0].Keep? then 1 else 0) + Keeps(verdicts[1..])
  }

  lemma {:induction false} KeepsOneMore(verdicts: seq<Verdict>, v: Verdict)
    ensures Keeps(verdicts + [v]) == Keeps(verdicts) + if v.Keep? then 1 else 0
  {
    if verdicts == [] {
      assert [] + [v] == [v];
    } else {
      KeepsOneMore(verdicts[1..], v);
      assert (verdicts + [v])[1..] == verdicts[1..] + [v];
    }
  }

  method SampleAll(policy: Policy, hash: Hash, records: seq<RecordView>)
    returns (verdicts: seq<Verdict>, kept: nat, dropped: nat)
    ensures Decides(policy, hash, records, verdicts)
    ensures kept == Keeps(verdicts) && kept + dropped == |records|
  {
    hide Sampled, Keeps, Plain;
    verdicts, kept, dropped := [], 0, 0;
    NoVerdicts();
    for i := 0 to |records|
      invariant Decides(policy, hash, records[..i], verdicts)
      invariant kept == Keeps(verdicts) && kept + dropped == i
    {
      var v := SampleVerdict(policy, hash, records[i]);
      KeepsOneMore(verdicts, v);
      match v {
        case Keep => kept := kept + 1;
        case Drop => dropped := dropped + 1;
      }
      verdicts := verdicts + [v];
    }
    assert records[..|records|] == records;
  }

  lemma NoVerdicts()
    ensures Keeps([]) == 0
  {
  }

  // ----- what the governed records are

  /** The records kept by sampling, as parsed: nothing masked. */
  function Survivors(records: seq<RecordView>, idx: nat, d: Decided): seq<RecordText> {
    if records == [] then []
    else (if d.VerdictFor(idx).Drop? then [] else [Plain(records[0])]) + Survivors(records[1..], idx + 1, d)
  }

  lemma {:induction false} NothingMasked(records: seq<RecordView>, idx: nat, d: Decided, masks: Masks)
    requires d.redactions == []
    ensures Kept(records, idx, d, masks) == Survivors(records, idx, d)
  {
    hide RecordMasked, Plain;
    if records != [] {
      NoSpans(d.redactions, idx);
      RecordUnmasked(records[0], masks);
      NothingMasked(records[1..], idx + 1, d, masks);
    }
  }

  lemma {:induction false} KeptCount(records: seq<RecordView>, idx: nat, d: Decided, masks: Masks)
    requires |d.sampling| == idx + |records|
    ensures |Kept(records, idx, d, masks)| == Keeps(d.sampling[idx..])
  {
    hide RecordMasked;
    if records != [] {
      KeptCount(records[1..], idx + 1, d, masks);
      assert d.sampling[idx..][1..] == d.sampling[idx + 1..];
    }
  }

  /** Where the walk counts no record nothing can change, whatever the decisions. */
  lemma {:induction false} NothingToTouch(w: Walk, at: nat, idx: nat, d: Decided, level: Level)
    requires Count(w, level) == 0
    ensures !Touched(w, at, idx, d, level)
    decreases level.Rank(), 1, w
  {
    hide Fields, FateOf;
    if w.Step? {
      FieldKept(w.field, at, idx, d, level);
      NothingToTouch(w.next, at + |w.field.Bytes()|, idx + FieldCount(w.field, level), d, level);
    }
  }

  lemma FieldKept(f: Field, at: nat, idx: nat, d: Decided, level: Level)
    requires FieldCount(f, level) == 0
    ensures FateOf(f, at, idx, d, level).Untouched?
    decreases level.Rank(), 0
  {
    hide Fields, Touched, RecordTouched;
    if f.Is(level.ChildField(), 2) && !level.Scope? {
      NothingToTouch(Fields(f.payload), at + |f.head|, idx, d, level.Below());
    }
  }

  /** An envelope without records, such as one whose parse was bypassed, is forwarded as it came
      whatever a later stage decided: assembly answers the original bytes or fails. */
  lemma NoRecordsNoChange(raw: bytes, d: Decided, masks: Masks)
    requires AssembleSpec(raw, 0, d, masks).Ok?
    ensures AssembleSpec(raw, 0, d, masks).value == raw
  {
    hide Fields, GovernAll, Touched, Count;
    if !NoDecisions(d) {
      NothingToTouch(Fields(raw), 0, 0, d, Request);
      AllUntouched(Fields(raw), 0, 0, d, masks, Request);
      WalkFaithful(raw);
    }
  }

  // ----- the pipeline

  datatype Stats = Stats(recordsIn: nat, kept: nat, dropped: nat, redactions: nat, bytesIn: nat, bytesOut: nat,
                         parseBypassed: bool, redactBypassed: bool, assembleBypassed: bool)

  /** What every run of the pipeline leaves true of its numbers and of its output. */
  ghost predicate FailsOpen(raw: bytes, out: Payload, stats: Stats, d: Decided, masks: Masks) {
    && stats.kept + stats.dropped == stats.recordsIn
    && stats.bytesIn == |raw| && stats.bytesOut == out.len && stats.redactions == |d.redactions|
    && (stats.parseBypassed <==> Parse(raw).Err?)
    && stats.recordsIn == (if stats.parseBypassed then 0 else |Parse(raw).value|)
    && (stats.parseBypassed || stats.assembleBypassed ==> out.Carries(raw))
    && (stats.redactBypassed ==> d.redactions == [])
    && (!stats.parseBypassed && !stats.assembleBypassed && out.len < U64 ==>
          && Parse(Flat(out.chunks)).Ok?
          && |Parse(Flat(out.chunks)).value| == stats.kept
          && Texts(Parse(Flat(out.chunks)).value) == Kept(Parse(raw).value, 0, d, masks)
          && (stats.redactBypassed ==> Texts(Parse(Flat(out.chunks)).value) == Survivors(Parse(raw).value, 0, d)))
  }

  /** What assembly of the decided envelope came to. */
  ghost predicate Assembled(raw: bytes, records: nat, d: Decided, masks: Masks, out: Payload, bypassed: bool) {
    && (bypassed <==> AssembleSpec(raw, records, d, masks).Err?)
    && out.Carries(if bypassed then raw else AssembleSpec(raw, records, d, masks).value)
  }

  lemma OutputReparses(raw: bytes, policy: Policy, hash: Hash, d: Decided, masks: Masks, out: Payload, bypassed: bool)
    requires Parse(raw).Ok? && Decides(policy, hash, Parse(raw).value, d.sampling)
    requires Assembled(raw, |Parse(raw).value|, d, masks, out, bypassed)
    requires !bypassed && out.len < U64
    ensures var again := Parse(Flat(out.chunks));
      && again.Ok? && |again.value| == Keeps(d.sampling)
      && Texts(again.value) == Kept(Parse(raw).value, 0, d, masks)
      && (d.redactions == [] ==> Texts(again.value) == Survivors(Parse(raw).value, 0, d))
  {
    hide Parse, AssembleSpec, Sampled, Plain, Survivors, Kept;
    MeaningPreserved(raw, d, masks);
    KeptCount(Parse(raw).value, 0, d, masks);
    assert d.sampling[0..] == d.sampling;
    if d.redactions == [] { NothingMasked(Parse(raw).value, 0, d, masks); }
  }

  class Pipeline {
    const policy: Policy
    const hash: Hash
    const masks: Masks
    const breaker: Breaker.CircuitBreaker

    constructor (policy: Policy, hash: Hash, masks: Masks, breaker: Breaker.CircuitBreaker)
      ensures this.policy == policy && this.hash == hash && this.masks == masks && this.breaker == breaker
    {
      this.policy, this.hash, this.masks, this.breaker := policy, hash, masks, breaker;
    }

    /** Redaction behind the breaker: skipped while it is open, undone when it fails. */
    method RedactGuarded(run: OwnRun, now: nat, decisions: Decisions) returns (bypassed: bool)
      requires decisions.redactions == []
      modifies breaker, decisions
      ensures decisions.sampling == old(decisions.sampling)
      ensures bypassed == (run.failed || !Breaker.Allows(breaker.config, old(breaker.Value()), now))
      ensures decisions.redactions == if bypassed then [] else Pushed(Redact.STAGE_REDACT_REGEX, run.pushes)
      ensures var called := Breaker.AfterCall(breaker.config, old(breaker.Value()), now);
        breaker.Value() == if run.failed && Breaker.Allows(breaker.config, old(breaker.Value()), now)
          then Breaker.AfterFault(breaker.config, called, now) else called
    {
      bypassed := false;
      var allowed := breaker.AllowAt(now);
      if allowed {
        GuardLeavesNoTrace([], Pushed(Redact.STAGE_REDACT_REGEX, run.pushes), Redact.STAGE_REDACT_REGEX);
        var applied := Guarded(Redact.STAGE_REDACT_REGEX, run.As(Redact.STAGE_REDACT_REGEX), decisions);
        if !applied {
          bypassed := true;
          var tripped := breaker.RecordFaultAt(now);
        }
      } else {
        bypassed := true;
      }
    }

    /** Assembly, or on any error the original bytes. */
    method AssembleOrForward(raw: bytes, records: nat, d: Decided) returns (out: Payload, bypassed: bool)
      ensures Assembled(raw, records, d, masks, out, bypassed)
    {
      var assembled := AssembleRequest(raw, records, d, masks);
      if assembled.Ok? {
        return assembled.value, false;
      }
      return PassThrough(raw), true;
    }

    method Process(raw: bytes, run: OwnRun, now: nat) returns (out: Payload, stats: Stats, ghost d: Decided)
      modifies breaker
      ensures FailsOpen(raw, out, stats, d, masks)
      ensures Parse(raw).Ok? ==> Decides(policy, hash, Parse(raw).value, d.sampling)
      ensures Assembled(raw, stats.recordsIn, d, masks, out, stats.assembleBypassed)
      ensures stats.redactBypassed == (run.failed || !Breaker.Allows(breaker.config, old(breaker.Value()), now))
      ensures d.redactions == if stats.redactBypassed then [] else Pushed(Redact.STAGE_REDACT_REGEX, run.pushes)
    {
      hide Parse, AssembleSpec, Decides, Kept, Survivors;
      var decisions := new Decisions();
      var parsed := ParseRequest(raw);
      if parsed.Err? {
        decisions.ClearStage(STAGE_PARSE);
      }
      var records := if parsed.Ok? then parsed.value else [];
      var verdicts, kept, dropped := SampleAll(policy, hash, records);
      decisions.SetSampling(verdicts);
      var redactBypassed := RedactGuarded(run, now, decisions);
      d := decisions.Value();
      var assembleBypassed;
      out, assembleBypassed := AssembleOrForward(raw, |records|, decisions.Value());
      stats := Stats(|records|, kept, dropped, |decisions.redactions|, |raw|, out.len,
                     parsed.Err?, redactBypassed, assembleBypassed);
      if parsed.Err? && !assembleBypassed { NoRecordsNoChange(raw, d, masks); }
      if parsed.Ok? && !assembleBypassed && out.len < U64 {
        OutputReparses(raw, policy, hash, d, masks, out, assembleBypassed);
      }
    }
  }

  // ----- the server's answer

  datatype Answer = Accepted | Malformed | ForwardFailed

  /** What the spool's push answers, when there is a spool. */
  datatype SpoolAnswer = NoSpool | Refused | Took(seqNo: nat)

  /** What an acceptance rests on: nothing, when there is no destination; a delivery of these
      bytes; or a push of them, which the spool took under this sequence. */
  datatype Backing = Unbacked | Delivered(payload: bytes) | Spooled(seqNo: nat, payload: bytes)

  /** What leaves the agent: numbers to the register, payloads to the destination or the spool. */
  class World {
    var recorded: seq<Metrics.Sample>
    var forwarded: seq<bytes>
    var spooled: map<nat, bytes>

    constructor ()
      ensures recorded == [] && forwarded == [] && spooled == map[]
    {
      recorded, forwarded, spooled := [], [], map[];
    }
  }

  function SampleOf(stats: Stats): Metrics.Sample {
    Metrics.Sample(stats.recordsIn, stats.dropped, stats.kept, stats.bytesIn, stats.bytesOut, stats.redactions,
                   stats.redactBypassed || stats.assembleBypassed)
  }

  /** `forwards` is the destination's answer, `spool` the spool's. Accepted with a destination
      means that the output, and no other bytes, was delivered or taken by the spool; the
      recorded sample balances. */
  method Respond(pipeline: Pipeline, raw: bytes, run: OwnRun, now: nat,
                 destination: bool, forwards: bool, spool: SpoolAnswer, world: World)
    returns (answer: Answer, backing: Backing, ghost out: Payload, ghost stats: Stats, ghost d: Decided)
    modifies pipeline.breaker, world
    ensures FailsOpen(raw, out, stats, d, pipeline.masks)
    ensures answer.Malformed? <==> Parse(raw).Err?
    ensures answer.Accepted? <==> Parse(raw).Ok? && (!destination || !backing.Unbacked?)
    ensures !backing.Unbacked? <==> Parse(raw).Ok? && destination && (forwards || spool.Took?)
    ensures answer.Malformed? ==> world.recorded == old(world.recorded)
    ensures !answer.Malformed? ==>
      world.recorded == old(world.recorded) + [SampleOf(stats)] && SampleOf(stats).Balanced()
    ensures !answer.Malformed? ==>
      var m := SampleOf(stats);
      && m.eventsIn == stats.recordsIn && m.sampledOut == stats.dropped && m.exported == stats.kept
      && m.bytesIn == stats.bytesIn && m.bytesExported == stats.bytesOut && m.redactions == stats.redactions
      && (m.failedOpen <==> stats.redactBypassed || stats.assembleBypassed)
    ensures backing.Unbacked? ==> world.forwarded == old(world.forwarded) && world.spooled == old(world.spooled)
    ensures backing.Delivered? ==>
      && backing.payload == Flat(out.chunks)
      && world.forwarded == old(world.forwarded) + [backing.payload] && world.spooled == old(world.spooled)
    ensures backing.Spooled? ==>
      && backing.payload == Flat(out.chunks) && spool == Took(backing.seqNo)
      && world.spooled == old(world.spooled)[backing.seqNo := backing.payload]
        && world.forwarded == old(world.forwarded)
  {
    hide Parse, Kept, Survivors, Texts, Assembled;
    var p, numbers;
    p, numbers, d := pipeline.Process(raw, run, now);
    out, stats := p, numbers;
    backing := Unbacked;
    if numbers.parseBypassed {
      return Malformed, backing, out, stats, d;
    }
    world.recorded := world.recorded + [SampleOf(numbers)];
    if !destination {
      return Accepted, backing, out, stats, d;
    }
    if forwards {
      backing := Delivered(Flat(p.chunks));
      world.forwarded := world.forwarded + [backing.payload];
      return Accepted, backing, out, stats, d;
    }
    if spool.Took? {
      var bytes := Contiguous(p);
      backing := Spooled(spool.seqNo, bytes);
      world.spooled := world.spooled[spool.seqNo := bytes];
      return Accepted, backing, out, stats, d;
    }
    return ForwardFailed, backing, out, stats, d;
  }

  /** The step of the spool protocol by which the backing came about. */
  predicate BackedBy(b: Backing, s: Spool.Sys, a: Spool.Action) {
    match b
    case Unbacked => false
    case Delivered(payload) => a == Spool.DirectForward(payload)
    case Spooled(n, payload) => a == Spool.CommitPush(n) && n in s.pushes && s.pushes[n].file.data == payload
  }

  /** Accepted only for output forwarded or held: once the step an acceptance rests on has been
      taken, in any state of the spool, then through every later push, drain, failure, crash and
      reopening, the very bytes of the output were forwarded or are on disk under the sequence
      the push returned. */
  lemma AcceptedOutputIsKept(b: Backing, s: Spool.Sys, before: seq<Spool.Action>, t: Spool.Sys,
                             a: Spool.Action, after: seq<Spool.Action>, u: Spool.Sys) returns (id: nat)
    requires Spool.Initial(s) && Spool.Reaches(s, before, t)
    requires Spool.Enabled(t, a) && BackedBy(b, t, a) && Spool.Reaches(Spool.Next(t, a), after, u)
    ensures id !in t.accepted && id in u.accepted && u.accepted[id].data == b.payload
    ensures Spool.File(b.payload, id) in u.forwarded
      || (b.Spooled? && Spool.HeldAs(u.disk, b.seqNo, Spool.File(b.payload, id)))
  {
    hide *;
    Settled(b, t, a);
    id := Spool.SettledIsKept(s, before, t, a, after, u, b.payload);
  }

  lemma Settled(b: Backing, s: Spool.Sys, a: Spool.Action)
    requires BackedBy(b, s, a)
    ensures !b.Unbacked? && Spool.Settles(s, a, b.payload)
    ensures a.CommitPush? ==> b.Spooled? && b.seqNo == a.seqNo
  {
  }
}
