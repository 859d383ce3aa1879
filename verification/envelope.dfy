/** Per-request decisions: sampling verdicts, and redaction spans labelled by stage. */
module Envelope {
  import opened Prelude

  datatype Verdict = Keep | Drop

  datatype Redaction = Redaction(lo: nat, hi: nat, mask: nat)

  /** A range is never inverted: spans come from matches, whose start is at most their end. */
  type Span = r: Redaction | r.lo <= r.hi witness Redaction(0, 0, 0)

  datatype StageSpan = StageSpan(stage: string, record: nat, span: Span)

  const STAGE_SAMPLE := "sample"

  datatype Decided = Decided(sampling: seq<Verdict>, redactions: seq<StageSpan>) {
    /** An unset verdict means Keep. */
    function VerdictFor(idx: nat): Verdict {
      if idx < |sampling| then sampling[idx] else Keep
    }

    predicate AnyDropped() { Drop in sampling }

    function SpansFor(record: nat): seq<Span> { Labelled(redactions, record) }
  }

  function Labelled(redactions: seq<StageSpan>, record: nat): seq<Span> {
    if redactions == [] then []
    else (if redactions[0].record == record then [redactions[0].span] else []) + Labelled(redactions[1..], record)
  }

  function WithoutStage(redactions: seq<StageSpan>, stage: string): seq<StageSpan> {
    if redactions == [] then []
    else
      var later := WithoutStage(redactions[1..], stage);
      if redactions[0].stage != stage then [redactions[0]] + later else later
  }

  class Decisions {
    var sampling: seq<Verdict>
    var redactions: seq<StageSpan>

    function Value(): Decided
      reads this
    {
      Decided(sampling, redactions)
    }

    constructor ()
      ensures Value() == Decided([], [])
    {
      sampling, redactions := [], [];
    }

    method SetSampling(verdicts: seq<Verdict>)
      modifies this
      ensures Value() == old(Value()).(sampling := verdicts)
    {
      sampling := verdicts;
    }

    method PushRedaction(stage: string, record: nat, span: Span)
      modifies this
      ensures Value() == old(Value()).(redactions := old(redactions) + [StageSpan(stage, record, span)])
    {
      redactions := redactions + [StageSpan(stage, record, span)];
    }

    method ClearStage(stage: string)
      modifies this
      ensures redactions == WithoutStage(old(redactions), stage)
      ensures sampling == if stage == STAGE_SAMPLE then [] else old(sampling)
    {
      redactions := WithoutStage(redactions, stage);
      if stage == STAGE_SAMPLE {
        sampling := [];
      }
    }
  }

  lemma {:induction false} WithoutStageMeaning(redactions: seq<StageSpan>, stage: string, x: StageSpan)
    ensures x in WithoutStage(redactions, stage) <==> x in redactions && x.stage != stage
  {
    if redactions != [] {
      WithoutStageMeaning(redactions[1..], stage, x);
      assert redactions == [redactions[0]] + redactions[1..];
    }
  }

  lemma WithoutStageUnfold(a: seq<StageSpan>, stage: string)
    ensures a == [] ==> WithoutStage(a, stage) == []
    ensures a != [] ==>
      WithoutStage(a, stage) == (if a[0].stage != stage then [a[0]] else []) + WithoutStage(a[1..], stage)
  {
  }

  lemma {:induction false} WithoutStageConcat(a: seq<StageSpan>, b: seq<StageSpan>, stage: string)
    ensures WithoutStage(a + b, stage) == WithoutStage(a, stage) + WithoutStage(b, stage)
  {
    hide WithoutStage;
    WithoutStageUnfold(a, stage);
    WithoutStageUnfold(a + b, stage);
    if a == [] {
      assert a + b == b;
    } else {
      WithoutStageConcat(a[1..], b, stage);
      assert (a + b)[1..] == a[1..] + b && (a + b)[0] == a[0];
      var own, x, y := if a[0].stage != stage then [a[0]] else [], WithoutStage(a[1..], stage), WithoutStage(b, stage);
      assert own + (x + y) == (own + x) + y;
    }
  }

  lemma {:induction false} WithoutStageSame(a: seq<StageSpan>, stage: string)
    requires forall x <- a :: x.stage != stage
    ensures WithoutStage(a, stage) == a
  {
    if a != [] {
      WithoutStageSame(a[1..], stage);
      assert a == [a[0]] + a[1..];
    }
  }

  lemma {:induction false} WithoutStageNone(a: seq<StageSpan>, stage: string)
    requires forall x <- a :: x.stage == stage
    ensures WithoutStage(a, stage) == []
  {
    if a != [] { WithoutStageNone(a[1..], stage); }
  }

  /** Bypassing a stage undoes exactly what it pushed: earlier stages' spans survive in order. */
  lemma BypassUndoes(before: seq<StageSpan>, pushed: seq<StageSpan>, stage: string)
    requires forall x <- before :: x.stage != stage
    requires forall x <- pushed :: x.stage == stage
    ensures WithoutStage(before + pushed, stage) == before
  {
    WithoutStageConcat(before, pushed, stage);
    WithoutStageSame(before, stage);
    WithoutStageNone(pushed, stage);
  }
}
