/** A request that parses and cannot be assembled: what the parser does not look at, after the
    first string of an AnyValue, does not walk. */
module Stuck {
  import opened Prelude
  import opened Varint
  import opened Wire
  import opened Otlp
  import opened Envelope
  import opened Spans
  import opened Govern
  import opened Preservation

  /** An empty string, then a tag of a wire type that does not exist. */
  const VALUE: bytes := [10, 0, 7]
  const RECORD: bytes := [42, 3] + VALUE
  const SCOPE: bytes := [18, 5] + RECORD
  const LOGS: bytes := [18, 7] + SCOPE
  const REQUEST: bytes := [10, 9] + LOGS

  lemma Sizes()
    ensures |VALUE| == 3 && |RECORD| == 5 && |SCOPE| == 7 && |LOGS| == 9
  {
  }

  /** A message that holds one length-delimited field. */
  lemma OneField(num: nat, payload: bytes)
    requires 0 < num < 16 && |payload| < 128
    ensures var f := Field(num, 2, [8 * num + 2, |payload|], payload);
      f.Sound() && Fields(f.Bytes()) == Step(f, Stop([]))
  {
    hide Fields, Field.Sound;
    HeaderBytes(num, |payload|);
    CanonicalSound(num, payload);
    var f := Canonical(num, payload);
    assert f == Field(num, 2, [8 * num + 2, |payload|], payload);
    OneStep(f);
    Rewalk(Step(f, Stop([])));
  }

  lemma HeaderBytes(num: nat, size: nat)
    requires 0 < num < 16 && size < 128
    ensures Header(num, size) == [8 * num + 2, size]
  {
    assert Encode(8 * num + 2) == [8 * num + 2] && Encode(size) == [size];
  }

  lemma OneStep(f: Field)
    requires f.Sound()
    ensures AllSound(Step(f, Stop([]))) && Clean(Step(f, Stop([]))) && Unwalk(Step(f, Stop([]))) == f.Bytes()
  {
  }

  lemma ValueSticks()
    ensures Fields(VALUE) == Step(Field(1, 2, [10, 0], []), Stop([7]))
  {
    var f := Field(1, 2, [10, 0], []);
    OneField(1, []);
    assert f.Bytes() == VALUE[..2];
    NextFieldStable(f.Bytes(), VALUE, 0, 0);
    assert VALUE[|f.Bytes()|..] == [7];
    LastByteSticks();
  }

  lemma LastByteSticks()
    ensures Fields([7]) == Stop([7])
  {
    assert Run([7]) == 0;
    assert [7][..1] == [7] && Digits([7]) == 7 by { assert [7][1..] == []; }
  }

  lemma ValueReads(at: nat)
    ensures AnyString(Fields(VALUE), at).Ok? && !Clean(Fields(VALUE))
  {
    hide Fields;
    ValueSticks();
  }

  lemma RecordReads(at: nat)
    ensures DraftIn(Fields(RECORD), at).Ok?
    ensures RecordValues(Fields(RECORD), at) == [View(at + 2, VALUE)]
  {
    hide Fields, AnyString;
    Sizes();
    OneField(5, VALUE);
    ValueReads(at + 2);
  }

  lemma ScopeReads(at: nat, r: Resource)
    ensures ScopeIn(Fields(SCOPE), at, r).Ok? && |ScopeIn(Fields(SCOPE), at, r).value| == 1
    ensures RecordWindows(Fields(SCOPE), at, Scope) == [View(at + 2, RECORD)]
  {
    hide Fields, DraftIn;
    Sizes();
    OneField(2, RECORD);
    RecordReads(at + 2);
  }

  lemma LogsGroup(at: nat)
    ensures Fields(LOGS) == Step(Field(2, 2, [18, 7], SCOPE), Stop([]))
    ensures GroupIn(Fields(LOGS), at) == Ok(Group(None, [View(at + 2, SCOPE)]))
  {
    hide Fields;
    Sizes();
    OneField(2, SCOPE);
    var f, stop, scope := Field(2, 2, [18, 7], SCOPE), Stop([]), View(at + 2, SCOPE);
    assert f.Bytes() == LOGS;
    assert GroupField(f, at) == Ok(Group(None, [scope])) && GroupIn(stop, at + 9) == Ok(EMPTY_GROUP);
    assert GroupIn(Step(f, stop), at) == Ok(Group(None, [scope]).Then(EMPTY_GROUP));
    assert [scope] + [] == [scope];
  }

  lemma LogsScopes(at: nat)
    ensures ScopesOf([View(at, SCOPE)], EMPTY_RESOURCE).Ok? && |ScopesOf([View(at, SCOPE)], EMPTY_RESOURCE).value| == 1
  {
    hide Fields, ScopeIn;
    ScopeReads(at, EMPTY_RESOURCE);
    assert [View(at, SCOPE)][1..] == [];
    assert ScopesOf([], EMPTY_RESOURCE) == Ok([]);
  }

  lemma LogsWindows(at: nat)
    ensures RecordWindows(Fields(LOGS), at, Resources) == [View(at + 4, RECORD)]
  {
    hide Fields, GroupIn;
    LogsGroup(at);
    ScopeReads(at + 2, EMPTY_RESOURCE);
    var f := Field(2, 2, [18, 7], SCOPE);
    assert FieldWindows(f, at, Resources) == RecordWindows(Fields(SCOPE), at + 2, Scope);
    assert RecordWindows(Stop([]), at + 9, Resources) == [];
  }

  lemma LogsRead(at: nat)
    ensures GroupOf(View(at, LOGS)).Ok? && |GroupOf(View(at, LOGS)).value| == 1
    ensures RecordWindows(Fields(LOGS), at, Resources) == [View(at + 4, RECORD)]
  {
    hide Fields, GroupIn, ScopesOf, RecordWindows;
    LogsGroup(at);
    LogsScopes(at + 2);
    LogsWindows(at);
  }

  lemma RequestReads()
    ensures Parse(REQUEST).Ok? && |Parse(REQUEST).value| == 1
    ensures RecordWindows(Fields(REQUEST), 0, Request) == [View(6, RECORD)]
  {
    hide Fields, GroupOf;
    Sizes();
    OneField(1, LOGS);
    assert Field(1, 2, [10, 9], LOGS).Bytes() == REQUEST;
    LogsRead(2);
    var f, stop := Field(1, 2, [10, 9], LOGS), Stop([]);
    assert RequestIn(stop, 11) == Ok([]);
    assert RequestIn(Step(f, stop), 0) == Ok(GroupOf(View(2, LOGS)).value + []);
  }

  /** The request parses to one record; while that record is kept, and anything at all is to be
      done, assembly fails on it, with a wire error if the masks are compiled. */
  lemma ParsesButSticks(d: Decided, masks: Masks)
    requires d.VerdictFor(0).Keep? && !NoDecisions(d) && MasksCompiled(d, masks)
    ensures REQUEST == [10, 9, 18, 7, 18, 5, 42, 3, 10, 0, 7]
    ensures Parse(REQUEST).Ok? && |Parse(REQUEST).value| == 1
    ensures !EveryKeptRecordWalks(REQUEST, d)
    ensures AssembleSpec(REQUEST, 1, d, masks).Err? && AssembleSpec(REQUEST, 1, d, masks).error.WireError?
  {
    hide Fields, Parse, AssembleSpec, RecordWindows, RecordValues, NoDecisions, MasksCompiled;
    RequestReads();
    RecordReads(6);
    ValueReads(8);
    assert View(8, VALUE) in RecordValues(Fields(RECORD), 6);
    assert !WalksToTheEnd(RecordWindows(Fields(REQUEST), 0, Request)[0], 0, d);
    OnlyWireErrors(REQUEST, d, masks);
  }

  /** Such decisions exist: one span is enough. */
  lemma OneSpanSticks()
    ensures var d := Decided([Keep], [StageSpan("redact-regex", 0, Redaction(0, 0, 0))]);
      AssembleSpec(REQUEST, 1, d, [[]]).Err?
  {
    ParsesButSticks(Decided([Keep], [StageSpan("redact-regex", 0, Redaction(0, 0, 0))]), [[]]);
  }
}
