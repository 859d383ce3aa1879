/** The nested-repetition lint: a single-pass scan with a stack of group frames, against the
    syntax tree of the pattern it scans. */
module Lint {
  import opened Prelude

  const BACKSLASH: byte := 92
  const OPEN_CLASS: byte := 91
  const CLOSE_CLASS: byte := 93
  const CARET: byte := 94
  const OPEN: byte := 40
  const CLOSE: byte := 41
  const STAR: byte := 42
  const PLUS: byte := 43
  const QUESTION: byte := 63
  const COLON: byte := 58
  const OPEN_BRACE: byte := 123
  const CLOSE_BRACE: byte := 125
  const COMMA: byte := 44

  predicate Digit(c: byte) { 48 <= c <= 57 }

  function Drop(s: bytes, n: nat): bytes {
    if n <= |s| then s[n..] else []
  }

  // ----- the scanner, on the part of the pattern still unread

  /** What a quantifier at the front of the input is: unbounded or not, and its length. */
  datatype Quantifier = Quantifier(unbounded: bool, len: nat)

  /** The braces opened before `s[j]`: closed after digits and commas, or a literal brace. */
  function BraceFrom(s: bytes, j: nat, commaLast: bool): (q: Quantifier)
    requires 0 < j <= |s|
    ensures q.len > 0
    decreases |s| - j
  {
    if j == |s| then Quantifier(false, 1)
    else if s[j] == CLOSE_BRACE then Quantifier(commaLast, j + 1)
    else if s[j] == COMMA then BraceFrom(s, j + 1, true)
    else if Digit(s[j]) then BraceFrom(s, j + 1, false)
    else Quantifier(false, 1)
  }

  function Brace(s: bytes): (q: Quantifier)
    requires s != []
    ensures q.len > 0
  {
    BraceFrom(s, 1, false)
  }

  function QuantifierAt(s: bytes): Quantifier {
    if s == [] then Quantifier(false, 0)
    else if s[0] == STAR || s[0] == PLUS then Quantifier(true, 1)
    else if s[0] == QUESTION then Quantifier(false, 1)
    else if s[0] == OPEN_BRACE then Brace(s)
    else Quantifier(false, 0)
  }

  function SkipMembers(s: bytes): bytes
    decreases |s|
  {
    if s == [] || s[0] == CLOSE_CLASS then s
    else SkipMembers(Drop(s, if s[0] == BACKSLASH then 2 else 1))
  }

  /** The input after a character class whose opening bracket has been read. */
  function AfterClass(s: bytes): (r: bytes)
  {
    var a := if s != [] && s[0] == CARET then s[1..] else s;
    var b := if a != [] && a[0] == CLOSE_CLASS then a[1..] else a;
    Drop(SkipMembers(b), 1)
  }

  lemma {:induction false} SkipMembersShrinks(s: bytes)
    ensures |SkipMembers(s)| <= |s|
    decreases |s|
  {
    if s != [] && s[0] != CLOSE_CLASS { SkipMembersShrinks(Drop(s, if s[0] == BACKSLASH then 2 else 1)); }
  }

  lemma AfterClassShrinks(s: bytes)
    ensures |AfterClass(s)| <= |s|
  {
    var a := if s != [] && s[0] == CARET then s[1..] else s;
    SkipMembersShrinks(if a != [] && a[0] == CLOSE_CLASS then a[1..] else a);
  }

  function Mark(frames: seq<bool>, more: bool): seq<bool> {
    if frames == [] then [] else frames[|frames| - 1 := frames[|frames| - 1] || more]
  }

  /** True when the scan ends without an error; `frames` says, for each open group, whether an
      unbounded quantifier has been seen inside it. */
  predicate Scan(s: bytes, frames: seq<bool>)
    decreases |s|
  {
    if s == [] then true
    else if s[0] == BACKSLASH then Scan(Drop(s, 2), frames)
    else if s[0] == OPEN_CLASS then
      AfterClassShrinks(s[1..]);
      Scan(AfterClass(s[1..]), frames)
    else if s[0] == OPEN then Scan(s[1..], frames + [false])
    else if s[0] == CLOSE then
      var inner := frames != [] && frames[|frames| - 1];
      var outer := if frames == [] then [] else frames[..|frames| - 1];
      var q := QuantifierAt(s[1..]);
      if q.unbounded && inner then false
      else Scan(Drop(s, 1 + q.len), Mark(outer, inner || q.unbounded))
    else if s[0] == STAR || s[0] == PLUS then Scan(s[1..], Mark(frames, true))
    else if s[0] == OPEN_BRACE then
      var q := Brace(s);
      Scan(Drop(s, q.len), if q.unbounded then Mark(frames, true) else frames)
    else Scan(s[1..], frames)
  }

  predicate Accepted(pattern: bytes) {
    Scan(pattern, [false])
  }

  method BraceQuantifier(s: bytes, pos: nat) returns (q: Quantifier)
    requires pos < |s|
    ensures q == Brace(s[pos..])
  {
    var j, commaLast := pos + 1, false;
    while j < |s|
      invariant pos < j <= |s|
      invariant Brace(s[pos..]) == BraceFrom(s[pos..], j - pos, commaLast)
    {
      if s[j] == CLOSE_BRACE {
        return Quantifier(commaLast, j - pos + 1);
      } else if s[j] == COMMA {
        commaLast := true;
      } else if Digit(s[j]) {
        commaLast := false;
      } else {
        return Quantifier(false, 1);
      }
      j := j + 1;
    }
    return Quantifier(false, 1);
  }

  lemma DropDrop(s: bytes, i: nat, n: nat)
    ensures Drop(Drop(s, i), n) == Drop(s, i + n)
    ensures i < |s| ==> Drop(s, i) != [] && Drop(s, i)[0] == s[i] && Drop(s, i)[1..] == Drop(s, i + 1) == s[i + 1..]
    ensures i >= |s| ==> Drop(s, i) == []
  {
  }

  /** The class at `start`: optional `^`, an optional literal `]`, then members up to `]`. */
  method SkipClass(s: bytes, start: nat) returns (i: nat)
    ensures i > start
    ensures Drop(s, i) == AfterClass(Drop(s, start))
  {
    hide Drop, SkipMembers;
    i := start;
    DropDrop(s, i, 1);
    if i < |s| && s[i] == CARET { i := i + 1; }
    DropDrop(s, i, 1);
    if i < |s| && s[i] == CLOSE_CLASS { i := i + 1; }
    ghost var members := Drop(s, i);
    assert AfterClass(Drop(s, start)) == Drop(SkipMembers(members), 1);
    i := SkipToBracket(s, i);
    DropDrop(s, i, 1);
    i := i + 1;
  }

  lemma SkipAt(s: bytes, i: nat)
    ensures i < |s| && s[i] != CLOSE_CLASS
      ==> SkipMembers(Drop(s, i)) == SkipMembers(Drop(s, if s[i] == BACKSLASH then i + 2 else i + 1))
    ensures i >= |s| || s[i] == CLOSE_CLASS ==> SkipMembers(Drop(s, i)) == Drop(s, i)
  {
    DropDrop(s, i, 1);
    DropDrop(s, i, 2);
    hide Drop;
  }

  method SkipToBracket(s: bytes, start: nat) returns (i: nat)
    ensures i >= start
    ensures Drop(s, i) == SkipMembers(Drop(s, start))
  {
    hide *;
    i := start;
    while i < |s| && s[i] != CLOSE_CLASS
      invariant i >= start
      invariant SkipMembers(Drop(s, start)) == SkipMembers(Drop(s, i))
      decreases |s| - i
    {
      SkipAt(s, i);
      if s[i] == BACKSLASH { i := i + 1; }
      i := i + 1;
    }
    SkipAt(s, i);
  }

  /** One round of the scan, by index. */
  lemma ScanAt(s: bytes, i: nat, frames: seq<bool>)
    requires i < |s|
    ensures s[i] == BACKSLASH ==> Scan(Drop(s, i), frames) == Scan(Drop(s, i + 2), frames)
    ensures s[i] == OPEN_CLASS ==> Scan(Drop(s, i), frames) == Scan(AfterClass(Drop(s, i + 1)), frames)
    ensures s[i] == OPEN ==> Scan(Drop(s, i), frames) == Scan(Drop(s, i + 1), frames + [false])
    ensures s[i] == STAR || s[i] == PLUS ==> Scan(Drop(s, i), frames) == Scan(Drop(s, i + 1), Mark(frames, true))
    ensures s[i] == OPEN_BRACE ==>
      var q := Brace(s[i..]);
      Scan(Drop(s, i), frames) == Scan(Drop(s, i + q.len), if q.unbounded then Mark(frames, true) else frames)
    ensures s[i] !in [BACKSLASH, OPEN_CLASS, OPEN, CLOSE, STAR, PLUS, OPEN_BRACE]
      ==> Scan(Drop(s, i), frames) == Scan(Drop(s, i + 1), frames)
  {
    hide AfterClass, Brace, QuantifierAt, SkipMembers;
    DropDrop(s, i, 1);
    DropDrop(s, i, 2);
    assert s[i..] == Drop(s, i);
    DropDrop(s, i, Brace(s[i..]).len);
  }

  lemma ScanCloseUnfold(s: bytes, frames: seq<bool>)
    requires s != [] && s[0] == CLOSE
    ensures var inner, q := frames != [] && frames[|frames| - 1], QuantifierAt(s[1..]);
      var outer := if frames == [] then [] else frames[..|frames| - 1];
      Scan(s, frames) == (!(q.unbounded && inner) && Scan(Drop(s, 1 + q.len), Mark(outer, inner || q.unbounded)))
  {
    hide AfterClass, Brace, QuantifierAt, SkipMembers, Drop, Mark;
  }

  lemma ScanCloseAt(s: bytes, i: nat, frames: seq<bool>)
    requires i < |s| && s[i] == CLOSE
    ensures var inner, q := frames != [] && frames[|frames| - 1], QuantifierAt(s[i + 1..]);
      var outer := if frames == [] then [] else frames[..|frames| - 1];
      Scan(Drop(s, i), frames)
      == (!(q.unbounded && inner) && Scan(Drop(s, i + 1 + q.len), Mark(outer, inner || q.unbounded)))
  {
    hide *;
    DropDrop(s, i, 1);
    DropDrop(s, i, 1 + QuantifierAt(s[i + 1..]).len);
    ScanCloseUnfold(Drop(s, i), frames);
  }

  lemma ScanEnds(s: bytes, i: nat, frames: seq<bool>)
    ensures i >= |s| ==> Scan(Drop(s, i), frames)
    ensures Drop(s, 0) == s
  {
  }

  method CheckNestedRepetition(pattern: bytes) returns (ok: bool)
    ensures ok == Accepted(pattern)
  {
    hide AfterClass, Brace, Mark, QuantifierAt, Scan, Drop;
    var i, frames := 0, [false];
    ScanEnds(pattern, 0, frames);
    while i < |pattern|
      invariant i >= 0 && Accepted(pattern) == Scan(Drop(pattern, i), frames)
      decreases |pattern| - i
    {
      ScanAt(pattern, i, frames);
      var c := pattern[i];
      if c == BACKSLASH {
        i := i + 2;
      } else if c == OPEN_CLASS {
        i := SkipClass(pattern, i + 1);
      } else if c == OPEN {
        frames := frames + [false];
        i := i + 1;
      } else if c == CLOSE {
        ScanCloseAt(pattern, i, frames);
        var inner := |frames| > 0 && frames[|frames| - 1];
        frames := if |frames| == 0 then [] else frames[..|frames| - 1];
        var q := QuantifierAt(pattern[i + 1..]);
        if q.unbounded && inner {
          return false;
        }
        frames := Mark(frames, inner || q.unbounded);
        i := i + 1 + q.len;
      } else if c == STAR || c == PLUS {
        frames := Mark(frames, true);
        i := i + 1;
      } else if c == OPEN_BRACE {
        var q := BraceQuantifier(pattern, i);
        if q.unbounded { frames := Mark(frames, true); }
        i := i + q.len;
      } else {
        i := i + 1;
      }
    }
    ScanEnds(pattern, i, frames);
    return true;
  }

  // ----- the syntax tree, and what it prints

  datatype Quant = Star | Plus | Optional | Exactly(n: bytes) | AtLeast(n: bytes) | Between(n: bytes, m: bytes) {
    predicate Unbounded() { Star? || Plus? || AtLeast? }
  }

  datatype Member = Plain(c: byte) | Escaped(c: byte)

  datatype Atom =
    | Literal(c: byte)
    | Escape(c: byte)
    | Class(negated: bool, bracket: bool, members: seq<Member>)
    | Group(capturing: bool, body: Regex)

  /** A concatenation of atoms, each with at most one quantifier, greedy or lazy. */
  datatype Regex = End | Then(atom: Atom, quant: Option<Quant>, isLazy: bool, next: Regex)

  function PrintMembers(ms: seq<Member>): bytes {
    if ms == [] then []
    else (if ms[0].Plain? then [ms[0].c] else [BACKSLASH, ms[0].c]) + PrintMembers(ms[1..])
  }

  function PrintQuant(q: Quant): bytes {
    match q
    case Star => [STAR]
    case Plus => [PLUS]
    case Optional => [QUESTION]
    case Exactly(n) => [OPEN_BRACE] + n + [CLOSE_BRACE]
    case AtLeast(n) => [OPEN_BRACE] + (n + [COMMA]) + [CLOSE_BRACE]
    case Between(n, m) => [OPEN_BRACE] + (n + [COMMA] + m) + [CLOSE_BRACE]
  }

  function PrintQuantifier(q: Option<Quant>, isLazy: bool): bytes {
    if q.None? then [] else PrintQuant(q.value) + if isLazy then [QUESTION] else []
  }

  function PrintClassHead(negated: bool, bracket: bool): bytes {
    (if negated then [CARET] else []) + (if bracket then [CLOSE_CLASS] else [])
  }

  function PrintAtom(a: Atom): bytes {
    match a
    case Literal(c) => [c]
    case Escape(c) => [BACKSLASH, c]
    case Class(negated, bracket, members) =>
      [OPEN_CLASS] + (PrintClassHead(negated, bracket) + (PrintMembers(members) + [CLOSE_CLASS]))
    case Group(capturing, body) => [OPEN] + ((if capturing then [] else [QUESTION, COLON]) + (Print(body) + [CLOSE]))
  }

  function Print(r: Regex): bytes {
    match r
    case End => []
    case Then(a, q, isLazy, next) => PrintAtom(a) + (PrintQuantifier(q, isLazy) + Print(next))
  }

  // ----- which trees are patterns the lint is specified for

  predicate Digits(n: bytes) { n != [] && forall c <- n :: Digit(c) }

  predicate GoodQuant(q: Quant) {
    match q
    case Exactly(n) => Digits(n)
    case AtLeast(n) => Digits(n)
    case Between(n, m) => Digits(n) && Digits(m)
    case _ => true
  }

  predicate PlainByte(c: byte) {
    c !in [BACKSLASH, OPEN_CLASS, OPEN, CLOSE, STAR, PLUS, QUESTION, OPEN_BRACE]
  }

  predicate GoodAtom(a: Atom) {
    match a
    case Literal(c) => PlainByte(c)
    case Escape(_) => true
    case Class(negated, bracket, members) =>
      && (bracket || members != [])
      && (!negated && !bracket ==> members[0] != Plain(CARET))
      && forall m <- members :: m.Plain? ==> m.c != CLOSE_CLASS && m.c != BACKSLASH
    case Group(_, body) => Good(body)
  }

  predicate Good(r: Regex) {
    r.Then? ==> GoodAtom(r.atom) && (r.quant.Some? ==> GoodQuant(r.quant.value)) && Good(r.next)
  }

  // ----- the property the lint is for

  predicate QuantUnbounded(q: Option<Quant>) { q.Some? && q.value.Unbounded() }

  /** Some unbounded quantifier occurs in `r`, at any depth. */
  predicate Repeats(r: Regex) {
    r.Then? && (QuantUnbounded(r.quant) || (r.atom.Group? && Repeats(r.atom.body)) || Repeats(r.next))
  }

  /** Some unbounded quantifier applies to a group that contains an unbounded quantifier. */
  predicate NestedRepetition(r: Regex) {
    r.Then? &&
    (|| (r.atom.Group? && ((QuantUnbounded(r.quant) && Repeats(r.atom.body)) || NestedRepetition(r.atom.body)))
     || NestedRepetition(r.next))
  }

  // ----- the scan of a printed tree

  predicate NoQuantifierAhead(s: bytes) {
    s != [] ==> s[0] !in [STAR, PLUS, QUESTION, OPEN_BRACE]
  }

  lemma NextAtomAhead(r: Regex, post: bytes)
    requires Good(r) && NoQuantifierAhead(post)
    ensures NoQuantifierAhead(Print(r) + post)
  {
    if r.Then? {
      assert (Print(r) + post)[0] == PrintAtom(r.atom)[0];
    } else {
      assert Print(r) + post == post;
    }
  }

  lemma {:induction false} BraceRun(s: bytes, j: nat, k: nat, commaLast: bool)
    requires 0 < j <= k < |s| && s[k] == CLOSE_BRACE
    requires forall i | j <= i < k :: s[i] == COMMA || Digit(s[i])
    ensures BraceFrom(s, j, commaLast) == Quantifier(if j == k then commaLast else s[k - 1] == COMMA, k + 1)
    decreases k - j
  {
    if j < k { BraceRun(s, j + 1, k, s[j] == COMMA); }
  }

  lemma BraceOf(body: bytes, tail: bytes)
    requires body != [] && forall c <- body :: c == COMMA || Digit(c)
    ensures var s := [OPEN_BRACE] + body + [CLOSE_BRACE] + tail;
      Brace(s) == Quantifier(body[|body| - 1] == COMMA, |body| + 2)
  {
    var s := [OPEN_BRACE] + body + [CLOSE_BRACE] + tail;
    forall i | 1 <= i < |body| + 1 ensures s[i] == COMMA || Digit(s[i]) {
      assert s[i] == body[i - 1] && body[i - 1] in body;
    }
    BraceRun(s, 1, |body| + 1, false);
  }

  /** A printed quantifier is recognised, whatever follows. */
  lemma QuantifierRead(q: Quant, tail: bytes)
    requires GoodQuant(q)
    ensures QuantifierAt(PrintQuant(q) + tail) == Quantifier(q.Unbounded(), |PrintQuant(q)|)
    ensures PrintQuant(q)[0] in [STAR, PLUS, QUESTION, OPEN_BRACE]
    ensures q.Exactly? || q.AtLeast? || q.Between?
      ==> Brace(PrintQuant(q) + tail) == Quantifier(q.Unbounded(), |PrintQuant(q)|)
  {
    hide Brace;
    match q {
      case Exactly(n) => BraceOf(n, tail); assert n[|n| - 1] in n;
      case AtLeast(n) => BraceOf(n + [COMMA], tail);
      case Between(n, m) => BraceOf(n + [COMMA] + m, tail); assert m[|m| - 1] in m;
      case _ =>
    }
  }

  lemma DropFront(a: bytes, b: bytes)
    ensures Drop(a + b, |a|) == b
  {
  }

  lemma ScanLazy(isLazy: bool, tail: bytes, frames: seq<bool>)
    ensures Scan((if isLazy then [QUESTION] else []) + tail, frames) == Scan(tail, frames)
  {
    if isLazy {
      assert ([QUESTION] + tail)[1..] == tail;
    } else {
      assert [] + tail == tail;
    }
  }

  lemma ScanQuant(q: Quant, tail: bytes, frames: seq<bool>)
    requires GoodQuant(q) && frames != []
    ensures Scan(PrintQuant(q) + tail, frames) == Scan(tail, if q.Unbounded() then Mark(frames, true) else frames)
  {
    hide Brace, AfterClass, QuantifierAt;
    QuantifierRead(q, tail);
    DropFront(PrintQuant(q), tail);
    assert (PrintQuant(q) + tail)[0] == PrintQuant(q)[0];
    if q.Star? || q.Plus? || q.Optional? { assert (PrintQuant(q) + tail)[1..] == tail; }
  }

  lemma ScanQuantifier(q: Option<Quant>, isLazy: bool, tail: bytes, frames: seq<bool>)
    requires (q.Some? ==> GoodQuant(q.value)) && frames != []
    ensures Scan(PrintQuantifier(q, isLazy) + tail, frames) == Scan(tail, Mark(frames, QuantUnbounded(q)))
  {
    hide Scan, PrintQuant;
    MarkNothing(frames);
    if q.None? {
      assert [] + tail == tail;
    } else {
      var lz := if isLazy then [QUESTION] else [];
      assert PrintQuantifier(q, isLazy) + tail == PrintQuant(q.value) + (lz + tail);
      ScanQuant(q.value, lz + tail, frames);
      ScanLazy(isLazy, tail, if q.value.Unbounded() then Mark(frames, true) else frames);
    }
  }

  lemma MarkNothing(frames: seq<bool>)
    ensures Mark(frames, false) == frames
  {
  }

  lemma {:induction false} SkipPrintedMembers(ms: seq<Member>, tail: bytes)
    requires forall m <- ms :: m.Plain? ==> m.c != CLOSE_CLASS && m.c != BACKSLASH
    ensures SkipMembers(PrintMembers(ms) + ([CLOSE_CLASS] + tail)) == [CLOSE_CLASS] + tail
  {
    if ms == [] {
      assert PrintMembers(ms) + ([CLOSE_CLASS] + tail) == [CLOSE_CLASS] + tail;
    } else {
      var own := if ms[0].Plain? then [ms[0].c] else [BACKSLASH, ms[0].c];
      var later := PrintMembers(ms[1..]) + ([CLOSE_CLASS] + tail);
      assert PrintMembers(ms) + ([CLOSE_CLASS] + tail) == own + later;
      DropFront(own, later);
      SkipPrintedMembers(ms[1..], tail);
    }
  }

  lemma AfterHead(negated: bool, bracket: bool, members: bytes)
    requires members != [] && (bracket || (members[0] != CLOSE_CLASS && (negated || members[0] != CARET)))
    ensures AfterClass(PrintClassHead(negated, bracket) + members) == Drop(SkipMembers(members), 1)
  {
    hide SkipMembers;
    var s := PrintClassHead(negated, bracket) + members;
    if negated && bracket {
      assert s[0] == CARET && s[1..] == [CLOSE_CLASS] + members && s[1..][1..] == members;
    } else if negated {
      assert s[0] == CARET && s[1..] == members;
    } else if bracket {
      assert s[0] == CLOSE_CLASS && s[1..] == members;
    } else {
      assert s == members;
    }
  }

  lemma FirstMember(a: Atom, rest: bytes)
    requires a.Class? && GoodAtom(a) && !a.bracket
    ensures var members := PrintMembers(a.members) + rest;
      members[0] != CLOSE_CLASS && (a.negated || members[0] != CARET)
  {
    assert a.members[0] in a.members;
    assert (PrintMembers(a.members) + rest)[0] == PrintMembers(a.members)[0];
  }

  lemma AfterPrintedClass(a: Atom, tail: bytes)
    requires a.Class? && GoodAtom(a)
    ensures var members := PrintMembers(a.members) + ([CLOSE_CLASS] + tail);
      AfterClass(PrintClassHead(a.negated, a.bracket) + members) == tail
  {
    hide SkipMembers, PrintMembers, AfterClass, PrintClassHead;
    var members := PrintMembers(a.members) + ([CLOSE_CLASS] + tail);
    SkipPrintedMembers(a.members, tail);
    DropFront([CLOSE_CLASS], tail);
    if !a.bracket { FirstMember(a, [CLOSE_CLASS] + tail); }
    AfterHead(a.negated, a.bracket, members);
  }

  lemma ScanSimpleAtom(a: Atom, tail: bytes, frames: seq<bool>)
    requires GoodAtom(a) && !a.Group?
    ensures Scan(PrintAtom(a) + tail, frames) == Scan(tail, frames)
  {
    hide AfterClass, Brace, QuantifierAt;
    var s := PrintAtom(a) + tail;
    match a {
      case Literal(c) => assert s[1..] == tail;
      case Escape(c) => DropFront([BACKSLASH, c], tail);
      case Class(negated, bracket, members) =>
        assert s[1..] == PrintClassHead(negated, bracket) + (PrintMembers(members) + ([CLOSE_CLASS] + tail));
        AfterPrintedClass(a, tail);
    }
  }

  lemma ScanCloseAlone(tail: bytes, outer: seq<bool>, inner: bool)
    requires NoQuantifierAhead(tail)
    ensures Scan([CLOSE] + tail, outer + [inner]) == Scan(tail, Mark(outer, inner))
  {
    hide Scan, Brace, QuantifierAt, Drop, Mark, NoQuantifierAhead;
    var frames, s := outer + [inner], [CLOSE] + tail;
    assert s[1..] == tail && frames[..|frames| - 1] == outer;
    ScanCloseUnfold(s, frames);
    NoQuantifierRead(tail);
    DropFront([CLOSE], tail);
  }

  lemma ScanCloseQuantified(q: Quant, rest: bytes, outer: seq<bool>, inner: bool)
    requires GoodQuant(q)
    ensures Scan([CLOSE] + (PrintQuant(q) + rest), outer + [inner])
      == (!(q.Unbounded() && inner) && Scan(rest, Mark(outer, inner || q.Unbounded())))
  {
    hide Scan, Brace, PrintQuant, QuantifierAt, Drop, Mark, GoodQuant;
    var frames, s := outer + [inner], [CLOSE] + (PrintQuant(q) + rest);
    assert s[1..] == PrintQuant(q) + rest && frames[..|frames| - 1] == outer;
    ScanCloseUnfold(s, frames);
    QuantifierRead(q, rest);
    assert s == ([CLOSE] + PrintQuant(q)) + rest;
    DropFront([CLOSE] + PrintQuant(q), rest);
  }

  /** A closing parenthesis, the group's quantifier, and what the group folds into its parent. */
  lemma ScanClose(q: Option<Quant>, isLazy: bool, tail: bytes, outer: seq<bool>, inner: bool)
    requires (q.Some? ==> GoodQuant(q.value)) && NoQuantifierAhead(tail)
    ensures Scan([CLOSE] + (PrintQuantifier(q, isLazy) + tail), outer + [inner])
      == (!(QuantUnbounded(q) && inner) && Scan(tail, Mark(outer, inner || QuantUnbounded(q))))
  {
    hide Scan, PrintQuant, Mark, GoodQuant, NoQuantifierAhead;
    if q.None? {
      assert PrintQuantifier(q, isLazy) + tail == tail;
      ScanCloseAlone(tail, outer, inner);
    } else {
      var lz := if isLazy then [QUESTION] else [];
      assert PrintQuantifier(q, isLazy) + tail == PrintQuant(q.value) + (lz + tail);
      ScanCloseQuantified(q.value, lz + tail, outer, inner);
      ScanLazy(isLazy, tail, Mark(outer, inner || QuantUnbounded(q)));
    }
  }

  lemma NoQuantifierRead(tail: bytes)
    requires NoQuantifierAhead(tail)
    ensures QuantifierAt(tail) == Quantifier(false, 0)
  {
  }

  lemma PlainScan(c: byte, tail: bytes, frames: seq<bool>)
    requires c == QUESTION || c == COLON
    ensures Scan([c] + tail, frames) == Scan(tail, frames)
  {
    assert ([c] + tail)[1..] == tail;
  }

  lemma ScanOpen(capturing: bool, tail: bytes, frames: seq<bool>)
    ensures Scan([OPEN] + ((if capturing then [] else [QUESTION, COLON]) + tail), frames)
      == Scan(tail, frames + [false])
  {
    var s := [OPEN] + ((if capturing then [] else [QUESTION, COLON]) + tail);
    if capturing {
      assert s[1..] == tail;
    } else {
      assert s[1..] == [QUESTION] + ([COLON] + tail);
      PlainScan(QUESTION, [COLON] + tail, frames + [false]);
      PlainScan(COLON, tail, frames + [false]);
    }
  }

  lemma {:induction false} ScanPrinted(r: Regex, post: bytes, outer: seq<bool>, b: bool)
    requires Good(r) && NoQuantifierAhead(post)
    ensures Scan(Print(r) + post, outer + [b]) == (!NestedRepetition(r) && Scan(post, outer + [b || Repeats(r)]))
    decreases r
  {
    hide Scan, PrintQuantifier, Mark;
    if r.End? {
      assert Print(r) + post == post;
    } else {
      var tail := Print(r.next) + post;
      NextAtomAhead(r.next, post);
      assert Print(r) + post == PrintAtom(r.atom) + (PrintQuantifier(r.quant, r.isLazy) + tail);
      if r.atom.Group? {
        ScanPrintedGroup(r.atom, r.quant, r.isLazy, tail, outer, b);
        ScanPrinted(r.next, post, outer, b || Repeats(r.atom.body) || QuantUnbounded(r.quant));
      } else {
        ScanSimpleAtom(r.atom, PrintQuantifier(r.quant, r.isLazy) + tail, outer + [b]);
        ScanQuantifier(r.quant, r.isLazy, tail, outer + [b]);
        MarkLast(outer, b, QuantUnbounded(r.quant));
        ScanPrinted(r.next, post, outer, b || QuantUnbounded(r.quant));
      }
    }
  }

  lemma MarkLast(outer: seq<bool>, b: bool, more: bool)
    ensures Mark(outer + [b], more) == outer + [b || more]
  {
  }

  lemma ScanPrintedGroup(a: Atom, q: Option<Quant>, isLazy: bool, tail: bytes, outer: seq<bool>, b: bool)
    requires a.Group? && GoodAtom(a) && (q.Some? ==> GoodQuant(q.value)) && NoQuantifierAhead(tail)
    ensures Scan(PrintAtom(a) + (PrintQuantifier(q, isLazy) + tail), outer + [b])
      == (!NestedRepetition(a.body) && !(QuantUnbounded(q) && Repeats(a.body))
          && Scan(tail, outer + [b || Repeats(a.body) || QuantUnbounded(q)]))
    decreases a
  {
    hide Scan, PrintQuantifier, Mark;
    var closing := [CLOSE] + (PrintQuantifier(q, isLazy) + tail);
    var prefix := if a.capturing then [] else [QUESTION, COLON];
    assert PrintAtom(a) + (PrintQuantifier(q, isLazy) + tail) == [OPEN] + (prefix + (Print(a.body) + closing));
    ScanOpen(a.capturing, Print(a.body) + closing, outer + [b]);
    ScanPrinted(a.body, closing, outer + [b], false);
    ScanClose(q, isLazy, tail, outer + [b], Repeats(a.body));
    MarkLast(outer, b, Repeats(a.body) || QuantUnbounded(q));
  }

  /** For every pattern tree, the lint run on its printed form errs exactly when some unbounded
      quantifier applies to a group that, at any depth, contains an unbounded quantifier. */
  lemma LintIsExact(r: Regex)
    requires Good(r)
    ensures Accepted(Print(r)) <==> !NestedRepetition(r)
  {
    assert Print(r) + [] == Print(r) && [] + [false] == [false];
    ScanPrinted(r, [], [], false);
  }

  /** The characters the scan gives a meaning to. */
  lemma Symbols()
    ensures Ascii("[]^()*+?:{},") == [OPEN_CLASS, CLOSE_CLASS, CARET, OPEN, CLOSE, STAR, PLUS, QUESTION, COLON,
                                      OPEN_BRACE, CLOSE_BRACE, COMMA]
    ensures Ascii("\\") == [BACKSLASH] && forall c: byte :: Digit(c) <==> c in Ascii("0123456789")
  {
    assert Ascii("0123456789") == [48, 49, 50, 51, 52, 53, 54, 55, 56, 57];
  }
}
