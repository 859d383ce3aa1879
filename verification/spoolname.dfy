/** Spool file names: twenty decimal digits and a suffix, ordered as their numbers. */
module SpoolName {
  import opened Prelude
  import Division

  const PUBLISHED := ".otlp"
  const PARTIAL := ".otlp.tmp"

  predicate IsDigit(c: char) { '0' <= c <= '9' }

  function DigitChar(d: nat): char
    requires d < 10
  {
    '0' + d as char
  }

  /** Zero-padded to `width` digits. */
  function Decimal(n: nat, width: nat): (s: string)
    ensures |s| == width
  {
    if width == 0 then "" else Decimal(n / 10, width - 1) + [DigitChar(n % 10)]
  }

  function DigitOf(c: char): (d: nat)
    requires IsDigit(c)
    ensures d < 10 && DigitChar(d) == c
  {
    c as int - '0' as int
  }

  function ValueOf(s: string): nat
    requires forall c <- s :: IsDigit(c)
  {
    if s == "" then 0
    else
      var c := s[|s| - 1];
      assert c in s;
      10 * ValueOf(s[..|s| - 1]) + DigitOf(c)
  }

  function Name(n: nat): string { Decimal(n, 20) + PUBLISHED }
  function TmpName(n: nat): string { Decimal(n, 20) + PARTIAL }

  predicate EndsWith(s: string, suffix: string) {
    |s| >= |suffix| && s[|s| - |suffix|..] == suffix
  }

  /** The sequence of a published file name, if it is one. */
  function ParseSeq(name: string): Option<nat> {
    if !EndsWith(name, PUBLISHED) then None
    else
      var stem := name[..|name| - |PUBLISHED|];
      if |stem| == 20 && forall c <- stem :: IsDigit(c) then
        var v := ValueOf(stem);
        if v < U64 then Some(v) else None
      else None
  }

  function Pow10(k: nat): (p: nat)
    ensures p > 0
  {
    if k == 0 then 1 else 10 * Pow10(k - 1)
  }

  lemma {:induction false} ValueOfDecimal(n: nat, width: nat)
    requires n < Pow10(width)
    ensures forall c <- Decimal(n, width) :: IsDigit(c)
    ensures ValueOf(Decimal(n, width)) == n
  {
    if width > 0 {
      ValueOfDecimal(n / 10, width - 1);
      var s := Decimal(n, width);
      assert s[..|s| - 1] == Decimal(n / 10, width - 1);
    }
  }

  lemma DecimalSnoc(v: nat, c: char, width: nat)
    requires IsDigit(c)
    ensures Decimal(10 * v + DigitOf(c), width + 1) == Decimal(v, width) + [c]
  {
    var n := 10 * v + DigitOf(c);
    assert n / 10 == v && n % 10 == DigitOf(c);
  }

  lemma {:induction false} DecimalOfValue(s: string)
    requires forall c <- s :: IsDigit(c)
    ensures Decimal(ValueOf(s), |s|) == s
  {
    hide Decimal, IsDigit, DigitOf;
    if s == "" {
      assert Decimal(0, 0) == "";
    } else {
      var front, c := s[..|s| - 1], s[|s| - 1];
      assert c in s;
      DecimalOfValue(front);
      DecimalSnoc(ValueOf(front), c, |front|);
      assert s == front + [c];
    }
  }

  lemma TwentyDigitsHoldU64()
    ensures U64 < Pow10(20)
  {
    assert Pow10(5) == 100000;
    assert Pow10(10) == 100000 * Pow10(5);
    assert Pow10(15) == 100000 * Pow10(10);
    assert Pow10(20) == 100000 * Pow10(15);
  }

  /** Writing then parsing a name gives back the sequence, for every u64. */
  lemma ParseOfName(n: nat)
    requires n < U64
    ensures ParseSeq(Name(n)) == Some(n)
  {
    TwentyDigitsHoldU64();
    ValueOfDecimal(n, 20);
    hide Decimal, ValueOf;
    assert Name(n)[|Name(n)| - |PUBLISHED|..] == PUBLISHED;
    assert Name(n)[..|Name(n)| - |PUBLISHED|] == Decimal(n, 20);
  }

  /** Only the name of a u64 parses, and to that u64. */
  lemma NameOfParse(name: string)
    requires ParseSeq(name).Some?
    ensures ParseSeq(name).value < U64 && name == Name(ParseSeq(name).value)
  {
    var stem := name[..|name| - |PUBLISHED|];
    DecimalOfValue(stem);
    assert name == stem + PUBLISHED;
  }

  lemma LastButOne(s: string, suffix: string)
    requires EndsWith(s, suffix) && |suffix| >= 2
    ensures s[|s| - 2] == suffix[|suffix| - 2]
  {
    assert s[|s| - |suffix|..][|suffix| - 2] == s[|s| - 2];
  }

  /** No partial file is ever taken for a published one. */
  lemma TmpNeverParses(name: string)
    requires EndsWith(name, ".tmp")
    ensures ParseSeq(name).None?
  {
    LastButOne(name, ".tmp");
    if EndsWith(name, PUBLISHED) { LastButOne(name, PUBLISHED); }
  }

  lemma TmpNamesEnd(n: nat)
    ensures EndsWith(TmpName(n), ".tmp")
    ensures !EndsWith(Name(n), ".tmp")
  {
    hide Decimal;
    assert TmpName(n)[|TmpName(n)| - 4..] == ".tmp";
    assert Name(n)[|Name(n)| - 4..] == "otlp";
    assert "otlp"[0] != ".tmp"[0];
  }

  lemma NamesDistinct(m: nat, n: nat)
    requires m < U64 && n < U64
    ensures Name(m) == Name(n) ==> m == n
    ensures TmpName(m) == TmpName(n) ==> m == n
    ensures Name(m) != TmpName(n)
  {
    hide Decimal, ParseSeq;
    ParseOfName(m);
    ParseOfName(n);
    TmpNamesEnd(n);
    TmpNamesEnd(m);
    if TmpName(m) == TmpName(n) {
      assert TmpName(m)[..20] == Decimal(m, 20) && TmpName(n)[..20] == Decimal(n, 20);
      assert Name(m) == Name(n);
    }
  }

  // ----- name order is number order

  /** Lexicographic order on equally long strings. */
  predicate Below(a: string, b: string)
    requires |a| == |b|
  {
    a != "" && (a[0] < b[0] || (a[0] == b[0] && Below(a[1..], b[1..])))
  }

  lemma {:induction false} BelowSnoc(a: string, b: string, c: char, d: char)
    requires |a| == |b|
    ensures Below(a + [c], b + [d]) <==> Below(a, b) || (a == b && c < d)
  {
    if a == "" {
      assert a + [c] == [c] && b + [d] == [d];
      assert [c][1..] == "" && [d][1..] == "";
    } else {
      BelowSnoc(a[1..], b[1..], c, d);
      assert (a + [c])[1..] == a[1..] + [c] && (b + [d])[1..] == b[1..] + [d];
      assert a == [a[0]] + a[1..] && b == [b[0]] + b[1..];
    }
  }

  lemma {:induction false} DecimalOrder(m: nat, n: nat, width: nat)
    requires m < Pow10(width) && n < Pow10(width)
    ensures Below(Decimal(m, width), Decimal(n, width)) <==> m < n
    ensures Decimal(m, width) == Decimal(n, width) ==> m == n
  {
    if width > 0 {
      DecimalOrder(m / 10, n / 10, width - 1);
      BelowSnoc(Decimal(m / 10, width - 1), Decimal(n / 10, width - 1), DigitChar(m % 10), DigitChar(n % 10));
      ValueOfDecimal(m, width);
      ValueOfDecimal(n, width);
    }
  }

  lemma {:induction false} BelowSuffix(a: string, b: string, t: string)
    requires |a| == |b|
    ensures Below(a + t, b + t) <==> Below(a, b)
    decreases t
  {
    if t == "" {
      assert a + t == a && b + t == b;
    } else {
      BelowSuffix(a + [t[0]], b + [t[0]], t[1..]);
      assert a + t == (a + [t[0]]) + t[1..] && b + t == (b + [t[0]]) + t[1..];
      BelowSnoc(a, b, t[0], t[0]);
    }
  }

  /** Draining by name is draining by sequence. */
  lemma NameOrder(m: nat, n: nat)
    requires m < U64 && n < U64
    ensures Below(Name(m), Name(n)) <==> m < n
  {
    TwentyDigitsHoldU64();
    DecimalOrder(m, n, 20);
    BelowSuffix(Decimal(m, 20), Decimal(n, 20), PUBLISHED);
  }

  lemma {:induction false} DecimalDigit(n: nat, width: nat, i: nat)
    requires i < width
    ensures Decimal(n, width)[width - 1 - i] == "0123456789"[n / Pow10(i) % 10]
  {
    if i > 0 {
      DecimalDigit(n / 10, width - 1, i - 1);
      assert Decimal(n, width)[width - 1 - i] == Decimal(n / 10, width - 1)[width - 1 - i];
      Division.DivideTwice(n, 10, Pow10(i - 1));
    }
  }

  /** A published name is twenty decimal digits, lowest last, and ".otlp"; a partial one has
      ".tmp" after that. */
  lemma NameForm(n: nat)
    ensures |Name(n)| == 25 && Name(n)[20..] == ".otlp" && TmpName(n) == Name(n) + ".tmp"
    ensures forall i | 0 <= i < 20 :: Name(n)[19 - i] == "0123456789"[n / Pow10(i) % 10]
  {
    hide Decimal;
    forall i | 0 <= i < 20 ensures Name(n)[19 - i] == "0123456789"[n / Pow10(i) % 10] { DecimalDigit(n, 20, i); }
  }
}
