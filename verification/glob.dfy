/** The `*`-wildcard matcher shared by attribute selectors and namespace rules: two pointers
    and one remembered star, against the declarative wildcard relation. */
module Glob {
  import opened Prelude

  const STAR: byte := 42

  /** The wildcard relation: a star stands for any run of bytes, any other byte for itself. */
  predicate Matches(p: bytes, k: bytes)
    decreases |p| + |k|
  {
    if p == [] then k == []
    else if p[0] == STAR then Matches(p[1..], k) || (k != [] && Matches(p, k[1..]))
    else k != [] && p[0] == k[0] && Matches(p[1..], k[1..])
  }

  /** The remembered star: the pattern index after it, and the key index it was met at. */
  datatype Star = Star(p: nat, k: nat)

  predicate OnlyStars(p: bytes) {
    p == [] || (p[0] == STAR && OnlyStars(p[1..]))
  }

  /** The matcher's loop, as the code runs it: the literal branch is tried before the star. */
  predicate Scan(pat: bytes, key: bytes, p: nat, k: nat, star: Option<Star>)
    requires p <= |pat| && k <= |key|
    requires star.Some? ==> star.value.p <= p && star.value.k <= k
    decreases |pat| - (if star.Some? then star.value.p else 0), |key| - (if star.Some? then star.value.k else 0),
      |key| - k
  {
    if k < |key| then
      if p < |pat| && pat[p] == key[k] then Scan(pat, key, p + 1, k + 1, star)
      else if p < |pat| && pat[p] == STAR then Scan(pat, key, p + 1, k, Some(Star(p + 1, k)))
      else if star.Some? then Scan(pat, key, star.value.p, star.value.k + 1, Some(Star(star.value.p, star.value.k + 1)))
      else false
    else OnlyStars(pat[p..])
  }

  predicate GlobMatches(pat: bytes, key: bytes) {
    Scan(pat, key, 0, 0, None)
  }

  method MatchGlob(pattern: bytes, key: bytes) returns (r: bool)
    ensures r == GlobMatches(pattern, key)
  {
    var p: nat, k: nat := 0, 0;
    var star: Option<Star> := None;
    while k < |key|
      invariant p <= |pattern| && k <= |key|
      invariant star.Some? ==> star.value.p <= p && star.value.k <= k
      invariant GlobMatches(pattern, key) == Scan(pattern, key, p, k, star)
      decreases |pattern| - (if star.Some? then star.value.p else 0),
        |key| - (if star.Some? then star.value.k else 0), |key| - k
    {
      if p < |pattern| && pattern[p] == key[k] {
        p, k := p + 1, k + 1;
      } else if p < |pattern| && pattern[p] == STAR {
        star := Some(Star(p + 1, k));
        p := p + 1;
      } else if star.Some? {
        p, k := star.value.p, star.value.k + 1;
        star := Some(Star(p, k));
      } else {
        return false;
      }
    }
    while p < |pattern| && pattern[p] == STAR
      invariant p <= |pattern|
      invariant GlobMatches(pattern, key) == OnlyStars(pattern[p..])
    {
      assert pattern[p..][1..] == pattern[p + 1..];
      p := p + 1;
    }
    return p == |pattern|;
  }

  // ----- soundness: what the code accepts, the relation accepts

  lemma {:induction false} StarAbsorbs(q: bytes, k: bytes, n: nat)
    requires n <= |k| && Matches(q, k[n..])
    ensures Matches([STAR] + q, k)
  {
    assert ([STAR] + q)[1..] == q;
    if n == 0 {
      assert k[0..] == k;
    } else {
      assert k[1..][n - 1..] == k[n..];
      StarAbsorbs(q, k[1..], n - 1);
    }
  }

  lemma {:induction false} StarChoice(q: bytes, k: bytes) returns (n: nat)
    requires Matches([STAR] + q, k)
    ensures n <= |k| && Matches(q, k[n..])
  {
    assert ([STAR] + q)[1..] == q;
    if Matches(q, k) {
      assert k[0..] == k;
      n := 0;
    } else {
      n := StarChoice(q, k[1..]);
      assert k[1..][n..] == k[n + 1..];
      n := n + 1;
    }
  }

  /** The remembered star, absorbing more than it has so far, would do. */
  ghost predicate Retry(pat: bytes, key: bytes, star: Option<Star>) {
    star.Some? && star.value.p <= |pat| && star.value.k < |key|
      && Matches([STAR] + pat[star.value.p..], key[star.value.k + 1..])
  }

  lemma SplitStar(pat: bytes, p: nat)
    requires p < |pat|
    ensures pat[p..] == [pat[p]] + pat[p + 1..]
  {
  }

  lemma {:induction false} OnlyStarsMatch(p: bytes)
    ensures OnlyStars(p) == Matches(p, [])
  {
    if p != [] { OnlyStarsMatch(p[1..]); }
  }

  /** Soundness, for every pattern and key. */
  lemma {:induction false} ScanSound(pat: bytes, key: bytes, p: nat, k: nat, star: Option<Star>)
    requires p <= |pat| && k <= |key|
    requires star.Some? ==> star.value.p <= p && star.value.k <= k
    requires Scan(pat, key, p, k, star)
    ensures Matches(pat[p..], key[k..]) || Retry(pat, key, star)
    decreases |pat| - (if star.Some? then star.value.p else 0), |key| - (if star.Some? then star.value.k else 0),
      |key| - k
  {
    if k < |key| {
      if p < |pat| && pat[p] == key[k] {
        ScanSound(pat, key, p + 1, k + 1, star);
        assert pat[p..][1..] == pat[p + 1..] && key[k..][1..] == key[k + 1..];
        if Matches(pat[p + 1..], key[k + 1..]) && pat[p] == STAR {
          SplitStar(pat, p);
          StarAbsorbs(pat[p + 1..], key[k..], 1);
        }
      } else if p < |pat| && pat[p] == STAR {
        ScanSound(pat, key, p + 1, k, Some(Star(p + 1, k)));
        SplitStar(pat, p);
        assert pat[p..][1..] == pat[p + 1..] && key[k..][1..] == key[k + 1..];
      } else {
        var s := star.value;
        ScanSound(pat, key, s.p, s.k + 1, Some(Star(s.p, s.k + 1)));
        var q := pat[s.p..];
        assert ([STAR] + q)[1..] == q;
        if !Matches(q, key[s.k + 1..]) {
          assert key[s.k + 1..][1..] == key[s.k + 2..];
        }
      }
    } else {
      OnlyStarsMatch(pat[p..]);
    }
  }

  lemma MatcherIsSound(pat: bytes, key: bytes)
    requires GlobMatches(pat, key)
    ensures Matches(pat, key)
  {
    ScanSound(pat, key, 0, 0, None);
    assert pat[0..] == pat && key[0..] == key;
  }

  // ----- completeness: exactly for keys whose only literal star, if any, is their last byte

  /** No byte before the last is a star. */
  predicate StarOnlyLast(key: bytes) {
    forall i | 0 <= i < |key| - 1 :: key[i] != STAR
  }

  /** A literal stretch of the pattern can only match itself. */
  lemma {:induction false} LiteralPrefix(lit: bytes, q: bytes, k: bytes)
    requires STAR !in lit && Matches(lit + q, k)
    ensures lit <= k && Matches(q, k[|lit|..])
  {
    if lit == [] {
      assert lit + q == q && k[0..] == k;
    } else {
      assert (lit + q)[1..] == lit[1..] + q && (lit + q)[0] == lit[0];
      LiteralPrefix(lit[1..], q, k[1..]);
      assert k[1..][|lit| - 1..] == k[|lit|..];
      assert lit == [lit[0]] + lit[1..];
    }
  }

  /** The stretch since the remembered star is literal, unless its last byte met the key's last. */
  ghost predicate Stretch(pat: bytes, key: bytes, p: nat, k: nat, star: Option<Star>) {
    && p <= |pat| && k <= |key|
    && (star.Some? ==>
        && star.value.p <= p && star.value.k <= k
        && p - star.value.p == k - star.value.k
        && (k < |key| ==> STAR !in pat[star.value.p..p])
        && (p > star.value.p ==> STAR !in pat[star.value.p..p - 1]))
  }

  /** A star met later makes the earlier one's other choices redundant. */
  lemma LaterStarSuffices(pat: bytes, key: bytes, p: nat, k: nat, star: Option<Star>)
    requires Stretch(pat, key, p, k, star) && k < |key| && p < |pat| && pat[p] == STAR && Retry(pat, key, star)
    ensures Matches(pat[p..], key[k..])
  {
    hide Matches;
    var s := star.value;
    var n := StarChoice(pat[s.p..], key[s.k + 1..]);
    var rest := key[s.k + 1..][n..];
    var lit := pat[s.p..p];
    assert pat[s.p..] == lit + pat[p..];
    LiteralPrefix(lit, pat[p..], rest);
    var m := s.k + 1 + n + |lit|;
    assert rest[|lit|..] == key[m..] && m > k by { assert rest == key[s.k + 1 + n..]; }
    SplitStar(pat, p);
    var j := StarChoice(pat[p + 1..], key[m..]);
    assert key[m..][j..] == key[m + j..] == key[k..][m + j - k..];
    StarAbsorbs(pat[p + 1..], key[k..], m + j - k);
  }

  /** At the end of the key the remembered star has nothing better to offer. */
  lemma NoRetryAtTheEnd(pat: bytes, key: bytes, p: nat, star: Option<Star>)
    requires Stretch(pat, key, p, |key|, star) && Retry(pat, key, star)
    ensures Matches(pat[p..], [])
  {
    var s := star.value;
    var n := StarChoice(pat[s.p..], key[s.k + 1..]);
    var rest := key[s.k + 1..][n..];
    var lit := pat[s.p..p - 1];
    assert pat[s.p..] == lit + pat[p - 1..];
    LiteralPrefix(lit, pat[p - 1..], rest);
    assert |rest| <= |lit|;
    assert rest[|lit|..] == [];
    OnlyStarsMatch(pat[p - 1..]);
    assert pat[p - 1..][1..] == pat[p..];
    OnlyStarsMatch(pat[p..]);
  }

  /** What the scan still has to go on: the rest matches, or the remembered star has a choice left. */
  ghost predicate Hopeful(pat: bytes, key: bytes, p: nat, k: nat, star: Option<Star>) {
    && Stretch(pat, key, p, k, star)
    && (Matches(pat[p..], key[k..]) || Retry(pat, key, star))
  }

  lemma HopeAtTheEnd(pat: bytes, key: bytes, p: nat, star: Option<Star>)
    requires Hopeful(pat, key, p, |key|, star)
    ensures OnlyStars(pat[p..])
  {
    if Retry(pat, key, star) { NoRetryAtTheEnd(pat, key, p, star); }
    OnlyStarsMatch(pat[p..]);
  }

  lemma LiteralHope(pat: bytes, key: bytes, p: nat, k: nat, star: Option<Star>)
    requires StarOnlyLast(key) && Hopeful(pat, key, p, k, star) && k < |key| && p < |pat| && pat[p] == key[k]
    ensures Hopeful(pat, key, p + 1, k + 1, star)
  {
    assert pat[p..][1..] == pat[p + 1..] && key[k..][1..] == key[k + 1..];
    if pat[p] == STAR {
      assert k == |key| - 1;
      if Retry(pat, key, star) { LaterStarSuffices(pat, key, p, k, star); }
      LastStar(pat, key, p);
    }
    if star.Some? { assert pat[star.value.p..p + 1] == pat[star.value.p..p] + [pat[p]]; }
  }

  lemma StarHope(pat: bytes, key: bytes, p: nat, k: nat, star: Option<Star>)
    requires Hopeful(pat, key, p, k, star) && k < |key| && p < |pat| && pat[p] == STAR
    ensures Hopeful(pat, key, p + 1, k, Some(Star(p + 1, k)))
  {
    if Retry(pat, key, star) { LaterStarSuffices(pat, key, p, k, star); }
    SplitStar(pat, p);
    assert pat[p..][1..] == pat[p + 1..] && key[k..][1..] == key[k + 1..];
  }

  lemma RetryHope(pat: bytes, key: bytes, p: nat, k: nat, star: Option<Star>)
    requires Hopeful(pat, key, p, k, star) && k < |key| && (p < |pat| ==> pat[p] != key[k] && pat[p] != STAR)
    ensures star.Some? && star.value.k < |key|
    ensures Hopeful(pat, key, star.value.p, star.value.k + 1, Some(Star(star.value.p, star.value.k + 1)))
  {
    assert Retry(pat, key, star);
    var s := star.value;
    var q := pat[s.p..];
    assert ([STAR] + q)[1..] == q;
    if !Matches(q, key[s.k + 1..]) {
      assert key[s.k + 1..][1..] == key[s.k + 2..];
    }
  }

  lemma {:induction false} ScanComplete(pat: bytes, key: bytes, p: nat, k: nat, star: Option<Star>)
    requires StarOnlyLast(key) && Hopeful(pat, key, p, k, star)
    ensures Scan(pat, key, p, k, star)
    decreases |pat| - (if star.Some? then star.value.p else 0), |key| - (if star.Some? then star.value.k else 0),
      |key| - k
  {
    hide Matches, Retry, StarOnlyLast, OnlyStars;
    if k == |key| {
      HopeAtTheEnd(pat, key, p, star);
    } else if p < |pat| && pat[p] == key[k] {
      LiteralHope(pat, key, p, k, star);
      ScanComplete(pat, key, p + 1, k + 1, star);
    } else if p < |pat| && pat[p] == STAR {
      StarHope(pat, key, p, k, star);
      ScanComplete(pat, key, p + 1, k, Some(Star(p + 1, k)));
    } else {
      RetryHope(pat, key, p, k, star);
      ScanComplete(pat, key, star.value.p, star.value.k + 1, Some(Star(star.value.p, star.value.k + 1)));
    }
  }

  /** A star that meets the key's last byte, itself a star, loses nothing by matching it. */
  lemma LastStar(pat: bytes, key: bytes, p: nat)
    requires p < |pat| && key != [] && pat[p] == STAR == key[|key| - 1] && Matches(pat[p..], key[|key| - 1..])
    ensures Matches(pat[p + 1..], [])
  {
    SplitStar(pat, p);
    var last := key[|key| - 1..];
    var n := StarChoice(pat[p + 1..], last);
    if n == 1 {
      assert last[1..] == [];
    } else {
      assert last[0..] == [STAR];
      MatchesOneStar(pat[p + 1..]);
    }
  }

  lemma {:induction false} MatchesOneStar(q: bytes)
    requires Matches(q, [STAR])
    ensures Matches(q, [])
  {
    if q[0] == STAR {
      if Matches(q[1..], [STAR]) {
        MatchesOneStar(q[1..]);
      } else {
        assert [STAR][1..] == [];
      }
    } else {
      assert false;
    }
  }

  // ----- necessity: any other key is misjudged by some pattern

  lemma {:induction false} LiteralScan(pat: bytes, key: bytes, i: nat, k: nat)
    requires i + 1 == |pat| && i + 1 < |key| && pat <= key && k <= i + 1
    ensures !Scan(pat, key, k, k, None)
    decreases i + 1 - k
  {
    if k <= i {
      assert pat[k] == key[k];
      LiteralScan(pat, key, i, k + 1);
    }
  }

  lemma {:induction false} LiteralThenStar(lit: bytes, k: bytes)
    requires lit <= k
    ensures Matches(lit + [STAR], k)
  {
    if lit == [] {
      assert lit + [STAR] == [STAR] + [] && k[|k|..] == [];
      StarAbsorbs([], k, |k|);
    } else {
      assert (lit + [STAR])[1..] == lit[1..] + [STAR] && lit[0] == k[0];
      LiteralThenStar(lit[1..], k[1..]);
      if lit[0] == STAR {
        assert lit + [STAR] == [STAR] + (lit[1..] + [STAR]);
        StarAbsorbs(lit[1..] + [STAR], k, 1);
      }
    }
  }

  /** The matcher judges every pattern rightly on a key exactly when no byte of the key before
      its last is a literal star; `*abc` is misjudged by the pattern `*`. */
  lemma FaithfulKeys(key: bytes)
    ensures StarOnlyLast(key) <==> forall pat: bytes :: GlobMatches(pat, key) == Matches(pat, key)
  {
    if StarOnlyLast(key) {
      forall pat: bytes ensures GlobMatches(pat, key) == Matches(pat, key) {
        if GlobMatches(pat, key) { MatcherIsSound(pat, key); }
        if Matches(pat, key) {
          assert pat[0..] == pat && key[0..] == key;
          ScanComplete(pat, key, 0, 0, None);
        }
      }
    } else {
      var i :| 0 <= i < |key| - 1 && key[i] == STAR;
      var pat := key[..i + 1];
      LiteralScan(pat, key, i, 0);
      LiteralThenStar(key[..i], key);
      assert pat == key[..i] + [STAR];
      assert !GlobMatches(pat, key) && Matches(pat, key);
    }
  }

  lemma {:induction false} LiteralFront(lit: bytes, q: bytes, k: bytes)
    requires STAR !in lit && Matches(q, k)
    ensures Matches(lit + q, lit + k)
  {
    if lit == [] {
      assert lit + q == q && lit + k == k;
    } else {
      LiteralFront(lit[1..], q, k);
      assert (lit + q)[1..] == lit[1..] + q && (lit + k)[1..] == lit[1..] + k;
    }
  }

  lemma AsteriskMatches(prefix: bytes, suffix: bytes, middle: bytes)
    requires STAR !in prefix && STAR !in suffix
    ensures Matches(prefix + ([STAR] + suffix), prefix + (middle + suffix))
  {
    hide Matches;
    EmptyMatches();
    LiteralFront(suffix, [], []);
    assert suffix + [] == suffix && (middle + suffix)[|middle|..] == suffix;
    StarAbsorbs(suffix, middle + suffix, |middle|);
    LiteralFront(prefix, [STAR] + suffix, middle + suffix);
  }

  lemma EmptyMatches()
    ensures Matches([], []) && forall k: bytes | Matches([], k) :: k == []
  {
  }

  lemma AsteriskSplits(prefix: bytes, suffix: bytes, key: bytes) returns (middle: bytes)
    requires STAR !in prefix && STAR !in suffix && Matches(prefix + ([STAR] + suffix), key)
    ensures key == prefix + (middle + suffix)
  {
    hide Matches;
    EmptyMatches();
    LiteralPrefix(prefix, [STAR] + suffix, key);
    var rest := key[|prefix|..];
    var n := StarChoice(suffix, rest);
    assert suffix + [] == suffix;
    LiteralPrefix(suffix, [], rest[n..]);
    middle := rest[..n];
    assert rest[n..] == suffix;
  }

  lemma Ends(prefix: bytes, middle: bytes, suffix: bytes)
    ensures Encloses(prefix, suffix, prefix + (middle + suffix))
  {
  }

  lemma ThreeParts(key: bytes, i: nat, j: nat)
    requires i <= j <= |key|
    ensures key == key[..i] + (key[i..j] + key[j..])
  {
  }

  predicate Encloses(prefix: bytes, suffix: bytes, key: bytes) {
    |key| >= |prefix| + |suffix| && key[..|prefix|] == prefix && key[|key| - |suffix|..] == suffix
  }

  lemma EnclosedSplits(prefix: bytes, suffix: bytes, key: bytes) returns (middle: bytes)
    requires Encloses(prefix, suffix, key)
    ensures key == prefix + (middle + suffix)
  {
    middle := key[|prefix|..|key| - |suffix|];
    ThreeParts(key, |prefix|, |key| - |suffix|);
  }

  /** The wildcard is the asterisk: it stands for any run, the empty one included, where any other
      character stands for itself. */
  lemma Asterisk(prefix: bytes, suffix: bytes, key: bytes)
    requires '*' as int !in prefix && '*' as int !in suffix
    ensures Matches(prefix + (['*' as int] + suffix), key) <==> Encloses(prefix, suffix, key)
  {
    hide Matches, Encloses;
    if Matches(prefix + ([STAR] + suffix), key) {
      var middle := AsteriskSplits(prefix, suffix, key);
      Ends(prefix, middle, suffix);
    }
    if Encloses(prefix, suffix, key) {
      var middle := EnclosedSplits(prefix, suffix, key);
      AsteriskMatches(prefix, suffix, middle);
    }
  }
}
