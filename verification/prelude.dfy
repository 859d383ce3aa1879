/** Bytes, and the two failure-carrying datatypes the agent's code is written with. */
module Prelude {
  type byte = b: int | 0 <= b < 256
  type bytes = seq<byte>

  const U32 := 0x1_0000_0000
  const U64 := 0x1_0000_0000_0000_0000

  /** The bytes of an ASCII string. */
  function Ascii(s: string): bytes {
    seq(|s|, i requires 0 <= i < |s| => (s[i] as int) % 256)
  }

  datatype Option<+T> = None | Some(value: T) {
    /** Protobuf's "last one wins": a later value, when there is one, replaces this one. */
    function Then(later: Option<T>): Option<T> {
      if later.Some? then later else this
    }
  }

  datatype Result<+T, +E> = Ok(value: T) | Err(error: E) {
    predicate IsFailure() { Err? }

    function PropagateFailure<U>(): Result<U, E>
      requires Err?
    {
      Err(error)
    }

    function Extract(): T
      requires Ok?
    {
      value
    }
  }

  /** Concatenation is associative, and the empty sequence is its unit. */
  lemma Concat<T(!new)>()
    ensures forall a: seq<T> {:trigger a + []} :: a + [] == a
    ensures forall a: seq<T> {:trigger [] + a} :: [] + a == a
    ensures forall a: seq<T>, b: seq<T>, c: seq<T> {:trigger (a + b) + c} :: (a + b) + c == a + (b + c)
  {
    forall a: seq<T>, b: seq<T>, c: seq<T> ensures (a + b) + c == a + (b + c) {
      assert (a + b) + c == a + (b + c);
    }
  }
}

/** Dividing by a product. */
module Division {
  lemma DivideTwice(n: nat, d: nat, p: nat)
    requires d > 0 && p > 0
    ensures n / d / p == n / (d * p)
  {
    var a, q, r := n / d, n / d / p, n / d % p;
    Parts(n, d);
    Parts(a, p);
    Regroup(d, p, q, r);
    Below(d, p, r, n % d);
    Quotient(n, d * p, q, d * r + n % d);
  }

  lemma Parts(n: nat, d: nat)
    requires d > 0
    ensures n == d * (n / d) + n % d && n % d < d
  {
  }

  lemma Regroup(d: nat, p: nat, q: nat, r: nat)
    ensures d * (p * q + r) == (d * p) * q + d * r
  {
  }

  lemma Below(d: nat, p: nat, r: nat, b: nat)
    requires r < p && b < d
    ensures d * r + b < d * p
  {
    assert d * (r + 1) <= d * p;
  }

  lemma Quotient(n: nat, d: nat, q: nat, r: nat)
    requires r < d && n == d * q + r
    ensures n / d == q
  {
    var k := n / d;
    Parts(n, d);
    assert k < q ==> d * (k + 1) <= d * q;
    assert k > q ==> d * k >= d * (q + 1);
  }
}
