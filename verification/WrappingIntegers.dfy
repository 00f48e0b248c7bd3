/** 32-bit sequence numbers and their 64-bit absolute counterparts (section 3.3 of RFC 793). */
module WrappingIntegers {
  import opened Widths

  /** The point `b` steps past `a`, modulo 2^32. */
  function Add(a: uint32, b: uint32): uint32 {
    (a + b) % TWO32
  }

  /** The signed 32-bit offset of `a` relative to `b`. */
  function Diff(a: uint32, b: uint32): (d: int)
    ensures -TWO31 <= d < TWO31
    ensures a - b - d in {0, TWO32, -TWO32}
  {
    var d := (a - b) % TWO32;
    if d >= TWO31 then d - TWO32 else d
  }

  /** An absolute sequence number as it travels on the wire. */
  function Wrap(n: nat, isn: uint32): uint32 {
    Add(isn, n % TWO32)
  }

  /** `x` reinterpreted as a signed 64-bit integer. */
  function AsInt64(x: uint64): int {
    if x >= TWO63 then x - TWO64 else x
  }

  /** The absolute sequence number computed for `n`: the sum is formed modulo 2^64,
      read as a signed number, and moved up by 2^32 when it comes out negative. */
  function Unwrap(n: uint32, isn: uint32, checkpoint: uint64): uint64 {
    var result := AsInt64((checkpoint + Diff(n, Wrap(checkpoint, isn))) % TWO64);
    (if result < 0 then result + TWO32 else result) % TWO64
  }

  function Distance(a: int, b: int): nat {
    if a <= b then b - a else a - b
  }

  /** `r` is as close to `checkpoint` as any 64-bit number that wraps to `n`. */
  ghost predicate Nearest(r: uint64, n: uint32, isn: uint32, checkpoint: uint64) {
    && Wrap(r, isn) == n
    && forall x: uint64 :: Wrap(x, isn) == n ==> Distance(r, checkpoint) <= Distance(x, checkpoint)
  }

  /** The condition under which the signed detour of `Unwrap` does no harm. */
  predicate SignedDetourHarmless(n: uint32, isn: uint32, checkpoint: uint64) {
    var offset := Diff(n, Wrap(checkpoint, isn));
    || checkpoint + offset < TWO63
    || (offset == -TWO31 && checkpoint + TWO31 < TWO64)
  }

  /** `a` and `b` are `k` turns of 2^32 apart. */
  predicate TurnsApart(a: int, b: int, k: int) {
    a - b == k * TWO32
  }

  /** `Wrap` with the number of turns it drops made explicit. */
  lemma WrapTurns(n: nat, isn: uint32) returns (k: int)
    ensures Wrap(n, isn) == isn + n - k * TWO32
  {
    k := n / TWO32 + (isn + n % TWO32) / TWO32;
  }

  /** Two numbers wrap alike exactly when they differ by a whole number of turns. */
  lemma WrapCongruence(a: nat, b: nat, isn: uint32)
    ensures Wrap(a, isn) == Wrap(b, isn) <==> exists k: int :: TurnsApart(a, b, k)
  {
    var i := WrapTurns(a, isn);
    var j := WrapTurns(b, isn);
    if Wrap(a, isn) == Wrap(b, isn) {
      assert TurnsApart(a, b, i - j);
    }
    forall k: int | TurnsApart(a, b, k) ensures Wrap(a, isn) == Wrap(b, isn) {
      assert Wrap(a, isn) - Wrap(b, isn) == (k - i + j) * TWO32;
    }
  }

  /** What `Unwrap` returns, as a number of turns away from checkpoint + offset. */
  lemma UnwrapTurns(n: uint32, isn: uint32, checkpoint: uint64) returns (t: int)
    ensures Unwrap(n, isn, checkpoint) == checkpoint + Diff(n, Wrap(checkpoint, isn)) + t * TWO32
    ensures var x := checkpoint + Diff(n, Wrap(checkpoint, isn));
      t == if 0 <= x < TWO63 then 0 else if x >= TWO64 then -TWO32 else if x + TWO32 < TWO64 then 1 else 1 - TWO32
  {
    var x := checkpoint + Diff(n, Wrap(checkpoint, isn));
    t := if 0 <= x < TWO63 then 0 else if x >= TWO64 then -TWO32 else if x + TWO32 < TWO64 then 1 else 1 - TWO32;
  }

  /** Wrapping undoes unwrapping, for every input. */
  lemma WrapUnwrap(n: uint32, isn: uint32, checkpoint: uint64)
    ensures Wrap(Unwrap(n, isn, checkpoint), isn) == n
  {
    hide Unwrap, Wrap;
    var r := Unwrap(n, isn, checkpoint);
    var i := WrapTurns(checkpoint, isn);
    var j := WrapTurns(r, isn);
    var t := UnwrapTurns(n, isn, checkpoint);
    var d := Diff(n, Wrap(checkpoint, isn));
    assert Wrap(r, isn) == isn + checkpoint + d + (t - j) * TWO32;
    assert n - Wrap(checkpoint, isn) - d in {0, TWO32, -TWO32};
    var e := (n - Wrap(checkpoint, isn) - d) / TWO32;
    assert Wrap(r, isn) - n == (t - j + i - e) * TWO32;
  }

  lemma DiffOfWraps(v: nat, c: nat, isn: uint32)
    requires -TWO31 <= v - c < TWO31
    ensures Diff(Wrap(v, isn), Wrap(c, isn)) == v - c
  {
    var i := WrapTurns(v, isn);
    var j := WrapTurns(c, isn);
    assert Wrap(v, isn) - Wrap(c, isn) == v - c + (j - i) * TWO32;
  }

  /** Unwrapping undoes wrapping near the checkpoint, exactly below 2^63. */
  lemma UnwrapWrap(v: uint64, isn: uint32, checkpoint: uint64)
    requires -TWO31 <= v - checkpoint < TWO31
    ensures Unwrap(Wrap(v, isn), isn, checkpoint) == v <==> v < TWO63
  {
    DiffOfWraps(v, checkpoint, isn);
    var t := UnwrapTurns(Wrap(v, isn), isn, checkpoint);
  }

  /** Every candidate is a whole number of turns away from checkpoint + offset. */
  lemma CandidateTurns(n: uint32, isn: uint32, checkpoint: uint64, x: nat) returns (k: int)
    requires Wrap(x, isn) == n
    ensures x == checkpoint + Diff(n, Wrap(checkpoint, isn)) + k * TWO32
  {
    hide Unwrap, Wrap, Diff;
    var r := Unwrap(n, isn, checkpoint);
    WrapUnwrap(n, isn, checkpoint);
    var t := UnwrapTurns(n, isn, checkpoint);
    WrapCongruence(x, r, isn);
    var j: int :| TurnsApart(x, r, j);
    k := j + t;
  }

  lemma NearestIfHarmless(n: uint32, isn: uint32, checkpoint: uint64)
    requires SignedDetourHarmless(n, isn, checkpoint)
    ensures Nearest(Unwrap(n, isn, checkpoint), n, isn, checkpoint)
  {
    hide Unwrap, Wrap, Diff;
    WrapUnwrap(n, isn, checkpoint);
    var t := UnwrapTurns(n, isn, checkpoint);
    forall x: uint64 | Wrap(x, isn) == n
      ensures Distance(Unwrap(n, isn, checkpoint), checkpoint) <= Distance(x, checkpoint)
    {
      var k := CandidateTurns(n, isn, checkpoint, x);
    }
  }

  lemma NearerIfHarmful(n: uint32, isn: uint32, checkpoint: uint64) returns (better: uint64)
    requires !SignedDetourHarmless(n, isn, checkpoint)
    ensures Wrap(better, isn) == n
    ensures Distance(better, checkpoint) < Distance(Unwrap(n, isn, checkpoint), checkpoint)
  {
    hide Unwrap, Wrap, Diff;
    var middle := checkpoint + Diff(n, Wrap(checkpoint, isn));
    var u := if middle < TWO64 then 0 else -1;
    better := middle + u * TWO32;
    WrapUnwrap(n, isn, checkpoint);
    var t := UnwrapTurns(n, isn, checkpoint);
    assert TurnsApart(better, Unwrap(n, isn, checkpoint), u - t);
    WrapCongruence(better, Unwrap(n, isn, checkpoint), isn);
  }

  /** `Unwrap` returns a number nearest to the checkpoint exactly when the signed detour is harmless. */
  lemma UnwrapNearest(n: uint32, isn: uint32, checkpoint: uint64)
    ensures Nearest(Unwrap(n, isn, checkpoint), n, isn, checkpoint) <==> SignedDetourHarmless(n, isn, checkpoint)
  {
    hide Unwrap, Wrap, SignedDetourHarmless;
    if SignedDetourHarmless(n, isn, checkpoint) {
      NearestIfHarmless(n, isn, checkpoint);
    } else {
      var better := NearerIfHarmful(n, isn, checkpoint);
    }
  }

  /** From 2^63 on the nearest number is missed, although the checkpoint itself wraps to `n`. */
  lemma UnwrapMisses()
    ensures Wrap(TWO63, 0) == 0 && Unwrap(0, 0, TWO63) == TWO63 + TWO32
    ensures !Nearest(Unwrap(0, 0, TWO63), 0, 0, TWO63)
  {
  }

  /** Of two equally near candidates, the smaller one is returned while the sum stays below 2^63. */
  lemma UnwrapTiesGoDown(n: uint32, isn: uint32, checkpoint: uint64, x: uint64)
    requires checkpoint + Diff(n, Wrap(checkpoint, isn)) < TWO63
    requires Wrap(x, isn) == n
    requires Distance(x, checkpoint) == Distance(Unwrap(n, isn, checkpoint), checkpoint)
    ensures Unwrap(n, isn, checkpoint) <= x
  {
    hide Unwrap, Wrap, Diff;
    var t := UnwrapTurns(n, isn, checkpoint);
    var k := CandidateTurns(n, isn, checkpoint, x);
  }
}
