/** The Internet checksum (section 1 of RFC 1071), accumulated in 32 bits. */
module InternetChecksums {
  import opened Widths

  /** The sum of big-endian 16-bit words; `odd` says that the first byte is the low half of its word. */
  function WordSum(data: seq<byte>, odd: bool): nat {
    if data == [] then 0 else (if odd then data[0] else data[0] * TWO8) + WordSum(data[1..], !odd)
  }

  /** `n` brought into one's-complement form: zero only for zero, otherwise between 1 and 65535. */
  function Folded(n: nat): uint16 {
    if n == 0 then 0 else 1 + (n - 1) % 65535
  }

  datatype Checksum = Checksum(sum: uint32, odd: bool) {
    function Add(data: seq<byte>): Checksum {
      Checksum((sum + WordSum(data, odd)) % TWO32, if |data| % 2 == 0 then odd else !odd)
    }

    function Value(): uint16 {
      65535 - Folded(sum)
    }
  }

  class InternetChecksum {
    var sum: uint32
    var parity: bool

    ghost function Model(): Checksum
      reads this
    {
      Checksum(sum, parity)
    }

    constructor (initialSum: uint32)
      ensures Model() == Checksum(initialSum, false)
    {
      sum, parity := initialSum, false;
    }

    method Add(data: seq<byte>)
      modifies this
      ensures Model() == old(Model()).Add(data)
    {
      for i := 0 to |data|
        invariant Model().Add(data[i..]) == old(Model()).Add(data)
      {
        var val: int := data[i];
        if !parity {
          val := val * TWO8;
        }
        ghost var before, rest := sum, WordSum(data[i..][1..], !parity);
        assert data[i..][1..] == data[i + 1..];
        sum := (sum + val) % TWO32;
        parity := !parity;
        AddInside(before, val, rest);
      }
    }

    method Value() returns (v: uint16)
      ensures v == Model().Value()
    {
      var ret: nat := sum;
      while ret > 0xffff
        invariant Folded(ret) == Folded(sum)
      {
        FoldStep(ret);
        ret := ret / TWO16 + ret % TWO16;
      }
      v := 65535 - ret;
    }
  }

  lemma AddInside(a: nat, b: nat, c: nat)
    ensures ((a + b) % TWO32 + c) % TWO32 == (a + (b + c)) % TWO32
  {
  }

  /** Adding the high half of a number to its low half keeps what it folds to. */
  lemma FoldStep(n: nat)
    requires n > 0xffff
    ensures n / TWO16 + n % TWO16 < n
    ensures Folded(n / TWO16 + n % TWO16) == Folded(n)
  {
    var m := n / TWO16 + n % TWO16;
    assert n - 1 == 65535 * (n / TWO16) + (m - 1);
    SameRemainder(m - 1, n / TWO16);
  }

  lemma SameRemainder(m: int, k: int)
    ensures (65535 * k + m) % 65535 == m % 65535
  {
  }

  lemma {:induction false} WordSumConcat(a: seq<byte>, b: seq<byte>, odd: bool)
    ensures WordSum(a + b, odd) == WordSum(a, odd) + WordSum(b, if |a| % 2 == 0 then odd else !odd)
  {
    if a == [] {
      assert a + b == b;
    } else {
      WordSumConcat(a[1..], b, !odd);
      assert (a + b)[1..] == a[1..] + b;
    }
  }

  /** Adding in pieces or at once makes no difference, wherever the boundary falls. */
  lemma AddInPieces(c: Checksum, a: seq<byte>, b: seq<byte>)
    ensures c.Add(a).Add(b) == c.Add(a + b)
  {
    hide WordSum;
    WordSumConcat(a, b, c.odd);
    AddInside(c.sum, WordSum(a, c.odd), WordSum(b, if |a| % 2 == 0 then c.odd else !c.odd));
  }

  /** Adding a checksum to the sum it was computed from gives a sum whose own checksum is zero. The addition
      never overflows 32 bits, because 2^32 - 1 is itself a multiple of 65535. */
  lemma ChecksumCancels(sum: uint32)
    ensures var total := sum + (65535 - Folded(sum)); total < TWO32 && Folded(total) == 65535
    ensures var total := sum + Checksum(sum, false).Value(); total < TWO32 && Checksum(total, false).Value() == 0
  {
    if sum > 0 {
      var q, r := (sum - 1) / 65535, (sum - 1) % 65535;
      assert sum + (65535 - Folded(sum)) == 65535 * (q + 1);
      SameRemainder(65534, q);
    }
  }

  /** A 16-bit number that cancels a sum is the checksum of that sum, or 65535 where the checksum is zero. */
  lemma CancelsUniquely(sum: uint32, c: uint16)
    requires Folded((sum + c) % TWO32) == 65535
    ensures c == 65535 - Folded(sum) || (c == 65535 && sum > 0)
  {
    if sum > 0 && c != 65535 - Folded(sum) {
      var q, r := (sum - 1) / 65535, (sum - 1) % 65535;
      assert sum + c < TWO32;
      assert sum + c - 1 == 65535 * q + (r + c);
      SameRemainder(r + c, q);
    }
  }
}
