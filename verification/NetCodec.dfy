/** Integers in network byte order, read from and appended to byte strings. */
module NetCodec {
  import opened Widths

  datatype ParseResult = NoError | BadChecksum | PacketTooShort | HeaderTooShort

  /** The largest value of an integer of `len` bytes, plus one. */
  function Limit(len: nat): (n: nat)
    ensures n > 0
  {
    if len == 0 then 1 else Limit(len - 1) * TWO8
  }

  function BigEndian(bytes: seq<byte>): (n: nat)
    ensures n < Limit(|bytes|)
  {
    if bytes == [] then 0 else BigEndian(bytes[..|bytes| - 1]) * TWO8 + bytes[|bytes| - 1]
  }

  /** `val` shifted right by `k` bytes. */
  function Shifted(val: nat, k: nat): nat {
    if k == 0 then val else Shifted(val / TWO8, k - 1)
  }

  /** The low `len` bytes of `val`, most significant first. */
  function Bytes(val: nat, len: nat): (s: seq<byte>)
    ensures |s| == len
  {
    if len == 0 then [] else Bytes(val / TWO8, len - 1) + [val % TWO8]
  }

  lemma {:induction false} BytesAt(val: nat, len: nat, i: nat)
    requires i < len
    ensures Bytes(val, len)[i] == Shifted(val, len - 1 - i) % TWO8
  {
    if i < len - 1 {
      BytesAt(val / TWO8, len - 1, i);
    }
  }

  /** Writing and reading back returns the number, exactly when it fits. */
  lemma {:induction false} BytesThenBigEndian(val: nat, len: nat)
    ensures BigEndian(Bytes(val, len)) == val <==> val < Limit(len)
  {
    if len > 0 {
      BytesThenBigEndian(val / TWO8, len - 1);
      assert Bytes(val, len)[..len - 1] == Bytes(val / TWO8, len - 1);
      assert val / TWO8 < Limit(len - 1) <==> val < Limit(len);
    }
  }

  /** Reading and writing back returns the bytes. */
  lemma {:induction false} BigEndianThenBytes(bytes: seq<byte>)
    ensures Bytes(BigEndian(bytes), |bytes|) == bytes
  {
    if bytes != [] {
      BigEndianThenBytes(bytes[..|bytes| - 1]);
    }
  }

  /** A parser between two reads: what is left of the input, and the error so far. */
  datatype Cursor = Cursor(rest: seq<byte>, error: ParseResult) {
    function CheckSize(n: nat): Cursor {
      if n > |rest| then this.(error := PacketTooShort) else this
    }

    /** The integer read by the next access; zero once there has been an error. */
    function Peek(len: nat): (v: nat)
      ensures v < Limit(len)
    {
      if CheckSize(len).error == NoError then BigEndian(rest[..len]) else 0
    }

    /** What remains after skipping `n` bytes; errors are sticky. */
    function Skip(n: nat): Cursor {
      var c := CheckSize(n);
      if c.error == NoError then c.(rest := rest[n..]) else c
    }
  }

  /** A number that was just written is read back, and the rest of the input follows. */
  lemma PeekWritten(val: nat, len: nat, rest: seq<byte>)
    requires val < Limit(len)
    ensures Cursor(Bytes(val, len) + rest, NoError).Peek(len) == val
    ensures Cursor(Bytes(val, len) + rest, NoError).Skip(len) == Cursor(rest, NoError)
  {
    assert (Bytes(val, len) + rest)[..len] == Bytes(val, len);
    assert (Bytes(val, len) + rest)[len..] == rest;
    BytesThenBigEndian(val, len);
  }

  /** A number that was just read is written back in front of the rest. */
  lemma WritePeeked(c: Cursor, len: nat)
    requires c.error == NoError && len <= |c.rest|
    ensures c.Skip(len) == Cursor(c.rest[len..], NoError)
    ensures Bytes(c.Peek(len), len) + c.Skip(len).rest == c.rest
  {
    BigEndianThenBytes(c.rest[..len]);
  }

  class NetParser {
    var buffer: seq<byte>
    var error: ParseResult

    ghost function Model(): Cursor
      reads this
    {
      Cursor(buffer, error)
    }

    constructor (buffer: seq<byte>)
      ensures Model() == Cursor(buffer, NoError)
    {
      this.buffer, error := buffer, NoError;
    }

    /** Reads an unsigned integer of `len` bytes; each shift drops what does not fit that width. */
    method ParseInt(len: nat) returns (ret: nat)
      modifies this
      ensures ret == old(Model()).Peek(len)
      ensures Model() == old(Model()).Skip(len)
    {
      CheckSize(len);
      if error != NoError {
        return 0;
      }
      ret := 0;
      for i := 0 to len
        invariant buffer == old(buffer) && error == NoError
        invariant ret == BigEndian(buffer[..i])
      {
        LimitGrows(i + 1, len);
        assert buffer[..i + 1][..i] == buffer[..i];
        assert ret * TWO8 < Limit(i + 1);
        SmallMod(ret * TWO8, Limit(len));
        ret := ret * TWO8 % Limit(len);
        ret := ret + buffer[i];
      }
      buffer := buffer[len..];
    }

    method RemovePrefix(n: nat)
      modifies this
      ensures Model() == old(Model()).Skip(n)
    {
      CheckSize(n);
      if error != NoError {
        return;
      }
      buffer := buffer[n..];
    }

    method CheckSize(size: nat)
      modifies this`error
      ensures Model() == old(Model()).CheckSize(size)
    {
      if size > |buffer| {
        error := PacketTooShort;
      }
    }
  }

  lemma {:induction false} LimitGrows(a: nat, b: nat)
    requires a <= b
    ensures Limit(a) <= Limit(b)
    decreases b
  {
    if a < b {
      LimitGrows(a, b - 1);
    }
  }

  lemma SmallMod(x: nat, m: nat)
    requires x < m
    ensures x % m == x
  {
  }

  /** Appends the low `len` bytes of `val`, most significant first. */
  method UnparseInt(s: seq<byte>, val: nat, len: nat) returns (r: seq<byte>)
    ensures r == s + Bytes(val, len)
  {
    r := s;
    for i := 0 to len
      invariant r == s + Bytes(val, len)[..i]
    {
      BytesAt(val, len, i);
      r := r + [Shifted(val, len - i - 1) % TWO8];
    }
  }
}
