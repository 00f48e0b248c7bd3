/** The flow-controlled in-memory byte stream. */
module ByteStreams {
  import opened Widths

  /** The abstract value of a stream: everything ever written, and how much of it was read. */
  datatype Stream = Stream(capacity: nat, data: seq<byte>, nread: nat, ended: bool, error: bool) {
    predicate Valid() {
      nread <= |data| <= nread + capacity && (capacity == 0 ==> data == [])
    }

    /** Bytes written and not yet read. */
    function Buffer(): (b: seq<byte>)
      requires Valid()
      ensures |b| <= capacity
      ensures data[..nread] + b == data
    {
      data[nread..]
    }

    function Room(): nat
      requires Valid()
    {
      capacity - |Buffer()|
    }

    predicate Eof()
      requires Valid()
    {
      ended && Buffer() == []
    }

    /** As much of `bytes` as fits is appended; whether the input has ended is not looked at. */
    function Write(bytes: seq<byte>): (s: Stream)
      requires Valid()
      ensures s.Valid()
    {
      this.(data := data + bytes[..Min(Room(), |bytes|)])
    }

    /** Consumes `n` bytes, or marks the stream broken when there are fewer. */
    function Read(n: nat): (s: Stream)
      requires Valid()
      ensures s.Valid()
    {
      if n > |Buffer()| then this.(error := true) else this.(nread := nread + n)
    }

    function EndInput(): Stream {
      this.(ended := true)
    }
  }

  function Empty(capacity: nat): (s: Stream)
    ensures s.Valid()
  {
    Stream(capacity, [], 0, false, false)
  }

  class ByteStream {
    var buffer: seq<byte>
    const capacity: nat
    var endWrite: bool
    var writtenBytes: nat
    var readBytes: nat
    var error: bool
    ghost var history: seq<byte>  // every byte ever accepted

    ghost predicate Valid()
      reads this
    {
      && |buffer| <= capacity
      && readBytes <= writtenBytes == |history|
      && buffer == history[readBytes..]
      && (capacity == 0 ==> history == [])
    }

    ghost function Model(): (s: Stream)
      requires Valid()
      reads this
      ensures s.Valid() && s.Buffer() == buffer
    {
      Stream(capacity, history, readBytes, endWrite, error)
    }

    constructor (capacity: nat)
      ensures Valid() && Model() == Empty(capacity) && this.capacity == capacity
    {
      this.buffer, this.capacity, this.endWrite, this.error := [], capacity, false, false;
      this.writtenBytes, this.readBytes, this.history := 0, 0, [];
    }

    method Write(data: seq<byte>) returns (n: nat)
      requires Valid()
      modifies this
      ensures Valid()
      ensures n == Min(old(Model()).Room(), |data|)
      ensures Model() == old(Model()).Write(data)
    {
      var canWrite := capacity - |buffer|;
      n := Min(canWrite, |data|);
      for i := 0 to n
        invariant buffer == old(buffer) + data[..i]
        invariant unchanged(`writtenBytes) && unchanged(`readBytes) && unchanged(`endWrite)
        invariant unchanged(`error) && unchanged(`history)
      {
        buffer := buffer + [data[i]];
      }
      writtenBytes := writtenBytes + n;
      history := history + data[..n];
    }

    method PeekOutput(len: nat) returns (out: seq<byte>)
      requires Valid()
      ensures out == Model().Buffer()[..Min(len, |buffer|)]
    {
      out := [];
      for i := 0 to Min(len, |buffer|)
        invariant out == buffer[..i]
      {
        out := out + [buffer[i]];
      }
    }

    method PopOutput(len: nat)
      requires Valid()
      modifies this
      ensures Valid()
      ensures Model() == old(Model()).Read(len)
    {
      if len > |buffer| {
        error := true;
        return;
      }
      for i := 0 to len
        invariant buffer == old(buffer)[i..]
        invariant unchanged(`writtenBytes) && unchanged(`readBytes) && unchanged(`endWrite)
        invariant unchanged(`error) && unchanged(`history)
      {
        buffer := buffer[1..];
      }
      readBytes := readBytes + len;
    }

    method Read(len: nat) returns (out: seq<byte>)
      requires Valid()
      modifies this
      ensures Valid()
      ensures Model() == old(Model()).Read(len)
      ensures out == if len <= |old(Model()).Buffer()| then old(Model()).Buffer()[..len] else []
    {
      out := [];
      if len > |buffer| {
        error := true;
        return;
      }
      for i := 0 to len
        invariant buffer == old(buffer)[i..]
        invariant out == old(buffer)[..i]
        invariant unchanged(`writtenBytes) && unchanged(`readBytes) && unchanged(`endWrite)
        invariant unchanged(`error) && unchanged(`history)
      {
        out := out + [buffer[0]];
        buffer := buffer[1..];
      }
      readBytes := readBytes + len;
    }

    method EndInput()
      requires Valid()
      modifies this
      ensures Valid()
      ensures Model() == old(Model()).EndInput()
    {
      endWrite := true;
    }
  }

  // ---------------------------------------------------------------------------
  // First in, first out
  // ---------------------------------------------------------------------------

  /** The front of what is offered is added behind what is there, and all of it unless that fills the stream. */
  lemma WriteKeepsFront(s: Stream, bytes: seq<byte>)
    requires s.Valid()
    ensures var t := s.Write(bytes);
      && s.data <= t.data && s.Buffer() <= t.Buffer() && t.Buffer()[|s.Buffer()|..] <= bytes
      && (t.Buffer() == s.Buffer() + bytes || |t.Buffer()| == s.capacity)
      && t == s.(data := t.data)
  {
  }

  /** Writing in two pieces or in one makes no difference, whether or not it all fits. */
  lemma WriteInPieces(s: Stream, a: seq<byte>, b: seq<byte>)
    requires s.Valid()
    ensures s.Write(a).Write(b) == s.Write(a + b)
  {
    var n, m := Min(s.Room(), |a|), Min(s.Write(a).Room(), |b|);
    assert (a + b)[..Min(s.Room(), |a + b|)] == a[..n] + b[..m];
    assert s.data + a[..n] + b[..m] == s.data + (a[..n] + b[..m]);
  }

  /** Reading takes the oldest bytes; asking for more than there is takes nothing and marks the stream for good. */
  lemma ReadTakesFront(s: Stream, n: nat)
    requires s.Valid()
    ensures var t := s.Read(n);
      && t.data == s.data && t.capacity == s.capacity && t.ended == s.ended
      && if n <= |s.Buffer()| then s.Buffer()[..n] + t.Buffer() == s.Buffer() && t.error == s.error
         else t.Buffer() == s.Buffer() && t.error
  {
  }

  /** Reading in two pieces or in one makes no difference. */
  lemma ReadInPieces(s: Stream, n: nat, m: nat)
    requires s.Valid() && n + m <= |s.Buffer()|
    ensures s.Read(n).Read(m) == s.Read(n + m)
  {
  }

  /** What a reader gets is what a writer put in: with room for it, bytes written to an empty stream are read back. */
  lemma WriteThenRead(s: Stream, bytes: seq<byte>)
    requires s.Valid() && s.Buffer() == [] && |bytes| <= s.capacity
    ensures s.Write(bytes).Buffer() == bytes && s.Write(bytes).Read(|bytes|).Buffer() == []
  {
    assert s.data + bytes[..|bytes|] == s.data + bytes;
  }
}
