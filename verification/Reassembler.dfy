/** The stream reassembler: out-of-order, overlapping excerpts in, an in-order stream out. */
module Reassembly {
  import opened Widths
  import opened ByteStreams

  // ---------------------------------------------------------------------------
  // The abstract reassembler: a sparse map from stream index to byte
  // ---------------------------------------------------------------------------

  /** The first index at or after `p` that is missing from `keys`. */
  function Gap(keys: set<nat>, p: nat): (q: nat)
    ensures p <= q && q !in keys
    ensures forall i :: p <= i < q ==> i in keys
    decreases keys
  {
    if p in keys then Gap(keys - {p}, p + 1) else p
  }

  lemma GapUnique(keys: set<nat>, p: nat, q: nat)
    requires p <= q && q !in keys
    requires forall i :: p <= i < q ==> i in keys
    ensures Gap(keys, p) == q
  {
    var g := Gap(keys, p);
    assert !(g < q) && !(q < g);
  }

  /** `m` together with the bytes of `data` (which starts at `index`) at lo <= p < hi; the first arrival wins. */
  function Insert(m: map<nat, byte>, data: seq<byte>, index: nat, lo: nat, hi: nat): map<nat, byte>
    requires index <= lo && hi <= index + |data|
  {
    m + map p: nat | lo <= p < hi && p !in m :: data[p - index]
  }

  /** The bytes stored in `m` at lo <= p < hi, in order. */
  function Stretch(m: map<nat, byte>, lo: nat, hi: nat): (s: seq<byte>)
    requires lo <= hi
    requires forall p :: lo <= p < hi ==> p in m
    ensures |s| == hi - lo
  {
    seq(hi - lo, i requires 0 <= i < hi - lo => m[lo + i])
  }

  function Beyond(m: map<nat, byte>, to: nat): map<nat, byte> {
    map p: nat | p in m && to <= p :: m[p]
  }

  datatype Assembler = Assembler(out: Stream, pending: map<nat, byte>, eof: Option<nat>) {
    /** Stored bytes lie strictly inside the window, past a gap at its very start. */
    ghost predicate Valid() {
      && out.Valid()
      && forall p :: p in pending ==> |out.data| < p < out.nread + out.capacity
    }

    /** The stored bytes after an excerpt has been cut to the window and merged in. */
    function Accept(data: seq<byte>, index: nat): map<nat, byte> {
      Insert(pending, data, index, Max(index, |out.data|), Min(index + |data|, out.nread + out.capacity))
    }

    /** The output ends once it has reached the recorded end of the stream. */
    function NoteEnd(): Assembler {
      if eof == Some(|out.data|) then this.(out := out.EndInput()) else this
    }

    /** Moves the bytes up to the first gap to the output. */
    function Advance(): Assembler {
      var from, to := |out.data|, Gap(pending.Keys, |out.data|);
      this.(out := out.(data := out.data + Stretch(pending, from, to)), pending := Beyond(pending, to))
    }

    /** One call of push_substring. The end of the excerpt is a 64-bit sum. */
    function Push(data: seq<byte>, index: uint64, last: bool): Assembler {
      var noted := this.(eof := if last then Some((index + |data|) % TWO64) else eof).NoteEnd();
      noted.(pending := noted.Accept(data, index)).Advance().NoteEnd()
    }

    /** Nothing moves while the first index of the window is missing. */
    lemma AdvanceNothing()
      requires |out.data| !in pending
      requires forall p :: p in pending ==> |out.data| <= p
      ensures Advance() == this
    {
      assert Beyond(pending, |out.data|) == pending;
      assert out.data + [] == out.data;
    }

    function Read(n: nat): Assembler
      requires out.Valid()
    {
      this.(out := out.Read(n))
    }
  }

  function Fresh(capacity: nat): (a: Assembler)
    ensures a.Valid()
  {
    Assembler(Empty(capacity), map[], None)
  }

  lemma AcceptWithinWindow(a: Assembler, data: seq<byte>, index: nat)
    requires a.Valid()
    ensures forall p :: p in a.Accept(data, index) ==> |a.out.data| <= p < a.out.nread + a.out.capacity
  {
  }

  /** A push, field by field. */
  lemma PushShape(a: Assembler, data: seq<byte>, index: uint64, last: bool)
    ensures var b, m, from := a.Push(data, index, last), a.Accept(data, index), |a.out.data|;
      var to := Gap(m.Keys, from);
      && b.out == a.out.(data := a.out.data + Stretch(m, from, to),
                         ended := a.out.ended || b.eof == Some(from) || b.eof == Some(to))
      && b.pending == Beyond(m, to)
      && b.eof == if last then Some((index + |data|) % TWO64) else a.eof
  {
    hide Gap, Stretch, Beyond, Insert;
  }

  /** Whatever is pushed, the reassembler stays well formed, keeps its output and only ever adds to it. */
  lemma PushKeepsValid(a: Assembler, data: seq<byte>, index: uint64, last: bool)
    requires a.Valid()
    ensures var b := a.Push(data, index, last);
      && b.Valid()
      && b.out.nread == a.out.nread && b.out.capacity == a.out.capacity
      && a.out.data <= b.out.data && (a.out.ended ==> b.out.ended)
  {
    hide Gap, Insert, Stretch, Assembler.Push;
    PushShape(a, data, index, last);
    AcceptWithinWindow(a, data, index);
    var m := a.Accept(data, index);
    var from, to := |a.out.data|, Gap(m.Keys, |a.out.data|);
    assert from < to ==> to - 1 in m;
    assert to !in m;
  }

  // ---------------------------------------------------------------------------
  // The implementation: two deques that slide along the stream together
  // ---------------------------------------------------------------------------

  /** The map that a buffer and its bitmap stand for when their front is stream index `base`. */
  predicate Taken(bitmap: seq<bool>, base: nat, p: nat) {
    base <= p < base + |bitmap| && bitmap[p - base]
  }

  function Decode(buffer: seq<byte>, bitmap: seq<bool>, base: nat): map<nat, byte>
    requires |buffer| == |bitmap|
  {
    map p: nat | base <= p < base + |bitmap| && Taken(bitmap, base, p) :: buffer[p - base]
  }

  lemma InsertNone(m: map<nat, byte>, data: seq<byte>, index: nat, lo: nat, hi: nat)
    requires index <= lo && hi <= index + |data| && hi <= lo
    ensures Insert(m, data, index, lo, hi) == m
  {
  }

  /** What storing one more byte does to a map: a byte that is there stays. */
  function Put(m: map<nat, byte>, p: nat, b: byte): map<nat, byte> {
    if p in m then m else m[p := b]
  }

  /** An excerpt that does not meet the window leaves the stored bytes alone. */
  lemma AcceptOutside(a: Assembler, data: seq<byte>, index: nat)
    requires index + |data| <= |a.out.data| || index >= a.out.nread + a.out.capacity
    ensures a.Accept(data, index) == a.pending
  {
    InsertNone(a.pending, data, index, Max(index, |a.out.data|), Min(index + |data|, a.out.nread + a.out.capacity));
  }

  /** The end of an excerpt that starts below `limit` is computed without wrap-around. */
  lemma EndBelowWrap(index: uint64, len: nat, limit: nat)
    requires limit + len < TWO64
    ensures index < limit ==> (index + len) % TWO64 == index + len
  {
  }

  lemma InsertOne(m: map<nat, byte>, data: seq<byte>, index: nat, lo: nat, hi: nat)
    requires index <= lo <= hi < index + |data|
    ensures Insert(m, data, index, lo, hi + 1) == Put(Insert(m, data, index, lo, hi), hi, data[hi - index])
  {
  }

  lemma DecodeSlide(buffer: seq<byte>, bitmap: seq<bool>, base: nat)
    requires |buffer| == |bitmap| > 0 && bitmap[0]
    ensures Decode(buffer[1..] + [0], bitmap[1..] + [false], base + 1) == Beyond(Decode(buffer, bitmap, base), base + 1)
    ensures |Beyond(Decode(buffer, bitmap, base), base + 1)| == |Decode(buffer, bitmap, base)| - 1
  {
    var m := Decode(buffer, bitmap, base);
    assert Taken(bitmap, base, base);
    assert Beyond(m, base + 1)[base := m[base]] == m;
  }

  lemma FrontTaken(buffer: seq<byte>, bitmap: seq<bool>, base: nat)
    requires |buffer| == |bitmap| > 0
    ensures base in Decode(buffer, bitmap, base) <==> bitmap[0]
    ensures bitmap[0] ==> Decode(buffer, bitmap, base)[base] == buffer[0]
  {
    assert Taken(bitmap, base, base) <==> bitmap[0];
  }

  lemma BeyondStart(m: map<nat, byte>, to: nat)
    ensures to in m <==> to in Beyond(m, to)
    ensures (forall p :: p in m ==> to <= p) ==> Beyond(m, to) == m
  {
  }

  lemma BeyondOne(m: map<nat, byte>, from: nat, to: nat)
    requires from <= to && forall p :: from <= p < to ==> p in m
    requires to in Beyond(m, to)
    ensures to in m && Beyond(m, to)[to] == m[to]
    ensures Beyond(Beyond(m, to), to + 1) == Beyond(m, to + 1)
    ensures Stretch(m, from, to + 1) == Stretch(m, from, to) + [m[to]]
  {
  }

  class StreamReassembler {
    const capacity: nat
    const output: ByteStream
    var buffer: seq<byte>
    var bitmap: seq<bool>
    var eofFlag: bool
    var eofIndex: nat
    var unassembledBytes: nat

    ghost predicate Valid()
      reads this, output
    {
      && output.Valid() && output.capacity == capacity
      && |buffer| == |bitmap| == capacity
      && Model().Valid()
      && unassembledBytes == |Model().pending|
    }

    ghost function Model(): Assembler
      requires output.Valid() && |buffer| == |bitmap|
      reads this, output
    {
      Assembler(output.Model(), Decode(buffer, bitmap, output.writtenBytes), if eofFlag then Some(eofIndex) else None)
    }

    constructor (capacity: nat)
      ensures Valid() && fresh(output)
      ensures Model() == Fresh(capacity)
    {
      this.capacity := capacity;
      output := new ByteStream(capacity);
      buffer := seq(capacity, _ => 0);
      bitmap := seq(capacity, _ => false);
      eofFlag, eofIndex, unassembledBytes := false, 0, 0;
    }

    method PushSubstring(data: seq<byte>, index: uint64, eof: bool)
      requires Valid()
      requires output.readBytes + capacity + |data| < TWO64
      modifies this, output
      ensures Valid()
      ensures Model() == old(Model()).Push(data, index, eof)
    {
      hide Decode, Assembler.Accept, Assembler.Advance;
      PushKeepsValid(Model(), data, index, eof);
      EndBelowWrap(index, |data|, output.readBytes + capacity);
      var firstUnread := output.readBytes;
      var firstUnassembled := output.writtenBytes;
      var firstUnacceptable := firstUnread + capacity;
      var start, end := index, (index + |data|) % TWO64;

      if eof {
        eofFlag, eofIndex := true, end;
      }
      EndIfReached();
      ghost var noted := Model();
      if end <= firstUnassembled || start >= firstUnacceptable {
        AcceptOutside(noted, data, index);
        noted.AdvanceNothing();
        return;
      }
      Absorb(data, index);
      EndIfReached();
    }

    method UnassembledBytes() returns (n: nat)
      requires Valid()
      ensures n == |Model().pending|
    {
      n := unassembledBytes;
    }

    method IsEmpty() returns (empty: bool)
      requires Valid()
      ensures empty <==> Model().pending == map[]
    {
      empty := unassembledBytes == 0;
    }

    method EndIfReached()
      requires output.Valid() && |buffer| == |bitmap|
      modifies output
      ensures output.Valid()
      ensures output.writtenBytes == old(output.writtenBytes) && output.readBytes == old(output.readBytes)
      ensures Model() == old(Model()).NoteEnd()
    {
      if eofFlag && eofIndex == output.writtenBytes {
        output.EndInput();
      }
    }

    /** The excerpt overlaps the window: store the overlap and move what has become contiguous. */
    method Absorb(data: seq<byte>, index: nat)
      requires Valid()
      requires output.writtenBytes < index + |data| && index < output.readBytes + capacity
      modifies this`buffer, this`bitmap, this`unassembledBytes, output
      ensures output.Valid() && |buffer| == |bitmap| == capacity
      ensures Model() == old(Model()).(pending := old(Model()).Accept(data, index)).Advance()
      ensures unassembledBytes == |Model().pending|
    {
      hide Insert, Decode, Gap, Stretch, Beyond;
      AcceptWithinWindow(Model(), data, index);
      StoreInWindow(data, index);
      var str := TakeFront();
      if |str| > 0 {
        var n := output.Write(str);
        unassembledBytes := unassembledBytes - |str|;
      }
    }

    /** Stores the part of the excerpt that overlaps the window, keeping bytes that are already there. */
    method StoreInWindow(data: seq<byte>, index: nat)
      requires Valid()
      requires output.writtenBytes < index + |data| && index < output.readBytes + capacity
      modifies this`buffer, this`bitmap, this`unassembledBytes
      ensures |buffer| == |bitmap| == capacity
      ensures Decode(buffer, bitmap, output.writtenBytes) == old(Model()).Accept(data, index)
      ensures unassembledBytes == |Decode(buffer, bitmap, output.writtenBytes)|
    {
      hide Insert, Decode, Put;
      ghost var pending := Model().pending;
      var firstUnassembled := output.writtenBytes;
      var start, end := index, Min(index + |data|, output.readBytes + capacity);
      InsertNone(pending, data, index, Max(start, firstUnassembled), Max(start, firstUnassembled));
      if start >= firstUnassembled {
        var offset := index - firstUnassembled;
        for i := 0 to end - start
          invariant |buffer| == |bitmap| == capacity
          invariant Decode(buffer, bitmap, firstUnassembled) == Insert(pending, data, index, start, start + i)
          invariant unassembledBytes == |Decode(buffer, bitmap, firstUnassembled)|
        {
          InsertOne(pending, data, index, start, start + i);
          StoreByte(i + offset, data[i]);
        }
      } else {
        start := firstUnassembled;
        var offset := firstUnassembled - index;
        for i := 0 to end - start
          invariant |buffer| == |bitmap| == capacity
          invariant Decode(buffer, bitmap, firstUnassembled) == Insert(pending, data, index, start, start + i)
          invariant unassembledBytes == |Decode(buffer, bitmap, firstUnassembled)|
        {
          InsertOne(pending, data, index, start, start + i);
          StoreByte(i, data[i + offset]);
        }
      }
    }

    /** One turn of either copying loop: a slot that is taken keeps its byte. */
    method StoreByte(k: nat, b: byte)
      requires output.Valid() && |buffer| == |bitmap| == capacity && k < capacity
      requires unassembledBytes == |Decode(buffer, bitmap, output.writtenBytes)|
      modifies this`buffer, this`bitmap, this`unassembledBytes
      ensures |buffer| == |bitmap| == capacity
      ensures Decode(buffer, bitmap, output.writtenBytes)
           == Put(old(Decode(buffer, bitmap, output.writtenBytes)), output.writtenBytes + k, b)
      ensures unassembledBytes == |Decode(buffer, bitmap, output.writtenBytes)|
    {
      if !bitmap[k] {
        buffer := buffer[k := b];
        bitmap := bitmap[k := true];
        unassembledBytes := unassembledBytes + 1;
        assert Decode(buffer, bitmap, output.writtenBytes)
            == old(Decode(buffer, bitmap, output.writtenBytes))[output.writtenBytes + k := b];
      }
    }

    /** Takes the contiguous bytes off the front of the window, sliding both deques. */
    method TakeFront() returns (str: seq<byte>)
      requires output.Valid() && output.capacity == |buffer| == |bitmap| == capacity > 0
      requires forall p :: p in Model().pending ==> output.writtenBytes <= p < output.readBytes + capacity
      modifies this`buffer, this`bitmap
      ensures |buffer| == |bitmap| == capacity
      ensures var m, from := old(Model()).pending, output.writtenBytes;
        && from + |str| == Gap(m.Keys, from) <= output.readBytes + capacity
        && str == Stretch(m, from, from + |str|)
        && Decode(buffer, bitmap, from + |str|) == Beyond(m, from + |str|)
        && |Beyond(m, from + |str|)| == |m| - |str|
    {
      hide Decode, Beyond, Stretch;
      ghost var m := Model().pending;
      ghost var from := output.writtenBytes;
      str := [];
      BeyondStart(m, from);
      while bitmap[0]
        invariant |buffer| == |bitmap| == capacity
        invariant from + |str| <= output.readBytes + capacity
        invariant forall p :: from <= p < from + |str| ==> p in m
        invariant str == Stretch(m, from, from + |str|)
        invariant Decode(buffer, bitmap, from + |str|) == Beyond(m, from + |str|)
        invariant |Decode(buffer, bitmap, from + |str|)| == |m| - |str|
        decreases output.readBytes + capacity - from - |str|
      {
        FrontTaken(buffer, bitmap, from + |str|);
        DecodeSlide(buffer, bitmap, from + |str|);
        BeyondOne(m, from, from + |str|);
        str := str + [buffer[0]];
        buffer := buffer[1..] + [0];
        bitmap := bitmap[1..] + [false];
      }
      FrontTaken(buffer, bitmap, from + |str|);
      BeyondStart(m, from + |str|);
      GapUnique(m.Keys, from, from + |str|);
    }
  }
}
