/** What the reassembler guarantees: integrity, memory bound and independence of arrival order. */
module ReassemblyTheory {
  import opened Widths
  import opened ByteStreams
  import opened Reassembly

  // ---------------------------------------------------------------------------
  // Integrity and progress of a single push
  // ---------------------------------------------------------------------------

  /** Everything `a` holds comes from `sent`, and an end it knows of is the end of `sent`, which is final. */
  ghost predicate Agrees(a: Assembler, sent: seq<byte>, final: bool) {
    && a.out.data <= sent
    && (forall p :: p in a.pending ==> p < |sent| && a.pending[p] == sent[p])
    && (a.eof.Some? ==> final && a.eof.value == |sent|)
    && (a.out.ended ==> final && a.out.data == sent)
  }

  /** `data` sits at `index` of `sent`; the last excerpt reaches its very end. */
  ghost predicate Excerpts(data: seq<byte>, index: nat, last: bool, sent: seq<byte>, final: bool) {
    && index + |data| <= |sent| < TWO64
    && data == sent[index..index + |data|]
    && (last ==> final && index + |data| == |sent|)
  }

  lemma AcceptAgrees(a: Assembler, data: seq<byte>, index: uint64, last: bool, sent: seq<byte>, final: bool)
    requires a.Valid() && Agrees(a, sent, final) && Excerpts(data, index, last, sent, final)
    ensures var m := a.Accept(data, index); forall p :: p in m ==> |a.out.data| <= p < |sent| && m[p] == sent[p]
  {
  }

  /** A push of a true excerpt keeps the agreement. */
  lemma PushAgrees(a: Assembler, data: seq<byte>, index: uint64, last: bool, sent: seq<byte>, final: bool)
    requires a.Valid() && Agrees(a, sent, final) && Excerpts(data, index, last, sent, final)
    ensures Agrees(a.Push(data, index, last), sent, final)
  {
    hide Gap, Insert, Stretch, Beyond, Assembler.Push;
    PushShape(a, data, index, last);
    AcceptAgrees(a, data, index, last, sent, final);
    var m := a.Accept(data, index);
    var from, to := |a.out.data|, Gap(m.Keys, |a.out.data|);
    assert from < to ==> to - 1 in m;
    SplitFromStream(m, from, to, sent);
    assert sent[..from] + sent[from..to] == sent[..to];
  }

  /** A map that agrees with a stream, split at `to`: the front is a piece of the stream, the rest still agrees. */
  lemma SplitFromStream(m: map<nat, byte>, from: nat, to: nat, sent: seq<byte>)
    requires from <= to <= |sent| && forall p :: from <= p < to ==> p in m
    requires forall p :: p in m ==> p < |sent| && m[p] == sent[p]
    ensures Stretch(m, from, to) == sent[from..to]
    ensures forall p :: p in Beyond(m, to) <==> p in m && to <= p
    ensures forall p :: p in Beyond(m, to) ==> Beyond(m, to)[p] == sent[p]
  {
  }

  /** A push that offers the next byte, or the end of the stream, moves the output on. */
  lemma PushAdvances(a: Assembler, data: seq<byte>, index: uint64, last: bool, sent: seq<byte>, final: bool)
    requires a.Valid() && Agrees(a, sent, final) && Excerpts(data, index, last, sent, final)
    requires index <= |a.out.data|
    ensures var b := a.Push(data, index, last);
      && |b.out.data| >= Min(index + |data|, a.out.nread + a.out.capacity)
      && (last && |b.out.data| == |sent| ==> b.out.ended)
  {
    hide Gap, Beyond, Assembler.Push;
    PushShape(a, data, index, last);
    PushAgrees(a, data, index, last, sent, final);
    var m := a.Accept(data, index);
    var to := Gap(m.Keys, |a.out.data|);
    assert forall p: nat :: |a.out.data| <= p < Min(index + |data|, a.out.nread + a.out.capacity) ==> p in m;
  }

  // ---------------------------------------------------------------------------
  // What a push of anything means
  // ---------------------------------------------------------------------------

  /** The byte known for a stream position, whether it has been output or is still stored. */
  function Known(a: Assembler, p: nat): Option<byte> {
    if p < |a.out.data| then Some(a.out.data[p]) else if p in a.pending then Some(a.pending[p]) else None
  }

  /** The byte that an excerpt offers for a position inside the window. */
  function Offered(a: Assembler, data: seq<byte>, index: nat, p: nat): Option<byte> {
    if index <= p < index + |data| && p < a.out.nread + a.out.capacity then Some(data[p - index]) else None
  }

  /** Position by position, the first byte to arrive inside the window is the one that is kept; afterwards the
      output reaches exactly to the first unknown position. It ends on reaching the end last announced. */
  lemma PushMeaning(a: Assembler, data: seq<byte>, index: uint64, last: bool, p: nat)
    requires a.Valid()
    ensures var b := a.Push(data, index, last);
      && Known(b, p) == (if Known(a, p).Some? then Known(a, p) else Offered(a, data, index, p))
      && (p < |b.out.data| ==> Known(b, p).Some?)
      && Known(b, |b.out.data|).None?
      && b.eof == (if last then Some((index + |data|) % TWO64) else a.eof)
      && b.out == a.out.(data := b.out.data, ended := b.out.ended)
      && (b.out.ended <==> a.out.ended || b.eof == Some(|a.out.data|) || b.eof == Some(|b.out.data|))
  {
    hide Gap, Assembler.Push, Insert;
    PushShape(a, data, index, last);
    if |a.out.data| <= p {
      AcceptMeaning(a, data, index, p);
    }
    AcceptWithinWindow(a, data, index);
    var m := a.Accept(data, index);
    assert Gap(m.Keys, |a.out.data|) !in m;
  }

  lemma AcceptMeaning(a: Assembler, data: seq<byte>, index: nat, p: nat)
    requires a.Valid() && |a.out.data| <= p
    ensures var m := a.Accept(data, index);
      (if p in m then Some(m[p]) else None)
        == (if p in a.pending then Some(a.pending[p]) else Offered(a, data, index, p))
  {
  }

  // ---------------------------------------------------------------------------
  // Memory bound
  // ---------------------------------------------------------------------------

  lemma {:induction false} CardinalityBelow(s: set<nat>, lo: nat, hi: nat)
    requires lo <= hi && forall p :: p in s ==> lo <= p < hi
    ensures |s| <= hi - lo
    decreases hi - lo
  {
    if lo == hi {
      assert s == {};
    } else {
      CardinalityBelow(s - {lo}, lo + 1, hi);
    }
  }

  /** Buffered output and stored bytes together never exceed the capacity. */
  lemma MemoryBound(a: Assembler)
    requires a.Valid()
    ensures |a.out.Buffer()| + |a.pending| <= a.out.capacity
  {
    assert |a.pending| == |a.pending.Keys|;
    CardinalityBelow(a.pending.Keys, |a.out.data|, a.out.nread + a.out.capacity);
  }

  // ---------------------------------------------------------------------------
  // Order independence
  // ---------------------------------------------------------------------------

  /** A piece of a fixed stream: where it starts, how long it is, and whether it is marked as the last. */
  datatype Piece = Piece(index: nat, len: nat, last: bool)

  ghost predicate PieceOf(e: Piece, stream: seq<byte>) {
    e.index + e.len <= |stream| < TWO64 && (e.last ==> e.index + e.len == |stream|)
  }

  function PushPiece(a: Assembler, stream: seq<byte>, e: Piece): Assembler
    requires PieceOf(e, stream)
  {
    a.Push(stream[e.index..e.index + e.len], e.index, e.last)
  }

  function PushAll(a: Assembler, stream: seq<byte>, pieces: seq<Piece>): Assembler
    requires forall e :: e in pieces ==> PieceOf(e, stream)
  {
    if pieces == [] then a
    else PushPiece(PushAll(a, stream, pieces[..|pieces| - 1]), stream, pieces[|pieces| - 1])
  }

  predicate Covers(pieces: set<Piece>, p: nat) {
    exists e :: e in pieces && e.index <= p < e.index + e.len
  }

  predicate LastSeen(pieces: set<Piece>) {
    exists e :: e in pieces && e.last
  }

  /** The stream positions inside the window that some piece covers. */
  function Union(pieces: set<Piece>, capacity: nat): set<nat> {
    set p: nat | p < capacity && Covers(pieces, p)
  }

  lemma UnionWithin(pieces: set<Piece>, capacity: nat, stream: seq<byte>)
    requires forall e :: e in pieces ==> PieceOf(e, stream)
    ensures forall p :: p in Union(pieces, capacity) ==> p < |stream|
  {
    forall p | p in Union(pieces, capacity)
      ensures p < |stream|
    {
      var e :| e in pieces && e.index <= p < e.index + e.len;
      assert PieceOf(e, stream);
    }
  }

  /** The reassembler determined by the set of pieces alone. */
  function Determined(stream: seq<byte>, capacity: nat, pieces: set<Piece>): (a: Assembler)
    requires forall e :: e in pieces ==> PieceOf(e, stream)
    ensures |a.out.data| == Gap(Union(pieces, capacity), 0) <= |stream|
  {
    var covered := Union(pieces, capacity);
    var to := Gap(covered, 0);
    assert to <= |stream| && forall p :: p in covered ==> p < |stream| by {
      UnionWithin(pieces, capacity, stream);
      assert to > 0 ==> to - 1 in covered;
    }
    Assembler(
      Stream(capacity, stream[..to], 0, LastSeen(pieces) && to == |stream|, false),
      map p: nat | p in covered && to < p :: stream[p],
      if LastSeen(pieces) then Some(|stream|) else None)
  }

  /** Looking for the first gap may start past any stretch without gaps. */
  lemma GapFromLater(all: set<nat>, later: set<nat>, from: nat)
    requires forall p: nat :: p < from ==> p in all
    requires forall p :: p in later <==> p in all && from <= p
    ensures from <= Gap(all, 0) == Gap(later, from)
  {
    var to := Gap(all, 0);
    assert to !in all;
    GapUnique(later, from, to);
  }

  /** Merging one more piece stores exactly the positions of the larger union that lie past the output. */
  lemma AcceptDetermined(stream: seq<byte>, capacity: nat, pieces: set<Piece>, e: Piece)
    requires forall x :: x in pieces ==> PieceOf(x, stream)
    requires PieceOf(e, stream)
    ensures var a := Determined(stream, capacity, pieces);
      var m, after := a.Accept(stream[e.index..e.index + e.len], e.index), Union(pieces + {e}, capacity);
      && (forall p :: p in m <==> p in after && |a.out.data| <= p)
      && (forall p :: p in m ==> p < |stream| && m[p] == stream[p])
      && |a.out.data| <= Gap(after, 0)
      && Gap(after, 0) == Gap(m.Keys, |a.out.data|)
  {
    hide Gap;
    var a := Determined(stream, capacity, pieces);
    var m := a.Accept(stream[e.index..e.index + e.len], e.index);
    var before, after := Union(pieces, capacity), Union(pieces + {e}, capacity);
    var from := |a.out.data|;
    UnionWithin(pieces, capacity, stream);
    assert forall p: nat :: Covers(pieces + {e}, p) <==> Covers(pieces, p) || e.index <= p < e.index + e.len;
    forall p: nat | p < from
      ensures p in after
    {
      assert p in before;
    }
    assert forall p :: p in m <==> p in after && from <= p;
    GapFromLater(after, m.Keys, from);
  }

  lemma LastSeenMore(pieces: set<Piece>, e: Piece)
    ensures LastSeen(pieces + {e}) <==> LastSeen(pieces) || e.last
  {
  }

  /** What stays stored is what lies past the new gap. */
  lemma StoredDetermined(stream: seq<byte>, capacity: nat, pieces: set<Piece>, m: map<nat, byte>, from: nat)
    requires forall x :: x in pieces ==> PieceOf(x, stream)
    requires forall p :: p in m <==> p in Union(pieces, capacity) && from <= p
    requires forall p :: p in m ==> p < |stream| && m[p] == stream[p]
    requires from <= Gap(Union(pieces, capacity), 0)
    ensures Beyond(m, Gap(Union(pieces, capacity), 0)) == Determined(stream, capacity, pieces).pending
  {
    hide Gap, Union;
  }

  lemma PushDetermined(stream: seq<byte>, capacity: nat, pieces: set<Piece>, e: Piece)
    requires forall x :: x in pieces ==> PieceOf(x, stream)
    requires PieceOf(e, stream)
    ensures PushPiece(Determined(stream, capacity, pieces), stream, e) == Determined(stream, capacity, pieces + {e})
  {
    hide Gap, Union, Stretch, Beyond, Assembler.Push, Assembler.Accept, LastSeen;
    var a, b := Determined(stream, capacity, pieces), Determined(stream, capacity, pieces + {e});
    var data := stream[e.index..e.index + e.len];
    var m, c := a.Accept(data, e.index), a.Push(data, e.index, e.last);
    PushShape(a, data, e.index, e.last);
    AcceptDetermined(stream, capacity, pieces, e);
    var from, to := |a.out.data|, Gap(m.Keys, |a.out.data|);
    LastSeenMore(pieces, e);
    SplitFromStream(m, from, to, stream);
    StoredDetermined(stream, capacity, pieces + {e}, m, from);
    assert c.pending == b.pending;
    assert c.out.data == b.out.data by { assert stream[..from] + stream[from..to] == stream[..to]; }
    assert c.eof == b.eof;
    assert c.out.ended == b.out.ended;
  }

  lemma NothingDetermined(stream: seq<byte>, capacity: nat)
    ensures Determined(stream, capacity, {}) == Fresh(capacity)
  {
    GapUnique(Union({}, capacity), 0, 0);
  }

  lemma {:induction false} PushAllDetermined(stream: seq<byte>, capacity: nat, pieces: seq<Piece>)
    requires forall e :: e in pieces ==> PieceOf(e, stream)
    ensures PushAll(Fresh(capacity), stream, pieces) == Determined(stream, capacity, set e | e in pieces)
  {
    hide Determined, PushPiece, Fresh;
    if pieces == [] {
      NothingDetermined(stream, capacity);
      assert (set e | e in pieces) == {};
    } else {
      var front, e := pieces[..|pieces| - 1], pieces[|pieces| - 1];
      PushAllDetermined(stream, capacity, front);
      PushDetermined(stream, capacity, (set x | x in front), e);
      assert (set e | e in pieces) == (set x | x in front) + {e};
    }
  }

  /** With no reads in between, any order and any repetition of the same pieces leads to the same reassembler. */
  lemma OrderIndependence(stream: seq<byte>, capacity: nat, xs: seq<Piece>, ys: seq<Piece>)
    requires forall e :: e in xs ==> PieceOf(e, stream)
    requires forall e :: e in xs <==> e in ys
    ensures PushAll(Fresh(capacity), stream, xs) == PushAll(Fresh(capacity), stream, ys)
  {
    PushAllDetermined(stream, capacity, xs);
    PushAllDetermined(stream, capacity, ys);
    assert (set e | e in xs) == (set e | e in ys);
  }
}
