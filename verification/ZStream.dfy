/** The compressor as the stream callbacks see it, and the loop that collects everything one call of it produces.
    What the compressor computes is a parameter; how its output is cut into buffers is not. */
module ZStream {
  import opened Common

  newtype byte = x: int | 0 <= x < 256

  datatype Flush = NoFlush | Finish

  datatype Emitted<S> = Failed | Emitted(state: S, out: seq<byte>)

  /** `emit` is what a compressor in a given state makes of some input: its next state and all output it then owes.
      `crcByte` is one step of the checksum. */
  datatype Codec<!S> = Codec(emit: (S, seq<byte>, Flush) -> Emitted<S>, crcByte: (nat, byte) -> nat)

  /** Without input nothing more comes out: an empty call before the end fails or does nothing, and a second request for
      the end does nothing. */
  ghost predicate Quiet<S(!new)>(c: Codec<S>) {
    && (forall s :: var e := c.emit(s, [], NoFlush); e.Emitted? ==> e == Emitted(s, []))
    && (forall s, x :: var e := c.emit(s, x, Finish); e.Emitted? ==> c.emit(e.state, [], Finish) == Emitted(e.state, []))
  }

  /** Some input before the end; for nothing no call is needed. */
  function Take<S>(c: Codec<S>, s: S, x: seq<byte>): Emitted<S> {
    if x == [] then Emitted(s, []) else c.emit(s, x, NoFlush)
  }

  /** The compressor takes no empty call at all, which with zlib ends in Z_BUF_ERROR. */
  ghost predicate TakesNoNothing<S(!new)>(c: Codec<S>) {
    forall s :: c.emit(s, [], NoFlush).Failed?
  }

  /** After the end no more input is taken. */
  ghost predicate Closed<S(!new)>(c: Codec<S>) {
    forall s, x, y :: var e := c.emit(s, x, Finish); e.Emitted? && y != [] ==> c.emit(e.state, y, NoFlush).Failed?
  }

  /** The compressor does not fail before the end. */
  ghost predicate Willing<S(!new)>(c: Codec<S>, start: S) {
    forall pieces: seq<seq<byte>>, x, f {:trigger c.emit(Feed(c, start, pieces).state, x, f)} ::
      Feed(c, start, pieces).Emitted? && (x != [] || f == Finish) ==> c.emit(Feed(c, start, pieces).state, x, f).Emitted?
  }

  /** Before the end, the output does not depend on how the input is cut into pieces. */
  ghost predicate Seamless<S(!new)>(c: Codec<S>) {
    forall s, x, y {:trigger Take(c, s, x + y)} :: var e := Take(c, s, x); e.Emitted? ==>
      var f := Take(c, e.state, y);
      f.Emitted? ==> Take(c, s, x + y) == Emitted(f.state, e.out + f.out)
  }

  /** What comes out when the pieces are fed one after the other. */
  ghost function Feed<S>(c: Codec<S>, s: S, pieces: seq<seq<byte>>): Emitted<S> {
    if |pieces| == 0 then Emitted(s, [])
    else
      var n := |pieces| - 1;
      var e := Feed(c, s, pieces[..n]);
      if e.Failed? then Failed
      else
        var f := Take(c, e.state, pieces[n]);
        if f.Failed? then Failed else Emitted(f.state, e.out + f.out)
  }

  function Concat<T>(pieces: seq<seq<T>>): seq<T> {
    if |pieces| == 0 then [] else Concat(pieces[..|pieces| - 1]) + pieces[|pieces| - 1]
  }

  lemma ConcatSnoc<T>(pieces: seq<seq<T>>, x: seq<T>)
    ensures Concat(pieces + [x]) == Concat(pieces) + x
  {
    assert (pieces + [x])[..|pieces|] == pieces;
  }

  lemma FeedSnoc<S>(c: Codec<S>, s: S, pieces: seq<seq<byte>>, x: seq<byte>)
    requires Feed(c, s, pieces).Emitted? && Take(c, Feed(c, s, pieces).state, x).Emitted?
    ensures var e, f := Feed(c, s, pieces), Take(c, Feed(c, s, pieces).state, x);
      Feed(c, s, pieces + [x]) == Emitted(f.state, e.out + f.out)
  {
    assert (pieces + [x])[..|pieces|] == pieces;
  }

  /** Feeding in pieces is feeding the whole. */
  lemma {:induction false} FeedIsWhole<S(!new)>(c: Codec<S>, s: S, pieces: seq<seq<byte>>)
    requires Seamless(c) && Feed(c, s, pieces).Emitted?
    ensures Take(c, s, Concat(pieces)) == Feed(c, s, pieces)
    decreases |pieces|
  {
    if |pieces| > 0 { FeedIsWhole(c, s, pieces[..|pieces| - 1]); }
  }

  /** The checksum of some bytes, continued from `crc`. */
  function Crc<S>(c: Codec<S>, crc: nat, bytes: seq<byte>): nat {
    if |bytes| == 0 then crc else c.crcByte(Crc(c, crc, bytes[..|bytes| - 1]), bytes[|bytes| - 1])
  }

  lemma {:induction false} CrcConcat<S>(c: Codec<S>, crc: nat, x: seq<byte>, y: seq<byte>)
    ensures Crc(c, crc, x + y) == Crc(c, Crc(c, crc, x), y)
    decreases |y|
  {
    if |y| == 0 {
      assert x + y == x;
    } else {
      var n := |y| - 1;
      assert (x + y)[..|x| + n] == x + y[..n];
      CrcConcat(c, crc, x, y[..n]);
    }
  }

  // ---------------------------------------------------------------- what a stream callback keeps track of

  /** What a call of the callback, or of a read, comes to: a number of bytes, or one of the two ends. */
  datatype Result = Bytes(count: nat) | EndOfStream | EndWithError

  /** What the source of the data makes of one read: an error, or as many bytes as asked for, or fewer. */
  datatype ReadPlan = Fail | UpTo(n: nat)

  /** All the compressor has given: for the pieces and, in `last`, for the end. */
  ghost function Given<S>(c: Codec<S>, start: S, pieces: seq<seq<byte>>, last: seq<byte>): seq<byte> {
    var e := Feed(c, start, pieces);
    (if e.Emitted? then e.out else []) + last
  }

  /** The compressor is where the pieces, and the end once it was asked for, have brought it. */
  ghost predicate Fed<S>(c: Codec<S>, start: S, pieces: seq<seq<byte>>, ended: bool, state: S, last: seq<byte>) {
    var e := Feed(c, start, pieces);
    && e.Emitted?
    && (!ended ==> state == e.state && last == [])
    && (ended ==> c.emit(e.state, [], Finish) == Emitted(state, last))
  }

  /** The pieces are the file up to `offsetIn`. When there is no size limit, or the file is within it, that is all
      that was read, and the end comes at the end of the file. */
  ghost predicate Taken(pieces: seq<seq<byte>>, data: seq<byte>, pos: nat, offsetIn: nat, sizeIn: nat, ended: bool) {
    && offsetIn <= pos <= |data| && Concat(pieces) == data[..offsetIn]
    && (!ended ==> offsetIn == pos)
    && (sizeIn == 0 || |data| <= sizeIn ==> offsetIn == pos && (ended ==> pos == |data|))
    && (sizeIn > 0 ==> offsetIn <= sizeIn)
  }

  lemma FedPiece<S>(c: Codec<S>, start: S, pieces: seq<seq<byte>>, state: S, last: seq<byte>, x: seq<byte>)
    requires Fed(c, start, pieces, false, state, last) && Take(c, state, x).Emitted?
    ensures var e := Take(c, state, x);
      && Fed(c, start, pieces + [x], false, e.state, last)
      && Given(c, start, pieces + [x], last) == Given(c, start, pieces, last) + e.out
  {
    FeedSnoc(c, start, pieces, x);
  }

  /** Asking for the end; asking again gives nothing more. */
  lemma FedEnd<S(!new)>(c: Codec<S>, start: S, pieces: seq<seq<byte>>, ended: bool, state: S, last: seq<byte>)
    requires Quiet(c) && Fed(c, start, pieces, ended, state, last) && c.emit(state, [], Finish).Emitted?
    ensures var e := c.emit(state, [], Finish);
      && Fed(c, start, pieces, true, e.state, last + e.out)
      && Given(c, start, pieces, last + e.out) == Given(c, start, pieces, last) + e.out
      && (ended ==> e.out == [])
  {
    hide Feed;
  }

  /** A failure before the end. */
  lemma BeforeTheEnd<S(!new)>(c: Codec<S>, start: S, pieces: seq<seq<byte>>, state: S, last: seq<byte>, x: seq<byte>,
                              f: Flush)
    requires Fed(c, start, pieces, false, state, last)
    ensures c.emit(state, x, f).Failed? ==> !Willing(c, start) || (x == [] && f == NoFlush)
  {
    hide Feed;
  }

  /** After the end a piece is refused, and the end is not. */
  lemma NoMorePieces<S(!new)>(c: Codec<S>, start: S, pieces: seq<seq<byte>>, state: S, last: seq<byte>, x: seq<byte>)
    requires Quiet(c) && Closed(c) && Fed(c, start, pieces, true, state, last)
    ensures x != [] ==> c.emit(state, x, NoFlush).Failed?
    ensures c.emit(state, [], Finish) == Emitted(state, [])
  {
    hide Feed;
  }

  lemma NothingNew<S(!new)>(c: Codec<S>, state: S)
    requires Quiet(c)
    ensures var e := c.emit(state, [], NoFlush); e.Emitted? ==> e == Emitted(state, [])
  {
  }

  lemma TakenPiece(pieces: seq<seq<byte>>, data: seq<byte>, pos: nat, sizeIn: nat, x: seq<byte>)
    requires Taken(pieces, data, pos, pos, sizeIn, false) && pos + |x| <= |data| && x == data[pos..pos + |x|]
    requires sizeIn == 0 || pos + |x| <= sizeIn
    ensures Taken(pieces + [x], data, pos + |x|, pos + |x|, sizeIn, false)
  {
    ConcatSnoc(pieces, x);
  }

  lemma SentMore(sent: seq<byte>, rest: seq<byte>, n: nat)
    requires n <= |rest|
    ensures sent + rest[..n] + rest[n..] == sent + rest
    ensures n == |rest| ==> sent + rest[..n] == sent + rest
  {
  }

  /** The compressed form of some data: what comes out for the data and for the end. */
  ghost function Deflated<S>(c: Codec<S>, start: S, data: seq<byte>): seq<byte> {
    var e := Take(c, start, data);
    if e.Failed? then []
    else
      var f := c.emit(e.state, [], Finish);
      if f.Failed? then e.out else e.out + f.out
  }

  lemma WholeFile<S(!new)>(c: Codec<S>, start: S, pieces: seq<seq<byte>>, state: S, last: seq<byte>)
    requires Seamless(c) && Fed(c, start, pieces, true, state, last)
    ensures Given(c, start, pieces, last) == Deflated(c, start, Concat(pieces))
  {
    FeedIsWhole(c, start, pieces);
  }

  /** What the compressor below has kept. */
  datatype Kept = Kept(data: seq<byte>, ended: bool)

  const NOTHING_KEPT := Kept([], false)

  /** A compressor that keeps everything until the end: all laws can be met. */
  function Keeper(): Codec<Kept> {
    Codec((s: Kept, x: seq<byte>, f: Flush) =>
            if x == [] && f == NoFlush then Failed
            else if s.ended then if x == [] then Emitted(s, []) else Failed
            else if f == NoFlush then Emitted(Kept(s.data + x, false), []) else Emitted(Kept([], true), s.data + x),
          (crc: nat, b: byte) => crc + b as nat)
  }

  lemma KeeperIsQuiet()
    ensures Quiet(Keeper()) && Closed(Keeper()) && TakesNoNothing(Keeper())
  {
  }

  lemma KeeperIsSeamless()
    ensures Seamless(Keeper())
  {
    var c := Keeper();
    forall s: Kept, x ensures !s.ended ==> Take(c, s, x) == Emitted(Kept(s.data + x, false), []) {
      assert s.data + [] == s.data;
    }
    forall s: Kept, x, y | !s.ended ensures Take(c, s, x + y) == Emitted(Kept(s.data + x + y, false), []) {
      assert s.data + (x + y) == s.data + x + y;
    }
    forall s: Kept, x, y | s.ended && Take(c, s, x).Emitted? && Take(c, s, y).Emitted?
      ensures Take(c, s, x + y) == Emitted(s, [])
    {
      assert x + y == [];
    }
  }

  lemma KeeperIsWilling()
    ensures Willing(Keeper(), NOTHING_KEPT)
  {
    forall pieces: seq<seq<byte>>
      ensures Feed(Keeper(), NOTHING_KEPT, pieces) == Emitted(Kept(Concat(pieces), false), [])
    {
      KeeperKeeps(pieces);
    }
  }

  lemma KeeperIsLawful()
    ensures Quiet(Keeper()) && Closed(Keeper()) && TakesNoNothing(Keeper())
    ensures Seamless(Keeper()) && Willing(Keeper(), NOTHING_KEPT)
  {
    hide Quiet, Closed, TakesNoNothing, Seamless, Willing;
    KeeperIsQuiet();
    KeeperIsSeamless();
    KeeperIsWilling();
  }

  lemma {:induction false} KeeperKeeps(pieces: seq<seq<byte>>)
    ensures Feed(Keeper(), NOTHING_KEPT, pieces) == Emitted(Kept(Concat(pieces), false), [])
    decreases |pieces|
  {
    if |pieces| > 0 {
      var front := pieces[..|pieces| - 1];
      KeeperKeeps(front);
      assert Concat(front) + [] == Concat(front);
    }
  }

  /** The stream object: input handed over but not yet taken, output owed but not yet fetched, and whether the last call
      left no room, so that the next one goes on with it. */
  class Stream<S(!new)> {
    const codec: Codec<S>
    var state: S
    var nextIn: seq<byte>
    var owed: seq<byte>
    var availOut: nat
    var stalled: bool

    constructor (codec: Codec<S>, state: S)
      ensures this.codec == codec && this.state == state && nextIn == [] && owed == [] && !stalled
    {
      this.codec, this.state, nextIn, owed, availOut, stalled := codec, state, [], [], 0, false;
    }

    /** What the next call computes: nothing new when it only goes on with output for which there was no room. */
    function Emission(flush: Flush): Emitted<S>
      reads this
    {
      if stalled && nextIn == [] then Emitted(state, []) else codec.emit(state, nextIn, flush)
    }

    /** Takes the input and writes as much owed output as there is room for. */
    method Deflate(flush: Flush, buf: array<byte>) returns (ok: bool)
      requires availOut <= buf.Length
      modifies this`state, this`nextIn, this`owed, this`availOut, this`stalled, buf
      ensures var e := old(Emission(flush));
        && ok == e.Emitted?
        && (!ok ==> state == old(state) && owed == old(owed) && nextIn == old(nextIn) && availOut == old(availOut))
        && (ok ==> state == e.state && nextIn == [] && stalled == (availOut == 0)
                   && var all := old(owed) + e.out; var n := Min(old(availOut), |all|);
                   availOut == old(availOut) - n && buf[..n] == all[..n] && owed == all[n..])
    {
      var e := Emission(flush);
      if e.Failed? { return false; }
      var all := owed + e.out;
      var n := Min(availOut, |all|);
      forall i | 0 <= i < n { buf[i] := all[i]; }
      state, nextIn, owed, availOut := e.state, [], all[n..], availOut - n;
      stalled := availOut == 0;
      return true;
    }
  }

  const CHUNK := 16384

  datatype Status = Ok | StreamError | OutOfMemory

  /** Gives the compressor an empty buffer, and returns what it wrote there. */
  method NextChunk<S(!new)>(z: Stream<S>, zbuf: array<byte>, flush: Flush) returns (ok: bool, piece: seq<byte>)
    requires zbuf.Length == CHUNK
    modifies z, zbuf
    ensures var e := old(z.Emission(flush));
      && ok == e.Emitted?
      && (ok ==> z.state == e.state && z.nextIn == [] && z.stalled == (z.availOut == 0) && piece + z.owed == old(z.owed) + e.out)
      && (ok ==> if z.availOut == 0 then |piece| == CHUNK else z.owed == [])
  {
    z.availOut := CHUNK;
    ghost var e := z.Emission(flush);
    ghost var owed := z.owed;
    ok := z.Deflate(flush, zbuf);
    if !ok { return false, []; }
    var have := CHUNK - z.availOut;
    piece := zbuf[..have];
    ghost var all := owed + e.out;
    assert piece == all[..have] && z.owed == all[have..];
  }

  /** Runs the compressor over one input and collects its output, chunk by chunk, in a growing block. `alloc(n)` says
      whether the n-th reallocation succeeds. */
  method ZDeflate<S(!new)>(z: Stream<S>, zbuf: array<byte>, flush: Flush, src: seq<byte>, alloc: nat -> bool)
    returns (status: Status, dest: seq<byte>)
    requires z.owed == [] && !z.stalled && zbuf.Length == CHUNK
    modifies z, zbuf
    ensures var e := z.codec.emit(old(z.state), src, flush);
      && (status == StreamError <==> e.Failed?)
      && (status == Ok ==> dest == e.out && z.state == e.state && z.owed == [] && !z.stalled)
      && ((forall n :: alloc(n)) ==> status != OutOfMemory)
  {
    z.nextIn := src;
    dest := [];
    ghost var e := z.codec.emit(z.state, src, flush);
    var n, again := 0, true;
    while again
      invariant n == 0 ==> z.nextIn == src && z.state == old(z.state) && z.owed == [] && dest == [] && again && !z.stalled
      invariant n > 0 ==> z.nextIn == [] && e.Emitted? && z.state == e.state && dest + z.owed == e.out && z.stalled == again
      invariant !again ==> n > 0 && z.owed == []
      decreases again, if e.Emitted? then |e.out| - |dest| else 0
    {
      ghost var owed := z.owed;
      var ok, piece := NextChunk(z, zbuf, flush);
      if !ok { return StreamError, []; }
      if !alloc(n) { return OutOfMemory, []; }
      assert dest + piece + z.owed == dest + (piece + z.owed);
      dest := dest + piece;
      n := n + 1;
      again := z.availOut == 0;
    }
    return Ok, dest;
  }
}
