/** Compressing a whole buffer in one go, feeding the compressor in slices no longer than it can count. */
module ZCompress {
  import opened Common
  import opened ZStream

  datatype Code = Done | Fine | BufferFull | Broken

  /** Input and end together give what they give one after the other. */
  ghost predicate Closing<S(!new)>(c: Codec<S>) {
    forall s, x {:trigger c.emit(s, x, Finish)} :: var e := Take(c, s, x);
      c.emit(s, x, Finish) ==
        if e.Failed? then Failed
        else
          var f := c.emit(e.state, [], Finish);
          if f.Failed? then Failed else Emitted(f.state, e.out + f.out)
  }

  /** One call of the compressor that writes into `dest` from position `from`. */
  method DeflateInto<S(!new)>(z: Stream<S>, flush: Flush, dest: array<byte>, from: nat) returns (code: Code)
    requires from + z.availOut <= dest.Length
    modifies z`state, z`nextIn, z`owed, z`availOut, dest
    ensures var e := z.codec.emit(old(z.state), old(z.nextIn), flush);
      && (code == BufferFull <==> old(z.availOut) == 0)
      && (code == Broken <==> old(z.availOut) > 0 && e.Failed?)
      && (code == Done || code == Fine ==>
            && z.state == e.state && z.nextIn == []
            && z.availOut <= old(z.availOut) && (z.availOut > 0 ==> z.owed == [])
            && dest[..from + old(z.availOut) - z.availOut] + z.owed == old(dest[..from] + z.owed) + e.out
            && (code == Done <==> flush == Finish && z.owed == []))
      && (code == BufferFull || code == Broken ==>
            && z.state == old(z.state) && z.owed == old(z.owed) && z.availOut == old(z.availOut)
            && dest[..from] == old(dest[..from]))
  {
    if z.availOut == 0 { return BufferFull; }
    var e := z.codec.emit(z.state, z.nextIn, flush);
    if e.Failed? { return Broken; }
    var all := z.owed + e.out;
    var n := Min(z.availOut, |all|);
    ghost var before := dest[..from];
    forall i | 0 <= i < n { dest[from + i] := all[i]; }
    z.state, z.nextIn, z.owed, z.availOut := e.state, [], all[n..], z.availOut - n;
    assert dest[..from + n] == before + all[..n];
    SentMore(before, all, n);
    Regroup(before, old(z.owed), e.out);
    code := if flush == Finish && z.owed == [] then Done else Fine;
  }

  lemma Regroup<T>(a: seq<T>, b: seq<T>, c: seq<T>)
    ensures a + (b + c) == a + b + c
  {
  }

  /** What the compressor has been given and has given back, with `last` for the end. */
  ghost predicate Progress<S(!new)>(c: Codec<S>, start: S, pieces: seq<seq<byte>>, ended: bool, state: S, last: seq<byte>,
                                    out: seq<byte>, src: seq<byte>, at: nat) {
    && Fed(c, start, pieces, ended, state, last)
    && at <= |src| && Concat(pieces) == src[..at] && (ended <==> at == |src| && pieces != [])
    && out == Given(c, start, pieces, last)
  }

  lemma ClosingAt<S(!new)>(c: Codec<S>, s: S, x: seq<byte>)
    requires Closing(c) && c.emit(s, x, Finish).Emitted?
    ensures var e := Take(c, s, x); e.Emitted? && var f := c.emit(e.state, [], Finish);
      f.Emitted? && c.emit(s, x, Finish) == Emitted(f.state, e.out + f.out)
  {
  }

  /** Handing over one more slice, with the end if it is the last one. Later calls ask for the end with nothing. */
  lemma OneSlice<S(!new)>(c: Codec<S>, start: S, pieces: seq<seq<byte>>, ended: bool, state: S, last: seq<byte>,
                          out: seq<byte>, src: seq<byte>, at: nat, slice: nat)
    returns (more: seq<seq<byte>>, last': seq<byte>)
    requires Quiet(c) && Closing(c) && Progress(c, start, pieces, ended, state, last, out, src, at)
    requires at + slice <= |src| && (slice == 0 ==> at == |src|)
    requires c.emit(state, src[at..at + slice], if at + slice < |src| then NoFlush else Finish).Emitted?
    ensures var e := c.emit(state, src[at..at + slice], if at + slice < |src| then NoFlush else Finish);
      Progress(c, start, more, at + slice == |src|, e.state, last', out + e.out, src, at + slice) && more != []
  {
    hide Quiet, Closing, Feed, Given, Concat, Fed;
    var x := src[at..at + slice];
    assert src[..at] + x == src[..at + slice];
    more, last' := pieces, last;
    if at + slice == |src| { ClosingAt(c, state, x); }
    if ended {
      assert x == [];
      FedEnd(c, start, pieces, true, state, last);
      last' := last + c.emit(state, [], Finish).out;
    } else {
      FedPiece(c, start, pieces, state, last, x);
      ConcatSnoc(pieces, x);
      more := pieces + [x];
      if at + slice == |src| {
        FedEnd(c, start, more, false, Take(c, state, x).state, last);
        last' := last + c.emit(Take(c, state, x).state, [], Finish).out;
      }
    }
  }

  lemma SeamlessAt<S(!new)>(c: Codec<S>, start: S, pieces: seq<seq<byte>>, y: seq<byte>)
    requires Quiet(c) && Seamless(c) && Willing(c, start) && Feed(c, start, pieces).Emitted?
    ensures var e := Feed(c, start, pieces); var f := Take(c, e.state, y);
      f.Emitted? && Take(c, start, Concat(pieces) + y) == Emitted(f.state, e.out + f.out)
  {
    hide Feed;
    FeedIsWhole(c, start, pieces);
  }

  /** Whatever has come out so far is no more than what comes out in all. */
  lemma NoMoreThanAll<S(!new)>(c: Codec<S>, start: S, pieces: seq<seq<byte>>, ended: bool, state: S, last: seq<byte>,
                               out: seq<byte>, src: seq<byte>, at: nat)
    requires Quiet(c) && Seamless(c) && Willing(c, start) && Progress(c, start, pieces, ended, state, last, out, src, at)
    ensures |out| <= |Deflated(c, start, src)| && (ended ==> out == Deflated(c, start, src))
  {
    hide Quiet, Seamless, Willing, Feed, Concat;
    var y := src[at..];
    assert src[..at] + y == src;
    if ended {
      assert src[..at] == src;
      WholeFile(c, start, pieces, state, last);
    } else {
      SeamlessAt(c, start, pieces, y);
    }
  }

  /** Compresses `src` into `dest`, slice by slice. A success leaves the compressed form of the whole input at the
      front of `dest`. It is refused for want of room only when the compressed form does not leave a byte to spare. */
  method ZCompress<S(!new)>(z: Stream<S>, src: seq<byte>, dest: array<byte>, max: nat, ghost start: S)
    returns (code: Code, size: nat)
    requires Quiet(z.codec) && Closing(z.codec) && max > 0 && z.owed == [] && z.nextIn == [] && z.state == start
    modifies z`state, z`nextIn, z`owed, z`availOut, dest
    ensures code != Fine && size <= dest.Length && (code == Broken ==> !Willing(z.codec, start))
    ensures Seamless(z.codec) && Willing(z.codec, start) ==>
              if code == Done then dest[..size] == Deflated(z.codec, start, src)
              else dest.Length <= |Deflated(z.codec, start, src)|
  {
    hide Quiet, Closing, Seamless, Willing, Deflated, Progress, Given, Concat, Feed;
    var left: nat, total: nat, at: nat := dest.Length, 0, 0;
    code := Fine;
    z.availOut := 0;
    ghost var pieces, ended, last := [], false, [];
    Nothing(z.codec, start, src);
    ghost var out, fed: nat := [], 0;
    while code == Fine
      invariant total + z.availOut + left == dest.Length
      invariant Progress(z.codec, start, pieces, ended, z.state, last, out, src, fed)
      invariant dest[..total] + z.owed == out && at <= |src|
      invariant code == Fine ==> fed == at && z.nextIn == [] && (z.availOut > 0 ==> z.owed == [] && !ended)
      invariant code == Done ==> ended && z.owed == []
      invariant code == BufferFull ==> total == dest.Length
      invariant code == Broken ==> !Willing(z.codec, start)
      decreases code == Fine, |src| - at, dest.Length - total
    {
      if z.availOut == 0 {
        z.availOut := Min(left, max);
        left := left - z.availOut;
      }
      var slice := Min(|src| - at, max);
      z.nextIn := src[at..at + slice];
      at := at + slice;
      var flush := if at < |src| then NoFlush else Finish;
      var room := z.availOut;
      ghost var state := z.state;
      ghost var e := z.codec.emit(state, z.nextIn, flush);
      code := DeflateInto(z, flush, dest, total);
      if code == Broken { Unwilling(z.codec, start, pieces, ended, state, last, out, src, fed, slice); }
      if code == Done || code == Fine {
        pieces, last := OneSlice(z.codec, start, pieces, ended, state, last, out, src, fed, slice);
        ended, fed, out := at == |src|, at, out + e.out;
        total := total + (room - z.availOut);
      }
    }
    size := total;
    Conclude(z.codec, start, pieces, ended, z.state, last, out, src, fed);
  }

  /** A failure here is a failure before the end. */
  lemma Unwilling<S(!new)>(c: Codec<S>, start: S, pieces: seq<seq<byte>>, ended: bool, state: S, last: seq<byte>,
                           out: seq<byte>, src: seq<byte>, at: nat, slice: nat)
    requires Quiet(c) && Progress(c, start, pieces, ended, state, last, out, src, at)
    requires at + slice <= |src| && (slice == 0 ==> at == |src|)
    requires c.emit(state, src[at..at + slice], if at + slice < |src| then NoFlush else Finish).Failed?
    ensures !Willing(c, start)
  {
    hide Feed, Given, Concat;
    assert at == |src| ==> src[at..at + slice] == [];
  }

  lemma Conclude<S(!new)>(c: Codec<S>, start: S, pieces: seq<seq<byte>>, ended: bool, state: S, last: seq<byte>,
                          out: seq<byte>, src: seq<byte>, at: nat)
    requires Quiet(c) && Progress(c, start, pieces, ended, state, last, out, src, at)
    ensures Seamless(c) && Willing(c, start) ==>
              |out| <= |Deflated(c, start, src)| && (ended ==> out == Deflated(c, start, src))
  {
    if Seamless(c) && Willing(c, start) { NoMoreThanAll(c, start, pieces, ended, state, last, out, src, at); }
  }

  lemma Nothing<S(!new)>(c: Codec<S>, start: S, src: seq<byte>)
    ensures Progress(c, start, [], false, start, [], [], src, 0)
  {
    assert src[..0] == [];
  }

  lemma KeeperCloses()
    ensures Closing(Keeper())
  {
    var c := Keeper();
    forall s: Kept, x: seq<byte> | !s.ended
      ensures c.emit(Kept(s.data + x, false), [], Finish) == Emitted(Kept([], true), s.data + x)
    {
      assert s.data + x + [] == s.data + x;
    }
  }
}
