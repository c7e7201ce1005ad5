/** The callback that serves the data of a user's read callback as a zlib stream. */
module ZReader {
  import opened Common
  import opened ZStream

  datatype Phase = Processing | Writing | Finished

  /** The user's callback: some data, given out piece by piece, and the end of the stream ever after. It goes by the
      offset it is asked for, or by a position of its own. */
  class Source {
    const data: seq<byte>
    const byOffset: bool
    var pos: nat

    constructor (data: seq<byte>, byOffset: bool)
      ensures this.data == data && this.byOffset == byOffset && pos == 0
    {
      this.data, this.byOffset, pos := data, byOffset, 0;
    }

    /** Where the next piece starts. */
    function At(offset: nat): nat
      reads this
    {
      if byOffset then offset else pos
    }

    function Available(offset: nat, size: nat, n: nat): nat
      requires At(offset) <= |data|
      reads this
    {
      Min(Min(size, |data| - At(offset)), n)
    }

    method Read(offset: nat, mem: array<byte>, size: nat, plan: ReadPlan) returns (r: Result)
      requires offset <= pos <= |data| && 0 < size <= mem.Length
      modifies this`pos, mem
      ensures offset <= pos <= |data|
      ensures r == EndWithError <==> plan.Fail?
      ensures r == EndOfStream <==> plan.UpTo? && old(At(offset)) == |data|
      ensures r.Bytes? ==>
                var at := old(At(offset));
                r.count == old(Available(offset, size, plan.n)) && pos == at + r.count && mem[..r.count] == data[at..pos]
      ensures !r.Bytes? ==> pos == old(pos)
    {
      if plan.Fail? { return EndWithError; }
      var at := At(offset);
      if at == |data| { return EndOfStream; }
      var have := Available(offset, size, plan.n);
      forall i | 0 <= i < have { mem[i] := data[at + i]; }
      pos := at + have;
      return Bytes(have);
    }
  }

  ghost predicate Input<S(!new)>(c: Codec<S>, start: S, pieces: seq<seq<byte>>, ended: bool, state: S, last: seq<byte>,
                                 owed: seq<byte>, data: seq<byte>, pos: nat, offsetIn: nat, sizeIn: nat) {
    && Quiet(c) && Closed(c) && owed == []
    && Fed(c, start, pieces, ended, state, last)
    && Taken(pieces, data, pos, offsetIn, sizeIn, ended)
  }

  /** What has been returned so far, phase by phase. */
  ghost predicate Returned(phase: Phase, sent: seq<byte>, given: seq<byte>, ended: bool,
                           bufOut: seq<byte>, offsetOut: nat, sizeOut: nat) {
    match phase
    case Processing => sent == given
    case Writing => offsetOut < sizeOut == |bufOut| && sent + bufOut[offsetOut..] == given
    case Finished => ended && sent == given
  }

  /** Sending the next part of the output block moves it from what is owed to what is sent. */
  lemma SentPart(sent: seq<byte>, given: seq<byte>, ended: bool, bufOut: seq<byte>, from: nat, sizeOut: nat,
                 have: nat, to: nat)
    requires Returned(Writing, sent, given, ended, bufOut, from, sizeOut) && have <= sizeOut - from
    ensures var more := sent + bufOut[from..from + have];
      && (have == sizeOut - from ==> Returned(Processing, more, given, ended, bufOut, to, sizeOut))
      && (have < sizeOut - from ==> Returned(Writing, more, given, ended, bufOut, from + have, sizeOut))
  {
    var rest := bufOut[from..];
    assert bufOut[from..from + have] == rest[..have] && bufOut[from + have..] == rest[have..];
    SentMore(sent, rest, have);
  }

  class Holder<S(!new)> {
    const stream: Stream<S>
    const bufIn: array<byte>
    const source: Source
    const sizeIn: nat
    var bufOut: seq<byte>
    var sizeOut: nat
    var offsetIn: nat
    var offsetOut: nat
    var phase: Phase

    /** As for the gzip callback: the compressor at the start, the pieces fed to it, everything returned so far,
        whether the end has been asked for and what came out for it, and the output blocks made and freed. */
    ghost const start: S
    ghost var pieces: seq<seq<byte>>
    ghost var sent: seq<byte>
    ghost var ended: bool
    ghost var last: seq<byte>
    ghost var made: nat
    ghost var freed: nat

    constructor (codec: Codec<S>, state: S, data: seq<byte>, byOffset: bool, sizeIn: nat)
      requires Quiet(codec) && Closed(codec)
      ensures Valid() && fresh(this) && fresh(stream) && fresh(bufIn) && fresh(source)
      ensures source.data == data && source.pos == 0 && this.sizeIn == sizeIn && phase == Processing && sent == []
      ensures source.byOffset == byOffset && offsetIn == 0 && pieces == [] && !ended
      ensures start == state && stream.codec == codec && made == 0 && freed == 0
    {
      stream := new Stream(codec, state);
      bufIn := new byte[CHUNK];
      source := new Source(data, byOffset);
      this.sizeIn := sizeIn;
      bufOut, sizeOut, offsetIn, offsetOut, phase := [], 0, 0, 0, Processing;
      start, pieces, sent, ended, last, made, freed := state, [], [], false, [], 0, 0;
    }

    ghost predicate InputOk()
      reads this, stream, source
    {
      Input(stream.codec, start, pieces, ended, stream.state, last, stream.owed, source.data, source.pos, offsetIn, sizeIn)
      && bufIn.Length == CHUNK && !stream.stalled
    }

    ghost predicate Valid()
      reads this, stream, source
    {
      && InputOk()
      && Returned(phase, sent, Given(stream.codec, start, pieces, last), ended, bufOut, offsetOut, sizeOut)
      && made == freed + (if phase == Writing then 1 else 0)
    }

    /** A piece of this length is not beyond the size limit. */
    predicate Within(have: nat)
      reads this
    {
      sizeIn == 0 || offsetIn + have <= sizeIn
    }

    /** The next piece can be asked for. */
    ghost predicate Asks()
      reads this, source
    {
      offsetIn <= source.pos <= |source.data|
    }

    /** The compressed data is complete, yet this call asks for another piece and compresses it. The finishing flush
        did not fit the caller's buffer, so the phase it noted was overwritten; and the piece that went beyond the size
        limit was longer than the one given now. */
    ghost predicate ReadsOn(size: nat, plan: ReadPlan)
      requires Asks()
      reads this, source
    {
      && ended && phase == Processing && plan.UpTo?
      && var have := source.Available(offsetIn, size, plan.n); have > 0 && Within(have)
    }

    /** This call gets a piece of no bytes. */
    ghost predicate GetsNothing(size: nat, plan: ReadPlan)
      requires Asks()
      reads this, source
    {
      && phase == Processing && plan.UpTo? && source.At(offsetIn) < |source.data|
      && source.Available(offsetIn, size, plan.n) == 0
    }

    /** The compressor takes no empty call now. */
    ghost predicate Refuses()
      reads this, stream
    {
      stream.codec.emit(stream.state, [], NoFlush).Failed?
    }

    /** All output of the compressor so far. */
    ghost function Output(): seq<byte>
      reads this, stream
    {
      Given(stream.codec, start, pieces, last)
    }

    /** It cannot happen without a limit, nor when the data is within it. */
    lemma ReadsOnPastLimit(size: nat, plan: ReadPlan)
      requires Valid() && Asks() && ReadsOn(size, plan)
      ensures 0 < sizeIn < |source.data|
    {
      hide Given, Feed, Concat, Fed, Quiet, Closed;
    }

    lemma CanAsk()
      requires Valid()
      ensures Asks() && Within(0)
    {
      hide Given, Feed, Concat, Fed, Quiet, Closed;
    }

    ghost function Stage(): nat
      reads this
    {
      if phase == Finished then 0 else if ended then 1 else 2
    }

    ghost function Unread(): nat
      reads this, source
    {
      if source.pos <= |source.data| then |source.data| - source.pos else 0
    }

    ghost function Unsent(): nat
      reads this
    {
      if phase == Writing && offsetOut <= sizeOut then sizeOut - offsetOut else 0
    }

    method Copy(mem: array<byte>, from: nat, have: nat)
      requires from + have <= |bufOut| && have <= mem.Length
      modifies mem
      ensures mem[..have] == bufOut[from..from + have]
    {
      forall i | 0 <= i < have { mem[i] := bufOut[from + i]; }
    }

    /** Asks the user's callback for the next piece, or takes note of the end, or of the size limit: then the piece is
        dropped. */
    method TakeInput(mem: array<byte>, size: nat, plan: ReadPlan) returns (ok: bool, have: nat, flush: Flush)
      requires Valid() && Asks() && phase == Processing && 0 < size <= mem.Length && mem != bufIn
      modifies this`phase, this`offsetIn, this`pieces, source`pos, mem
      ensures ok == plan.UpTo? && (ok ==> have <= size)
      ensures ok ==>
                var at, n := old(source.At(offsetIn)), old(source.Available(offsetIn, size, plan.n));
                && flush == (if at < |source.data| && old(Within(n)) then NoFlush else Finish)
                && have == (if flush == NoFlush then n else 0) && offsetIn == old(offsetIn) + have
                && source.pos == (if at < |source.data| then at + n else old(source.pos))
                && (flush == NoFlush ==> phase == Processing && mem[..have] == source.data[at..at + have])
      ensures ok ==> pieces == if flush == NoFlush && !ended then old(pieces) + [mem[..have]] else old(pieces)
      ensures ok && flush == Finish ==> phase == Finished
      ensures ok && flush == NoFlush ==> (have == 0 <==> plan.n == 0) && (!ended ==> Unread() == old(Unread()) - have)
      ensures ok && (flush == Finish || !ended) ==>
                Taken(pieces, source.data, source.pos, offsetIn, sizeIn, flush == Finish)
      ensures ok && ended && have == 0 ==> Taken(pieces, source.data, source.pos, offsetIn, sizeIn, true)
    {
      hide Fed, Given, Feed, Concat, Returned, Quiet, Closed;
      ghost var pos := source.pos;
      var r := source.Read(offsetIn, mem, size, plan);
      ok, have, flush := true, 0, NoFlush;
      match r
      case EndWithError => ok := false;
      case EndOfStream =>
        phase := Finished;
        flush := Finish;
      case Bytes(n) =>
        have := n;
        offsetIn := offsetIn + have;
        if sizeIn > 0 && offsetIn > sizeIn {
          phase := Finished;
          offsetIn := offsetIn - have;
          have := 0;
          flush := Finish;
        } else if !ended {
          TakenPiece(pieces, source.data, pos, sizeIn, mem[..have]);
          pieces := pieces + [mem[..have]];
        }
    }

    /** Compresses what was taken. After the end the compressor takes no more pieces. */
    method Compress(src: seq<byte>, flush: Flush, alloc: nat -> bool, ghost pieces0: seq<seq<byte>>)
      returns (ok: bool, dest: seq<byte>)
      requires Quiet(stream.codec) && Closed(stream.codec) && bufIn.Length == CHUNK
      requires stream.owed == [] && !stream.stalled
      requires Fed(stream.codec, start, pieces0, ended, stream.state, last)
      requires flush == NoFlush ==> pieces == if ended then pieces0 else pieces0 + [src]
      requires flush == Finish ==> src == [] && pieces == pieces0
      modifies this`ended, this`last, stream, bufIn
      ensures old(ended) && flush == NoFlush && src != [] ==> !ok
      ensures flush == NoFlush && src == [] && stream.codec.emit(old(stream.state), [], NoFlush).Failed? ==> !ok
      ensures ok && flush == NoFlush && src == [] ==> dest == []
      ensures ok ==> ended == (old(ended) || flush == Finish) && stream.owed == [] && !stream.stalled
      ensures ok && old(ended) ==> dest == []
      ensures ok ==> Fed(stream.codec, start, pieces, ended, stream.state, last)
      ensures ok ==> Given(stream.codec, start, pieces, last) == Given(stream.codec, start, pieces0, old(last)) + dest
      ensures !ok ==>
                || !(forall n :: alloc(n)) || (old(ended) && flush == NoFlush && src != []) || !Willing(stream.codec, start)
                || (flush == NoFlush && src == [] && stream.codec.emit(old(stream.state), [], NoFlush).Failed?)
    {
      hide Given, Feed, Fed, Quiet, Closed, Willing;
      ghost var state0 := stream.state;
      var status;
      if ended {
        NoMorePieces(stream.codec, start, pieces0, stream.state, last, src);
      } else {
        BeforeTheEnd(stream.codec, start, pieces0, stream.state, last, src, flush);
      }
      NothingNew(stream.codec, stream.state);
      status, dest := ZDeflate(stream, bufIn, flush, src, alloc);
      if status != Ok { return false, []; }
      if flush == Finish {
        FedEnd(stream.codec, start, pieces0, ended, state0, last);
        ended, last := true, last + dest;
      } else if !ended {
        FedPiece(stream.codec, start, pieces0, state0, last, src);
      }
      ok := true;
    }

    /** Returns new output at once if it fits, or else keeps it for the calls to come, even after the end. */
    method Deliver(dest: seq<byte>, mem: array<byte>, size: nat) returns (r: Result)
      requires InputOk() && (phase == Processing || (phase == Finished && ended))
      requires sent + dest == Given(stream.codec, start, pieces, last) && made == freed
      requires 0 < size <= mem.Length && mem != bufIn
      modifies this`phase, this`bufOut, this`offsetOut, this`sizeOut, this`sent, this`made, this`freed, mem
      ensures Valid() && r.Bytes? && r.count <= size && sent == old(sent) + mem[..r.count]
      ensures phase == (if |dest| > size then Writing else old(phase)) && (phase == Writing ==> r == Bytes(0))
      ensures |dest| == 0 ==> r == Bytes(0)
    {
      hide Input, Given, Concat;
      bufOut, made := dest, made + 1;
      var have := |dest|;
      if have > size {
        phase := Writing;
        sizeOut := have;
        offsetOut := 0;
        return Bytes(0);
      }
      Copy(mem, 0, have);
      freed := freed + 1;
      sent := sent + mem[..have];
      return Bytes(have);
    }

    /** Takes input, compresses it, and returns the output if it fits. */
    method Produce(mem: array<byte>, size: nat, plan: ReadPlan, alloc: nat -> bool) returns (r: Result)
      requires Valid() && Asks() && phase == Processing && 0 < size <= mem.Length && mem != bufIn
      modifies this, stream, bufIn, source, mem
      ensures r != EndWithError ==> Valid() && r.Bytes? && r.count <= size && sent == old(sent) + mem[..r.count]
      ensures r == EndWithError ==> sent == old(sent)
      ensures r == EndWithError ==>
                || plan.Fail? || old(ReadsOn(size, plan)) || old(GetsNothing(size, plan) && Refuses())
                || !(forall n :: alloc(n)) || !Willing(stream.codec, start)
      ensures old(ReadsOn(size, plan) || (GetsNothing(size, plan) && Refuses())) ==> r == EndWithError
      ensures r.Bytes? && old(GetsNothing(size, plan)) ==> r == Bytes(0) && phase == Processing
      ensures r.Bytes? ==>
                plan.UpTo? && var at, n := old(source.At(offsetIn)), old(source.Available(offsetIn, size, plan.n));
                && source.pos == (if at < |source.data| then at + n else old(source.pos))
                && (if at < |source.data| && old(Within(n)) then offsetIn == old(offsetIn) + n && ended == old(ended)
                    else offsetIn == old(offsetIn) && ended)
                && (phase == if |Output()| > |old(Output())| + size then Writing
                             else if at < |source.data| && old(Within(n)) then Processing else Finished)
                && (phase == Writing || old(ended) ==> r == Bytes(0))
      ensures r.Bytes? && !old(GetsNothing(size, plan)) ==>
                (old(Stage()), old(Unread()), old(Unsent()) decreases to Stage(), Unread(), Unsent())
    {
      hide Taken, Given, Feed, Concat, Fed, Quiet, Closed, Willing;
      CanAsk();
      ghost var pieces0 := pieces;
      var ok, have, flush := TakeInput(mem, size, plan);
      if !ok { return EndWithError; }
      var dest;
      ok, dest := Compress(mem[..have], flush, alloc, pieces0);
      if !ok { return EndWithError; }
      r := Deliver(dest, mem, size);
    }

    lemma WritingIs()
      requires Valid() && phase == Writing
      ensures offsetOut < sizeOut == |bufOut|
    {
    }

    /** Copies the next part of the output block; when that was all of it, frees the block. */
    method Drain(mem: array<byte>, size: nat) returns (r: Result)
      requires Valid() && phase == Writing && 0 < size <= mem.Length && mem != bufIn
      modifies this`phase, this`offsetOut, this`sent, this`freed, mem
      ensures Valid() && r.Bytes? && r.count == Min(size, old(sizeOut - offsetOut)) && sent == old(sent) + mem[..r.count]
      ensures phase == if size >= old(sizeOut - offsetOut) then Processing else Writing
      ensures phase == Writing ==> sizeOut - offsetOut == old(sizeOut - offsetOut) - size
    {
      hide Input, Given, Concat, Returned;
      WritingIs();
      var from, have := offsetOut, size;
      offsetOut := offsetOut + have;
      if offsetOut >= sizeOut {
        phase := Processing;
        if offsetOut > sizeOut {
          offsetOut := offsetOut - have;
          have := sizeOut - offsetOut;
        }
      }
      Copy(mem, from, have);
      if phase != Writing { freed := freed + 1; }
      SentPart(sent, Given(stream.codec, start, pieces, last), ended, bufOut, from, sizeOut, have, offsetOut);
      sent := sent + mem[..have];
      r := Bytes(have);
    }

    /** One call of the callback. */
    method Read(mem: array<byte>, size: nat, plan: ReadPlan, alloc: nat -> bool) returns (r: Result)
      requires Valid() && Asks() && 0 < size <= mem.Length && mem != bufIn
      modifies this, stream, bufIn, source, mem
      ensures r == EndOfStream ==> phase == old(phase)
      ensures r != EndWithError ==> Valid() && Asks()
      ensures r == EndOfStream <==> old(phase) == Finished
      ensures r == EndWithError ==>
                || plan.Fail? || old(ReadsOn(size, plan)) || old(GetsNothing(size, plan) && Refuses())
                || !(forall n :: alloc(n)) || !Willing(stream.codec, start)
      ensures old(ReadsOn(size, plan) || (GetsNothing(size, plan) && Refuses())) ==> r == EndWithError
      ensures r.Bytes? && old(GetsNothing(size, plan)) ==> r == Bytes(0) && phase == Processing
      ensures sent == old(sent) + match r { case Bytes(n) => if n <= size then mem[..n] else [] case _ => [] }
      ensures r.Bytes? ==> r.count <= size
      ensures r.Bytes? && old(phase) == Processing ==>
                plan.UpTo? && var at, n := old(source.At(offsetIn)), old(source.Available(offsetIn, size, plan.n));
                && source.pos == (if at < |source.data| then at + n else old(source.pos))
                && (if at < |source.data| && old(Within(n)) then offsetIn == old(offsetIn) + n && ended == old(ended)
                    else offsetIn == old(offsetIn) && ended)
                && (phase == if |Output()| > |old(Output())| + size then Writing
                             else if at < |source.data| && old(Within(n)) then Processing else Finished)
                && (phase == Writing || old(ended) ==> r == Bytes(0))
      ensures r.Bytes? && !old(GetsNothing(size, plan)) ==>
                (old(Stage()), old(Unread()), old(Unsent()) decreases to Stage(), Unread(), Unsent())
    {
      hide Taken, Given, Feed, Concat, Fed, Quiet, Closed, Willing;
      if phase == Finished {
        r := EndOfStream;
      } else if phase != Writing {
        r := Produce(mem, size, plan, alloc);
      } else {
        r := Drain(mem, size);
      }
      if r != EndWithError { CanAsk(); }
    }
  }

  // ---------------------------------------------------------------- whole runs

  /** Calls the callback until it ends the stream, with buffers of any sizes and pieces as short as the source likes. It
      always comes to an end, since the compressor refuses pieces of no bytes, or the source gives none. When that is
      the end of the stream, the bytes returned are the compressed form of the data, or of as much of it as the size
      limit let through. It is, unless the source, an allocation or the compressor fails, a piece is empty, or a call
      reads on after the end of the compressed data, which takes data beyond the limit. */
  method Serve<S(!new)>(h: Holder<S>, sizes: nat -> nat, plans: nat -> ReadPlan, alloc: (nat, nat) -> bool)
    returns (ok: bool, out: seq<byte>, ghost readOn: bool)
    requires h.Valid() && h.sent == []
    requires forall k :: sizes(k) >= 1
    requires TakesNoNothing(h.stream.codec) || forall k :: plans(k) != UpTo(0)
    modifies h, h.stream, h.bufIn, h.source
    ensures ok ==> h.offsetIn <= |h.source.data| && Concat(h.pieces) == h.source.data[..h.offsetIn]
    ensures ok ==> out == h.Output() && h.made == h.freed
    ensures ok && Seamless(h.stream.codec) ==> out == Deflated(h.stream.codec, h.start, h.source.data[..h.offsetIn])
    ensures ok ==>
              if h.sizeIn == 0 || |h.source.data| <= h.sizeIn then h.offsetIn == |h.source.data| else h.offsetIn <= h.sizeIn
    ensures readOn ==> !ok && 0 < h.sizeIn < |h.source.data|
    ensures (forall k :: plans(k).UpTo? && plans(k) != UpTo(0)) ==> (forall k, n :: alloc(k, n)) ==>
              Willing(h.stream.codec, h.start) && !readOn ==> ok
  {
    hide Given, Feed, Quiet, Closed, Seamless, Willing, Holder.ReadsOn;
    h.CanAsk();
    out := [];
    var k := 0;
    while true
      invariant h.Valid() && h.Asks() && out == h.sent
      decreases h.Stage(), h.Unread(), h.Unsent()
    {
      var mem := new byte[sizes(k)];
      readOn := h.ReadsOn(sizes(k), plans(k));
      if readOn { h.ReadsOnPastLimit(sizes(k), plans(k)); }
      var r := h.Read(mem, sizes(k), plans(k), (n: nat) => alloc(k, n));
      match r
      case EndWithError => return false, out, readOn;
      case EndOfStream =>
        if Seamless(h.stream.codec) {
          WholeFile(h.stream.codec, h.start, h.pieces, h.stream.state, h.last);
        }
        return true, out, false;
      case Bytes(n) =>
        out := out + mem[..n];
        k := k + 1;
    }
  }

  // ---------------------------------------------------------------- reading on

  /** A holder whose compressor keeps everything until the end. */
  ghost predicate Keeping(h: Holder<Kept>, taken: nat, ended: bool)
    reads h, h.source, h.stream
  {
    && h.Valid() && h.Asks() && h.start == NOTHING_KEPT && h.stream.codec == Keeper()
    && h.sizeIn == 25 && |h.source.data| == 35 && h.ended == ended && h.offsetIn == taken
  }

  lemma KeptOutput(h: Holder<Kept>, taken: nat, ended: bool)
    requires Keeping(h, taken, ended)
    ensures |h.Output()| == if ended then taken else 0
    ensures h.phase == Processing ==> h.sent == h.Output()
    ensures h.phase == Writing && h.sent == [] ==> h.sizeOut - h.offsetOut == |h.Output()|
  {
    KeeperKeeps(h.pieces);
  }

  lemma PieceAt(f: Source, offset: nat, n: nat)
    requires offset <= f.pos <= |f.data| == 35 && n <= 10
    ensures f.At(offset) <= 25 ==> f.Available(offset, 10, n) == n
    ensures f.At(offset) == 30 && n == 5 ==> f.Available(offset, 10, n) == 5
  {
  }

  /** One of the first two pieces: nothing comes out yet. */
  method KeepTen(h: Holder<Kept>, mem: array<byte>, ghost taken: nat)
    requires Keeping(h, taken, false) && h.phase == Processing && h.source.pos == taken <= 10 && mem.Length == 10
    requires mem != h.bufIn
    modifies h, h.stream, h.bufIn, h.source, mem
    ensures Keeping(h, taken + 10, false) && h.phase == Processing && h.source.pos == taken + 10
  {
    hide Holder.Valid, Holder.Output, Source.Available, Keeper, Willing, Given, Feed;
    KeeperIsLawful();
    PieceAt(h.source, h.offsetIn, 10);
    KeptOutput(h, taken, false);
    var r := h.Read(mem, 10, UpTo(10), (n: nat) => true);
    KeptOutput(h, taken + 10, false);
  }

  /** The piece beyond the limit: the end is asked for, and what it gives does not fit. */
  method GoBeyond(h: Holder<Kept>, mem: array<byte>)
    requires Keeping(h, 20, false) && h.phase == Processing && h.source.pos == 20 && mem.Length == 10
    requires mem != h.bufIn
    modifies h, h.stream, h.bufIn, h.source, mem
    ensures Keeping(h, 20, true) && h.phase == Writing && h.sizeOut - h.offsetOut == 20 && h.source.pos == 30
  {
    hide Holder.Valid, Holder.Output, Source.Available, Keeper, Willing, Given, Feed;
    KeeperIsLawful();
    PieceAt(h.source, h.offsetIn, 10);
    KeptOutput(h, 20, false);
    var r := h.Read(mem, 10, UpTo(10), (n: nat) => true);
    KeptOutput(h, 20, true);
  }

  /** The block is returned in two calls. */
  method SendRest(h: Holder<Kept>, mem: array<byte>)
    requires Keeping(h, 20, true) && h.phase == Writing && h.sizeOut - h.offsetOut == 20 && mem.Length == 10
    requires mem != h.bufIn
    modifies h, h.stream, h.bufIn, h.source, mem
    ensures Keeping(h, 20, true) && h.phase == Processing && h.source.pos == old(h.source.pos)
  {
    hide Holder.Output, Source.Available, Keeper, Willing, Given, Feed, Quiet, Closed, Input, Returned, Holder.Valid;
    var r := h.Drain(mem, 10);
    r := h.Drain(mem, 10);
  }

  lemma AllOut(h: Holder<Kept>)
    requires Keeping(h, 20, true) && h.phase == Processing
    ensures h.sent == Deflated(Keeper(), NOTHING_KEPT, h.source.data[..20])
  {
    hide Keeper, Given, Feed, Quiet, Closed, Seamless, Deflated, Concat;
    KeeperIsLawful();
    WholeFile(Keeper(), NOTHING_KEPT, h.pieces, h.stream.state, h.last);
  }

  /** It does happen, whichever way the user's callback goes: thirty-five bytes with a limit of twenty-five, buffers of
      ten bytes and no failure anywhere. The third piece is beyond the limit; everything compressed is returned; then a
      piece of five bytes is within the limit, and the stream ends in an error. */
  method ReadingOn(data: seq<byte>, byOffset: bool) returns (h: Holder<Kept>, r: Result)
    requires |data| == 35
    ensures fresh(h) && h.sent == Deflated(Keeper(), NOTHING_KEPT, data[..20]) && r == EndWithError
  {
    hide Holder.Valid, Source.Available, Keeper, Willing, Given, Feed, Quiet, Closed, Deflated;
    KeeperIsLawful();
    h := new Holder(Keeper(), NOTHING_KEPT, data, byOffset, 25);
    h.CanAsk();
    var mem := new byte[10];
    KeepTen(h, mem, 0);
    KeepTen(h, mem, 10);
    GoBeyond(h, mem);
    SendRest(h, mem);
    KeptOutput(h, 20, true);
    AllOut(h);
    PieceAt(h.source, h.offsetIn, 5);
    r := h.Read(mem, 10, UpTo(5), (n: nat) => true);
  }
}
