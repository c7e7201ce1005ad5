/** The callback that serves a file as a gzip stream (RFC 1952), called again and again with buffers of any size. */
module GzStream {
  import opened Common
  import opened ZStream

  datatype Phase = Initial | Processing | Writing | Finishing | Finished

  /** The ten bytes of section 2.3 of RFC 1952: magic, deflate, no flags, no time, no extra flags, Unix. */
  const HEADER: seq<byte> := [0x1f, 0x8b, 0x08, 0, 0, 0, 0, 0, 0, 0x03]

  function LowByte(n: nat): byte {
    (n % 0x100) as byte
  }

  /** The eight bytes of section 2.3.1 of RFC 1952, as the callback takes them apart. */
  function Trailer(crc: nat, size: nat): seq<byte> {
    [LowByte(crc), LowByte(crc / 0x100), LowByte(crc / 0x1_0000), LowByte(crc / 0x100_0000),
     LowByte(size), LowByte(size / 0x100), LowByte(size / 0x1_0000), LowByte(size / 0x100_0000)]
  }

  function LittleEndian(s: seq<byte>): nat {
    if |s| == 0 then 0 else s[0] as nat + 0x100 * LittleEndian(s[1..])
  }

  /** The trailer is the checksum and the size, each modulo 2^32, least significant byte first. */
  lemma TrailerIs(crc: nat, size: nat)
    ensures LittleEndian(Trailer(crc, size)[..4]) == crc % 0x1_0000_0000
    ensures LittleEndian(Trailer(crc, size)[4..]) == size % 0x1_0000_0000
  {
    var t := Trailer(crc, size);
    FourBytes(crc);
    FourBytes(size);
    assert t[..4] == [LowByte(crc), LowByte(crc / 0x100), LowByte(crc / 0x1_0000), LowByte(crc / 0x100_0000)];
    assert t[4..] == [LowByte(size), LowByte(size / 0x100), LowByte(size / 0x1_0000), LowByte(size / 0x100_0000)];
  }

  lemma FourBytes(n: nat)
    ensures LittleEndian([LowByte(n), LowByte(n / 0x100), LowByte(n / 0x1_0000), LowByte(n / 0x100_0000)])
         == n % 0x1_0000_0000
  {
    hide LowByte;
    var a, b, c, d := LowByte(n), LowByte(n / 0x100), LowByte(n / 0x1_0000), LowByte(n / 0x100_0000);
    assert [a, b, c, d][1..] == [b, c, d] && [b, c, d][1..] == [c, d] && [c, d][1..] == [d] && [d][1..] == [];
    assert LittleEndian([d]) == d as nat;
    assert LittleEndian([c, d]) == c as nat + 0x100 * d as nat;
    assert LittleEndian([b, c, d]) == b as nat + 0x100 * c as nat + 0x1_0000 * d as nat;
    FourDigits(n);
  }

  lemma FourDigits(n: nat)
    ensures LowByte(n) as nat + 0x100 * LowByte(n / 0x100) as nat + 0x1_0000 * LowByte(n / 0x1_0000) as nat
            + 0x100_0000 * LowByte(n / 0x100_0000) as nat == n % 0x1_0000_0000
  {
    Digits(n);
    assert LowByte(n) as nat == n % 0x100 && LowByte(n / 0x100) as nat == n / 0x100 % 0x100;
  }

  lemma Digits(n: nat)
    ensures n / 0x1_0000 == n / 0x100 / 0x100
    ensures n / 0x100_0000 == n / 0x1_0000 / 0x100
    ensures n % 0x1_0000_0000
         == n % 0x100 + 0x100 * (n / 0x100 % 0x100) + 0x1_0000 * (n / 0x1_0000 % 0x100)
            + 0x100_0000 * (n / 0x100_0000 % 0x100)
  {
    var q1, d0 := n / 0x100, n % 0x100;
    var q2, d1 := q1 / 0x100, q1 % 0x100;
    var q3, d2 := q2 / 0x100, q2 % 0x100;
    var q4, d3 := q3 / 0x100, q3 % 0x100;
    Quotient2(n, q2);
    Quotient3(n, q3);
    Remainder4(n, q4, d0 + 0x100 * d1 + 0x1_0000 * d2 + 0x100_0000 * d3);
  }

  lemma Quotient2(n: nat, q: nat)
    requires 0x1_0000 * q <= n < 0x1_0000 * q + 0x1_0000
    ensures n / 0x1_0000 == q
  {
  }

  lemma Quotient3(n: nat, q: nat)
    requires 0x100_0000 * q <= n < 0x100_0000 * q + 0x100_0000
    ensures n / 0x100_0000 == q
  {
  }

  lemma Remainder4(n: nat, q: nat, r: nat)
    requires n == 0x1_0000_0000 * q + r && r < 0x1_0000_0000
    ensures n % 0x1_0000_0000 == r
  {
  }

  /** An open file: its bytes and the position of the next read. */
  class File {
    const data: seq<byte>
    var pos: nat

    constructor (data: seq<byte>)
      ensures this.data == data && pos == 0
    {
      this.data, pos := data, 0;
    }

    ghost predicate Valid()
      reads this
    {
      pos <= |data|
    }

    /** What a read of at most `size` bytes gives: fewer if the system likes, but none only at the end. */
    function Available(size: nat, n: nat): (have: nat)
      requires Valid()
      reads this
      ensures have <= size && have <= |data| - pos && (size > 0 ==> (have == 0 <==> pos == |data|))
    {
      Min(Min(size, |data| - pos), if n == 0 then 1 else n)
    }

    method Read(mem: array<byte>, size: nat, plan: ReadPlan) returns (ok: bool, have: nat)
      requires Valid() && 0 < size <= mem.Length
      modifies this`pos, mem
      ensures Valid() && ok == plan.UpTo?
      ensures !ok ==> pos == old(pos)
      ensures ok ==> have == old(Available(size, plan.n)) && pos == old(pos) + have && mem[..have] == data[old(pos)..pos]
    {
      if plan.Fail? { return false, 0; }
      have := Available(size, plan.n);
      forall i | 0 <= i < have { mem[i] := data[pos + i]; }
      pos := pos + have;
      return true, have;
    }
  }

  ghost predicate Input<S(!new)>(c: Codec<S>, start: S, pieces: seq<seq<byte>>, ended: bool, state: S, last: seq<byte>,
                                 owed: seq<byte>, data: seq<byte>, pos: nat, offsetIn: nat, sizeIn: nat, summed: bool) {
    && Quiet(c) && Closed(c) && owed == []
    && Fed(c, start, pieces, ended, state, last)
    && Taken(pieces, data, pos, offsetIn, sizeIn, ended)
    && summed
  }

  /** What has been returned so far, phase by phase. */
  ghost predicate Returned(phase: Phase, sent: seq<byte>, total: seq<byte>, trailer: seq<byte>, ended: bool,
                           bufOut: seq<byte>, offsetOut: nat, sizeOut: nat) {
    match phase
    case Initial => sent == [] && total == HEADER
    case Processing => sent == total
    case Writing => offsetOut < sizeOut == |bufOut| && sent + bufOut[offsetOut..] == total
    case Finishing => ended && sent == total
    case Finished => ended && sent == total + trailer
  }

  /** Sending the next part of the output block moves it from what is owed to what is sent. */
  lemma SentPart(sent: seq<byte>, given: seq<byte>, trailer: seq<byte>, ended: bool, bufOut: seq<byte>, from: nat,
                 sizeOut: nat, have: nat, to: nat)
    requires Returned(Writing, sent, given, trailer, ended, bufOut, from, sizeOut) && have <= sizeOut - from
    ensures var more := sent + bufOut[from..from + have];
      && (have == sizeOut - from ==> Returned(Processing, more, given, trailer, ended, bufOut, to, sizeOut))
      && (have < sizeOut - from ==> Returned(Writing, more, given, trailer, ended, bufOut, from + have, sizeOut))
  {
    var rest := bufOut[from..];
    assert bufOut[from..from + have] == rest[..have] && bufOut[from + have..] == rest[have..];
    SentMore(sent, rest, have);
  }

  method WriteHeader(mem: array<byte>)
    requires mem.Length >= 10
    modifies mem
    ensures mem[..10] == HEADER
  {
    mem[0], mem[1], mem[2], mem[3], mem[4] := 0x1f, 0x8b, 0x08, 0, 0;
    mem[5], mem[6], mem[7], mem[8], mem[9] := 0, 0, 0, 0, 0x03;
  }

  method WriteTrailer(mem: array<byte>, crc: nat, offsetIn: nat)
    requires mem.Length >= 8
    modifies mem
    ensures mem[..8] == Trailer(crc, offsetIn)
  {
    mem[0], mem[1], mem[2] := LowByte(crc), LowByte(crc / 0x100), LowByte(crc / 0x1_0000);
    mem[3], mem[4], mem[5] := LowByte(crc / 0x100_0000), LowByte(offsetIn), LowByte(offsetIn / 0x100);
    mem[6], mem[7] := LowByte(offsetIn / 0x1_0000), LowByte(offsetIn / 0x100_0000);
  }

  class Holder<S(!new)> {
    const stream: Stream<S>
    const bufIn: array<byte>
    const file: File
    const sizeIn: nat
    var bufOut: seq<byte>
    var sizeOut: nat
    var offsetIn: nat
    var offsetOut: nat
    var crc: nat
    var phase: Phase

    /** The compressor at the start; the pieces fed to it; everything returned so far; whether the end has been asked
        of the compressor, and what it gave for it; how often the output block was made and freed. */
    ghost const start: S
    ghost var pieces: seq<seq<byte>>
    ghost var sent: seq<byte>
    ghost var ended: bool
    ghost var last: seq<byte>
    ghost var made: nat
    ghost var freed: nat

    constructor (codec: Codec<S>, state: S, data: seq<byte>, sizeIn: nat)
      requires Quiet(codec) && Closed(codec)
      ensures Valid() && fresh(this) && fresh(stream) && fresh(bufIn) && fresh(file)
      ensures file.data == data && file.pos == 0 && this.sizeIn == sizeIn && phase == Initial && sent == [] && start == state
      ensures stream.codec == codec && made == 0 && freed == 0
      ensures file.Valid() && offsetIn == 0 && pieces == [] && !ended
    {
      stream := new Stream(codec, state);
      bufIn := new byte[CHUNK];
      file := new File(data);
      this.sizeIn := sizeIn;
      bufOut, sizeOut, offsetIn, offsetOut, crc, phase := [], 0, 0, 0, 0, Initial;
      start, pieces, sent, ended, last, made, freed := state, [], [], false, [], 0, 0;
    }

    /** The input side: the file, the compressor and the checksum agree on the pieces. */
    ghost predicate InputOk()
      reads this, stream, file
    {
      Input(stream.codec, start, pieces, ended, stream.state, last, stream.owed, file.data, file.pos, offsetIn, sizeIn,
            phase == Initial || crc == Crc(stream.codec, 0, Concat(pieces)))
      && bufIn.Length == CHUNK && !stream.stalled
    }

    ghost predicate Valid()
      reads this, stream, file
    {
      && InputOk()
      && (phase == Initial ==> pieces == [] && !ended)
      && Returned(phase, sent, HEADER + Given(stream.codec, start, pieces, last), Trailer(crc, offsetIn), ended,
                  bufOut, offsetOut, sizeOut)
      && made == freed + (if phase == Writing then 1 else 0)
    }

    /** A read of so many bytes brings a piece to compress: it is neither the end nor beyond the size limit. */
    predicate Brings(have: nat)
      reads this
    {
      have > 0 && (sizeIn == 0 || offsetIn + have <= sizeIn)
    }

    /** The compressed data is complete, yet this call reads another piece and compresses it. The finishing flush did
        not fit the caller's buffer, so the phase it noted was overwritten; and the piece that went beyond the size
        limit was longer than the one read now. */
    ghost predicate ReadsOn(size: nat, plan: ReadPlan)
      requires file.Valid()
      reads this, file
    {
      ended && phase == Processing && plan.UpTo? && Brings(file.Available(size, plan.n))
    }

    /** All output of the compressor so far. */
    ghost function Output(): seq<byte>
      reads this, stream
    {
      Given(stream.codec, start, pieces, last)
    }

    /** It cannot happen without a limit, nor when the file is within it. */
    lemma ReadsOnPastLimit(size: nat, plan: ReadPlan)
      requires Valid() && file.Valid() && size > 0 && ReadsOn(size, plan)
      ensures 0 < sizeIn < |file.data|
    {
      hide Given, Feed, Trailer, Concat, Crc, Fed, Quiet, Closed;
      var have := file.Available(size, plan.n);
    }

    /** What is still to come: stages, unread bytes, bytes of the output block. */
    ghost function Stage(): nat
      reads this
    {
      match phase
      case Initial => 4
      case Finishing => 1
      case Finished => 0
      case _ => if ended then 2 else 3
    }

    ghost function Unread(): nat
      reads this, file
    {
      if file.pos <= |file.data| then |file.data| - file.pos else 0
    }

    ghost function Unsent(): nat
      reads this
    {
      if phase == Writing && offsetOut <= sizeOut then sizeOut - offsetOut else 0
    }

    /** The first call returns the header. */
    method Header(mem: array<byte>) returns (r: Result)
      requires Valid() && phase == Initial && mem.Length >= 10
      modifies this`phase, this`crc, this`sent, mem
      ensures Valid() && phase == Processing && r == Bytes(10) && mem[..10] == HEADER && sent == old(sent) + HEADER
    {
      hide Fed, Taken, Given, Feed;
      phase := Processing;
      WriteHeader(mem);
      crc := 0;
      sent := sent + mem[..10];
      r := Bytes(10);
    }

    /** The last call but one returns the trailer. */
    method End(mem: array<byte>) returns (r: Result)
      requires Valid() && phase == Finishing && mem.Length >= 8
      modifies this`phase, this`sent, mem
      ensures Valid() && phase == Finished && r == Bytes(8) && mem[..8] == Trailer(crc, offsetIn)
      ensures sent == old(sent) + mem[..8]
    {
      hide Fed, Taken, Given, Feed, Trailer, Concat, Crc;
      phase := Finished;
      WriteTrailer(mem, crc, offsetIn);
      sent := sent + mem[..8];
      r := Bytes(8);
    }

    lemma WritingIs()
      requires Valid() && phase == Writing
      ensures offsetOut < sizeOut == |bufOut|
    {
    }

    /** Copies the next part of the output block; when that was all of it, frees the block. */
    method Drain(mem: array<byte>, size: nat) returns (r: Result)
      requires Valid() && phase == Writing && 0 < size <= mem.Length && mem != bufIn
      modifies this`phase, this`offsetOut, this`sent, this`freed, mem
      ensures Valid() && r.Bytes? && r.count == Min(size, old(sizeOut - offsetOut)) && sent == old(sent) + mem[..r.count]
      ensures phase == if size >= old(sizeOut - offsetOut) then Processing else Writing
      ensures phase == Writing ==> sizeOut - offsetOut == old(sizeOut - offsetOut) - size
    {
      hide Input, Given, Trailer, Concat, Crc, Returned;
      WritingIs();
      var from, have := offsetOut, size;
      offsetOut := offsetOut + have;
      if offsetOut >= sizeOut {
        phase := Processing;
        if offsetOut > sizeOut {
          offsetOut := offsetOut - have;
          have := sizeOut - offsetOut;
        }
      }
      Copy(mem, from, have);
      if phase != Writing { freed := freed + 1; }
      SentPart(sent, HEADER + Given(stream.codec, start, pieces, last), Trailer(crc, offsetIn), ended,
               bufOut, from, sizeOut, have, offsetOut);
      sent := sent + mem[..have];
      r := Bytes(have);
    }

    method Copy(mem: array<byte>, from: nat, have: nat)
      requires from + have <= |bufOut| && have <= mem.Length
      modifies mem
      ensures mem[..have] == bufOut[from..from + have]
    {
      forall i | 0 <= i < have { mem[i] := bufOut[from + i]; }
    }

    /** Reads the next piece of the file, or takes note of its end, or of the size limit: then the piece is dropped. */
    method TakeInput(mem: array<byte>, size: nat, plan: ReadPlan) returns (ok: bool, have: nat, flush: Flush)
      requires Valid() && phase == Processing && 0 < size <= mem.Length && mem != bufIn
      modifies this`phase, this`offsetIn, this`crc, this`pieces, file`pos, mem
      ensures ok == plan.UpTo? && file.Valid()
      ensures ok ==>
                var n := old(file.Available(size, plan.n));
                && have == (if old(Brings(n)) then n else 0) && flush == (if old(Brings(n)) then NoFlush else Finish)
                && file.pos == old(file.pos) + n && offsetIn == old(offsetIn) + have
      ensures ok && flush == NoFlush ==> have > 0 && phase == Processing && mem[..have] == file.data[old(file.pos)..file.pos]
      ensures ok ==> pieces == if flush == NoFlush && !ended then old(pieces) + [mem[..have]] else old(pieces)
      ensures ok && flush == Finish ==> phase == Finishing
      ensures ok && (flush == Finish || !ended) ==>
                && Taken(pieces, file.data, file.pos, offsetIn, sizeIn, flush == Finish)
                && crc == Crc(stream.codec, 0, Concat(pieces))
    {
      hide Fed, Given, Feed, Trailer, Concat, Crc, Returned, Quiet, Closed;
      ghost var pos := file.pos;
      ok, have := file.Read(mem, size, plan);
      if !ok { return false, 0, NoFlush; }
      if have == 0 {
        phase := Finishing;
        flush := Finish;
      } else {
        offsetIn := offsetIn + have;
        if sizeIn > 0 && offsetIn > sizeIn {
          phase := Finishing;
          offsetIn := offsetIn - have;
          have := 0;
          flush := Finish;
        } else {
          crc := Crc(stream.codec, crc, mem[..have]);
          flush := NoFlush;
          ConcatSnoc(pieces, mem[..have]);
          CrcConcat(stream.codec, 0, Concat(pieces), mem[..have]);
          if !ended {
            TakenPiece(pieces, file.data, pos, sizeIn, mem[..have]);
            pieces := pieces + [mem[..have]];
          }
        }
      }
    }

    /** Compresses what was taken. After the end the compressor takes no more pieces. */
    method Compress(src: seq<byte>, flush: Flush, alloc: nat -> bool, ghost pieces0: seq<seq<byte>>)
      returns (ok: bool, dest: seq<byte>)
      requires Quiet(stream.codec) && Closed(stream.codec) && bufIn.Length == CHUNK
      requires stream.owed == [] && !stream.stalled
      requires Fed(stream.codec, start, pieces0, ended, stream.state, last)
      requires flush == NoFlush ==> src != [] && pieces == if ended then pieces0 else pieces0 + [src]
      requires flush == Finish ==> src == [] && pieces == pieces0
      modifies this`ended, this`last, stream, bufIn
      ensures old(ended) && flush == NoFlush ==> !ok
      ensures ok ==> ended == (flush == Finish) && stream.owed == [] && !stream.stalled
      ensures ok && old(ended) ==> dest == []
      ensures ok ==> Fed(stream.codec, start, pieces, ended, stream.state, last)
      ensures ok ==> Given(stream.codec, start, pieces, last) == Given(stream.codec, start, pieces0, old(last)) + dest
      ensures !ok ==> !(forall n :: alloc(n)) || (old(ended) && flush == NoFlush) || !Willing(stream.codec, start)
    {
      hide Given, Feed, Fed, Quiet, Closed, Willing;
      ghost var state0 := stream.state;
      var status;
      if ended {
        NoMorePieces(stream.codec, start, pieces0, stream.state, last, src);
      } else {
        BeforeTheEnd(stream.codec, start, pieces0, stream.state, last, src, flush);
      }
      status, dest := ZDeflate(stream, bufIn, flush, src, alloc);
      if status != Ok { return false, []; }
      if flush == NoFlush {
        FedPiece(stream.codec, start, pieces0, state0, last, src);
      } else {
        FedEnd(stream.codec, start, pieces0, ended, state0, last);
        ended, last := true, last + dest;
      }
      ok := true;
    }

    /** Returns new output at once if it fits, or else keeps it for the calls to come. */
    method Deliver(dest: seq<byte>, mem: array<byte>, size: nat) returns (r: Result)
      requires InputOk() && (phase == Processing || (phase == Finishing && ended))
      requires sent + dest == HEADER + Given(stream.codec, start, pieces, last) && made == freed
      requires 0 < size <= mem.Length && mem != bufIn
      modifies this`phase, this`bufOut, this`offsetOut, this`sizeOut, this`sent, this`made, this`freed, mem
      ensures Valid() && r.Bytes? && r.count <= size && sent == old(sent) + mem[..r.count]
      ensures phase == (if |dest| > size then Writing else old(phase)) && (phase == Writing ==> r == Bytes(0))
    {
      hide Input, Given, Trailer, Concat, Crc;
      bufOut, made := dest, made + 1;
      var have := |dest|;
      if have > size {
        phase := Writing;
        sizeOut := have;
        offsetOut := 0;
        return Bytes(0);
      }
      Copy(mem, 0, have);
      freed := freed + 1;
      sent := sent + mem[..have];
      return Bytes(have);
    }

    /** Takes input, compresses it, and returns the output at once if it fits. */
    method Produce(mem: array<byte>, size: nat, plan: ReadPlan, alloc: nat -> bool) returns (r: Result)
      requires Valid() && file.Valid() && phase == Processing && 0 < size <= mem.Length && mem != bufIn
      modifies this, stream, bufIn, file, mem
      ensures r != EndWithError ==> Valid() && file.Valid() && r.Bytes? && r.count <= size && sent == old(sent) + mem[..r.count]
      ensures r == EndWithError ==> sent == old(sent)
      ensures r == EndWithError ==>
                plan.Fail? || old(ReadsOn(size, plan)) || !(forall n :: alloc(n)) || !Willing(stream.codec, start)
      ensures old(ReadsOn(size, plan)) ==> r == EndWithError
      ensures r.Bytes? ==>
                plan.UpTo? && var n := old(file.Available(size, plan.n));
                && file.pos == old(file.pos) + n
                && (old(Brings(n)) ==> pieces == old(pieces) + [file.data[old(file.pos)..file.pos]] && !ended
                                       && offsetIn == old(offsetIn) + n)
                && (!old(Brings(n)) ==> pieces == old(pieces) && ended && offsetIn == old(offsetIn))
                && (old(ended) ==> r == Bytes(0) && phase == Finishing)
                && (phase == if |Output()| > |old(Output())| + size then Writing else if ended then Finishing else Processing)
                && (phase == Writing ==> r == Bytes(0))
      ensures r.Bytes? ==> (old(Stage()), old(Unread()), old(Unsent()) decreases to Stage(), Unread(), Unsent())
    {
      hide Taken, Given, Feed, Trailer, Concat, Crc, Fed, Quiet, Closed, Willing;
      ghost var pieces0 := pieces;
      var ok, have, flush := TakeInput(mem, size, plan);
      if !ok { return EndWithError; }
      ghost var piece := mem[..have];
      var dest;
      ok, dest := Compress(mem[..have], flush, alloc, pieces0);
      if !ok { return EndWithError; }
      r := Deliver(dest, mem, size);
    }

    /** The room a call needs: header and trailer are written without a look at the size. */
    function Asked(): nat
      reads this
    {
      if phase == Initial then 10 else if phase == Finishing then 8 else 1
    }

    /** One call of the callback. */
    method Read(mem: array<byte>, size: nat, plan: ReadPlan, alloc: nat -> bool) returns (r: Result)
      requires Valid() && file.Valid() && Asked() <= size <= mem.Length && mem != bufIn
      modifies this, stream, bufIn, file, mem
      ensures r == EndOfStream ==> phase == old(phase)
      ensures r != EndWithError ==> Valid() && file.Valid()
      ensures r == EndOfStream <==> old(phase) == Finished
      ensures r == EndWithError ==>
                plan.Fail? || old(ReadsOn(size, plan)) || !(forall n :: alloc(n)) || !Willing(stream.codec, start)
      ensures old(ReadsOn(size, plan)) ==> r == EndWithError
      ensures sent == old(sent) + match r { case Bytes(n) => if n <= size then mem[..n] else [] case _ => [] }
      ensures r.Bytes? ==> r.count <= size
      ensures r.Bytes? && old(phase) == Processing ==>
                plan.UpTo? && var n := old(file.Available(size, plan.n));
                && file.pos == old(file.pos) + n
                && (old(Brings(n)) ==> pieces == old(pieces) + [file.data[old(file.pos)..file.pos]] && !ended
                                       && offsetIn == old(offsetIn) + n)
                && (!old(Brings(n)) ==> pieces == old(pieces) && ended && offsetIn == old(offsetIn))
                && (old(ended) ==> r == Bytes(0) && phase == Finishing)
                && (phase == if |Output()| > |old(Output())| + size then Writing else if ended then Finishing else Processing)
                && (phase == Writing ==> r == Bytes(0))
      ensures r.Bytes? && old(phase) != Processing ==>
                && pieces == old(pieces) && ended == old(ended) && last == old(last) && offsetIn == old(offsetIn)
                && file.pos == old(file.pos) && stream.state == old(stream.state)
      ensures r.Bytes? ==> phase != Initial
      ensures r.Bytes? && old(phase) == Initial ==> phase == Processing
      ensures old(phase) == Writing ==>
                && r == Bytes(Min(size, old(sizeOut - offsetOut)))
                && phase == if size >= old(sizeOut - offsetOut) then Processing else Writing
      ensures r.Bytes? ==> (old(Stage()), old(Unread()), old(Unsent()) decreases to Stage(), Unread(), Unsent())
    {
      hide Taken, Given, Feed, Trailer, Concat, Crc, Fed, Quiet, Closed, Willing;
      if phase == Initial {
        r := Header(mem);
      } else if phase == Finishing {
        r := End(mem);
      } else if phase == Finished {
        r := EndOfStream;
      } else if phase != Writing {
        r := Produce(mem, size, plan, alloc);
      } else {
        r := Drain(mem, size);
      }
    }
  }

  // ---------------------------------------------------------------- whole runs

  /** The gzip member of some data. */
  ghost function Gzip<S>(c: Codec<S>, start: S, data: seq<byte>): seq<byte> {
    HEADER + Deflated(c, start, data) + Trailer(Crc(c, 0, data), |data|)
  }

  /** What section 2.3 of RFC 1952 prescribes, byte by byte: the two magic bytes, the method of deflate, no flags, no
      time, no extra flags, Unix; then the compressed data; then the checksum and the size modulo 2^32, least
      significant byte first. */
  ghost predicate IsMember(out: seq<byte>, body: seq<byte>, crc: nat, size: nat) {
    && |out| == 10 + |body| + 8
    && out[0] == 0x1f && out[1] == 0x8b && out[2] == 8 && out[3] == 0
    && out[4] == 0 && out[5] == 0 && out[6] == 0 && out[7] == 0
    && out[8] == 0 && out[9] == 3
    && out[10..10 + |body|] == body
    && var t := 10 + |body|;
       && out[t] as nat == crc % 256 && out[t + 1] as nat == crc / 256 % 256
       && out[t + 2] as nat == crc / 65536 % 256 && out[t + 3] as nat == crc / 16777216 % 256
       && out[t + 4] as nat == size % 256 && out[t + 5] as nat == size / 256 % 256
       && out[t + 6] as nat == size / 65536 % 256 && out[t + 7] as nat == size / 16777216 % 256
  }

  lemma MemberIs(body: seq<byte>, crc: nat, size: nat)
    ensures IsMember(HEADER + body + Trailer(crc, size), body, crc, size)
  {
    var out := HEADER + body + Trailer(crc, size);
    assert forall i :: 0 <= i < 10 ==> out[i] == HEADER[i];
    assert forall i :: 0 <= i < 8 ==> out[10 + |body| + i] == Trailer(crc, size)[i];
  }

  /** Calls the callback until it ends the stream, with a first buffer of any size from ten up and later ones from eight
      up, which leave room for the header and the trailer, and reads as short as the system likes. It always comes to
      an end. When that is the end of the stream, the bytes returned are the gzip member of the file, or of as much of
      it as the size limit let through. It is, unless a read, an allocation or
      the compressor fails, or a call reads on after the end of the compressed data, which takes a file beyond the
      limit. */
  method Serve<S(!new)>(h: Holder<S>, sizes: nat -> nat, plans: nat -> ReadPlan, alloc: (nat, nat) -> bool)
    returns (ok: bool, out: seq<byte>, ghost readOn: bool)
    requires h.Valid() && h.file.Valid() && h.phase == Initial
    requires sizes(0) >= 10 && forall k :: sizes(k) >= 8
    modifies h, h.stream, h.bufIn, h.file
    ensures ok ==> h.offsetIn <= |h.file.data| && h.made == h.freed
    ensures ok ==> Concat(h.pieces) == h.file.data[..h.offsetIn]
    ensures ok ==> out == HEADER + h.Output() + Trailer(Crc(h.stream.codec, 0, Concat(h.pieces)), h.offsetIn)
    ensures ok ==> IsMember(out, h.Output(), Crc(h.stream.codec, 0, Concat(h.pieces)), h.offsetIn)
    ensures ok && Seamless(h.stream.codec) ==> out == Gzip(h.stream.codec, h.start, h.file.data[..h.offsetIn])
    ensures ok ==> if h.sizeIn == 0 || |h.file.data| <= h.sizeIn then h.offsetIn == |h.file.data| else h.offsetIn <= h.sizeIn
    ensures readOn ==> !ok && 0 < h.sizeIn < |h.file.data|
    ensures (forall k :: plans(k).UpTo?) && (forall k, n :: alloc(k, n)) && Willing(h.stream.codec, h.start) && !readOn ==> ok
  {
    hide Given, Trailer, Crc, Feed, Quiet, Closed, Seamless, Willing, Holder.ReadsOn, IsMember;
    out := [];
    var k := 0;
    while true
      invariant h.Valid() && h.file.Valid() && out == h.sent && (k > 0 ==> h.phase != Initial)
      decreases h.Stage(), h.Unread(), h.Unsent()
    {
      var mem := new byte[sizes(k)];
      readOn := h.ReadsOn(sizes(k), plans(k));
      if readOn { h.ReadsOnPastLimit(sizes(k), plans(k)); }
      var r := h.Read(mem, sizes(k), plans(k), (n: nat) => alloc(k, n));
      match r
      case EndWithError => return false, out, readOn;
      case EndOfStream =>
        MemberIs(h.Output(), Crc(h.stream.codec, 0, Concat(h.pieces)), h.offsetIn);
        if Seamless(h.stream.codec) {
          WholeFile(h.stream.codec, h.start, h.pieces, h.stream.state, h.last);
        }
        return true, out, false;
      case Bytes(n) =>
        out := out + mem[..n];
        k := k + 1;
    }
  }

  // ---------------------------------------------------------------- reading on

  /** A holder whose compressor keeps everything until the end. */
  ghost predicate Keeping(h: Holder<Kept>, taken: nat, ended: bool)
    reads h, h.file, h.stream
  {
    && h.Valid() && h.file.Valid() && h.start == NOTHING_KEPT && h.stream.codec == Keeper()
    && h.sizeIn == 25 && |h.file.data| == 35 && h.ended == ended && h.offsetIn == taken
  }

  lemma KeptOutput(h: Holder<Kept>, taken: nat, ended: bool)
    requires Keeping(h, taken, ended)
    ensures |h.Output()| == if ended then taken else 0
    ensures h.phase == Processing ==> h.sent == HEADER + h.Output()
    ensures h.phase == Writing && h.sent == HEADER ==> h.sizeOut - h.offsetOut == |h.Output()|
  {
    KeeperKeeps(h.pieces);
  }

  lemma TenAt(f: File)
    requires f.Valid() && |f.data| == 35
    ensures f.Available(10, 10) == if f.pos <= 25 then 10 else 35 - f.pos
  {
  }

  /** One of the first two pieces: nothing comes out yet. */
  method KeepTen(h: Holder<Kept>, mem: array<byte>, ghost taken: nat)
    requires Keeping(h, taken, false) && h.phase == Processing && h.file.pos == taken <= 10 && mem.Length == 10
    requires mem != h.bufIn
    modifies h, h.stream, h.bufIn, h.file, mem
    ensures Keeping(h, taken + 10, false) && h.phase == Processing && h.file.pos == taken + 10
  {
    hide Holder.Valid, Holder.Output, File.Available, Keeper, Willing, Given, Feed;
    KeeperIsLawful();
    TenAt(h.file);
    KeptOutput(h, taken, false);
    var r := h.Read(mem, 10, UpTo(10), (n: nat) => true);
    KeptOutput(h, taken + 10, false);
  }

  /** The piece beyond the limit: the end is asked for, and what it gives does not fit. */
  method GoBeyond(h: Holder<Kept>, mem: array<byte>)
    requires Keeping(h, 20, false) && h.phase == Processing && h.file.pos == 20 && mem.Length == 10
    requires mem != h.bufIn
    modifies h, h.stream, h.bufIn, h.file, mem
    ensures Keeping(h, 20, true) && h.phase == Writing && h.sizeOut - h.offsetOut == 20 && h.file.pos == 30
  {
    hide Holder.Valid, Holder.Output, File.Available, Keeper, Willing, Given, Feed;
    KeeperIsLawful();
    TenAt(h.file);
    KeptOutput(h, 20, false);
    var r := h.Read(mem, 10, UpTo(10), (n: nat) => true);
    KeptOutput(h, 20, true);
  }

  lemma AllOut(h: Holder<Kept>)
    requires Keeping(h, 20, true) && h.phase == Processing
    ensures h.sent == HEADER + Deflated(Keeper(), NOTHING_KEPT, h.file.data[..20])
  {
    hide Keeper, Given, Feed, Quiet, Closed, Seamless, Deflated, Concat;
    KeeperIsLawful();
    WholeFile(Keeper(), NOTHING_KEPT, h.pieces, h.stream.state, h.last);
  }

  method Begin(data: seq<byte>) returns (h: Holder<Kept>, mem: array<byte>)
    requires |data| == 35
    ensures fresh(h) && fresh(h.stream) && fresh(h.bufIn) && fresh(h.file) && fresh(mem) && mem != h.bufIn
    ensures Keeping(h, 0, false) && h.phase == Processing && h.file.pos == 0 && mem.Length == 10 && h.file.data == data
  {
    hide Holder.Valid, Holder.Output, File.Available, Keeper, Willing, Given, Feed, Quiet, Closed;
    KeeperIsLawful();
    h := new Holder(Keeper(), NOTHING_KEPT, data, 25);
    mem := new byte[10];
    var r := h.Read(mem, 10, UpTo(10), (n: nat) => true);
  }

  /** The block is returned in two calls. */
  method SendRest(h: Holder<Kept>, mem: array<byte>)
    requires Keeping(h, 20, true) && h.phase == Writing && h.sizeOut - h.offsetOut == 20 && mem.Length == 10
    requires mem != h.bufIn
    modifies h, h.stream, h.bufIn, h.file, mem
    ensures Keeping(h, 20, true) && h.phase == Processing && h.file.pos == old(h.file.pos)
  {
    hide Holder.Output, File.Available, Keeper, Willing, Given, Feed, Quiet, Closed, Input, Returned, Holder.Valid;
    var r := h.Drain(mem, 10);
    r := h.Drain(mem, 10);
  }

  /** It does happen: thirty-five bytes with a limit of twenty-five, buffers of ten bytes and no failure anywhere. Two
      pieces are compressed and the third is beyond the limit; their twenty bytes of output are returned in two calls;
      then five more bytes are read, which would be within the limit, and the stream breaks off before its trailer. */
  method ReadingOn(data: seq<byte>) returns (h: Holder<Kept>, r: Result)
    requires |data| == 35
    ensures fresh(h) && h.sent == HEADER + Deflated(Keeper(), NOTHING_KEPT, data[..20]) && r == EndWithError
  {
    hide Holder.Valid, File.Available, Keeper, Willing, Given, Feed, Quiet, Closed, Deflated;
    var mem;
    h, mem := Begin(data);
    KeepTen(h, mem, 0);
    KeepTen(h, mem, 10);
    GoBeyond(h, mem);
    SendRest(h, mem);
    KeptOutput(h, 20, true);
    AllOut(h);
    TenAt(h.file);
    r := h.Read(mem, 10, UpTo(10), (n: nat) => true);
  }
}
