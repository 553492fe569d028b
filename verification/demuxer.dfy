/** The demuxer side of the reader: signature probe, header skip, and the
    cutting of the body into 128-byte packets stamped with start time and
    duration. */
module Demuxer {
  import opened Tti
  import opened Wrappers
  import Timecode

  const ProbeScoreMax: int := 100

  /** The signature "STL" at offsets 3 to 5 of the file. */
  const SignatureS: Byte := 0x53
  const SignatureT: Byte := 0x54
  const SignatureL: Byte := 0x4C

  /** The probe buffer carries the signature. */
  predicate HasSignature(buf: seq<Byte>) {
    |buf| >= 6 && buf[3] == SignatureS && buf[4] == SignatureT && buf[5] == SignatureL
  }

  /** A read of the probe buffer at or beyond its valid size. */
  datatype ProbeError = ReadPastEnd(index: nat)

  /** The probe with its size guard as a parameter: buffers shorter than
      `minSize` score 0, otherwise bytes 3, 4 and 5 are compared in turn,
      each read only when the previous one matched. A read at an index the
      buffer does not hold is reported instead of performed. */
  function ProbeWithGuard(buf: seq<Byte>, minSize: nat): (r: Result<int, ProbeError>)
    requires minSize <= 6
    ensures r.Success? ==> (r.value == ProbeScoreMax <==> HasSignature(buf))
    ensures r.Success? ==> (r.value == 0 <==> !HasSignature(buf))
    ensures r.Failure? ==> |buf| <= r.error.index
  {
    if |buf| < minSize then Success(0)
    else if 3 >= |buf| then Failure(ReadPastEnd(3))
    else if buf[3] != SignatureS then Success(0)
    else if 4 >= |buf| then Failure(ReadPastEnd(4))
    else if buf[4] != SignatureT then Success(0)
    else if 5 >= |buf| then Failure(ReadPastEnd(5))
    else if buf[5] != SignatureL then Success(0)
    else Success(ProbeScoreMax)
  }

  /** The probe as written: its guard rejects only buffers shorter than 5,
      yet it reads index 5. A 5-byte buffer starting "xxxST" makes it read
      one byte past the data, and no other buffer does. */
  function ProbeAsWritten(buf: seq<Byte>): (r: Result<int, ProbeError>)
    ensures r.Failure? <==> |buf| == 5 && buf[3] == SignatureS && buf[4] == SignatureT
    ensures r.Failure? ==> r.error == ReadPastEnd(5)
    ensures r.Success? ==> (r.value == ProbeScoreMax <==> HasSignature(buf))
  {
    ProbeWithGuard(buf, 5)
  }

  /** The probe with the guard the three reads need: never reads past the
      data, and scores the maximum exactly for signed buffers. */
  function Probe(buf: seq<Byte>): (r: Result<int, ProbeError>)
    ensures r.Success?
    ensures r.value == ProbeScoreMax <==> HasSignature(buf)
    ensures r.value == 0 <==> !HasSignature(buf)
  {
    ProbeWithGuard(buf, 6)
  }

  /** The concrete input on which the two probes part ways. */
  lemma ProbeOffByOne()
    ensures ProbeAsWritten([0, 0, 0, SignatureS, SignatureT]) == Failure(ReadPastEnd(5))
    ensures Probe([0, 0, 0, SignatureS, SignatureT]) == Success(0)
  {
  }

  /** One demuxed packet: a whole TTI block, its start time in milliseconds
      and its duration (end time minus start time, possibly negative). */
  datatype Packet = Packet(data: seq<Byte>, pts: int, duration: int)

  datatype ReadError = EndOfFile

  /** Reads the packet at `pos`. A read that cannot fill all 128 bytes
      ends the stream; otherwise the timecodes at offsets 5 and 9 give the
      start time and the end time. */
  function ReadPacket(stream: seq<Byte>, pos: nat): (r: Result<(Packet, nat), ReadError>)
    ensures r.Failure? <==> |stream| < pos + BlockSize
    ensures r.Success? ==>
      && r.value.1 == pos + BlockSize
      && r.value.0.data == stream[pos..pos + BlockSize]
      && r.value.0.pts == Timecode.ToPts(stream[pos + StartTimecodeOffset..pos + StartTimecodeOffset + 4])
      && r.value.0.pts + r.value.0.duration
         == Timecode.ToPts(stream[pos + EndTimecodeOffset..pos + EndTimecodeOffset + 4])
  {
    if |stream| < pos + BlockSize then Failure(EndOfFile)
    else
      var data := stream[pos..pos + BlockSize];
      var pts := Timecode.ToPts(stream[pos + StartTimecodeOffset..pos + StartTimecodeOffset + 4]);
      var ptsEnd := Timecode.ToPts(stream[pos + EndTimecodeOffset..pos + EndTimecodeOffset + 4]);
      Success((Packet(data, pts, ptsEnd - pts), pos + BlockSize))
  }

  /** All packets from `pos` on, up to the first short read. */
  function ReadFrom(stream: seq<Byte>, pos: nat): (ps: seq<Packet>)
    ensures ps == [] <==> |stream| < pos + BlockSize
    ensures forall i :: 0 <= i < |ps| ==> IsBlock(ps[i].data)
    decreases |stream| - pos
  {
    match ReadPacket(stream, pos)
    case Failure(_) => []
    case Success(pair) => [pair.0] + ReadFrom(stream, pair.1)
  }

  /** All packets of a file. */
  function Packets(stream: seq<Byte>): (ps: seq<Packet>)
    ensures ps == [] <==> |stream| < HeaderSize + BlockSize
    ensures forall i :: 0 <= i < |ps| ==> IsBlock(ps[i].data)
  {
    ReadFrom(stream, HeaderSize)
  }

  /** The packets read from `pos` are the consecutive 128-byte chunks of
      the rest of the stream; a trailing remainder shorter than a block is
      dropped. */
  lemma {:induction false} ReadFromChunks(stream: seq<Byte>, pos: nat)
    requires pos <= |stream|
    ensures |ReadFrom(stream, pos)| == (|stream| - pos) / BlockSize
    ensures forall i :: 0 <= i < |ReadFrom(stream, pos)| ==>
      ReadFrom(stream, pos)[i].data == stream[pos + i * BlockSize..pos + (i + 1) * BlockSize]
    decreases |stream| - pos
  {
    var ps := ReadFrom(stream, pos);
    if |stream| < pos + BlockSize {
      assert ps == [];
    } else {
      var next := pos + BlockSize;
      ReadFromChunks(stream, next);
      var rest := ReadFrom(stream, next);
      var first := ReadPacket(stream, pos).value.0;
      assert ps == [first] + rest;
      DivStep(|stream| - pos);
      forall i | 0 <= i < |ps|
        ensures ps[i].data == stream[pos + i * BlockSize..pos + (i + 1) * BlockSize]
      {
        if i > 0 {
          assert ps[i] == rest[i - 1];
          assert next + (i - 1) * BlockSize == pos + i * BlockSize;
          assert next + i * BlockSize == pos + (i + 1) * BlockSize;
        }
      }
    }
  }

  lemma DivStep(n: nat)
    requires n >= BlockSize
    ensures n / BlockSize == (n - BlockSize) / BlockSize + 1
  {
  }

  /** The number of complete blocks after the header; none when the file
      ends inside the header. */
  function BlockCount(stream: seq<Byte>): nat {
    if |stream| < HeaderSize then 0 else (|stream| - HeaderSize) / BlockSize
  }

  /** The whole file: one packet per complete block after the header, each
      stamped from its own timecodes, and fewer than 128 bytes left over. */
  lemma PacketsOfFile(stream: seq<Byte>)
    ensures |Packets(stream)| == BlockCount(stream)
    ensures |stream| - (HeaderSize + |Packets(stream)| * BlockSize) < BlockSize
    ensures forall i :: 0 <= i < |Packets(stream)| ==>
      var p := Packets(stream)[i];
      && p.data == stream[HeaderSize + i * BlockSize..HeaderSize + (i + 1) * BlockSize]
      && p.pts == Timecode.ToPts(p.data[StartTimecodeOffset..StartTimecodeOffset + 4])
      && p.pts + p.duration == Timecode.ToPts(p.data[EndTimecodeOffset..EndTimecodeOffset + 4])
  {
    var ps := Packets(stream);
    if |stream| < HeaderSize {
      assert ReadPacket(stream, HeaderSize).Failure?;
      assert ps == [];
    } else {
      ReadFromChunks(stream, HeaderSize);
      forall i | 0 <= i < |ps|
        ensures ps[i].pts == Timecode.ToPts(ps[i].data[StartTimecodeOffset..StartTimecodeOffset + 4])
        ensures ps[i].pts + ps[i].duration == Timecode.ToPts(ps[i].data[EndTimecodeOffset..EndTimecodeOffset + 4])
      {
        PacketStamps(stream, HeaderSize, i);
      }
    }
  }

  /** Every packet read carries the times of its own block. */
  lemma {:induction false} PacketStamps(stream: seq<Byte>, pos: nat, i: nat)
    requires i < |ReadFrom(stream, pos)|
    ensures var p := ReadFrom(stream, pos)[i];
      && |p.data| == BlockSize
      && p.pts == Timecode.ToPts(p.data[StartTimecodeOffset..StartTimecodeOffset + 4])
      && p.pts + p.duration == Timecode.ToPts(p.data[EndTimecodeOffset..EndTimecodeOffset + 4])
    decreases i
  {
    var r := ReadPacket(stream, pos);
    assert r.Success?;
    if i > 0 {
      PacketStamps(stream, r.value.1, i - 1);
    } else {
      var p := r.value.0;
      assert p.data[StartTimecodeOffset..StartTimecodeOffset + 4]
          == stream[pos + StartTimecodeOffset..pos + StartTimecodeOffset + 4];
      assert p.data[EndTimecodeOffset..EndTimecodeOffset + 4]
          == stream[pos + EndTimecodeOffset..pos + EndTimecodeOffset + 4];
    }
  }
}
