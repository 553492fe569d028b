/** The reader and the decoder together: the packets the demuxer cuts from
    a file, each handed to the decoder in turn with the read order carried
    from one call to the next. */
module Pipeline {
  import opened Tti
  import opened Wrappers
  import Timecode
  import Demuxer
  import Decoder

  /** Decoding the packets in order, each call starting from the read
      order the previous one reached. */
  function DecodePackets(ps: seq<Demuxer.Packet>, readOrder: nat): (fs: seq<Decoder.Frame>)
    ensures |fs| == |ps|
    decreases |ps|
  {
    if |ps| == 0 then []
    else
      var f := Decoder.DecodeFrame(ps[0].data, ps[0].duration, readOrder);
      [f] + DecodePackets(ps[1..], f.nextReadOrder)
  }

  /** A packet of exactly one block decodes to exactly one rectangle. */
  lemma OneBlockFrame(data: seq<Byte>, duration: int, readOrder: nat)
    requires IsBlock(data)
    ensures Decoder.DecodeFrame(data, duration, readOrder)
      == Decoder.Frame([Decoder.Rect(Decoder.FinalText(data), readOrder)], true,
                       Some(Decoder.EndDisplayTime(duration)), readOrder + 1)
  {
    Decoder.DecodeBlocksStep(data, readOrder);
    assert data[..BlockSize] == data;
    assert Decoder.DecodeBlocks(data[BlockSize..], readOrder + 1) == [];
  }

  /** The number of complete blocks in the first `i` packets. */
  function BlocksBefore(ps: seq<Demuxer.Packet>, i: nat): nat
    requires i <= |ps|
  {
    if i == 0 then 0 else BlocksBefore(ps, i - 1) + |ps[i - 1].data| / BlockSize
  }

  /** When every packet is one block, `i` packets hold `i` blocks. */
  lemma {:induction false} BlocksBeforeOfBlocks(ps: seq<Demuxer.Packet>, i: nat)
    requires i <= |ps|
    requires forall j :: 0 <= j < |ps| ==> IsBlock(ps[j].data)
    ensures BlocksBefore(ps, i) == i
  {
    if i > 0 {
      BlocksBeforeOfBlocks(ps, i - 1);
      assert IsBlock(ps[i - 1].data);
    }
  }

  /** Dropping the first packet removes its blocks from the count. */
  lemma {:induction false} BlocksBeforeTail(ps: seq<Demuxer.Packet>, i: nat)
    requires 0 < i <= |ps|
    ensures BlocksBefore(ps, i) == |ps[0].data| / BlockSize + BlocksBefore(ps[1..], i - 1)
  {
    if i > 1 {
      BlocksBeforeTail(ps, i - 1);
      assert ps[1..][i - 2] == ps[i - 1];
    }
  }

  /** Packet `i` is decoded from the read order reached after the blocks of
      the packets before it. */
  lemma {:induction false} DecodePacketsAt(ps: seq<Demuxer.Packet>, readOrder: nat, i: nat)
    requires i < |ps|
    ensures |DecodePackets(ps, readOrder)| == |ps|
    ensures DecodePackets(ps, readOrder)[i]
      == Decoder.DecodeFrame(ps[i].data, ps[i].duration, readOrder + BlocksBefore(ps, i))
    decreases i
  {
    if i > 0 {
      Decoder.DecodeFrameCounts(ps[0].data, ps[0].duration, readOrder);
      var next := readOrder + |ps[0].data| / BlockSize;
      var tail := ps[1..];
      assert DecodePackets(ps, readOrder)[i] == DecodePackets(tail, next)[i - 1];
      assert tail[i - 1] == ps[i];
      DecodePacketsAt(tail, next, i - 1);
      BlocksBeforeTail(ps, i);
    }
  }

  /** A whole file: one frame per complete block after the header. Frame
      `i` is the decoding of packet `i` from read order `i`; it holds one
      rectangle, numbered `i`, whose text is the final text of block `i`
      of the file, and hands read order `i + 1` on. */
  lemma DecodeFile(stream: seq<Byte>)
    ensures var ps, fs := Demuxer.Packets(stream), DecodePackets(Demuxer.Packets(stream), 0);
      && |fs| == |ps| == Demuxer.BlockCount(stream)
      && forall i :: 0 <= i < |fs| ==>
        && fs[i] == Decoder.DecodeFrame(ps[i].data, ps[i].duration, i)
        && fs[i].gotSubtitle
        && |fs[i].rects| == 1 && fs[i].rects[0].readOrder == i
        && fs[i].rects[0].text == Decoder.FinalText(stream[HeaderSize + i * BlockSize..HeaderSize + (i + 1) * BlockSize])
        && fs[i].nextReadOrder == i + 1
  {
    var ps := Demuxer.Packets(stream);
    Demuxer.PacketsOfFile(stream);
    forall i | 0 <= i < |ps|
      ensures var f := DecodePackets(ps, 0)[i];
        && f == Decoder.DecodeFrame(ps[i].data, ps[i].duration, i)
        && f.gotSubtitle
        && |f.rects| == 1 && f.rects[0].readOrder == i
        && f.rects[0].text == Decoder.FinalText(ps[i].data)
        && f.nextReadOrder == i + 1
    {
      FrameOfFile(ps, i);
    }
  }

  /** Frame `i` of a file's packets, each packet one block. */
  lemma FrameOfFile(ps: seq<Demuxer.Packet>, i: nat)
    requires forall j :: 0 <= j < |ps| ==> IsBlock(ps[j].data)
    requires i < |ps|
    ensures |DecodePackets(ps, 0)| == |ps|
    ensures var f := DecodePackets(ps, 0)[i];
      && f == Decoder.DecodeFrame(ps[i].data, ps[i].duration, i)
      && f.gotSubtitle
      && |f.rects| == 1 && f.rects[0].readOrder == i
      && f.rects[0].text == Decoder.FinalText(ps[i].data)
      && f.nextReadOrder == i + 1
  {
    BlocksBeforeOfBlocks(ps, i);
    DecodePacketsAt(ps, 0, i);
    OneBlockFrame(ps[i].data, ps[i].duration, i);
  }

  /** A file of one block stamped 10:00:05:00 to 10:00:07:00: one packet at
      5000 ms lasting 2000 ms, decoded to one rectangle shown for 2000 ms. */
  lemma OneCueExample(stream: seq<Byte>)
    requires |stream| == HeaderSize + BlockSize
    requires stream[HeaderSize + 5..HeaderSize + 9] == [10, 0, 5, 0]
    requires stream[HeaderSize + 9..HeaderSize + 13] == [10, 0, 7, 0]
    ensures |Demuxer.Packets(stream)| == 1
    ensures Demuxer.Packets(stream)[0].pts == 5000
    ensures Demuxer.Packets(stream)[0].duration == 2000
    ensures DecodePackets(Demuxer.Packets(stream), 0)
      == [Decoder.Frame([Decoder.Rect(Decoder.FinalText(stream[HeaderSize..]), 0)], true, Some(2000), 1)]
  {
    OneCuePacket(stream);
    var ps := Demuxer.Packets(stream);
    var block := stream[HeaderSize..];
    assert ps[0].data == block;
    assert DecodePackets(ps, 0) == [Decoder.DecodeFrame(block, 2000, 0)] + DecodePackets(ps[1..], 1) by {
      Decoder.DecodeFrameCounts(block, 2000, 0);
    }
    OneBlockFrame(block, 2000, 0);
  }

  lemma OneCuePacket(stream: seq<Byte>)
    requires |stream| == HeaderSize + BlockSize
    requires stream[HeaderSize + 5..HeaderSize + 9] == [10, 0, 5, 0]
    requires stream[HeaderSize + 9..HeaderSize + 13] == [10, 0, 7, 0]
    ensures |Demuxer.Packets(stream)| == 1
    ensures Demuxer.Packets(stream)[0].data == stream[HeaderSize..]
    ensures Demuxer.Packets(stream)[0].pts == 5000
    ensures Demuxer.Packets(stream)[0].duration == 2000
  {
    var ps := Demuxer.Packets(stream);
    Demuxer.PacketsOfFile(stream);
    var p := ps[0];
    assert p.data == stream[HeaderSize..];
    assert p.data[5..9] == [10, 0, 5, 0];
    assert p.data[9..13] == [10, 0, 7, 0];
    Timecode.BiasExamples();
    assert Timecode.ToPts([10, 0, 7, 0]) == 7000;
  }
}
