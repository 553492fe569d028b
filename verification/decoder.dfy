/** The frame decoder: every complete 128-byte block of a packet becomes one
    ASS rectangle, its markup wrapped in an alignment tag computed from the
    block's vertical position and justification code and a border tag. */
module Decoder {
  import opened Tti
  import opened Wrappers
  import Markup

  /** ASS's numpad alignment, 1 to 9: 1 to 3 along the bottom, 7 to 9 along
      the top, the left column 1, 4, 7. */
  type Numpad = an: int | 1 <= an <= 9 witness 2

  predicate IsLeft(an: Numpad) { an % 3 == 1 }
  predicate IsRight(an: Numpad) { an % 3 == 0 }
  predicate IsBottom(an: Numpad) { an <= 3 }
  predicate IsTop(an: Numpad) { an >= 7 }

  /** Column from the justification code: 1 left, 2 centred, 3 right;
      every other value centres. */
  function HorizontalAlignment(justification: Byte): (h: int)
    ensures 1 <= h <= 3
    ensures h == 1 <==> justification == 0x01
    ensures h == 3 <==> justification == 0x03
  {
    if justification == 0x01 then 1
    else if justification == 0x02 then 2
    else if justification == 0x03 then 3
    else 2
  }

  /** Row from the vertical position: 3 below 8, 2 from 8 to 16, 1 above
      16. Row 3 gives the numpad codes 7 to 9, which ASS places at the top;
      teletext rows are numbered from the top of the screen. */
  function VerticalAlignment(position: Byte): (v: int)
    ensures 1 <= v <= 3
    ensures v == 3 <==> position < 8
    ensures v == 1 <==> position > 16
  {
    if position < 8 then 3
    else if 8 <= position <= 16 then 2
    else 1
  }

  /** The numpad code `(v - 1) * 3 + h`. */
  function Alignment(position: Byte, justification: Byte): (an: Numpad)
    ensures (an - 1) % 3 + 1 == HorizontalAlignment(justification)
    ensures (an - 1) / 3 + 1 == VerticalAlignment(position)
  {
    (VerticalAlignment(position) - 1) * 3 + HorizontalAlignment(justification)
  }

  /** Where the text lands: justification 1 sets it to the left, 3 to the
      right; a vertical position below 8 puts it at the top of the picture
      and one above 16 at the bottom, as the rows count from the top. */
  lemma AlignmentMeaning(position: Byte, justification: Byte)
    ensures IsLeft(Alignment(position, justification)) <==> justification == 0x01
    ensures IsRight(Alignment(position, justification)) <==> justification == 0x03
    ensures IsTop(Alignment(position, justification)) <==> position < 8
    ensures IsBottom(Alignment(position, justification)) <==> position > 16
  {
  }

  /** Different rows or columns give different codes: the code loses
      nothing of the pair. */
  lemma AlignmentInjective(p1: Byte, j1: Byte, p2: Byte, j2: Byte)
    requires Alignment(p1, j1) == Alignment(p2, j2)
    ensures VerticalAlignment(p1) == VerticalAlignment(p2)
    ensures HorizontalAlignment(j1) == HorizontalAlignment(j2)
  {
  }

  lemma AlignmentExamples()
    ensures Alignment(5, 1) == 7
    ensures Alignment(12, 2) == 5
    ensures Alignment(20, 3) == 3
    ensures Alignment(0, 0x7F) == 8
  {
  }

  /** A larger vertical position, a lower row, never gives a higher
      numpad code. */
  lemma AlignmentMonotone(p1: Byte, p2: Byte, justification: Byte)
    requires p1 <= p2
    ensures Alignment(p1, justification) >= Alignment(p2, justification)
  {
  }

  /** The alignment override tag, `{\anN}`. */
  function AlignmentTag(an: Numpad): (tag: string)
    ensures |tag| == 6
  {
    "{\\an" + ['0' + an as char] + "}"
  }

  /** The digit of the tag reads back as the code. */
  lemma AlignmentTagDigit(an: Numpad)
    ensures AlignmentTag(an)[..4] == "{\\an" && AlignmentTag(an)[5] == '}'
    ensures '1' <= AlignmentTag(an)[4] <= '9'
    ensures AlignmentTag(an)[4] as int - '0' as int == an
  {
  }

  /** The border width tag closing every rectangle. */
  const BorderTag := "{\\bord3}"

  /** The text of one block's rectangle. */
  function FinalText(block: seq<Byte>): (text: string)
    requires IsBlock(block)
    ensures |text| > |AlignmentTag(1)| + |BorderTag|
    ensures AlignmentTag(Alignment(block[VerticalPositionOffset], block[JustificationOffset])) <= text
  {
    var an := Alignment(block[VerticalPositionOffset], block[JustificationOffset]);
    AlignmentTag(an) + Markup.ExtractTextAndColors(block) + BorderTag
  }

  /** The rectangle text splits back into its three parts: the tag of the
      block's own alignment, the block's markup, the border tag. */
  lemma FinalTextParts(block: seq<Byte>)
    requires IsBlock(block)
    ensures var text, n := FinalText(block), |FinalText(block)|;
      && text[..6] == AlignmentTag(Alignment(block[VerticalPositionOffset], block[JustificationOffset]))
      && text[6..n - 8] == Markup.ExtractTextAndColors(block)
      && text[n - 8..] == BorderTag
  {
  }

  /** One subtitle rectangle: its ASS text and its read order. */
  datatype Rect = Rect(text: string, readOrder: nat)

  /** The blocks of `data` as the decode loop walks them: one rectangle per
      complete block, numbered from `readOrder` on; a remainder shorter than
      a block is left alone. */
  function DecodeBlocks(data: seq<Byte>, readOrder: nat): seq<Rect>
    decreases |data|, 1
  {
    if |data| < BlockSize then [] else DecodeBlock(data[..BlockSize], data[BlockSize..], readOrder)
  }

  /** One turn of the decode loop over `block`, followed by the turns over
      `rest`. The loop's skip of empty markup is kept, but the markup always
      starts with colour tags, so it never fires. */
  function DecodeBlock(block: seq<Byte>, rest: seq<Byte>, readOrder: nat): seq<Rect>
    requires IsBlock(block)
    decreases |block| + |rest|, 0
  {
    if |Markup.ExtractTextAndColors(block)| == 0 then assert false; []
    else [Rect(FinalText(block), readOrder)] + DecodeBlocks(rest, readOrder + 1)
  }

  /** Block `i` of the data, `i` counted from 0. */
  function BlockAt(data: seq<Byte>, i: nat): (block: seq<Byte>)
    requires (i + 1) * BlockSize <= |data|
    ensures IsBlock(block)
  {
    data[i * BlockSize..(i + 1) * BlockSize]
  }

  /** One rectangle per complete block, in order, carrying that block's
      final text and the next read order. */
  lemma {:induction false} DecodeBlocksPerBlock(data: seq<Byte>, readOrder: nat)
    ensures |DecodeBlocks(data, readOrder)| == |data| / BlockSize
    ensures forall i :: 0 <= i < |DecodeBlocks(data, readOrder)| ==>
      DecodeBlocks(data, readOrder)[i] == Rect(FinalText(BlockAt(data, i)), readOrder + i)
    decreases |data|
  {
    if |data| >= BlockSize {
      var rest := data[BlockSize..];
      DecodeBlocksPerBlock(rest, readOrder + 1);
      var rs, tail := DecodeBlocks(data, readOrder), DecodeBlocks(rest, readOrder + 1);
      assert rs == DecodeBlock(data[..BlockSize], rest, readOrder);
      assert rs == [Rect(FinalText(data[..BlockSize]), readOrder)] + tail;
      assert |data| / BlockSize == |rest| / BlockSize + 1;
      forall i | 0 <= i < |rs|
        ensures rs[i] == Rect(FinalText(BlockAt(data, i)), readOrder + i)
      {
        if i > 0 {
          assert rs[i] == tail[i - 1];
          BlockAtShift(data, i);
        }
      }
    }
  }

  /** One turn of the decode loop. */
  lemma DecodeBlocksStep(data: seq<Byte>, readOrder: nat)
    requires |data| >= BlockSize
    ensures DecodeBlocks(data, readOrder)
      == [Rect(FinalText(data[..BlockSize]), readOrder)] + DecodeBlocks(data[BlockSize..], readOrder + 1)
  {
    assert DecodeBlocks(data, readOrder) == DecodeBlock(data[..BlockSize], data[BlockSize..], readOrder);
  }

  /** Block `i` of `data` is block `i - 1` of what follows the first. */
  lemma BlockAtShift(data: seq<Byte>, i: nat)
    requires 0 < i && (i + 1) * BlockSize <= |data|
    ensures BlockAt(data[BlockSize..], i - 1) == BlockAt(data, i)
  {
    assert BlockSize + (i - 1) * BlockSize == i * BlockSize;
    assert BlockSize + i * BlockSize == (i + 1) * BlockSize;
  }

  /** What one call of the decoder produces. */
  datatype Frame = Frame(rects: seq<Rect>, gotSubtitle: bool, endDisplayTime: Option<int>, nextReadOrder: nat)

  const Uint32Modulus: int := 0x1_0000_0000

  /** The end display time field is 32 bits unsigned: the packet duration
      in milliseconds, reduced modulo 2^32 as the C conversion does. */
  function EndDisplayTime(duration: int): (t: int)
    ensures 0 <= t < Uint32Modulus
    ensures 0 <= duration < Uint32Modulus ==> t == duration
    ensures -Uint32Modulus <= duration < 0 ==> t == duration + Uint32Modulus
  {
    duration % Uint32Modulus
  }

  /** Decoding one packet, given its duration and the read order reached
      so far. A subtitle is reported when a rectangle was added; the end
      display time is set only then. */
  function DecodeFrame(packet: seq<Byte>, duration: int, readOrder: nat): (f: Frame)
    ensures f.rects == DecodeBlocks(packet, readOrder)
    ensures f.gotSubtitle <==> |packet| >= BlockSize
    ensures f.endDisplayTime.Some? <==> f.gotSubtitle
    ensures f.nextReadOrder == readOrder + |packet| / BlockSize
  {
    DecodeBlocksPerBlock(packet, readOrder);
    var rects := DecodeBlocks(packet, readOrder);
    Frame(rects, |rects| > 0, if |rects| > 0 then Some(EndDisplayTime(duration)) else None,
          readOrder + |rects|)
  }

  /** A packet holding at least one complete block always yields a
      subtitle, one rectangle per complete block, and moves the read order
      on by that count; a shorter packet yields nothing. */
  lemma DecodeFrameCounts(packet: seq<Byte>, duration: int, readOrder: nat)
    ensures var f := DecodeFrame(packet, duration, readOrder);
      && |f.rects| == |packet| / BlockSize
      && (forall j :: 0 <= j < |f.rects| ==> f.rects[j].readOrder == readOrder + j)
      && f.nextReadOrder == readOrder + |packet| / BlockSize
      && (f.gotSubtitle <==> |packet| >= BlockSize)
      && (f.endDisplayTime.Some? <==> |packet| >= BlockSize)
      && (f.endDisplayTime.Some? ==> f.endDisplayTime.value == EndDisplayTime(duration))
  {
    DecodeBlocksPerBlock(packet, readOrder);
  }
}
