/** The per-line colour scanner of the subtitle decoder and the two tables
    that turn colour codes into ASS colour tags. Colour codes are the
    code's own: text codes 0x00 to 0x07 with 0 meaning white, background
    codes 0x10 to 0x17 taken modulo 8 with 7 meaning black. */
module Colors {
  import opened Tti

  /** A colour code, 0 to 7. */
  type Code = c: int | 0 <= c < 8

  /** The text and background colour in effect on a line. */
  datatype ColorPair = ColorPair(text: Code, background: Code)

  /** White text on black, the state at the start of every line. */
  const Default := ColorPair(0, 7)

  predicate IsTextCode(b: Byte) {
    b <= 0x07
  }

  predicate IsBackgroundCode(b: Byte) {
    0x10 <= b <= 0x17
  }

  /** The effect of one byte of the current line. `b % 8` is the code's
      `b & 0x07` on these non-negative values. */
  function Apply(c: ColorPair, b: Byte): ColorPair {
    if IsTextCode(b) then c.(text := b)
    else if IsBackgroundCode(b) then c.(background := b % 8)
    else c
  }

  /** `seg[i]` is the last text code of `seg`. */
  predicate LastTextCodeAt(seg: seq<Byte>, i: int) {
    0 <= i < |seg| && IsTextCode(seg[i]) && forall j :: i < j < |seg| ==> !IsTextCode(seg[j])
  }

  /** `seg[i]` is the last background code of `seg`. */
  predicate LastBackgroundCodeAt(seg: seq<Byte>, i: int) {
    0 <= i < |seg| && IsBackgroundCode(seg[i]) && forall j :: i < j < |seg| ==> !IsBackgroundCode(seg[j])
  }

  /** The colours after the bytes of one line, starting from `c`: the last
      text code wins (or `c`'s text colour stays when there is none), and
      likewise for background codes. */
  function ApplyAll(c: ColorPair, seg: seq<Byte>): ColorPair
    decreases |seg|
  {
    if |seg| == 0 then c else ApplyAll(Apply(c, seg[0]), seg[1..])
  }

  /** The last text code of a line decides its text colour, and the last
      background code its background; without one the start colour stays. */
  lemma {:induction false} ApplyAllLastCodeWins(c: ColorPair, seg: seq<Byte>)
    ensures (forall i :: 0 <= i < |seg| ==> !IsTextCode(seg[i])) ==> ApplyAll(c, seg).text == c.text
    ensures forall i :: LastTextCodeAt(seg, i) ==> ApplyAll(c, seg).text == seg[i]
    ensures (forall i :: 0 <= i < |seg| ==> !IsBackgroundCode(seg[i])) ==> ApplyAll(c, seg).background == c.background
    ensures forall i :: LastBackgroundCodeAt(seg, i) ==> ApplyAll(c, seg).background == seg[i] % 8
    decreases |seg|
  {
    if |seg| > 0 {
      var c', tail := Apply(c, seg[0]), seg[1..];
      ApplyAllLastCodeWins(c', tail);
      var r := ApplyAll(c, seg);
      assert r == ApplyAll(c', tail);
      assert forall i :: 1 <= i < |seg| ==> seg[i] == tail[i - 1];
      forall i | LastTextCodeAt(seg, i) ensures r.text == seg[i] {
        if i > 0 {
          assert LastTextCodeAt(tail, i - 1);
        } else {
          assert forall j :: 0 <= j < |tail| ==> !IsTextCode(tail[j]);
        }
      }
      forall i | LastBackgroundCodeAt(seg, i) ensures r.background == seg[i] % 8 {
        if i > 0 {
          assert LastBackgroundCodeAt(tail, i - 1);
        } else {
          assert forall j :: 0 <= j < |tail| ==> !IsBackgroundCode(tail[j]);
        }
      }
    }
  }

  /** The scan as the code runs it over the text field: `line` counts the
      newline codes met so far; colour bytes count only on line `k`; each
      newline resets the colours; the scan stops at the newline that ends
      line `k`. End-of-text codes do not stop it. */
  function ScanFrom(s: seq<Byte>, k: nat, line: nat, c: ColorPair): (r: ColorPair)
    ensures line == k && NewLine !in s ==> r == ApplyAll(c, s)
    ensures line < k && c == Default && NewLineCount(s) < k - line ==> r == Default
    decreases |s|
  {
    if |s| == 0 then c
    else if s[0] == NewLine then
      if line + 1 > k then c else ScanFrom(s[1..], k, line + 1, Default)
    else if line == k then ScanFrom(s[1..], k, line, Apply(c, s[0]))
    else ScanFrom(s[1..], k, line, c)
  }

  /** The bytes the colour scan reads: offsets 16 to 127. */
  function ColorField(block: seq<Byte>): (f: seq<Byte>)
    requires IsBlock(block)
    ensures |f| == TextFieldLength
  {
    block[TextFieldOffset..TextFieldOffset + TextFieldLength]
  }

  /** The colours of line `k` of a block, as the code's scan finds them. */
  function ExtractColors(block: seq<Byte>, k: nat): (c: ColorPair)
    requires IsBlock(block)
    ensures k == 0 && NewLine !in ColorField(block) ==> c == ApplyAll(Default, ColorField(block))
    ensures NewLineCount(ColorField(block)) < k ==> c == Default
  {
    ScanFrom(ColorField(block), k, 0, Default)
  }

  /** The colours of line `k` of a block are those its own bytes set,
      counting lines by newline codes in the text field, and the defaults
      when the field has fewer lines. */
  lemma ExtractColorsByLine(block: seq<Byte>, k: nat)
    requires IsBlock(block)
    ensures var lines := Lines(ColorField(block));
      ExtractColors(block, k) == if k < |lines| then ApplyAll(Default, lines[k]) else Default
  {
    ScanMatchesLines(ColorField(block), k, 0, Default);
  }

  /** The scan from line `line` on agrees with applying the bytes of line
      `k` of the remaining input. */
  lemma {:induction false} ScanMatchesLines(s: seq<Byte>, k: nat, line: nat, c: ColorPair)
    requires line <= k
    requires line < k ==> c == Default
    ensures var lines := Lines(s);
      ScanFrom(s, k, line, c)
      == if line == k then ApplyAll(c, lines[0])
         else if k - line < |lines| then ApplyAll(Default, lines[k - line])
         else Default
    decreases |s|
  {
    if |s| == 0 {
    } else {
      var lines, rest := Lines(s), Lines(s[1..]);
      if s[0] == NewLine {
        assert lines == [[]] + rest;
        if line < k {
          ScanMatchesLines(s[1..], k, line + 1, Default);
        }
      } else {
        assert lines == [[s[0]] + rest[0]] + rest[1..];
        if line == k {
          ScanMatchesLines(s[1..], k, line, Apply(c, s[0]));
          assert ([s[0]] + rest[0])[1..] == rest[0];
        } else {
          ScanMatchesLines(s[1..], k, line, c);
        }
      }
    }
  }

  /** The colour names the code gives text codes in its diagnostics. */
  datatype Color = White | Red | Green | Yellow | Blue | Magenta | Cyan | Black

  function TextColorName(c: Code): Color {
    [White, Red, Green, Yellow, Blue, Magenta, Cyan, Black][c]
  }

  /** The colour names the code gives background codes in its diagnostics. */
  function BackgroundColorName(c: Code): Color {
    [White, Yellow, Green, Blue, Red, Magenta, Cyan, Black][c]
  }

  /** The hex digits of a colour in ASS's blue-green-red order. */
  function Bgr(color: Color): string {
    match color
    case White => "FFFFFF"
    case Red => "0000FF"
    case Green => "00FF00"
    case Yellow => "00FFFF"
    case Blue => "FF0000"
    case Magenta => "FF00FF"
    case Cyan => "FFFF00"
    case Black => "000000"
  }

  /** The text colour tag of the first line, indexed by code. */
  function FirstTextColorTag(c: Code): string {
    [
     "{\\c&HFFFFFF&}",
     "{\\c&H0000FF&}",
     "{\\c&H00FF00&}",
     "{\\c&H00FFFF&}",
     "{\\c&HFF0000&}",
     "{\\c&HFF00FF&}",
     "{\\c&HFFFF00&}",
     "{\\c&H000000&}"
    ][c]
  }

  /** The text colour tag of every later line: a second table whose entries
      for codes 1 and 4 are exchanged. */
  function LaterTextColorTag(c: Code): string {
    [
     "{\\c&HFFFFFF&}",
     "{\\c&HFF0000&}",
     "{\\c&H00FF00&}",
     "{\\c&H00FFFF&}",
     "{\\c&H0000FF&}",
     "{\\c&HFF00FF&}",
     "{\\c&HFFFF00&}",
     "{\\c&H000000&}"
    ][c]
  }

  /** The border (background) colour tag, the same on every line. */
  function BorderColorTag(c: Code): string {
    [
     "{\\3c&HFFFFFF&}",
     "{\\3c&H00FFFF&}",
     "{\\3c&H00FF00&}",
     "{\\3c&HFF0000&}",
     "{\\3c&H0000FF&}",
     "{\\3c&HFF00FF&}",
     "{\\3c&HFFFF00&}",
     "{\\3c&H000000&}"
    ][c]
  }

  /** The first-line table renders every text code in the colour the code
      names it. */
  lemma FirstTextTableMatchesNames(c: Code)
    ensures FirstTextColorTag(c) == "{\\c&H" + Bgr(TextColorName(c)) + "&}"
  {
  }

  /** Red and blue exchanged. */
  function SwapRedBlue(color: Color): Color {
    match color
    case Red => Blue
    case Blue => Red
    case _ => color
  }

  /** The later-line table renders red text blue and blue text red, and
      agrees with the first-line table on every other code. */
  lemma LaterTextTableSwapsRedAndBlue(c: Code)
    ensures LaterTextColorTag(c) == "{\\c&H" + Bgr(SwapRedBlue(TextColorName(c))) + "&}"
    ensures LaterTextColorTag(c) == FirstTextColorTag(c) <==> c != 1 && c != 4
  {
    if c == 1 || c == 4 {
      assert LaterTextColorTag(c)[5] != FirstTextColorTag(c)[5];
    }
  }

  /** The border table renders every background code in the colour the
      code names it. */
  lemma BorderTableMatchesNames(c: Code)
    ensures BorderColorTag(c) == "{\\3c&H" + Bgr(BackgroundColorName(c)) + "&}"
  {
  }
}
