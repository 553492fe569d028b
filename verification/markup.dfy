/** The ASS markup builder of the subtitle decoder: one pass over a TTI
    block from offset 13 that collects bytes of 0x20 and above into the
    current line, transcodes and appends each finished line, emits the
    colour tags of each new line, and stops at the end-of-text code. */
module Markup {
  import opened Tti
  import opened Colors
  import opened Wrappers
  import Iso6937

  /** The colour tags in front of the first line. */
  function FirstTags(c: ColorPair): string {
    FirstTextColorTag(c.text) + BorderColorTag(c.background)
  }

  /** The colour tags in front of every later line. */
  function LaterTags(c: ColorPair): string {
    LaterTextColorTag(c.text) + BorderColorTag(c.background)
  }

  /** ASS's hard line break. */
  const LineBreak := "\\N"

  /** The smallest byte the text pass keeps. */
  const FirstPrintable: Byte := 0x20

  /** What a finished line adds to the markup: nothing when it is empty,
      otherwise its transcoded text, after a line break unless it is the
      first line. */
  function LineText(line: seq<Byte>, index: nat): string {
    if |line| == 0 then ""
    else if index > 0 then LineBreak + Iso6937.Transcode(line)
    else Iso6937.Transcode(line)
  }

  /** The state of the text pass: the markup so far, the bytes of the
      current line, and the number of newline codes passed. */
  datatype TextState = TextState(ass: string, line: seq<Byte>, count: nat)

  /** The markup once the current line is appended. */
  function Flush(st: TextState): string {
    st.ass + LineText(st.line, st.count)
  }

  /** The text pass as the code runs it, over the remaining bytes `s`. A
      newline finishes the current line and appends the colour tags of the
      next one, looked up by its index; the end-of-text code stops the
      pass; other bytes of 0x20 and above join the line; the rest,
      colour codes among them, are dropped. */
  function TextPass(block: seq<Byte>, s: seq<Byte>, st: TextState): TextState
    requires IsBlock(block)
    decreases |s|
  {
    if |s| == 0 then st
    else if s[0] == NewLine then
      var next := st.count + 1;
      TextPass(block, s[1..], TextState(Flush(st) + LaterTags(ExtractColors(block, next)), [], next))
    else if s[0] == EndOfText then st
    else if s[0] >= FirstPrintable then TextPass(block, s[1..], st.(line := st.line + [s[0]]))
    else TextPass(block, s[1..], st)
  }

  /** The pass counts one line per newline code before the end-of-text
      code, and no more: the count it ends with is the index of the last
      line, which picks that line's colour tags. */
  lemma {:induction false} TextPassCountsLines(block: seq<Byte>, s: seq<Byte>, st: TextState)
    requires IsBlock(block)
    ensures TextPass(block, s, st).count == st.count + NewLineCount(UpToEnd(s))
    decreases |s|
  {
    if |s| > 0 && s[0] != EndOfText {
      assert UpToEnd(s) == [s[0]] + UpToEnd(s[1..]);
      assert ([s[0]] + UpToEnd(s[1..]))[1..] == UpToEnd(s[1..]);
      if s[0] == NewLine {
        var next := st.count + 1;
        TextPassCountsLines(block, s[1..], TextState(Flush(st) + LaterTags(ExtractColors(block, next)), [], next));
      } else if s[0] >= FirstPrintable {
        TextPassCountsLines(block, s[1..], st.(line := st.line + [s[0]]));
      } else {
        TextPassCountsLines(block, s[1..], st);
      }
    }
  }

  /** The bytes the text pass reads: offsets 13 to 127. */
  function TextRegion(block: seq<Byte>): (s: seq<Byte>)
    requires IsBlock(block)
    ensures |s| == BlockSize - TextPassOffset
  {
    block[TextPassOffset..]
  }

  /** The bytes before the first end-of-text code. */
  function UpToEnd(s: seq<Byte>): (r: seq<Byte>)
    ensures EndOfText !in r
    ensures |r| <= |s| && r == s[..|r|]
    ensures |r| < |s| ==> s[|r|] == EndOfText
    decreases |s|
  {
    if |s| == 0 || s[0] == EndOfText then []
    else
      [s[0]] + UpToEnd(s[1..])
  }

  /** The bytes of 0x20 and above, in order. */
  function Printable(s: seq<Byte>): (r: seq<Byte>)
    ensures |r| <= |s|
    ensures forall i :: 0 <= i < |r| ==> r[i] >= FirstPrintable
    decreases |s|
  {
    if |s| == 0 then []
    else (if s[0] >= FirstPrintable then [s[0]] else []) + Printable(s[1..])
  }

  /** Lines from index `index` on: each after the colour tags of its own
      index, from the later-line table. */
  function RenderLaterLines(block: seq<Byte>, lines: seq<seq<Byte>>, index: nat): string
    requires IsBlock(block)
    decreases |lines|
  {
    if |lines| == 0 then ""
    else
      LaterTags(ExtractColors(block, index)) + LineText(Printable(lines[0]), index)
      + RenderLaterLines(block, lines[1..], index + 1)
  }

  /** The lines the text pass sees: the text region up to the end-of-text
      code, split at newline codes. */
  function TextLines(block: seq<Byte>): (ls: seq<seq<Byte>>)
    requires IsBlock(block)
    ensures |ls| > 0
  {
    Lines(UpToEnd(TextRegion(block)))
  }

  function InitialState(block: seq<Byte>): TextState
    requires IsBlock(block)
  {
    TextState(FirstTags(ExtractColors(block, 0)), [], 0)
  }

  /** The markup of one block, as the text pass leaves it. It starts with
      the first line's colour tags, so it is never empty. */
  function ExtractTextAndColors(block: seq<Byte>): (r: string)
    requires IsBlock(block)
    ensures FirstTags(ExtractColors(block, 0)) <= r
    ensures |r| > 0
  {
    var st := InitialState(block);
    MarkupByLines(block);
    Flush(TextPass(block, TextRegion(block), st))
  }

  /** The markup line by line: the first line's colour tags and text, then
      for every later line its colour tags and, when it has text, a line
      break and the text. */
  lemma MarkupByLines(block: seq<Byte>)
    requires IsBlock(block)
    ensures var ls := TextLines(block);
      Flush(TextPass(block, TextRegion(block), InitialState(block)))
      == FirstTags(ExtractColors(block, 0)) + Iso6937.Transcode(Printable(ls[0]))
         + RenderLaterLines(block, ls[1..], 1)
  {
    var st := InitialState(block);
    TextPassRendersLines(block, TextRegion(block), st);
    assert st.line + Printable(TextLines(block)[0]) == Printable(TextLines(block)[0]);
  }

  /** The text pass from any state agrees with the line-by-line rendering
      of the remaining bytes. */
  lemma {:induction false} TextPassRendersLines(block: seq<Byte>, s: seq<Byte>, st: TextState)
    requires IsBlock(block)
    ensures var ls := Lines(UpToEnd(s));
      Flush(TextPass(block, s, st))
      == st.ass + LineText(st.line + Printable(ls[0]), st.count) + RenderLaterLines(block, ls[1..], st.count + 1)
    decreases |s|
  {
    if |s| == 0 || s[0] == EndOfText {
      EndRenders(block, s, st);
    } else if s[0] == NewLine {
      var next := st.count + 1;
      var st' := TextState(Flush(st) + LaterTags(ExtractColors(block, next)), [], next);
      TextPassStep(block, s, st);
      TextPassRendersLines(block, s[1..], st');
      NewLineRenders(block, s, st, Flush(TextPass(block, s[1..], st')));
    } else if s[0] >= FirstPrintable {
      var st' := st.(line := st.line + [s[0]]);
      TextPassStep(block, s, st);
      TextPassRendersLines(block, s[1..], st');
      OtherByteRenders(block, s, st, st'.line, Flush(TextPass(block, s[1..], st')));
    } else {
      TextPassStep(block, s, st);
      TextPassRendersLines(block, s[1..], st);
      OtherByteRenders(block, s, st, st.line, Flush(TextPass(block, s[1..], st)));
    }
  }

  /** At the end of the bytes, or at the end-of-text code, the pass stops
      and only the current line remains to render. */
  lemma EndRenders(block: seq<Byte>, s: seq<Byte>, st: TextState)
    requires IsBlock(block) && (|s| == 0 || s[0] == EndOfText)
    ensures var ls := Lines(UpToEnd(s));
      Flush(TextPass(block, s, st))
      == st.ass + LineText(st.line + Printable(ls[0]), st.count) + RenderLaterLines(block, ls[1..], st.count + 1)
  {
    assert UpToEnd(s) == [];
    var ls := Lines(UpToEnd(s));
    assert ls == [[]];
    assert st.line + Printable(ls[0]) == st.line;
    assert RenderLaterLines(block, ls[1..], st.count + 1) == "";
    assert TextPass(block, s, st) == st;
    assert Flush(st) + "" == Flush(st);
  }

  /** Rendering after a newline code, regrouped: the current line is
      finished, and the lines after the code follow with their tags. */
  lemma NewLineRenders(block: seq<Byte>, s: seq<Byte>, st: TextState, x: string)
    requires IsBlock(block) && |s| > 0 && s[0] == NewLine
    requires var next, rest := st.count + 1, Lines(UpToEnd(s[1..]));
      x == Flush(st) + LaterTags(ExtractColors(block, next)) + LineText([] + Printable(rest[0]), next)
           + RenderLaterLines(block, rest[1..], next + 1)
    ensures var ls := Lines(UpToEnd(s));
      x == st.ass + LineText(st.line + Printable(ls[0]), st.count) + RenderLaterLines(block, ls[1..], st.count + 1)
  {
    var next := st.count + 1;
    var tags := LaterTags(ExtractColors(block, next));
    NewLineSplits(s, st.line);
    var rest := Lines(UpToEnd(s[1..]));
    assert [] + Printable(rest[0]) == Printable(rest[0]);
    var text := LineText(Printable(rest[0]), next);
    var later := RenderLaterLines(block, rest[1..], next + 1);
    assert RenderLaterLines(block, rest, next) == tags + text + later;
    ConcatRegroup(st.ass, LineText(st.line, st.count), tags, text, later);
  }

  /** Rendering after any other byte, regrouped: the byte joined the
      current line, or was dropped, and the later lines are unchanged. */
  lemma OtherByteRenders(block: seq<Byte>, s: seq<Byte>, st: TextState, line: seq<Byte>, x: string)
    requires IsBlock(block) && |s| > 0 && s[0] != NewLine && s[0] != EndOfText
    requires line == if s[0] >= FirstPrintable then st.line + [s[0]] else st.line
    requires var rest := Lines(UpToEnd(s[1..]));
      x == st.ass + LineText(line + Printable(rest[0]), st.count) + RenderLaterLines(block, rest[1..], st.count + 1)
    ensures var ls := Lines(UpToEnd(s));
      x == st.ass + LineText(st.line + Printable(ls[0]), st.count) + RenderLaterLines(block, ls[1..], st.count + 1)
  {
    OtherByteExtendsLine(s, st.line);
  }

  /** A newline in front closes an empty line and leaves the rest's lines. */
  lemma NewLineSplits(s: seq<Byte>, line: seq<Byte>)
    requires |s| > 0 && s[0] == NewLine
    ensures var ls, rest := Lines(UpToEnd(s)), Lines(UpToEnd(s[1..]));
      line + Printable(ls[0]) == line && ls[1..] == rest
  {
    assert UpToEnd(s) == [s[0]] + UpToEnd(s[1..]);
    var ls, rest := Lines(UpToEnd(s)), Lines(UpToEnd(s[1..]));
    assert ls == [[]] + rest;
    assert line + [] == line;
  }

  /** Any other byte in front joins the first line, if it is printable, and
      leaves the later lines alone. */
  lemma OtherByteExtendsLine(s: seq<Byte>, line: seq<Byte>)
    requires |s| > 0 && s[0] != NewLine && s[0] != EndOfText
    ensures var ls, rest := Lines(UpToEnd(s)), Lines(UpToEnd(s[1..]));
      && ls[1..] == rest[1..]
      && line + Printable(ls[0])
         == (if s[0] >= FirstPrintable then line + [s[0]] else line) + Printable(rest[0])
  {
    var rest := Lines(UpToEnd(s[1..]));
    var u := UpToEnd(s);
    assert u == [s[0]] + UpToEnd(s[1..]);
    assert u[1..] == UpToEnd(s[1..]);
    var first := [s[0]] + rest[0];
    LinesCons(u);
    assert Lines(u) == [first] + rest[1..];
    PrintableCons(first);
    assert first[1..] == rest[0];
    if s[0] >= FirstPrintable {
      AppendAssoc(line, [s[0]], Printable(rest[0]));
    } else {
      assert [] + Printable(rest[0]) == Printable(rest[0]);
    }
  }

  /** Regrouping of concatenations, stated once so that the proofs above
      need not search for it. */
  lemma ConcatRegroup<T>(a: seq<T>, b: seq<T>, c: seq<T>, d: seq<T>, e: seq<T>)
    ensures a + b + c + d + e == a + b + (c + d + e)
  {
  }

  lemma AppendAssoc<T>(a: seq<T>, b: seq<T>, c: seq<T>)
    ensures (a + b) + c == a + (b + c)
  {
  }

  lemma LinesCons(u: seq<Byte>)
    requires |u| > 0 && u[0] != NewLine
    ensures Lines(u) == [[u[0]] + Lines(u[1..])[0]] + Lines(u[1..])[1..]
  {
  }

  lemma PrintableCons(u: seq<Byte>)
    requires |u| > 0
    ensures Printable(u) == (if u[0] >= FirstPrintable then [u[0]] else []) + Printable(u[1..])
  {
  }

  /** The line buffer the code allocates: twice the block size. */
  const LineBufferSize: nat := BlockSize * 2

  /** The markup built as the code builds it, with the line bytes held in a
      buffer of `LineBufferSize` bytes: at most 115 bytes are ever stored
      in it, so every write and the terminator after them are in bounds. */
  method BuildMarkup(block: seq<Byte>) returns (ass: string)
    requires IsBlock(block)
    ensures ass == ExtractTextAndColors(block)
  {
    ghost var goal := ExtractTextAndColors(block);
    var colors := ExtractColors(block, 0);
    ass := FirstTags(colors);
    var line: seq<Byte> := [];
    var count: nat := 0;
    var i := TextPassOffset;
    while i < BlockSize
      invariant TextPassOffset <= i <= BlockSize
      invariant |line| <= i - TextPassOffset
      invariant Flush(TextPass(block, block[i..], TextState(ass, line, count))) == goal
      decreases BlockSize - i
    {
      var stop;
      ass, line, count, stop := ScanByte(block, i, ass, line, count);
      if stop {
        break;
      }
      i := i + 1;
    }
    assert TextPass(block, block[i..], TextState(ass, line, count)) == TextState(ass, line, count);
    assert |line| < LineBufferSize;
    ass := AppendLine(ass, line, count);
  }

  /** One turn of the markup loop over the byte at `i`: a newline appends
      the finished line and the next line's colour tags, the end-of-text
      code stops the loop, a byte of 0x20 and above is stored in the line
      buffer, in bounds. */
  method ScanByte(block: seq<Byte>, i: nat, ass: string, line: seq<Byte>, count: nat)
    returns (ass': string, line': seq<Byte>, count': nat, stop: bool)
    requires IsBlock(block) && TextPassOffset <= i < BlockSize
    requires |line| <= i - TextPassOffset
    ensures stop <==> block[i] == EndOfText
    ensures stop ==> TextPass(block, block[i..], TextState(ass, line, count)) == TextState(ass, line, count)
    ensures stop ==> ass' == ass && line' == line && count' == count
    ensures !stop ==> |line'| <= i + 1 - TextPassOffset
    ensures !stop ==>
      TextPass(block, block[i..], TextState(ass, line, count)) == TextPass(block, block[i + 1..], TextState(ass', line', count'))
  {
    TextPassStep(block, block[i..], TextState(ass, line, count));
    assert block[i..][1..] == block[i + 1..];
    ass', line', count', stop := ass, line, count, false;
    var ch := block[i];
    if ch == NewLine {
      assert |line| < LineBufferSize;
      ass' := AppendLine(ass, line, count);
      count' := count + 1;
      line' := [];
      var colors := ExtractColors(block, count');
      ass' := ass' + LaterTags(colors);
    } else if ch == EndOfText {
      stop := true;
    } else if ch >= FirstPrintable {
      assert |line| < LineBufferSize;
      line' := line + [ch];
    }
  }

  /** A finished line appended as the code appends it: converted to UTF-8
      in a buffer of its own, then appended when it holds bytes, after a
      line break unless it is the first line. */
  method AppendLine(ass: string, line: seq<Byte>, count: nat) returns (ass': string)
    ensures ass' == Flush(TextState(ass, line, count))
  {
    var utf8 := Iso6937.Convert(line);
    if count > 0 && |line| > 0 {
      ass' := ass + LineBreak + utf8.value;
    } else if |line| > 0 {
      ass' := ass + utf8.value;
    } else {
      ass' := ass;
    }
  }

  /** The append with the conversion as written, whose buffer holds
      `length * 4` bytes: every finished line goes through it, and an empty
      line makes it write the terminator outside its buffer. */
  method AppendLineAsWritten(ass: string, line: seq<Byte>, count: nat)
    returns (r: Result<string, Iso6937.Overflow>)
    ensures r.Failure? <==> |line| == 0
    ensures r.Failure? ==> r.error == Iso6937.WriteOutOfBounds(0)
    ensures r.Success? ==> r.value == Flush(TextState(ass, line, count))
  {
    var utf8 := Iso6937.ConvertAsWritten(line);
    if utf8.Failure? {
      return Failure(utf8.error);
    }
    if count > 0 {
      r := Success(ass + LineBreak + utf8.value);
    } else {
      r := Success(ass + utf8.value);
    }
  }

  /** The lines the text pass hands to the conversion, in order, starting
      with the bytes `line` already collected: one at every newline code,
      and the last one where the pass ends. */
  function ConvertedLines(s: seq<Byte>, line: seq<Byte>): seq<seq<Byte>>
    decreases |s|
  {
    if |s| == 0 || s[0] == EndOfText then [line]
    else if s[0] == NewLine then [line] + ConvertedLines(s[1..], [])
    else if s[0] >= FirstPrintable then ConvertedLines(s[1..], line + [s[0]])
    else ConvertedLines(s[1..], line)
  }

  /** The converted lines are the text lines with their control bytes
      dropped, the first one behind the bytes already collected. */
  lemma {:induction false} ConvertedLinesByLines(s: seq<Byte>, line: seq<Byte>)
    ensures var ls, r := Lines(UpToEnd(s)), ConvertedLines(s, line);
      && |r| == |ls|
      && r[0] == line + Printable(ls[0])
      && forall j :: 1 <= j < |r| ==> r[j] == Printable(ls[j])
    decreases |s|
  {
    var ls, r := Lines(UpToEnd(s)), ConvertedLines(s, line);
    if |s| == 0 || s[0] == EndOfText {
      assert UpToEnd(s) == [];
      assert ls == [[]];
      assert line + Printable(ls[0]) == line;
    } else if s[0] == NewLine {
      ConvertedLinesByLines(s[1..], []);
      NewLineSplits(s, line);
      var rest, tail := Lines(UpToEnd(s[1..])), ConvertedLines(s[1..], []);
      assert r == [line] + tail;
      forall j | 1 <= j < |r| ensures r[j] == Printable(ls[j]) {
        assert r[j] == tail[j - 1] && ls[j] == rest[j - 1];
        if j == 1 {
          assert [] + Printable(rest[0]) == Printable(rest[0]);
        }
      }
    } else {
      var line' := if s[0] >= FirstPrintable then line + [s[0]] else line;
      ConvertedLinesByLines(s[1..], line');
      OtherByteExtendsLine(s, line);
      var rest := Lines(UpToEnd(s[1..]));
      assert r == ConvertedLines(s[1..], line');
      forall j | 1 <= j < |r| ensures r[j] == Printable(ls[j]) {
        assert ls[j] == ls[1..][j - 1] == rest[1..][j - 1] == rest[j];
      }
    }
  }

  /** Some line in `ls` is empty. */
  predicate HasEmpty(ls: seq<seq<Byte>>) {
    exists j :: 0 <= j < |ls| && |ls[j]| == 0
  }

  /** A line in front adds an empty line exactly when it is empty. */
  lemma HasEmptyCons(line: seq<Byte>, rest: seq<seq<Byte>>)
    ensures HasEmpty([line] + rest) <==> |line| == 0 || HasEmpty(rest)
  {
    var ls := [line] + rest;
    assert ls[0] == line;
    assert forall j :: 0 <= j < |rest| ==> ls[j + 1] == rest[j];
    if HasEmpty(ls) && |line| > 0 {
      var j :| 0 <= j < |ls| && |ls[j]| == 0;
      assert ls[j] == rest[j - 1];
    }
  }

  /** Some line of the block is empty once its control bytes are dropped. */
  predicate HasEmptyLine(block: seq<Byte>)
    requires IsBlock(block)
  {
    exists j :: 0 <= j < |TextLines(block)| && |Printable(TextLines(block)[j])| == 0
  }

  /** The pass hands an empty line to the conversion exactly when the block
      has one. */
  lemma EmptyLineConverted(block: seq<Byte>)
    requires IsBlock(block)
    ensures HasEmpty(ConvertedLines(TextRegion(block), [])) <==> HasEmptyLine(block)
  {
    var ls, r := TextLines(block), ConvertedLines(TextRegion(block), []);
    ConvertedLinesByLines(TextRegion(block), []);
    assert [] + Printable(ls[0]) == Printable(ls[0]);
    PrintedLinesEmpty(r, ls);
  }

  /** Lines that are the printable parts of `ls` have an empty one exactly
      when some line of `ls` has no printable byte. */
  lemma PrintedLinesEmpty(r: seq<seq<Byte>>, ls: seq<seq<Byte>>)
    requires |r| == |ls| && forall j :: 0 <= j < |r| ==> r[j] == Printable(ls[j])
    ensures HasEmpty(r) <==> exists j :: 0 <= j < |ls| && |Printable(ls[j])| == 0
  {
    if HasEmpty(r) {
      var j :| 0 <= j < |r| && |r[j]| == 0;
      assert |Printable(ls[j])| == 0;
    }
  }

  /** One turn of the markup loop with the conversion as written: a
      newline converts the finished line, and overflows when it is empty;
      the end-of-text code stops the loop; a byte of 0x20 and above joins
      the line. */
  method ScanByteAsWritten(block: seq<Byte>, i: nat, ass: string, line: seq<Byte>, count: nat)
    returns (ass': string, line': seq<Byte>, count': nat, stop: bool, overflow: Option<Iso6937.Overflow>)
    requires IsBlock(block) && TextPassOffset <= i < BlockSize
    ensures overflow.Some? <==> block[i] == NewLine && |line| == 0
    ensures overflow.Some? ==> overflow.value == Iso6937.WriteOutOfBounds(0)
    ensures overflow.Some? ==> HasEmpty(ConvertedLines(block[i..], line))
    ensures stop <==> block[i] == EndOfText
    ensures stop ==> TextPass(block, block[i..], TextState(ass, line, count)) == TextState(ass, line, count)
    ensures stop ==> (HasEmpty(ConvertedLines(block[i..], line)) <==> |line| == 0)
    ensures stop ==> ass' == ass && line' == line && count' == count
    ensures !stop && overflow.None? ==>
      TextPass(block, block[i..], TextState(ass, line, count)) == TextPass(block, block[i + 1..], TextState(ass', line', count'))
    ensures !stop && overflow.None? ==>
      (HasEmpty(ConvertedLines(block[i..], line)) <==> HasEmpty(ConvertedLines(block[i + 1..], line')))
  {
    TextPassStep(block, block[i..], TextState(ass, line, count));
    assert block[i..][1..] == block[i + 1..];
    ass', line', count', stop, overflow := ass, line, count, false, None;
    var ch := block[i];
    if ch == NewLine {
      assert ConvertedLines(block[i..], line) == [line] + ConvertedLines(block[i + 1..], []);
      HasEmptyCons(line, ConvertedLines(block[i + 1..], []));
      var appended := AppendLineAsWritten(ass, line, count);
      count' := count + 1;
      line' := [];
      if appended.Failure? {
        overflow := Some(appended.error);
      } else {
        ass' := appended.value + LaterTags(ExtractColors(block, count'));
      }
    } else if ch == EndOfText {
      assert ConvertedLines(block[i..], line) == [line] + [];
      HasEmptyCons(line, []);
      stop := true;
    } else if ch >= FirstPrintable {
      line' := line + [ch];
    }
  }

  /** The markup built with every line converted as written. It fails,
      with the terminator written at index 0 of an empty buffer, exactly
      when the block has an empty line; otherwise it builds the same
      markup. */
  method BuildMarkupAsWritten(block: seq<Byte>) returns (r: Result<string, Iso6937.Overflow>)
    requires IsBlock(block)
    ensures r.Failure? <==> HasEmptyLine(block)
    ensures r.Failure? ==> r.error == Iso6937.WriteOutOfBounds(0)
    ensures r.Success? ==> r.value == ExtractTextAndColors(block)
  {
    r := MarkupLoopAsWritten(block);
    EmptyLineConverted(block);
  }

  /** The markup loop with the conversion as written: it stops at the
      first empty line it hands over. */
  method MarkupLoopAsWritten(block: seq<Byte>) returns (r: Result<string, Iso6937.Overflow>)
    requires IsBlock(block)
    ensures r.Failure? <==> HasEmpty(ConvertedLines(TextRegion(block), []))
    ensures r.Failure? ==> r.error == Iso6937.WriteOutOfBounds(0)
    ensures r.Success? ==> r.value == ExtractTextAndColors(block)
  {
    ghost var goal := ExtractTextAndColors(block);
    ghost var empty := HasEmpty(ConvertedLines(TextRegion(block), []));
    var ass := FirstTags(ExtractColors(block, 0));
    var line: seq<Byte> := [];
    var count: nat := 0;
    var i := TextPassOffset;
    while i < BlockSize
      invariant TextPassOffset <= i <= BlockSize
      invariant Flush(TextPass(block, block[i..], TextState(ass, line, count))) == goal
      invariant empty <==> HasEmpty(ConvertedLines(block[i..], line))
      decreases BlockSize - i
    {
      var stop, overflow;
      ass, line, count, stop, overflow := ScanByteAsWritten(block, i, ass, line, count);
      if overflow.Some? {
        return Failure(overflow.value);
      }
      if stop {
        r := AppendLineAsWritten(ass, line, count);
        return;
      }
      i := i + 1;
    }
    assert ConvertedLines(block[i..], line) == [line] + [];
    HasEmptyCons(line, []);
    r := AppendLineAsWritten(ass, line, count);
  }

  /** One step of the text pass, as the loop takes it. */
  lemma TextPassStep(block: seq<Byte>, s: seq<Byte>, st: TextState)
    requires IsBlock(block) && |s| > 0
    ensures s[0] == NewLine ==>
      TextPass(block, s, st)
      == TextPass(block, s[1..], TextState(Flush(st) + LaterTags(ExtractColors(block, st.count + 1)), [], st.count + 1))
    ensures s[0] == EndOfText ==> TextPass(block, s, st) == st
    ensures s[0] != NewLine && s[0] != EndOfText && s[0] >= FirstPrintable ==>
      TextPass(block, s, st) == TextPass(block, s[1..], st.(line := st.line + [s[0]]))
    ensures s[0] != NewLine && s[0] != EndOfText && s[0] < FirstPrintable ==>
      TextPass(block, s, st) == TextPass(block, s[1..], st)
  {
  }

  /** The cut falls at the first end-of-text code. */
  lemma UpToEndAt(s: seq<Byte>, n: nat)
    requires n < |s| && s[n] == EndOfText && EndOfText !in s[..n]
    ensures UpToEnd(s) == s[..n]
  {
  }

  lemma {:induction false} PrintableAppend(x: seq<Byte>, y: seq<Byte>)
    ensures Printable(x + y) == Printable(x) + Printable(y)
    decreases |x|
  {
    if |x| > 0 {
      PrintableAppend(x[1..], y);
      assert (x + y)[1..] == x[1..] + y;
    } else {
      assert x + y == y;
    }
  }

  /** Control bytes below 0x20 leave nothing behind. */
  lemma {:induction false} PrintableOfControls(x: seq<Byte>)
    requires forall i :: 0 <= i < |x| ==> x[i] < FirstPrintable
    ensures Printable(x) == []
    decreases |x|
  {
    if |x| > 0 {
      PrintableOfControls(x[1..]);
    }
  }

  /** Bytes of 0x20 and above are all kept. */
  lemma {:induction false} PrintableOfText(x: seq<Byte>)
    requires forall i :: 0 <= i < |x| ==> x[i] >= FirstPrintable
    ensures Printable(x) == x
    decreases |x|
  {
    if |x| > 0 {
      PrintableOfText(x[1..]);
      assert x == [x[0]] + x[1..];
    }
  }

  /** One later line renders as its colour tags and its text. */
  lemma RenderOneLine(block: seq<Byte>, line: seq<Byte>, index: nat)
    requires IsBlock(block)
    ensures RenderLaterLines(block, [line], index)
      == LaterTags(ExtractColors(block, index)) + LineText(Printable(line), index)
  {
    assert [line][1..] == [];
  }

  /** The block of the two-line example. */
  predicate IsTwoLineExample(block: seq<Byte>) {
    && IsBlock(block)
    && (forall i :: TextPassOffset <= i < TextFieldOffset ==> block[i] < FirstPrintable)
    && block[16..23] == [0x48, 0x49, NewLine, 0x42, 0x59, 0x45, EndOfText]
  }

  /** Its text lines: the control bytes with "HI", then "BYE". */
  lemma TwoLineExampleLines(block: seq<Byte>)
    requires IsTwoLineExample(block)
    ensures TextLines(block) == [block[13..16] + [0x48, 0x49], [0x42, 0x59, 0x45]]
  {
    var s := TextRegion(block);
    var lead := block[13..16];
    var hi: seq<Byte> := [0x48, 0x49];
    var bye: seq<Byte> := [0x42, 0x59, 0x45];
    assert block[16] == 0x48 && block[17] == 0x49 && block[18] == NewLine;
    assert block[19] == 0x42 && block[20] == 0x59 && block[21] == 0x45 && block[22] == EndOfText;
    assert s[..9] == lead + hi + [NewLine] + bye;
    assert EndOfText !in s[..9];
    UpToEndAt(s, 9);
    assert NewLine !in lead + hi;
    LinesAfterFirst(lead + hi, bye);
    LinesWithoutNewLine(bye);
  }

  /** Its first line has no colour code, so it is white on black. */
  lemma TwoLineExampleColors(block: seq<Byte>)
    requires IsTwoLineExample(block)
    ensures ExtractColors(block, 0) == Default
  {
    var hi: seq<Byte> := [0x48, 0x49];
    var field := ColorField(block);
    assert block[16] == 0x48 && block[17] == 0x49 && block[18] == NewLine;
    assert field[..3] == hi + [NewLine];
    assert field == hi + [NewLine] + field[3..];
    LinesAfterFirst(hi, field[3..]);
    ExtractColorsByLine(block, 0);
    ApplyAllLastCodeWins(Default, hi);
  }

  /** Plain ASCII letters are copied by the transcoder. */
  lemma TwoLineExampleWords()
    ensures Iso6937.Transcode([0x48, 0x49]) == "HI"
    ensures Iso6937.Transcode([0x42, 0x59, 0x45]) == "BYE"
  {
    Iso6937.TranscodeWithoutDiacritics([0x48, 0x49]);
    Iso6937.TranscodeWithoutDiacritics([0x42, 0x59, 0x45]);
  }

  /** Two lines: "HI", a newline code, "BYE", the end-of-text code, behind
      three control bytes at offsets 13 to 15. The first line gets white on
      black, the second its own colour tags and a line break. */
  lemma TwoLineExample(block: seq<Byte>)
    requires IsTwoLineExample(block)
    ensures ExtractTextAndColors(block)
      == FirstTags(Default) + "HI" + (LaterTags(ExtractColors(block, 1)) + (LineBreak + "BYE"))
  {
    var bye: seq<Byte> := [0x42, 0x59, 0x45];
    MarkupByLines(block);
    TwoLineExamplePrintable(block);
    TwoLineExampleColors(block);
    TwoLineExampleWords();
    RenderOneLine(block, bye, 1);
    PrintableOfText(bye);
  }

  /** What the text pass keeps of the example's lines. */
  lemma TwoLineExamplePrintable(block: seq<Byte>)
    requires IsTwoLineExample(block)
    ensures Printable(TextLines(block)[0]) == [0x48, 0x49]
    ensures TextLines(block)[1..] == [[0x42, 0x59, 0x45]]
  {
    var lead := block[13..16];
    var hi: seq<Byte> := [0x48, 0x49];
    TwoLineExampleLines(block);
    PrintableAppend(lead, hi);
    PrintableOfControls(lead);
    PrintableOfText(hi);
  }

  /** A blank line between two lines, the usual teletext layout: "A", two
      newline codes, "B", behind control bytes at offsets 13 to 15. The
      middle line is empty, so the conversion as written overflows on it. */
  lemma BlankLineExample(block: seq<Byte>)
    requires IsBlock(block)
    requires forall i :: TextPassOffset <= i < TextFieldOffset ==> block[i] < FirstPrintable
    requires block[16..21] == [0x41, NewLine, NewLine, 0x42, EndOfText]
    ensures TextLines(block) == [block[13..16] + [0x41], [], [0x42]]
    ensures HasEmptyLine(block)
  {
    var s := TextRegion(block);
    var first := block[13..16] + [0x41];
    var tail: seq<Byte> := [NewLine, 0x42];
    assert block[16] == 0x41 && block[17] == NewLine && block[18] == NewLine;
    assert block[19] == 0x42 && block[20] == EndOfText;
    assert s[..7] == first + [NewLine] + tail;
    assert EndOfText !in s[..7];
    UpToEndAt(s, 7);
    assert NewLine !in first;
    LinesAfterFirst(first, tail);
    assert tail == [] + [NewLine] + [0x42];
    LinesAfterFirst([], [0x42]);
    LinesWithoutNewLine([0x42]);
    assert |Printable(TextLines(block)[1])| == 0;
  }

  /** A block whose text is only the end-of-text code, behind control bytes
      at offsets 13 to 15: its one line is empty once they are dropped. */
  lemma EndOfTextOnlyExample(block: seq<Byte>)
    requires IsBlock(block)
    requires forall i :: TextPassOffset <= i < TextFieldOffset ==> block[i] < FirstPrintable
    requires block[16] == EndOfText
    ensures TextLines(block) == [block[13..16]]
    ensures HasEmptyLine(block)
  {
    var s := TextRegion(block);
    var lead := block[13..16];
    assert s[..3] == lead;
    assert EndOfText !in s[..3];
    UpToEndAt(s, 3);
    assert NewLine !in lead;
    LinesWithoutNewLine(lead);
    PrintableOfControls(lead);
    assert |Printable(TextLines(block)[0])| == 0;
  }

  /** The markup builder as written on the blank-line block: the empty
      middle line makes it write the terminator at index 0 of an empty
      buffer. */
  method BlankLineOverflows(block: seq<Byte>) returns (r: Result<string, Iso6937.Overflow>)
    requires IsBlock(block)
    requires forall i :: TextPassOffset <= i < TextFieldOffset ==> block[i] < FirstPrintable
    requires block[16..21] == [0x41, NewLine, NewLine, 0x42, EndOfText]
    ensures r == Failure(Iso6937.WriteOutOfBounds(0))
  {
    BlankLineExample(block);
    r := BuildMarkupAsWritten(block);
  }

  /** The markup builder as written on a block with no text before the
      end-of-text code: its only line is empty, and the conversion writes
      out of bounds. */
  method EndOfTextOnlyOverflows(block: seq<Byte>) returns (r: Result<string, Iso6937.Overflow>)
    requires IsBlock(block)
    requires forall i :: TextPassOffset <= i < TextFieldOffset ==> block[i] < FirstPrintable
    requires block[16] == EndOfText
    ensures r == Failure(Iso6937.WriteOutOfBounds(0))
  {
    EndOfTextOnlyExample(block);
    r := BuildMarkupAsWritten(block);
  }

  /** Text without a newline code before the end-of-text code is one line,
      after the first line's colour tags and nothing else. */
  lemma SingleLineMarkup(block: seq<Byte>)
    requires IsBlock(block)
    requires NewLine !in UpToEnd(TextRegion(block))
    ensures ExtractTextAndColors(block)
      == FirstTags(ExtractColors(block, 0)) + Iso6937.Transcode(Printable(UpToEnd(TextRegion(block))))
  {
    LinesWithoutNewLine(UpToEnd(TextRegion(block)));
    MarkupByLines(block);
    var ls := TextLines(block);
    assert ls[1..] == [];
  }

  /** The colour scan does not stop at the end-of-text code: a text colour
      code after it, before the first newline code, still sets the first
      line's colour. */
  lemma ColorsPastEndOfTextExample(block: seq<Byte>)
    requires IsBlock(block)
    requires block[16..19] == [EndOfText, 0x01, NewLine]
    ensures ExtractColors(block, 0) == ColorPair(1, 7)
  {
    assert block[16] == EndOfText && block[17] == 0x01 && block[18] == NewLine;
    var field := ColorField(block);
    var head: seq<Byte> := [EndOfText, 0x01];
    assert field[..3] == head + [NewLine];
    assert field == head + [NewLine] + field[3..];
    assert NewLine !in head;
    LinesAfterFirst(head, field[3..]);
    ExtractColorsByLine(block, 0);
    ApplyAllLastCodeWins(Default, head);
    assert LastTextCodeAt(head, 1);
  }

  /** A block whose text starts with the end-of-text code still gives
      markup, the first line's colour tags alone, and those tags come from
      the colour codes after the end-of-text code. */
  lemma EndOfTextFirstExample(block: seq<Byte>)
    requires IsBlock(block)
    requires forall i :: TextPassOffset <= i < TextFieldOffset ==> block[i] < FirstPrintable
    requires block[16..19] == [EndOfText, 0x01, NewLine]
    ensures ExtractTextAndColors(block) == FirstTags(ColorPair(1, 7))
  {
    assert block[16] == EndOfText;
    var s := TextRegion(block);
    var lead := block[13..16];
    assert s[..3] == lead;
    assert EndOfText !in s[..3];
    UpToEndAt(s, 3);
    assert NewLine !in lead;
    SingleLineMarkup(block);
    PrintableOfControls(lead);
    assert Iso6937.Transcode([]) == "";
    ColorsPastEndOfTextExample(block);
  }

  /** The text pass starts at offset 13, so the vertical position, the
      justification code and the comment flag are read as text: ASCII
      values there show up in the markup. */
  lemma HeaderBytesAsTextExample(block: seq<Byte>)
    requires IsBlock(block)
    requires forall i :: TextPassOffset <= i < TextFieldOffset ==> FirstPrintable <= block[i] < 0x80
    requires block[16] == EndOfText
    ensures ExtractTextAndColors(block)
      == FirstTags(ExtractColors(block, 0)) + Chars(block[TextPassOffset..TextFieldOffset])
  {
    var s := TextRegion(block);
    var lead := block[13..16];
    assert s[..3] == lead;
    assert EndOfText !in s[..3];
    UpToEndAt(s, 3);
    assert NewLine !in lead;
    SingleLineMarkup(block);
    PrintableOfText(lead);
    Iso6937.TranscodeWithoutDiacritics(lead);
  }
}
