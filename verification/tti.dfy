/** The layout of an EBU Tech 3264 (STL) file as this reader sees it: a
    1024-byte general information header followed by 128-byte Text and
    Timing Information (TTI) blocks, and the line structure of a block's
    text, split on the 0x8A newline code. */
module Tti {

  /** One octet of the input stream. */
  type Byte = b: int | 0 <= b < 256

  const HeaderSize: nat := 1024
  const BlockSize: nat := 128

  /** Offsets inside one TTI block. */
  const StartTimecodeOffset: nat := 5
  const EndTimecodeOffset: nat := 9
  const VerticalPositionOffset: nat := 13
  const JustificationOffset: nat := 14
  /** Where the colour scan starts, and how far it reads. */
  const TextFieldOffset: nat := 16
  const TextFieldLength: nat := 112
  /** Where the text pass of the markup builder starts: three bytes before
      the text field, so vertical position, justification and the comment
      flag are read as text too. */
  const TextPassOffset: nat := 13

  /** In-band control codes of the text field. */
  const NewLine: Byte := 0x8A
  const EndOfText: Byte := 0x8F

  predicate IsBlock(b: seq<Byte>) {
    |b| == BlockSize
  }

  /** An output byte carried as a character: every output string of the
      model holds one byte per character. */
  function ByteChar(b: Byte): (c: char)
    ensures c as int == b
  {
    b as char
  }

  function Chars(s: seq<Byte>): (r: string)
    ensures |r| == |s|
    ensures forall i :: 0 <= i < |s| ==> r[i] as int == s[i]
  {
    seq(|s|, i requires 0 <= i < |s| => ByteChar(s[i]))
  }

  /** Number of newline codes in `s`. */
  function NewLineCount(s: seq<Byte>): nat {
    if |s| == 0 then 0
    else (if s[0] == NewLine then 1 else 0) + NewLineCount(s[1..])
  }

  /** `s` split at every newline code; the codes themselves are dropped.
      There is always at least one (possibly empty) line. */
  function Lines(s: seq<Byte>): (r: seq<seq<Byte>>)
    ensures |r| == NewLineCount(s) + 1
    decreases |s|
  {
    if |s| == 0 then [[]]
    else if s[0] == NewLine then [[]] + Lines(s[1..])
    else
      var rest := Lines(s[1..]);
      [[s[0]] + rest[0]] + rest[1..]
  }

  /** No line holds a newline code. */
  lemma {:induction false} LinesHaveNoNewLine(s: seq<Byte>)
    ensures forall j :: 0 <= j < |Lines(s)| ==> NewLine !in Lines(s)[j]
    decreases |s|
  {
    if |s| > 0 {
      LinesHaveNoNewLine(s[1..]);
      if s[0] != NewLine {
        var rest := Lines(s[1..]);
        assert Lines(s)[0] == [s[0]] + rest[0];
        assert forall j :: 1 <= j < |Lines(s)| ==> Lines(s)[j] == rest[j];
      }
    }
  }

  /** The inverse of `Lines`: lines glued back together with newline codes. */
  function JoinLines(ls: seq<seq<Byte>>): seq<Byte>
    requires |ls| > 0
  {
    if |ls| == 1 then ls[0] else ls[0] + [NewLine] + JoinLines(ls[1..])
  }

  /** Splitting and re-joining gives the original bytes back. */
  lemma {:induction false} JoinOfLines(s: seq<Byte>)
    ensures JoinLines(Lines(s)) == s
    decreases |s|
  {
    if |s| == 0 {
    } else if s[0] == NewLine {
      JoinOfLines(s[1..]);
      assert s == [NewLine] + s[1..];
    } else {
      JoinOfLines(s[1..]);
      var rest := Lines(s[1..]);
      assert Lines(s) == [[s[0]] + rest[0]] + rest[1..];
      JoinExtendsFirst(s[0], rest);
      assert s == [s[0]] + s[1..];
    }
  }

  /** Putting a byte in front of the first line puts it in front of the
      joined bytes. */
  lemma {:induction false} JoinExtendsFirst(b: Byte, ls: seq<seq<Byte>>)
    requires |ls| > 0
    ensures JoinLines([[b] + ls[0]] + ls[1..]) == [b] + JoinLines(ls)
  {
    var ls' := [[b] + ls[0]] + ls[1..];
    assert ls'[0] == [b] + ls[0] && ls'[1..] == ls[1..];
    if |ls| > 1 {
      assert JoinLines(ls') == ([b] + ls[0]) + [NewLine] + JoinLines(ls[1..]);
      assert JoinLines(ls) == ls[0] + [NewLine] + JoinLines(ls[1..]);
    }
  }

  /** Joining lines that hold no newline code and splitting again gives the
      same lines back. */
  lemma {:induction false} LinesOfJoin(ls: seq<seq<Byte>>)
    requires |ls| > 0
    requires forall j :: 0 <= j < |ls| ==> NewLine !in ls[j]
    ensures Lines(JoinLines(ls)) == ls
    decreases |ls|, |ls[0]|
  {
    if |ls[0]| == 0 {
      if |ls| == 1 {
      } else {
        LinesOfJoin(ls[1..]);
        var s := JoinLines(ls);
        assert s == [NewLine] + JoinLines(ls[1..]);
        assert s[1..] == JoinLines(ls[1..]);
        assert ls == [[]] + ls[1..];
      }
    } else {
      var shorter := [ls[0][1..]] + ls[1..];
      assert forall j :: 0 <= j < |shorter| ==> NewLine !in shorter[j] by {
        forall j | 0 <= j < |shorter| ensures NewLine !in shorter[j] {
          if j == 0 {
            assert forall x :: x in ls[0][1..] ==> x in ls[0];
          } else {
            assert shorter[j] == ls[j];
          }
        }
      }
      LinesOfJoin(shorter);
      var s := JoinLines(ls);
      if |ls| == 1 {
        assert s == ls[0];
        assert s[1..] == JoinLines(shorter);
      } else {
        assert JoinLines(shorter) == ls[0][1..] + [NewLine] + JoinLines(ls[1..]);
        assert s[1..] == JoinLines(shorter);
      }
      assert s[0] == ls[0][0];
      assert s[0] != NewLine by { assert ls[0][0] in ls[0]; }
      var rest := Lines(s[1..]);
      assert rest == shorter;
      assert [s[0]] + rest[0] == ls[0];
      assert ls == [ls[0]] + rest[1..];
    }
  }

  /** Bytes without a newline code form one line. */
  lemma {:induction false} LinesWithoutNewLine(s: seq<Byte>)
    requires NewLine !in s
    ensures Lines(s) == [s]
    decreases |s|
  {
    if |s| > 0 {
      assert s[0] in s;
      assert forall x :: x in s[1..] ==> x in s;
      LinesWithoutNewLine(s[1..]);
      assert s == [s[0]] + s[1..];
    }
  }

  /** A newline code after bytes `x` without one ends the first line, which
      is `x`; the lines of what follows come after it. */
  lemma {:induction false} LinesAfterFirst(x: seq<Byte>, y: seq<Byte>)
    requires NewLine !in x
    ensures Lines(x + [NewLine] + y) == [x] + Lines(y)
    decreases |x|
  {
    var s := x + [NewLine] + y;
    if |x| == 0 {
      assert s == [NewLine] + y;
      assert s[1..] == y;
    } else {
      assert x[0] in x;
      assert forall b :: b in x[1..] ==> b in x;
      LinesAfterFirst(x[1..], y);
      assert s[1..] == x[1..] + [NewLine] + y;
      assert [x[0]] + x[1..] == x;
    }
  }
}
