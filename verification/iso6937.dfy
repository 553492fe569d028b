/** The ISO/IEC 6937 to UTF-8 transcoder of the subtitle decoder. A byte
    in the non-spacing diacritic column (0xC1 to 0xCF) followed by a base
    letter becomes one precomposed Latin-1 letter, written as two UTF-8
    bytes; only grave, acute, circumflex and diaeresis over the vowels
    AEIOU and aeiou are mapped, and every other byte is copied unchanged. */
module Iso6937 {
  import opened Tti
  import opened Wrappers

  const Grave: Byte := 0xC1
  const Acute: Byte := 0xC2
  const Circumflex: Byte := 0xC3
  const Diaeresis: Byte := 0xC8

  /** The non-spacing diacritic column of ISO/IEC 6937. */
  predicate IsDiacritic(b: Byte) {
    0xC1 <= b <= 0xCF
  }

  predicate IsVowel(b: Byte) {
    b as char in "AEIOUaeiou"
  }

  /** The letter the table gives for a diacritic byte and a base letter. */
  function Precomposed(diacritic: Byte, base: Byte): (r: Option<char>)
    ensures r.Some? ==> 0xC0 <= r.value as int <= 0xFF
  {
    if diacritic == Grave then
      match base as char
      case 'A' => Some('\U{C0}') case 'E' => Some('\U{C8}') case 'I' => Some('\U{CC}')
      case 'O' => Some('\U{D2}') case 'U' => Some('\U{D9}')
      case 'a' => Some('\U{E0}') case 'e' => Some('\U{E8}') case 'i' => Some('\U{EC}')
      case 'o' => Some('\U{F2}') case 'u' => Some('\U{F9}')
      case _ => None
    else if diacritic == Acute then
      match base as char
      case 'A' => Some('\U{C1}') case 'E' => Some('\U{C9}') case 'I' => Some('\U{CD}')
      case 'O' => Some('\U{D3}') case 'U' => Some('\U{DA}')
      case 'a' => Some('\U{E1}') case 'e' => Some('\U{E9}') case 'i' => Some('\U{ED}')
      case 'o' => Some('\U{F3}') case 'u' => Some('\U{FA}')
      case _ => None
    else if diacritic == Circumflex then
      match base as char
      case 'A' => Some('\U{C2}') case 'E' => Some('\U{CA}') case 'I' => Some('\U{CE}')
      case 'O' => Some('\U{D4}') case 'U' => Some('\U{DB}')
      case 'a' => Some('\U{E2}') case 'e' => Some('\U{EA}') case 'i' => Some('\U{EE}')
      case 'o' => Some('\U{F4}') case 'u' => Some('\U{FB}')
      case _ => None
    else if diacritic == Diaeresis then
      match base as char
      case 'A' => Some('\U{C4}') case 'E' => Some('\U{CB}') case 'I' => Some('\U{CF}')
      case 'O' => Some('\U{D6}') case 'U' => Some('\U{DC}')
      case 'a' => Some('\U{E4}') case 'e' => Some('\U{EB}') case 'i' => Some('\U{EF}')
      case 'o' => Some('\U{F6}') case 'u' => Some('\U{FC}')
      case _ => None
    else None
  }

  /** The two-byte UTF-8 form of a letter from U+0080 to U+07FF. */
  function Utf8Two(c: char): (r: seq<Byte>)
    requires 0x80 <= c as int < 0x800
    ensures |r| == 2
    ensures 0xC2 <= r[0] <= 0xDF && 0x80 <= r[1] <= 0xBF
  {
    [0xC0 + c as int / 64, 0x80 + c as int % 64]
  }

  /** Decoding of a two-byte UTF-8 sequence: the partner of `Utf8Two`. */
  function Utf8DecodeTwo(r: seq<Byte>): int
    requires |r| == 2
  {
    (r[0] as int - 0xC0) * 64 + (r[1] as int - 0x80)
  }

  /** The UTF-8 bytes of the precomposed letter, when the table has one. */
  function MapIso6937ToUtf8(diacritic: Byte, base: Byte): (r: Option<seq<Byte>>)
    ensures r.Some? <==> Precomposed(diacritic, base).Some?
    ensures r.Some? ==> |r.value| == 2 && r.value[0] == 0xC3
    ensures r.Some? ==> Utf8DecodeTwo(r.value) == Precomposed(diacritic, base).value as int
  {
    match Precomposed(diacritic, base)
    case None => None
    case Some(c) => Some(Utf8Two(c))
  }

  /** Which pairs the table maps: exactly the four diacritics over the ten
      vowels. */
  lemma PrecomposedDomain(diacritic: Byte, base: Byte)
    ensures Precomposed(diacritic, base).Some?
        <==> (diacritic in {Grave, Acute, Circumflex, Diaeresis} && IsVowel(base))
  {
  }

  /** Does the byte at the head of `s` start a mapped pair? */
  predicate StartsPair(s: seq<Byte>) {
    |s| >= 2 && IsDiacritic(s[0]) && MapIso6937ToUtf8(s[0], s[1]).Some?
  }

  /** The transcoded text, one output byte per character. Mapped pairs
      become their two UTF-8 bytes; a lone or trailing diacritic, an
      unmapped pair and any other byte are copied. Every mapping turns two
      bytes into two, so the length is kept exactly. */
  function Transcode(s: seq<Byte>): (r: string)
    ensures |r| == |s|
    ensures forall i :: 0 <= i < |r| ==> r[i] as int < 256
    decreases |s|
  {
    if |s| == 0 then []
    else if StartsPair(s) then
      Chars(MapIso6937ToUtf8(s[0], s[1]).value) + Transcode(s[2..])
    else [ByteChar(s[0])] + Transcode(s[1..])
  }

  /** Text without diacritic bytes, all ASCII among it, is copied as is. */
  lemma {:induction false} TranscodeWithoutDiacritics(s: seq<Byte>)
    requires forall i :: 0 <= i < |s| ==> !IsDiacritic(s[i])
    ensures Transcode(s) == Chars(s)
    decreases |s|
  {
    if |s| > 0 {
      TranscodeWithoutDiacritics(s[1..]);
      assert Chars(s) == [ByteChar(s[0])] + Chars(s[1..]);
    }
  }

  /** A mapped pair in front is replaced and the rest transcoded on its own. */
  lemma TranscodeMappedPair(d: Byte, b: Byte, rest: seq<Byte>)
    requires Precomposed(d, b).Some?
    ensures Transcode([d, b] + rest) == Chars(Utf8Two(Precomposed(d, b).value)) + Transcode(rest)
  {
    var s := [d, b] + rest;
    assert s[2..] == rest;
  }

  /** The examples: acute plus 'e' is U+00E9, and a truncated diacritic is
      passed through. */
  lemma TranscodeExamples()
    ensures Transcode([Acute, 0x65]) == [ByteChar(0xC3), ByteChar(0xA9)]
    ensures Transcode([Acute]) == [ByteChar(Acute)]
    ensures Transcode([Acute, 0x78]) == [ByteChar(Acute), ByteChar(0x78)]
  {
    assert Transcode([Acute, 0x65]) == Chars(Utf8Two('\U{E9}')) + Transcode([]);
    var s := [Acute, 0x78];
    assert s[1..] == [0x78];
  }

  /** The first write outside the buffer. */
  datatype Overflow = WriteOutOfBounds(index: nat)

  /** The conversion loop writing into a buffer of `capacity` bytes: each
      mapped pair writes two bytes, each other byte one, and the NUL
      terminator goes at the final write index. A write at or past the
      capacity is reported instead of performed. */
  method ConvertIntoBuffer(input: seq<Byte>, capacity: nat) returns (r: Result<string, Overflow>)
    ensures r.Success? <==> |input| < capacity
    ensures r.Success? ==> r.value == Transcode(input)
    ensures r.Failure? ==> r.error == WriteOutOfBounds(capacity)
  {
    var out: string := [];
    var i := 0;
    while i < |input|
      invariant 0 <= i <= |input|
      invariant |out| == i
      invariant i <= capacity
      invariant out + Transcode(input[i..]) == Transcode(input)
      decreases |input| - i
    {
      var rest := input[i..];
      TranscodeUnfold(rest);
      if IsDiacritic(input[i]) && i + 1 < |input| && MapIso6937ToUtf8(input[i], input[i + 1]).Some? {
        if i + 1 >= capacity {
          return Failure(WriteOutOfBounds(capacity));
        }
        assert StartsPair(rest) && rest[2..] == input[i + 2..];
        var bytes := Chars(MapIso6937ToUtf8(input[i], input[i + 1]).value);
        assert out + Transcode(rest) == (out + bytes) + Transcode(input[i + 2..]);
        out := out + bytes;
        i := i + 2;
      } else {
        if i >= capacity {
          return Failure(WriteOutOfBounds(capacity));
        }
        assert !StartsPair(rest) && rest[1..] == input[i + 1..];
        assert out + Transcode(rest) == (out + [ByteChar(input[i])]) + Transcode(input[i + 1..]);
        out := out + [ByteChar(input[i])];
        i := i + 1;
      }
    }
    assert input[i..] == [];
    if i >= capacity {
      return Failure(WriteOutOfBounds(capacity));
    }
    return Success(out);
  }

  /** One step of `Transcode`, as the loop takes it. */
  lemma TranscodeUnfold(s: seq<Byte>)
    requires |s| > 0
    ensures StartsPair(s) ==> Transcode(s) == Chars(MapIso6937ToUtf8(s[0], s[1]).value) + Transcode(s[2..])
    ensures !StartsPair(s) ==> Transcode(s) == [ByteChar(s[0])] + Transcode(s[1..])
  {
  }

  /** The buffer size the code allocates: four bytes per input byte. */
  function CapacityAsWritten(length: nat): nat {
    length * 4
  }

  /** The buffer size the loop needs: room for the terminator as well. */
  function Capacity(length: nat): nat {
    length * 4 + 1
  }

  /** The conversion as written. For empty input the buffer has zero bytes
      and the terminator is written outside it; every other input fits. */
  method ConvertAsWritten(input: seq<Byte>) returns (r: Result<string, Overflow>)
    ensures r.Failure? <==> |input| == 0
    ensures r.Failure? ==> r.error == WriteOutOfBounds(0)
    ensures r.Success? ==> r.value == Transcode(input)
  {
    r := ConvertIntoBuffer(input, CapacityAsWritten(|input|));
  }

  /** The conversion with room for the terminator: it never writes outside
      its buffer and yields the transcoded text for every input. */
  method Convert(input: seq<Byte>) returns (r: Result<string, Overflow>)
    ensures r == Success(Transcode(input))
  {
    r := ConvertIntoBuffer(input, Capacity(|input|));
  }
}
