/** The packed hour/minute/second/frame timecode of a TTI block and its
    conversion to milliseconds: fixed 25 frames per second and a ten-hour
    bias on the hour byte. No field is range-checked. */
module Timecode {
  import opened Tti

  const FrameRate: nat := 25
  const HourBias: nat := 10
  /** Milliseconds per frame, the integer division 1000 / 25. */
  const MsPerFrame: nat := 1000 / FrameRate

  /** The extremes of `ToPts` over all byte values. */
  const MinPts: int := -36_000_000
  const MaxPts: int := 897_565_200

  const Int64Min: int := -0x8000_0000_0000_0000
  const Int64Max: int := 0x7FFF_FFFF_FFFF_FFFF

  /** Hours, minutes, seconds, frames, one byte each. */
  predicate IsTimecode(tc: seq<Byte>) {
    |tc| == 4
  }

  /** Milliseconds of a timecode, relative to 10:00:00:00. Every byte value
      is accepted; the result stays far inside the 64-bit range the code
      computes in. */
  function ToPts(tc: seq<Byte>): (ms: int)
    requires IsTimecode(tc)
    ensures MinPts <= ms <= MaxPts
    ensures Int64Min <= ms <= Int64Max
    ensures tc[0] >= HourBias ==> ms >= 0
    ensures tc[0] < HourBias && tc[1] < 60 && tc[2] < 60 && tc[3] < FrameRate ==> ms < 0
  {
    var hours: int, minutes: int, seconds: int, frames: int := tc[0], tc[1], tc[2], tc[3];
    assert MsPerFrame == 40;
    ((hours - HourBias) * 3600 + minutes * 60 + seconds) * 1000 + frames * MsPerFrame
  }

  /** The bias puts 10:00:00:00 at zero; 10:00:05:00 is five seconds. */
  lemma BiasExamples()
    ensures ToPts([10, 0, 0, 0]) == 0
    ensures ToPts([10, 0, 5, 0]) == 5000
    ensures ToPts([9, 59, 59, 24]) == -40
  {
  }

  /** Raising any one field, the others fixed, strictly raises the result. */
  lemma ToPtsStrictlyIncreasing(tc: seq<Byte>, field: nat, v: Byte)
    requires IsTimecode(tc) && field < 4
    requires tc[field] < v
    ensures ToPts(tc[field := v]) > ToPts(tc)
  {
  }

  /** Timecodes inside the nominal ranges: hour at or above the bias,
      minutes and seconds below 60, frames below the frame rate. */
  predicate IsNominal(tc: seq<Byte>) {
    && IsTimecode(tc)
    && tc[0] >= HourBias
    && tc[1] < 60 && tc[2] < 60 && tc[3] < FrameRate
  }

  /** The timecode of a millisecond count that lies on a frame boundary:
      the reference decomposition `ToPts` is checked against. */
  function FromPts(ms: nat): (tc: seq<Byte>)
    requires ms % MsPerFrame == 0
    requires ms / 3_600_000 + HourBias < 256
    ensures IsNominal(tc)
  {
    var frames := ms / MsPerFrame;
    var secs := frames / FrameRate;
    [secs / 3600 + HourBias, secs / 60 % 60, secs % 60, frames % FrameRate]
  }

  /** On nominal timecodes the conversion loses nothing: decomposing the
      milliseconds gives the timecode back. */
  lemma FromPtsOfToPts(tc: seq<Byte>)
    requires IsNominal(tc)
    ensures ToPts(tc) >= 0 && ToPts(tc) % MsPerFrame == 0
    ensures ToPts(tc) / 3_600_000 + HourBias < 256
    ensures FromPts(ToPts(tc)) == tc
  {
    var h: int, m: int, s: int, f: int := tc[0] - HourBias, tc[1], tc[2], tc[3];
    var secs := h * 3600 + m * 60 + s;
    var ms := ToPts(tc);
    assert ms == secs * 1000 + f * 40;
    assert ms == (secs * 25 + f) * 40;
    var frames := secs * 25 + f;
    assert ms / MsPerFrame == frames;
    assert ms % MsPerFrame == 0;
    assert frames / 25 == secs && frames % 25 == f by {
      assert frames == secs * 25 + f && 0 <= f < 25;
    }
    assert secs / 3600 == h && secs % 3600 == m * 60 + s by {
      assert secs == h * 3600 + (m * 60 + s) && 0 <= m * 60 + s < 3600;
    }
    assert secs / 60 == h * 60 + m && secs % 60 == s by {
      assert secs == (h * 60 + m) * 60 + s && 0 <= s < 60;
    }
    assert (h * 60 + m) % 60 == m by {
      assert h * 60 + m == h * 60 + m && 0 <= m < 60;
    }
    assert ms / 3_600_000 == h by {
      assert ms == h * 3_600_000 + ((m * 60 + s) * 1000 + f * 40);
      assert 0 <= (m * 60 + s) * 1000 + f * 40 < 3_600_000;
    }
  }

  /** Out-of-range fields are not rejected, so two different byte patterns
      can name the same instant: 10:00:60:00 equals 10:01:00:00. */
  lemma UncheckedFieldsAlias()
    ensures ToPts([10, 0, 60, 0]) == ToPts([10, 1, 0, 0]) == 60_000
  {
  }
}
