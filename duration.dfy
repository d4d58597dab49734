/**
 * timestampWhenDuration (main.go:85-99): the Unix second that lay a given
 * duration before now. The duration parser (Go's time.ParseDuration) and the
 * clock are outside the model and come in as parameters.
 */
module Duration {
  import opened Wrappers

  const NanosPerSecond: int := 1_000_000_000

  /**
   * The sign step: a duration that does not already start with '-' gets one
   * prepended, so every duration is read as lying in the past.
   */
  function NormaliseSign(msg: string): (r: string)
    requires |msg| > 0
    ensures |msg| <= |r| <= |msg| + 1
    ensures r[0] == '-'
    ensures r[|r| - |msg|..] == msg
    ensures r == msg <==> msg[0] == '-'
  {
    if msg[0] != '-' then "-" + msg else msg
  }

  /** Normalising twice is normalising once. */
  lemma NormaliseSignIdempotent(msg: string)
    requires |msg| > 0
    ensures NormaliseSign(NormaliseSign(msg)) == NormaliseSign(msg)
  {
  }

  /** An unsigned duration and the same duration written with '-' normalise alike. */
  lemma NormaliseSignAbsorbsMinus(msg: string)
    requires |msg| > 0 && msg[0] != '-'
    ensures NormaliseSign(msg) == NormaliseSign("-" + msg)
  {
  }

  /**
   * The timestamp of now plus the parsed duration, in whole Unix seconds
   * (rounded down, as Go's Time.Unix does), or None when the parser rejects
   * the sign-normalised duration. `parse` yields nanoseconds; `nowNanos` is
   * the clock reading in nanoseconds since the Unix epoch.
   */
  function TimestampWhenDuration(msg: string, parse: string -> Option<int>, nowNanos: int): (r: Option<int>)
    requires |msg| > 0
    ensures r.None? <==> parse(NormaliseSign(msg)).None?
    ensures r.Some? ==> r.value * NanosPerSecond <= nowNanos + parse(NormaliseSign(msg)).value < (r.value + 1) * NanosPerSecond
  {
    match parse(NormaliseSign(msg))
    case None => None
    case Some(duration) => Some((nowNanos + duration) / NanosPerSecond)
  }

  /** A duration "d" and the same duration written "-d" resolve to the same cutoff against the same clock. */
  lemma SignedAndUnsignedAgree(msg: string, parse: string -> Option<int>, nowNanos: int)
    requires |msg| > 0 && msg[0] != '-'
    ensures TimestampWhenDuration(msg, parse, nowNanos) == TimestampWhenDuration("-" + msg, parse, nowNanos)
  {
    NormaliseSignAbsorbsMinus(msg);
  }

  /** "10m" and "-10m" give the same cutoff against the same clock. */
  lemma TenMinutesAgree(parse: string -> Option<int>, nowNanos: int)
    ensures TimestampWhenDuration("10m", parse, nowNanos) == TimestampWhenDuration("-10m", parse, nowNanos)
  {
    assert "-" + "10m" == "-10m";
    SignedAndUnsignedAgree("10m", parse, nowNanos);
  }

  /**
   * What Go's time.ParseDuration does with a leading '-': whatever it accepts
   * after that sign is a duration of zero or less.
   */
  ghost predicate NegativeWhenSigned(parse: string -> Option<int>)
  {
    forall s :: |s| > 0 && s[0] == '-' && parse(s).Some? ==> parse(s).value <= 0
  }

  /**
   * Because of the sign step, a parser that treats '-' as negation gives a
   * cutoff not after the current Unix second, whatever duration is asked for.
   */
  lemma CutoffNotAfterNow(msg: string, parse: string -> Option<int>, nowNanos: int)
    requires |msg| > 0 && NegativeWhenSigned(parse)
    ensures TimestampWhenDuration(msg, parse, nowNanos).Some? ==>
      TimestampWhenDuration(msg, parse, nowNanos).value <= nowNanos / NanosPerSecond
  {
    var norm := NormaliseSign(msg);
    if parse(norm).Some? {
      assert norm[0] == '-';
      var d := parse(norm).value;
      var t := TimestampWhenDuration(msg, parse, nowNanos).value;
      var n := nowNanos / NanosPerSecond;
      assert d <= 0;
      assert n * NanosPerSecond <= nowNanos < (n + 1) * NanosPerSecond;
      assert t * NanosPerSecond <= nowNanos + d < (n + 1) * NanosPerSecond;
    }
  }
}
