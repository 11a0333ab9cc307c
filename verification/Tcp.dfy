/** The round-trip estimator and retransmission timeout of the TCP source. */
module Tcp {
  import opened Words

  // ---------- the estimator ----------

  /** The largest sample whose scaled value fits a signed word. */
  const MAX_SAMPLE: int := 0x1000_0000_0000_0000

  /** The smoothed round-trip time, scaled by eight, and its mean deviation. */
  datatype Estimate = Estimate(rtt: nat, mdev: nat)

  /** One sample over unbounded integers; a zero sample is skipped. */
  function Next(e: Estimate, m: nat): Estimate {
    if m == 0 then e
    else if e.rtt == 0 then Estimate(8 * m, 2 * m)
    else
      var err := m - e.rtt / 8;
      var gain := (if err < 0 then -err else err) - e.mdev / 4;
      Estimate(e.rtt + err, e.mdev + if err < 0 && gain > 0 then gain / 8 else gain)
  }

  function Abs(x: int): nat {
    if x < 0 then -x else x
  }

  /** What a sample is meant to do. The average becomes seven eighths of the old one and an eighth
      of the sample, which after scaling leaves less than one to rounding. The deviation becomes
      three quarters of the old one and the whole error; if the sample is early and its error more
      than a quarter of the deviation, it becomes 31 of 32 parts of the old one and an eighth of
      the error. */
  ghost predicate Smooths(e: Estimate, m: nat, f: Estimate) {
    if m == 0 then f == e
    else if e.rtt == 0 then f.rtt == 8 * m && f.mdev == 2 * m
    else
      var error := Abs(m - e.rtt / 8);
      && 7 * e.rtt + 8 * m <= 8 * f.rtt <= 7 * e.rtt + 8 * m + 7
      && if m < e.rtt / 8 && 4 * error > e.mdev
         then 31 * e.mdev + 4 * error - 28 <= 32 * f.mdev <= 31 * e.mdev + 4 * error + 3
         else 3 * e.mdev + 4 * error <= 4 * f.mdev <= 3 * e.mdev + 4 * error + 3
  }

  /** The shifts do what is meant, and nothing else is meant. */
  lemma NextSmooths(e: Estimate, m: nat, f: Estimate)
    ensures Smooths(e, m, f) <==> f == Next(e, m)
  {
    var a, b := e.rtt / 8, e.rtt % 8;
    var c, d := e.mdev / 4, e.mdev % 4;
    assert e.rtt == 8 * a + b && e.mdev == 4 * c + d;
    if m != 0 && e.rtt != 0 {
      var error := Abs(m - a);
      var gain := error - c;
      if m < a && gain > 0 {
        var g, h := gain / 8, gain % 8;
        assert gain == 8 * g + h;
      }
    }
  }

  function Max(a: int, b: int): int {
    if a < b then b else a
  }

  predicate SampleOk(m: nat, lo: nat, hi: nat) {
    m == 0 || lo <= m <= hi
  }

  /** Before the first sample both are zero; after it the average stays among the samples
      and the deviation below a bound. */
  predicate Bounded(e: Estimate, lo: nat, hi: nat) {
    || e == Estimate(0, 0)
    || (lo <= e.rtt / 8 <= hi && e.mdev <= Max(2 * hi, 4 * (hi - lo) + 3))
  }

  lemma NextRtt(e: Estimate, m: nat, lo: nat, hi: nat)
    requires 1 <= lo <= m <= hi && lo <= e.rtt / 8 <= hi
    ensures lo <= Next(e, m).rtt / 8 <= hi
  {
    var a, b := e.rtt / 8, e.rtt % 8;
    assert e.rtt == 8 * a + b;
    assert Next(e, m).rtt == 7 * a + b + m;
  }

  lemma NextMdev(e: Estimate, m: nat, lo: nat, hi: nat)
    requires 1 <= lo <= m <= hi && lo <= e.rtt / 8 <= hi && e.mdev <= Max(2 * hi, 4 * (hi - lo) + 3)
    ensures Next(e, m).mdev <= Max(2 * hi, 4 * (hi - lo) + 3)
  {
    var c, d := e.mdev / 4, e.mdev % 4;
    assert e.mdev == 4 * c + d;
    var err := m - e.rtt / 8;
    var size := if err < 0 then -err else err;
    assert Next(e, m).mdev <= e.mdev + Max(size - c, 0) || Next(e, m).mdev == 3 * c + d + size;
    assert Next(e, m).mdev <= 3 * c + d + size;
  }

  lemma NextBounded(e: Estimate, m: nat, lo: nat, hi: nat)
    requires 1 <= lo <= hi && SampleOk(m, lo, hi) && Bounded(e, lo, hi)
    ensures Bounded(Next(e, m), lo, hi)
  {
    if m != 0 && e.rtt != 0 {
      NextRtt(e, m, lo, hi);
      NextMdev(e, m, lo, hi);
    }
  }

  function Run(samples: seq<nat>): Estimate {
    if samples == [] then Estimate(0, 0) else Next(Run(samples[..|samples| - 1]), samples[|samples| - 1])
  }

  /** Over any run of samples in `[lo, hi]` the average stays in `[lo, hi]`, the deviation
      below its bound, and nothing comes near the width of a word. */
  lemma {:induction false} RunBounded(samples: seq<nat>, lo: nat, hi: nat)
    requires 1 <= lo <= hi < MAX_SAMPLE && forall i :: 0 <= i < |samples| ==> SampleOk(samples[i], lo, hi)
    ensures Bounded(Run(samples), lo, hi)
    ensures Run(samples).rtt < TWO64 && Run(samples).mdev < TWO64
  {
    if samples != [] {
      var n := |samples| - 1;
      RunBounded(samples[..n], lo, hi);
      NextBounded(Run(samples[..n]), samples[n], lo, hi);
    }
  }

  /** With equal samples the average is exact, and the deviation falls with each of them
      until it is below four. */
  lemma {:induction false} ConstantSamplesSettle(e: Estimate, m: nat, samples: seq<nat>)
    requires m >= 1 && e.rtt / 8 == m && forall i :: 0 <= i < |samples| ==> samples[i] == m
    ensures var f := RunFrom(e, samples); f.rtt / 8 == m && f.mdev <= Max(3, e.mdev - |samples|)
  {
    if samples != [] {
      var n := |samples| - 1;
      ConstantSamplesSettle(e, m, samples[..n]);
    }
  }

  /** A step from whatever the samples were to a new constant value: the average moves towards it
      with each sample, never past it, and reaches it. */
  lemma {:induction false} StepIsFollowed(e: Estimate, m: nat, samples: seq<nat>)
    requires m >= 1 && e.rtt > 0 && forall i :: 0 <= i < |samples| ==> samples[i] == m
    ensures var f := RunFrom(e, samples);
      && f.rtt > 0 && (e.rtt / 8 <= m ==> f.rtt / 8 <= m) && (e.rtt / 8 >= m ==> f.rtt / 8 >= m)
      && (f.rtt / 8 == m || Abs(f.rtt - 8 * m) <= Abs(e.rtt - 8 * m) - |samples|)
    ensures |samples| >= Abs(e.rtt - 8 * m) ==> RunFrom(e, samples).rtt / 8 == m
  {
    if samples != [] {
      var n := |samples| - 1;
      StepIsFollowed(e, m, samples[..n]);
      Approaches(RunFrom(e, samples[..n]), m);
    }
  }

  lemma Approaches(e: Estimate, m: nat)
    requires m >= 1 && e.rtt > 0
    ensures var f := Next(e, m);
      && f.rtt > 0 && (e.rtt / 8 <= m ==> f.rtt / 8 <= m) && (e.rtt / 8 >= m ==> f.rtt / 8 >= m)
      && (f.rtt / 8 == m || Abs(f.rtt - 8 * m) < Abs(e.rtt - 8 * m))
  {
    var a, b := e.rtt / 8, e.rtt % 8;
    assert e.rtt == 8 * a + b && Next(e, m).rtt == 7 * a + b + m;
  }

  function RunFrom(e: Estimate, samples: seq<nat>): Estimate {
    if samples == [] then e else Next(RunFrom(e, samples[..|samples| - 1]), samples[|samples| - 1])
  }

  /** The part of the source that keeps the estimate and the retransmission timeout.
      `ticks` is the number of clock ticks in a millisecond. */
  class TCPSource {
    const ticks: nat
    var rtt: nat
    var mdev: nat
    var rto: nat

    constructor (ticks: nat)
      ensures this.ticks == ticks && Estimate(rtt, mdev) == Estimate(0, 0) && rto == 1000 * ticks
    {
      this.ticks := ticks;
      rtt, mdev, rto := 0, 0, 1000 * ticks;
    }

    /** The sample is worked in with 64-bit arithmetic. As long as all samples lie in
        `[lo, hi]` no step wraps, and the timeout ends up between 200 ms and 5 s. */
    method ReceiveSample(sample: nat, ghost lo: nat, ghost hi: nat)
      requires 1 <= lo <= hi < MAX_SAMPLE && SampleOk(sample, lo, hi) && Bounded(Estimate(rtt, mdev), lo, hi)
      modifies this
      ensures Estimate(rtt, mdev) == Next(old(Estimate(rtt, mdev)), sample)
      ensures Smooths(old(Estimate(rtt, mdev)), sample, Estimate(rtt, mdev))
      ensures Bounded(Estimate(rtt, mdev), lo, hi)
      ensures 200 * ticks <= rto <= 5000 * ticks
      ensures rto ==
        if rtt / 8 + mdev < 200 * ticks then 200 * ticks
        else if rtt / 8 + mdev <= 5000 * ticks then rtt / 8 + mdev
        else 2000 * ticks
    {
      hide U64, I64, Smooths;
      NextBounded(Estimate(rtt, mdev), sample, lo, hi);
      NextSmooths(Estimate(rtt, mdev), sample, Next(Estimate(rtt, mdev), sample));
      if sample != 0 {
        if rtt > 0 {
          rtt, mdev := Update(rtt, mdev, sample, lo, hi);
        } else {
          FitsI64(sample * 8);
          FitsU64(sample * 8);
          FitsI64(sample * 2);
          FitsU64(sample * 2);
          rtt, mdev := U64(I64(sample * 8)), U64(I64(sample * 2));
        }
      }
      FitsU64(rtt / 8 + mdev);
      rto := U64(rtt / 8 + mdev);
      if rto < 200 * ticks {
        rto := 200 * ticks;
      }
      if rto > 5000 * ticks {
        rto := 2000 * ticks;
      }
    }
  }

  /** A sample after the first, in 64-bit arithmetic. */
  method Update(rtt: nat, mdev: nat, sample: nat, ghost lo: nat, ghost hi: nat) returns (rtt': nat, mdev': nat)
    requires 1 <= lo <= sample <= hi < MAX_SAMPLE && rtt > 0 && Bounded(Estimate(rtt, mdev), lo, hi)
    ensures Estimate(rtt', mdev') == Next(Estimate(rtt, mdev), sample)
  {
    hide U64, I64;
    NextBounded(Estimate(rtt, mdev), sample, lo, hi);
    SignedDifference(sample, rtt / 8);
    var m := I64(U64(sample) - rtt / 8);
    UnsignedSum(rtt, m);
    rtt' := U64(rtt + U64(m));
    if m < 0 {
      FitsI64(-m);
      m := I64(-m);
      SignedDifference(m, mdev / 4);
      m := I64(U64(m) - mdev / 4);
      if m > 0 {
        m := m / 8;
      }
    } else {
      SignedDifference(m, mdev / 4);
      m := I64(U64(m) - mdev / 4);
    }
    UnsignedSum(mdev, m);
    mdev' := U64(mdev + U64(m));
  }
}
