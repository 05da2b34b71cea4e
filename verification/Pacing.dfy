/** Window sizes for a paced download: `Pacer` in crates/mtp-rs/src/mtp/stream.rs. Rates are reals. */
module Pacing {
  import opened Common

  const MIB: nat := 1024 * 1024
  const FIRST_WINDOW: nat := 8 * MIB
  const MIN_WINDOW: nat := MIB

  /** Durations are whole nanoseconds. */
  datatype DownloadPacing =
    | HeldOpen
    | MaxCancelDelay(target: nat)
    | FixedWindow(size: u32)

  function Seconds(nanos: nat): real { nanos as real / 1_000_000_000.0 }

  /** Bytes that `rate` bytes per second come to in a duration. */
  function BytesIn(rate: real, nanos: nat): real { rate * Seconds(nanos) }

  /** A cast to an unsigned 64-bit integer: truncates, and saturates at both ends. */
  function SaturatingU64(x: real): u64 {
    if x < 0.0 then 0 else if x.Floor > U64_MAX then U64_MAX else x.Floor
  }

  /** Whole MiB, at least one. */
  function WholeMib(bytes: u64): nat { Max(bytes / MIB * MIB, MIN_WINDOW) }

  /** `rate` is the smoothed bytes per second of device time, once a window has finished. */
  datatype Pacer = Pacer(pacing: DownloadPacing, rate: Option<real>) {

    /** The size of the next window, given the bytes still to read. */
    function NextWindow(remaining: u64): u32 {
      var want: int :=
        match pacing
        case FixedWindow(size) => Max(size, 1)
        case MaxCancelDelay(target) =>
          if rate.None? then FIRST_WINDOW
          else
            WholeMib(SaturatingU64(BytesIn(rate.value, target)))
        case HeldOpen => remaining;
      var capped := Min(want, remaining);
      if capped > U32_MAX then U32_MAX else capped
    }

    /** What is learnt from `bytes` read in `deviceTime`: half the weight on the newest window. */
    function Record(bytes: nat, deviceTime: nat): Pacer {
      if bytes == 0 || deviceTime == 0 then this
      else
        var newest := bytes as real / Seconds(deviceTime);
        this.(rate := Some(if rate.None? then newest else (rate.value + newest) / 2.0))
    }
  }

  predicate RateOk(p: Pacer) { p.rate.Some? ==> p.rate.value > 0.0 }

  /**
   A window is never empty, never past what is left, and fits the 32-bit parameter. A fixed size
   (0 counts as 1) and the first adaptive 8 MiB are cut by nothing else.
   */
  lemma {:induction false} WindowBounds(p: Pacer, remaining: u64)
    requires remaining > 0
    ensures 1 <= p.NextWindow(remaining) <= Min(remaining, U32_MAX)
    ensures p.pacing.FixedWindow? && p.NextWindow(remaining) < remaining ==> p.NextWindow(remaining) == Max(p.pacing.size, 1)
    ensures p.pacing.MaxCancelDelay? && p.rate.None? && p.NextWindow(remaining) < remaining ==>
              p.NextWindow(remaining) == 8 * 1024 * 1024
    ensures p.pacing.FixedWindow? ==> p.NextWindow(remaining) <= Max(p.pacing.size, 1)
    ensures p.pacing.MaxCancelDelay? && p.rate.None? ==> p.NextWindow(remaining) <= 8 * 1024 * 1024
  {
  }

  /**
   An adaptive window takes about the target time at the measured rate: at least 1 MiB (or what is
   left), never more than the rate allows beyond that, and within 1 MiB of it unless capped.
   */
  lemma {:induction false} WindowFollowsRate(p: Pacer, remaining: u64)
    requires p.pacing.MaxCancelDelay? && p.rate.Some? && remaining > 0 && RateOk(p)
    ensures var w, budget := p.NextWindow(remaining), BytesIn(p.rate.value, p.pacing.target);
            && w >= Min(MIB, Min(remaining, U32_MAX))
            && (w > MIB ==> w as real <= budget)
            && (w < Min(remaining, U32_MAX) ==> budget < w as real + MIB as real)
  {
  }

  /**
   The first window's rate is taken as it is; each later one moves the estimate exactly halfway to
   its own rate. A window that says nothing (no bytes, or no time) changes nothing.
   */
  lemma {:induction false} RecordSmooths(p: Pacer, bytes: nat, deviceTime: nat)
    requires RateOk(p)
    ensures RateOk(p.Record(bytes, deviceTime)) && p.Record(bytes, deviceTime).pacing == p.pacing
    ensures bytes == 0 || deviceTime == 0 ==> p.Record(bytes, deviceTime) == p
    ensures bytes > 0 && deviceTime > 0 ==>
              var r := p.Record(bytes, deviceTime).rate;
              && r.Some?
              && if p.rate.None? then BytesIn(r.value, deviceTime) == bytes as real
                 else BytesIn(r.value - p.rate.value, deviceTime) == bytes as real - BytesIn(r.value, deviceTime)
  {
  }
}
