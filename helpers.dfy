/**
 * Display helpers of the marketplace front end: shortening a wallet
 * address for display, and splitting the time left in an auction into
 * days, hours, minutes and seconds.
 */
module Helpers {
  import opened Optional
  import opened JsString

  const Ellipsis: string := "..."

  /**
   * `formatAddress`: the first six and the last four characters of the
   * address around an ellipsis; "" for an absent or empty address.
   */
  function FormatAddress(addr: Option<string>): (r: string)
    ensures r == "" <==> Falsy(addr)
    ensures !Falsy(addr) ==>
      var n := |addr.value|;
      && |r| == Min(6, n) + |Ellipsis| + Min(4, n)
      && r[..Min(6, n)] == addr.value[..Min(6, n)]
      && r[Min(6, n)..Min(6, n) + |Ellipsis|] == Ellipsis
      && r[|r| - Min(4, n)..] == addr.value[n - Min(4, n)..]
  {
    if Falsy(addr) then ""
    else
      var a := addr.value;
      SliceFront(a, 6);
      SliceBack(a, 4);
      Slice(a, 0, Some(6)) + Ellipsis + Slice(a, -4, None)
  }

  /**
   * An address of at least ten characters, such as a 42-character
   * Ethereum address, is shown as its first six and last four characters
   * around the ellipsis, thirteen characters in all.
   */
  lemma FormatLongAddress(a: string)
    requires |a| >= 10
    ensures FormatAddress(Some(a)) == a[..6] + Ellipsis + a[|a| - 4..]
    ensures |FormatAddress(Some(a))| == 13
  {
  }

  /**
   * For an address of at least ten characters the shortened form drops
   * exactly the middle: putting the dropped part back gives the address.
   */
  lemma FormatLongAddressDropsMiddle(a: string)
    requires |a| >= 10
    ensures var r := FormatAddress(Some(a));
      a == r[..6] + a[6..|a| - 4] + r[|r| - 4..]
  {
    FormatLongAddress(a);
    assert a == a[..6] + a[6..|a| - 4] + a[|a| - 4..];
  }

  /**
   * An address shorter than four characters appears twice, once as the
   * head and once as the tail.
   */
  lemma FormatShortAddress(a: string)
    requires 0 < |a| < 4
    ensures FormatAddress(Some(a)) == a + Ellipsis + a
  {
  }

  // Milliseconds per unit of the countdown.
  const MsPerSecond: nat := 1000
  const MsPerMinute: nat := 1000 * 60
  const MsPerHour: nat := 1000 * 60 * 60
  const MsPerDay: nat := 1000 * 60 * 60 * 24

  /** The record `getTimeRemaining` returns. */
  datatype TimeRemaining = TimeRemaining(days: nat, hours: nat, minutes: nat, seconds: nat, expired: bool)

  /** The whole seconds a countdown shows, its four fields read together. */
  function WholeSeconds(t: TimeRemaining): (secs: nat) {
    ((t.days * 24 + t.hours) * 60 + t.minutes) * 60 + t.seconds
  }

  /**
   * `getTimeRemaining(endTime)` with the clock reading `Date.now()` passed
   * as `now`; both are in milliseconds.
   */
  function GetTimeRemaining(endTime: int, now: int): (r: TimeRemaining)
    ensures r.expired <==> endTime - now <= 0
    ensures r.expired ==> r.days == 0 && r.hours == 0 && r.minutes == 0 && r.seconds == 0
    ensures !r.expired ==> r.seconds < 60 && r.minutes < 60 && r.hours < 24
    ensures !r.expired ==> r.days == (endTime - now) / MsPerDay
  {
    var total := endTime - now;
    if total <= 0 then TimeRemaining(0, 0, 0, 0, true)
    else
      var seconds := (total / 1000) % 60;
      var minutes := (total / 1000 / 60) % 60;
      var hours := (total / (1000 * 60 * 60)) % 24;
      var days := total / (1000 * 60 * 60 * 24);
      TimeRemaining(days, hours, minutes, seconds, false)
  }

  /**
   * A running countdown shows exactly the whole seconds left: its fields
   * recompose to the remaining time truncated to seconds.
   */
  lemma RecomposeWholeSeconds(endTime: int, now: int)
    requires now < endTime
    ensures WholeSeconds(GetTimeRemaining(endTime, now)) == (endTime - now) / MsPerSecond
  {
    var total := endTime - now;
    var t := GetTimeRemaining(endTime, now);
    var secs := total / 1000;
    var mins := secs / 60;
    var hrs := mins / 60;
    assert total / (1000 * 60) == mins;
    assert total / (1000 * 60 * 60) == hrs;
    assert total / (1000 * 60 * 60 * 24) == hrs / 24;
    assert t.days * 24 + t.hours == hrs;
    assert hrs * 60 + t.minutes == mins;
    assert mins * 60 + t.seconds == secs;
  }

  /** Under a second before the end the auction is still running, yet every field shows 0. */
  lemma LastSecondShowsZero(endTime: int, now: int)
    requires 0 < endTime - now < MsPerSecond
    ensures GetTimeRemaining(endTime, now) == TimeRemaining(0, 0, 0, 0, false)
  {
  }

  /** An auction that has not expired at some moment had not expired at any earlier moment. */
  lemma NotExpiredEarlier(endTime: int, now1: int, now2: int)
    requires now1 <= now2
    requires !GetTimeRemaining(endTime, now2).expired
    ensures !GetTimeRemaining(endTime, now1).expired
  {
  }

  /** As the clock advances, the time a countdown shows never goes up. */
  lemma {:induction false} CountdownNonIncreasing(endTime: int, now1: int, now2: int)
    requires now1 <= now2
    ensures WholeSeconds(GetTimeRemaining(endTime, now2)) <= WholeSeconds(GetTimeRemaining(endTime, now1))
  {
    if now2 < endTime {
      RecomposeWholeSeconds(endTime, now1);
      RecomposeWholeSeconds(endTime, now2);
    }
  }

  /**
   * Every display with hours below 24, minutes and seconds below 60 is
   * what the countdown shows at each of the thousand milliseconds of that
   * second, so the decomposition loses nothing but the milliseconds.
   */
  lemma DecomposeRoundTrip(days: nat, hours: nat, minutes: nat, seconds: nat, ms: nat, now: int)
    requires hours < 24 && minutes < 60 && seconds < 60 && ms < MsPerSecond
    requires 0 < days + hours + minutes + seconds + ms
    ensures var shown := TimeRemaining(days, hours, minutes, seconds, false);
      GetTimeRemaining(now + WholeSeconds(shown) * MsPerSecond + ms, now) == shown
  {
    var shown := TimeRemaining(days, hours, minutes, seconds, false);
    var hrs := days * 24 + hours;
    var mins := hrs * 60 + minutes;
    var secs := mins * 60 + seconds;
    assert WholeSeconds(shown) == secs;
    var total := secs * MsPerSecond + ms;
    DivUnique(total, 1000, secs, ms);
    DivUnique(total, 1000 * 60, mins, seconds * 1000 + ms);
    DivUnique(total, 1000 * 60 * 60, hrs, (minutes * 60 + seconds) * 1000 + ms);
    DivUnique(total, 1000 * 60 * 60 * 24, days, ((hours * 60 + minutes) * 60 + seconds) * 1000 + ms);
    DivUnique(secs, 60, mins, seconds);
    DivUnique(mins, 60, hrs, minutes);
    DivUnique(hrs, 24, days, hours);
  }

  /** Division with remainder has one answer. */
  lemma DivUnique(x: int, d: int, q: int, r: int)
    requires 0 < d && x == q * d + r && 0 <= r < d
    ensures x / d == q && x % d == r
  {
    var q', r' := x / d, x % d;
    assert (q - q') * d == r' - r;
    if q > q' {
      MulAtLeast(q - q', d);
    } else if q < q' {
      MulAtLeast(q' - q, d);
    }
  }

  lemma MulAtLeast(k: int, d: int)
    requires 1 <= k && 0 < d
    ensures k * d >= d
  {
  }
}
