/** Counting events in sliding time windows, for the two rate limiters. Times are real numbers. */
module SlidingWindow {

  /** Is `t` after the cutoff? A closed window keeps the cutoff itself, a half-open one does not. */
  predicate Fresh(closed: bool, t: real, cutoff: real) {
    if closed then t >= cutoff else t > cutoff
  }

  /** `[t for t in s if fresh]`. */
  function Keep(s: seq<real>, closed: bool, cutoff: real): seq<real> {
    if s == [] then []
    else
      var kept := Keep(s[..|s| - 1], closed, cutoff);
      if Fresh(closed, s[|s| - 1], cutoff) then kept + [s[|s| - 1]] else kept
  }

  ghost predicate Nondecreasing(s: seq<real>) {
    forall i, j :: 0 <= i < j < |s| ==> s[i] <= s[j]
  }

  /** One question to a limiter whose window holds `s`: forget what is too old, refuse if the window
      is full, otherwise record the time. */
  function Ask(s: seq<real>, max: int, closed: bool, width: real, now: real): (r: (seq<real>, bool)) {
    var kept := Keep(s, closed, now - width);
    if |kept| >= max then (kept, false) else (kept + [now], true)
  }

  /** The window after the first `n` questions. */
  function WindowAt(times: seq<real>, max: int, closed: bool, width: real, n: nat): seq<real>
    requires n <= |times|
  {
    if n == 0 then [] else Ask(WindowAt(times, max, closed, width, n - 1), max, closed, width, times[n - 1]).0
  }

  predicate AllowedAt(times: seq<real>, max: int, closed: bool, width: real, n: nat)
    requires n < |times|
  {
    Ask(WindowAt(times, max, closed, width, n), max, closed, width, times[n]).1
  }

  /** The times of all allowances among the first `n` questions. */
  function Allowances(times: seq<real>, max: int, closed: bool, width: real, n: nat): seq<real>
    requires n <= |times|
  {
    if n == 0 then []
    else
      var before := Allowances(times, max, closed, width, n - 1);
      if AllowedAt(times, max, closed, width, n - 1) then before + [times[n - 1]] else before
  }

  /** How many of the times lie in the window that starts at `lo`. */
  function CountIn(s: seq<real>, closed: bool, lo: real, width: real): nat {
    if s == [] then 0
    else CountIn(s[..|s| - 1], closed, lo, width) +
         if Fresh(closed, s[|s| - 1], lo) && s[|s| - 1] <= lo + width then 1 else 0
  }

  ghost predicate AtMost(s: seq<real>, t: real) {
    forall i :: 0 <= i < |s| ==> s[i] <= t
  }

  lemma KeepAppend(s: seq<real>, closed: bool, c: real, t: real)
    ensures Keep(s + [t], closed, c) ==
            if Fresh(closed, t, c) then Keep(s, closed, c) + [t] else Keep(s, closed, c)
  {
    assert (s + [t])[..|s|] == s;
  }

  lemma {:induction false} KeepTwice(s: seq<real>, closed: bool, c: real, d: real)
    requires c <= d
    ensures Keep(Keep(s, closed, c), closed, d) == Keep(s, closed, d)
  {
    if s != [] {
      KeepTwice(s[..|s| - 1], closed, c, d);
      KeepAppend(Keep(s[..|s| - 1], closed, c), closed, d, s[|s| - 1]);
    }
  }

  lemma {:induction false} AllowancesBefore(times: seq<real>, max: int, closed: bool, width: real, n: nat)
    requires Nondecreasing(times) && n <= |times|
    ensures if n == 0 then Allowances(times, max, closed, width, n) == []
            else AtMost(Allowances(times, max, closed, width, n), times[n - 1])
  {
    if n > 0 {
      AllowancesBefore(times, max, closed, width, n - 1);
    }
  }

  /** One question keeps a window and the full list of allowances in step. */
  lemma AskKeepsStep(s: seq<real>, all: seq<real>, max: int, closed: bool, width: real, t: real, now: real)
    requires Keep(s, closed, t - width) == Keep(all, closed, t - width) && t <= now
    ensures var (s', ok) := Ask(s, max, closed, width, t);
            Keep(s', closed, now - width) == Keep(if ok then all + [t] else all, closed, now - width)
  {
    hide Keep;
    var kept := Keep(s, closed, t - width);
    KeepTwice(all, closed, t - width, now - width);
    KeepAppend(kept, closed, now - width, t);
    KeepAppend(all, closed, now - width, t);
  }

  /** Nothing that still matters is forgotten: before question `n` the window, purged, holds exactly
      the allowances of the last `width` seconds. */
  lemma {:induction false} WindowIsRecentAllowances(times: seq<real>, max: int, closed: bool, width: real, n: nat,
                                                    now: real)
    requires Nondecreasing(times) && n <= |times| && (n > 0 ==> times[n - 1] <= now)
    ensures Keep(WindowAt(times, max, closed, width, n), closed, now - width) ==
            Keep(Allowances(times, max, closed, width, n), closed, now - width)
  {
    hide Ask, Keep;
    if n > 0 {
      WindowIsRecentAllowances(times, max, closed, width, n - 1, times[n - 1]);
      AskKeepsStep(WindowAt(times, max, closed, width, n - 1), Allowances(times, max, closed, width, n - 1),
                   max, closed, width, times[n - 1], now);
    }
  }

  lemma {:induction false} CountAtMostKept(s: seq<real>, closed: bool, lo: real, width: real, cutoff: real)
    requires cutoff <= lo
    ensures CountIn(s, closed, lo, width) <= |Keep(s, closed, cutoff)|
  {
    if s != [] {
      CountAtMostKept(s[..|s| - 1], closed, lo, width, cutoff);
    }
  }

  /** An allowance leaves every window that contains it within the limit. */
  lemma AllowedFits(s: seq<real>, all: seq<real>, max: int, closed: bool, width: real, t: real, lo: real)
    requires Keep(s, closed, t - width) == Keep(all, closed, t - width)
    requires Ask(s, max, closed, width, t).1
    ensures CountIn(all + [t], closed, lo, width) <= max ||
            CountIn(all + [t], closed, lo, width) == CountIn(all, closed, lo, width)
  {
    CountAppend(all, closed, lo, width, t);
    if t <= lo + width {
      CountAtMostKept(all, closed, lo, width, t - width);
    }
  }

  /** The limit holds for every window of a run, wherever it starts, not only for those that end now. */
  lemma {:induction false} EveryWindowIsLimited(times: seq<real>, max: int, closed: bool, width: real, n: nat,
                                                lo: real)
    requires Nondecreasing(times) && n <= |times|
    ensures CountIn(Allowances(times, max, closed, width, n), closed, lo, width) <= if max > 0 then max else 0
  {
    hide Ask, Keep, Nondecreasing;
    if n > 0 {
      EveryWindowIsLimited(times, max, closed, width, n - 1, lo);
      if AllowedAt(times, max, closed, width, n - 1) {
        assert n > 1 ==> times[n - 2] <= times[n - 1] by { InOrder(times, n); }
        WindowIsRecentAllowances(times, max, closed, width, n - 1, times[n - 1]);
        AllowedFits(WindowAt(times, max, closed, width, n - 1), Allowances(times, max, closed, width, n - 1),
                    max, closed, width, times[n - 1], lo);
      }
    }
  }

  lemma InOrder(times: seq<real>, n: nat)
    requires Nondecreasing(times) && 0 < n <= |times|
    ensures n > 1 ==> times[n - 2] <= times[n - 1]
  {
  }

  lemma CountAppend(s: seq<real>, closed: bool, lo: real, width: real, t: real)
    ensures CountIn(s + [t], closed, lo, width) ==
            CountIn(s, closed, lo, width) + if Fresh(closed, t, lo) && t <= lo + width then 1 else 0
  {
    assert (s + [t])[..|s|] == s;
  }

  lemma {:induction false} KeptAreCounted(s: seq<real>, closed: bool, now: real, width: real)
    requires AtMost(s, now)
    ensures CountIn(s, closed, now - width, width) == |Keep(s, closed, now - width)|
  {
    if s != [] {
      KeptAreCounted(s[..|s| - 1], closed, now, width);
    }
  }

  /** A question is refused exactly when the window that ends now is already full. */
  lemma RefusedIffFull(times: seq<real>, max: int, closed: bool, width: real, n: nat)
    requires Nondecreasing(times) && n < |times|
    ensures !AllowedAt(times, max, closed, width, n) <==>
            CountIn(Allowances(times, max, closed, width, n), closed, times[n] - width, width) >= max
  {
    hide Keep, CountIn;
    AllowancesBefore(times, max, closed, width, n);
    WindowIsRecentAllowances(times, max, closed, width, n, times[n]);
    KeptAreCounted(Allowances(times, max, closed, width, n), closed, times[n], width);
  }
}
