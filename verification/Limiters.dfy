/** The request limiter of a connection and the handshake limiter of the server. */
module Limiters {
  import opened SlidingWindow

  /** Drops the leading times that are before the cutoff, and only those. */
  function DropOld(s: seq<real>, cutoff: real): seq<real> {
    if s != [] && s[0] < cutoff then DropOld(s[1..], cutoff) else s
  }

  /** In time order the leading times are all the old ones. */
  lemma {:induction false} DropOldIsKeep(s: seq<real>, cutoff: real)
    requires Nondecreasing(s)
    ensures DropOld(s, cutoff) == Keep(s, true, cutoff)
  {
    if s != [] {
      KeepFromFront(s, true, cutoff);
      if s[0] < cutoff {
        DropOldIsKeep(s[1..], cutoff);
      } else {
        KeepAll(s, cutoff);
      }
    }
  }

  lemma {:induction false} KeepFromFront(s: seq<real>, closed: bool, cutoff: real)
    requires s != []
    ensures Keep(s, closed, cutoff) ==
            (if Fresh(closed, s[0], cutoff) then [s[0]] else []) + Keep(s[1..], closed, cutoff)
  {
    if |s| > 1 {
      var init := s[..|s| - 1];
      KeepFromFront(init, closed, cutoff);
      assert s[1..][..|s| - 2] == init[1..];
    }
  }

  lemma {:induction false} KeepAll(s: seq<real>, cutoff: real)
    requires forall i :: 0 <= i < |s| ==> s[i] >= cutoff
    ensures Keep(s, true, cutoff) == s
  {
    if s != [] {
      KeepAll(s[..|s| - 1], cutoff);
      assert s == s[..|s| - 1] + [s[|s| - 1]];
    }
  }

  lemma {:induction false} KeepSorted(s: seq<real>, closed: bool, cutoff: real, last: real)
    requires Nondecreasing(s) && AtMost(s, last)
    ensures Nondecreasing(Keep(s, closed, cutoff)) && AtMost(Keep(s, closed, cutoff), last)
  {
    if s != [] {
      KeepSorted(s[..|s| - 1], closed, cutoff, s[|s| - 1]);
    }
  }

  lemma {:induction false} WindowSorted(times: seq<real>, max: int, closed: bool, width: real, n: nat)
    requires Nondecreasing(times) && n <= |times|
    ensures Nondecreasing(WindowAt(times, max, closed, width, n))
    ensures n > 0 ==> AtMost(WindowAt(times, max, closed, width, n), times[n - 1])
  {
    hide Keep;
    if n > 0 {
      WindowSorted(times, max, closed, width, n - 1);
      KeepSorted(WindowAt(times, max, closed, width, n - 1), closed, times[n - 1] - width, times[n - 1]);
    }
  }

  /** `append` of a deque with `maxlen`: a full deque drops its oldest entry. */
  function BoundedAppend(s: seq<real>, maxlen: nat, t: real): seq<real> {
    if maxlen == 0 then [] else if |s| >= maxlen then s[1..] + [t] else s + [t]
  }

  class RateLimiter {
    const maxRps: int
    var timestamps: seq<real>

    /** The bounded deque takes `maxRps + 10` entries and refuses a negative bound. */
    constructor (maxRps: int)
      requires maxRps + 10 >= 0
      ensures this.maxRps == maxRps && timestamps == []
    {
      this.maxRps := maxRps;
      timestamps := [];
    }

    /** One request. The append never overflows the deque, so no entry is dropped by its bound; in
        time order the answer and the new window are those of the closed one-second window. */
    method Allow(now: real) returns (ok: bool)
      requires maxRps + 10 >= 0
      modifies this
      ensures ok <==> |DropOld(old(timestamps), now - 1.0)| < maxRps
      ensures timestamps == DropOld(old(timestamps), now - 1.0) + if ok then [now] else []
      ensures Nondecreasing(old(timestamps)) ==>
                (timestamps, ok) == Ask(old(timestamps), maxRps, true, 1.0, now)
    {
      if Nondecreasing(timestamps) {
        DropOldIsKeep(timestamps, now - 1.0);
      }
      while timestamps != [] && timestamps[0] < now - 1.0
        invariant DropOld(timestamps, now - 1.0) == DropOld(old(timestamps), now - 1.0)
        decreases |timestamps|
      {
        timestamps := timestamps[1..];
      }
      if |timestamps| >= maxRps {
        return false;
      }
      timestamps := BoundedAppend(timestamps, maxRps + 10, now);
      return true;
    }

    /** A run of requests in time order answers as the window specification does. */
    method Serve(times: seq<real>) returns (answers: seq<bool>)
      requires maxRps + 10 >= 0 && timestamps == [] && Nondecreasing(times)
      modifies this
      ensures |answers| == |times|
      ensures forall n :: 0 <= n < |times| ==> answers[n] == AllowedAt(times, maxRps, true, 1.0, n)
    {
      answers := [];
      for i := 0 to |times|
        invariant timestamps == WindowAt(times, maxRps, true, 1.0, i)
        invariant |answers| == i && forall n :: 0 <= n < i ==> answers[n] == AllowedAt(times, maxRps, true, 1.0, n)
      {
        WindowSorted(times, maxRps, true, 1.0, i);
        var ok := Allow(times[i]);
        answers := answers + [ok];
      }
    }
  }

  class HandshakeRateLimiter {
    const maxAttempts: int
    const windowS: real
    var attempts: map<string, seq<real>>

    constructor (maxAttempts: int, windowS: real)
      ensures this.maxAttempts == maxAttempts && this.windowS == windowS && attempts == map[]
    {
      this.maxAttempts := maxAttempts;
      this.windowS := windowS;
      attempts := map[];
    }

    function Window(ip: string): seq<real>
      reads this
    {
      if ip in attempts then attempts[ip] else []
    }

    /** One attempt: the half-open window of the address, and of no other address. */
    method Allow(ip: string, now: real) returns (ok: bool)
      modifies this
      ensures (Window(ip), ok) == Ask(old(Window(ip)), maxAttempts, false, windowS, now)
      ensures forall other :: other != ip ==> Window(other) == old(Window(other))
    {
      var window := if ip in attempts then attempts[ip] else [];
      var kept: seq<real> := [];
      for i := 0 to |window|
        invariant kept == Keep(window[..i], false, now - windowS)
      {
        assert window[..i + 1][..i] == window[..i];
        if window[i] > now - windowS {
          kept := kept + [window[i]];
        }
      }
      assert window[..|window|] == window;
      if |kept| >= maxAttempts {
        attempts := attempts[ip := kept];
        return false;
      }
      attempts := attempts[ip := kept + [now]];
      return true;
    }

    method Reset(ip: string)
      modifies this
      ensures Window(ip) == []
      ensures forall other :: other != ip ==> Window(other) == old(Window(other))
    {
      attempts := attempts - {ip};
    }

    /** A run of attempts from many addresses: the answers to one address are those of its own window
        specification on its own attempts since its last reset, whatever the others do. */
    method Serve(ops: seq<(string, Op)>, ghost ip: string) returns (answers: seq<bool>)
      requires attempts == map[]
      modifies this
      ensures |answers| == |ops|
      ensures forall n :: 0 <= n < |ops| && ops[n].0 == ip && ops[n].1.Attempt? ==>
                answers[n] == AllowedAt(Own(ops, ip, n + 1), maxAttempts, false, windowS, |Own(ops, ip, n + 1)| - 1)
    {
      hide Ask;
      answers := [];
      for i := 0 to |ops|
        invariant Window(ip) == WindowAt(Own(ops, ip, i), maxAttempts, false, windowS, |Own(ops, ip, i)|)
        invariant |answers| == i
        invariant forall n :: 0 <= n < i && ops[n].0 == ip && ops[n].1.Attempt? ==>
                answers[n] == AllowedAt(Own(ops, ip, n + 1), maxAttempts, false, windowS, |Own(ops, ip, n + 1)| - 1)
      {
        match ops[i].1
        case Reset =>
          Reset(ops[i].0);
          answers := answers + [true];
        case Attempt(now) =>
          if ops[i].0 == ip {
            WindowPrefix(Own(ops, ip, i), now, maxAttempts, false, windowS, |Own(ops, ip, i)|);
          }
          var ok := Allow(ops[i].0, now);
          answers := answers + [ok];
      }
    }
  }

  datatype Op = Attempt(now: real) | Reset

  /** The times of the address's attempts among the first `n` operations, since its last reset. */
  function Own(ops: seq<(string, Op)>, ip: string, n: nat): (times: seq<real>)
    requires n <= |ops|
    ensures n > 0 && ops[n - 1].0 == ip && ops[n - 1].1.Attempt? ==> times != []
  {
    if n == 0 then []
    else if ops[n - 1].0 != ip then Own(ops, ip, n - 1)
    else match ops[n - 1].1
      case Reset => []
      case Attempt(now) => Own(ops, ip, n - 1) + [now]
  }

  /** The window after a prefix of a run does not depend on what follows. */
  lemma {:induction false} WindowPrefix(times: seq<real>, t: real, max: int, closed: bool, width: real, n: nat)
    requires n <= |times|
    ensures WindowAt(times + [t], max, closed, width, n) == WindowAt(times, max, closed, width, n)
  {
    if n > 0 {
      WindowPrefix(times, t, max, closed, width, n - 1);
    }
  }
}
