/** The fixed-window rate limiter, and what it means for sliding intervals. */
module RateLimit {
  import opened Bytes
  import opened Wrappers

  datatype Window = Window(start: nat, count: nat)

  /** One event against one key's window, if it has one. */
  function Admit(w: Option<Window>, now: nat, max: nat, windowMs: nat): (Window, bool) {
    var cur := if w.Some? then w.value else Window(now, 0);
    var elapsed := if now >= cur.start then now - cur.start else 0;
    var win := if elapsed >= windowMs then Window(now, 0) else cur;
    if win.count >= max then (win, false) else (Window(win.start, win.count + 1), true)
  }

  predicate Stale(w: Window, now: nat, windowMs: nat) {
    (if now >= w.start then now - w.start else 0) >= windowMs
  }

  type Windows = map<Bytes, Window>

  function Lookup(windows: Windows, key: Bytes): Option<Window> {
    if key in windows then Some(windows[key]) else None
  }

  class RateLimiter {
    const max: nat
    const windowMs: nat
    var windows: Windows

    constructor (max: nat, windowMs: nat)
      ensures this.max == max && this.windowMs == windowMs && windows == map[]
    {
      this.max, this.windowMs, windows := max, windowMs, map[];
    }

    method Allow(key: Bytes, now: nat) returns (ok: bool)
      modifies this`windows
      ensures var (w, admitted) := Admit(Lookup(old(windows), key), now, max, windowMs);
              windows == old(windows)[key := w] && ok == admitted
      ensures var open := key in old(windows) && 0 < windowMs && now < old(windows)[key].start + windowMs;
              if !open then ok == (max > 0) && windows == old(windows)[key := Window(now, if max > 0 then 1 else 0)]
              else
                var w := old(windows)[key];
                ok == (w.count < max) && windows == old(windows)[key := if ok then Window(w.start, w.count + 1) else w]
    {
      if key !in windows {
        windows := windows[key := Window(now, 0)];
      }
      var w := windows[key];
      var elapsed := if now >= w.start then now - w.start else 0;
      if elapsed >= windowMs {
        w := Window(now, 0);
        windows := windows[key := w];
      }
      if w.count >= max {
        return false;
      }
      windows := windows[key := w.(count := w.count + 1)];
      return true;
    }

    method Gc(now: nat)
      modifies this`windows
      ensures windows == map k | k in old(windows) && !Stale(old(windows)[k], now, windowMs) :: old(windows)[k]
      ensures forall k :: k in windows <==>
                k in old(windows) && 0 < windowMs && now < old(windows)[k].start + windowMs
    {
      windows := map k | k in windows && !Stale(windows[k], now, windowMs) :: windows[k];
    }
  }

  // ----- Runs -----

  datatype Op = Event(key: Bytes, at: nat) | Collect(at: nat)

  /** Timestamps never go back. */
  ghost predicate Monotone(ops: seq<Op>) {
    forall i, j :: 0 <= i < j < |ops| ==> ops[i].at <= ops[j].at
  }

  /** The windows after a run that starts with none. */
  function WindowsAfter(ops: seq<Op>, max: nat, windowMs: nat): Windows {
    if ops == [] then map[]
    else
      var before := WindowsAfter(ops[..|ops| - 1], max, windowMs);
      match ops[|ops| - 1]
      case Event(key, at) => before[key := Admit(Lookup(before, key), at, max, windowMs).0]
      case Collect(at) => map k | k in before && !Stale(before[k], at, windowMs) :: before[k]
  }

  /** The times of one key's events. */
  function EventsOf(ops: seq<Op>, key: Bytes): (r: seq<nat>)
    ensures forall t :: t in r ==> exists i :: 0 <= i < |ops| && ops[i].at == t
  {
    if ops == [] then []
    else
      var n := |ops| - 1;
      assert forall i :: 0 <= i < n ==> ops[..n][i] == ops[i];
      EventsOf(ops[..n], key) + if ops[n].Event? && ops[n].key == key then [ops[n].at] else []
  }

  /** One key alone, never collected. */
  function Alone(times: seq<nat>, max: nat, windowMs: nat): Option<Window> {
    if times == [] then None
    else Some(Admit(Alone(times[..|times| - 1], max, windowMs), times[|times| - 1], max, windowMs).0)
  }

  /** Whether the last of one key's events was allowed, in that key's own history. */
  function AnswerAlone(times: seq<nat>, max: nat, windowMs: nat): bool
    requires times != []
  {
    Admit(Alone(times[..|times| - 1], max, windowMs), times[|times| - 1], max, windowMs).1
  }

  /** The answer the limiter gives to the event that ends the run. */
  function AnswerInRun(ops: seq<Op>, max: nat, windowMs: nat): bool
    requires ops != [] && ops[|ops| - 1].Event?
  {
    var n := |ops| - 1;
    Admit(Lookup(WindowsAfter(ops[..n], max, windowMs), ops[n].key), ops[n].at, max, windowMs).1
  }

  /** The same window, or one collected that no later event could have used. */
  predicate Equivalent(table: Option<Window>, alone: Option<Window>, now: nat, windowMs: nat) {
    table == alone || (table.None? && alone.Some? && Stale(alone.value, now, windowMs))
  }

  lemma EquivalentAdmit(table: Option<Window>, alone: Option<Window>, last: nat, now: nat, max: nat, windowMs: nat)
    requires last <= now && Equivalent(table, alone, last, windowMs)
    requires alone.Some? ==> alone.value.start <= last
    ensures Admit(table, now, max, windowMs) == Admit(alone, now, max, windowMs)
  {
  }

  /** Whatever other keys do and whenever windows are collected, the table's entry for a
      key stays equivalent to that key's own history. */
  lemma {:induction false} TableFollowsKey(ops: seq<Op>, key: Bytes, now: nat, max: nat, windowMs: nat)
    requires Monotone(ops) && forall i :: 0 <= i < |ops| ==> ops[i].at <= now
    ensures Equivalent(Lookup(WindowsAfter(ops, max, windowMs), key),
                       Alone(EventsOf(ops, key), max, windowMs), now, windowMs)
    ensures var w := Alone(EventsOf(ops, key), max, windowMs); w.Some? ==> w.value.start <= now
  {
    if ops != [] {
      var n := |ops| - 1;
      var last := ops[n].at;
      TableFollowsKey(ops[..n], key, last, max, windowMs);
      var table, alone := Lookup(WindowsAfter(ops[..n], max, windowMs), key),
          Alone(EventsOf(ops[..n], key), max, windowMs);
      if ops[n].Event? && ops[n].key == key {
        var times := EventsOf(ops, key);
        assert times[..|times| - 1] == EventsOf(ops[..n], key);
        EquivalentAdmit(table, alone, last, last, max, windowMs);
      } else {
        assert EventsOf(ops, key) == EventsOf(ops[..n], key);
        assert Equivalent(Lookup(WindowsAfter(ops, max, windowMs), key), alone, last, windowMs);
      }
    }
  }

  /** Every answer is the one the key would get if it were alone and nothing was ever
      collected. */
  lemma OtherKeysAndCollectionChangeNoAnswer(ops: seq<Op>, max: nat, windowMs: nat)
    requires ops != [] && ops[|ops| - 1].Event? && Monotone(ops)
    ensures AnswerInRun(ops, max, windowMs)
            == AnswerAlone(EventsOf(ops, ops[|ops| - 1].key), max, windowMs)
  {
    var n := |ops| - 1;
    var key, now := ops[n].key, ops[n].at;
    TableFollowsKey(ops[..n], key, now, max, windowMs);
    var times := EventsOf(ops, key);
    assert times[..|times| - 1] == EventsOf(ops[..n], key);
    EquivalentAdmit(Lookup(WindowsAfter(ops[..n], max, windowMs), key), Alone(EventsOf(ops[..n], key), max, windowMs),
                    now, now, max, windowMs);
  }

  // ----- The sliding bound -----

  ghost predicate Ascending(times: seq<nat>) {
    forall i, j :: 0 <= i < j < |times| ==> times[i] <= times[j]
  }

  /** Under a monotone clock every key sees its own events in time order. */
  lemma {:induction false} EventsAscend(ops: seq<Op>, key: Bytes)
    requires Monotone(ops)
    ensures Ascending(EventsOf(ops, key))
  {
    if ops != [] {
      var n := |ops| - 1;
      EventsAscend(ops[..n], key);
      var head := EventsOf(ops[..n], key);
      forall k | 0 <= k < |head| ensures head[k] <= ops[n].at {
        assert head[k] in head;
        var i :| 0 <= i < |ops[..n]| && ops[..n][i].at == head[k];
        assert ops[i].at == head[k];
      }
    }
  }

  /** How many of one key's events at or after `from` were allowed. */
  function AllowedSince(times: seq<nat>, from: nat, max: nat, windowMs: nat): nat {
    if times == [] then 0
    else
      AllowedSince(times[..|times| - 1], from, max, windowMs)
      + if times[|times| - 1] >= from && AnswerAlone(times, max, windowMs) then 1 else 0
  }

  /** Inside one interval of a window's length at most two windows are open: one that
      started before it and has already spent an event outside, and one that starts in it. */
  lemma {:induction false} TwoWindows(times: seq<nat>, from: nat, max: nat, windowMs: nat)
    requires max > 0 && Ascending(times) && forall i :: 0 <= i < |times| ==> times[i] < from + windowMs
    ensures times != [] ==> Alone(times, max, windowMs).Some?
    ensures var n, w := AllowedSince(times, from, max, windowMs), Alone(times, max, windowMs);
            if w.None? then n == 0
            else
              && 1 <= w.value.count <= max && w.value.start <= times[|times| - 1]
              && (if w.value.start < from then n <= w.value.count - 1 else n <= max - 1 + w.value.count)
  {
    if times != [] {
      var n := |times| - 1;
      TwoWindows(times[..n], from, max, windowMs);
      var before := Alone(times[..n], max, windowMs);
      if n > 0 {
        assert times[n - 1] <= times[n] && times[..n][n - 1] == times[n - 1];
        if times[n] < from {
          NothingSince(times, from, max, windowMs);
        }
      }
    }
  }

  lemma {:induction false} NothingSince(times: seq<nat>, from: nat, max: nat, windowMs: nat)
    requires Ascending(times) && times != [] && times[|times| - 1] < from
    ensures AllowedSince(times, from, max, windowMs) == 0
  {
    var n := |times| - 1;
    if n > 0 {
      NothingSince(times[..n], from, max, windowMs);
    }
  }

  /** Allowed events of one key in the half-open interval [from, to). */
  function AllowedIn(times: seq<nat>, from: nat, to: nat, max: nat, windowMs: nat): nat {
    if times == [] then 0
    else
      var t := times[|times| - 1];
      AllowedIn(times[..|times| - 1], from, to, max, windowMs)
      + if from <= t < to && AnswerAlone(times, max, windowMs) then 1 else 0
  }

  lemma {:induction false} AllBefore(times: seq<nat>, from: nat, to: nat, max: nat, windowMs: nat)
    requires forall i :: 0 <= i < |times| ==> times[i] < to
    ensures AllowedIn(times, from, to, max, windowMs) == AllowedSince(times, from, max, windowMs)
  {
    if times != [] {
      AllBefore(times[..|times| - 1], from, to, max, windowMs);
    }
  }

  /** For a non-decreasing clock, any half-open interval of a window's length contains at
      most `2 * max - 1` allowed events of a key, and none if `max` is 0. */
  lemma {:induction false} SlidingBound(times: seq<nat>, from: nat, max: nat, windowMs: nat)
    requires Ascending(times)
    ensures AllowedIn(times, from, from + windowMs, max, windowMs) <= if max == 0 then 0 else 2 * max - 1
  {
    if times != [] && times[|times| - 1] >= from + windowMs {
      SlidingBound(times[..|times| - 1], from, max, windowMs);
    } else {
      AllBefore(times, from, from + windowMs, max, windowMs);
      if max == 0 {
        NoneAllowed(times, from, windowMs);
      } else {
        TwoWindows(times, from, max, windowMs);
      }
    }
  }

  lemma {:induction false} NoneAllowed(times: seq<nat>, from: nat, windowMs: nat)
    ensures AllowedSince(times, from, 0, windowMs) == 0
  {
    if times != [] {
      NoneAllowed(times[..|times| - 1], from, windowMs);
    }
  }

  /** How many of `key`'s events in [from, to) a whole run allows, other keys' events and
      collections included. */
  function AllowedInRun(ops: seq<Op>, key: Bytes, from: nat, to: nat, max: nat, windowMs: nat): nat {
    if ops == [] then 0
    else
      var last := ops[|ops| - 1];
      AllowedInRun(ops[..|ops| - 1], key, from, to, max, windowMs)
      + if last.Event? && last.key == key && from <= last.at < to && AnswerInRun(ops, max, windowMs) then 1 else 0
  }

  /** A run allows a key what the key's own history would. */
  lemma {:induction false} RunAllowsWhatTheKeyGets(ops: seq<Op>, key: Bytes, from: nat, to: nat, max: nat,
                                                   windowMs: nat)
    requires Monotone(ops)
    ensures AllowedInRun(ops, key, from, to, max, windowMs)
            == AllowedIn(EventsOf(ops, key), from, to, max, windowMs)
  {
    if ops != [] {
      var n := |ops| - 1;
      RunAllowsWhatTheKeyGets(ops[..n], key, from, to, max, windowMs);
      if ops[n].Event? && ops[n].key == key {
        OtherKeysAndCollectionChangeNoAnswer(ops, max, windowMs);
        var times := EventsOf(ops, key);
        assert times[..|times| - 1] == EventsOf(ops[..n], key);
      } else {
        assert EventsOf(ops, key) == EventsOf(ops[..n], key);
      }
    }
  }

  /** The bound, over whole runs: in any half-open interval of one window's length at most
      `2 * max - 1` events of a key are allowed, whatever else happens. */
  lemma RunStaysInBound(ops: seq<Op>, key: Bytes, from: nat, max: nat, windowMs: nat)
    requires Monotone(ops)
    ensures AllowedInRun(ops, key, from, from + windowMs, max, windowMs) <= if max == 0 then 0 else 2 * max - 1
  {
    RunAllowsWhatTheKeyGets(ops, key, from, from + windowMs, max, windowMs);
    EventsAscend(ops, key);
    SlidingBound(EventsOf(ops, key), from, max, windowMs);
  }

  /** With windows of one millisecond, the events of one moment share one window. */
  lemma {:induction false} OneMoment(times: seq<nat>, from: nat, max: nat)
    requires max > 0 && Ascending(times) && forall i :: 0 <= i < |times| ==> times[i] <= from
    ensures times != [] ==> Alone(times, max, 1).Some?
    ensures var n, w := AllowedSince(times, from, max, 1), Alone(times, max, 1);
            if w.None? then n == 0
            else
              && 1 <= w.value.count <= max && w.value.start <= times[|times| - 1]
              && (if w.value.start < from then n == 0 else n <= w.value.count)
  {
    if times != [] {
      var n := |times| - 1;
      OneMoment(times[..n], from, max);
      if n > 0 {
        assert times[n - 1] <= times[n] && times[..n][n - 1] == times[n - 1];
      }
    }
  }

  /** With windows of at most one millisecond the advertised quota holds for intervals too. */
  lemma {:induction false} ShortWindowsKeepTheQuota(times: seq<nat>, from: nat, max: nat, windowMs: nat)
    requires Ascending(times) && windowMs <= 1
    ensures AllowedIn(times, from, from + windowMs, max, windowMs) <= max
  {
    if max == 0 {
      SlidingBound(times, from, max, windowMs);
    } else if times != [] {
      if times[|times| - 1] >= from + windowMs {
        ShortWindowsKeepTheQuota(times[..|times| - 1], from, max, windowMs);
      } else {
        AllBefore(times, from, from + windowMs, max, windowMs);
        if windowMs == 1 {
          OneMoment(times, from, max);
        } else {
          NothingSince(times, from, max, windowMs);
        }
      }
    }
  }

  // ----- The bound is reached -----

  /** One event at 0, `a` events at 1, then `b` events as the next window opens. */
  function Burst(a: nat, b: nat, windowMs: nat): (r: seq<nat>)
    ensures |r| == 1 + a + b
    ensures r[0] == 0
    ensures forall i :: 1 <= i <= a ==> r[i] == 1
    ensures forall i :: a < i < |r| ==> r[i] == windowMs
  {
    seq(1 + a + b, i => if i == 0 then 0 else if i <= a then 1 else windowMs)
  }

  lemma {:induction false} FirstWindowFills(a: nat, max: nat, windowMs: nat)
    requires windowMs >= 2 && a < max
    ensures Alone(Burst(a, 0, windowMs), max, windowMs) == Some(Window(0, 1 + a))
    ensures AllowedSince(Burst(a, 0, windowMs), 1, max, windowMs) == a
  {
    var r := Burst(a, 0, windowMs);
    if a == 0 {
      assert r[..0] == [];
    } else {
      FirstWindowFills(a - 1, max, windowMs);
      assert r[..a] == Burst(a - 1, 0, windowMs);
    }
  }

  lemma BurstGrows(a: nat, b: nat, windowMs: nat)
    requires b > 0
    ensures var r := Burst(a, b, windowMs);
            r[..|r| - 1] == Burst(a, b - 1, windowMs) && r[|r| - 1] == windowMs
  {
  }

  /** One more event: what it adds to a key's own history. */
  lemma OneMore(p: seq<nat>, t: nat, times: seq<nat>, from: nat, max: nat, windowMs: nat)
    requires |times| == |p| + 1 && times[..|times| - 1] == p && times[|times| - 1] == t
    ensures var (w, ok) := Admit(Alone(p, max, windowMs), t, max, windowMs);
            && Alone(times, max, windowMs) == Some(w)
            && AllowedSince(times, from, max, windowMs)
               == AllowedSince(p, from, max, windowMs) + if t >= from && ok then 1 else 0
  {
  }

  /** An event at the window's end opens the next one; more at that moment fill it. */
  lemma NextWindowTakes(p: seq<nat>, times: seq<nat>, b: nat, max: nat, windowMs: nat)
    requires windowMs >= 2 && 1 <= b <= max
    requires |times| == |p| + 1 && times[..|times| - 1] == p && times[|times| - 1] == windowMs
    requires Alone(p, max, windowMs) == Some(if b == 1 then Window(0, max) else Window(windowMs, b - 1))
    ensures Alone(times, max, windowMs) == Some(Window(windowMs, b))
    ensures AllowedSince(times, 1, max, windowMs) == AllowedSince(p, 1, max, windowMs) + 1
  {
    OneMore(p, windowMs, times, 1, max, windowMs);
  }

  lemma {:induction false} SecondWindowFills(b: nat, max: nat, windowMs: nat)
    requires windowMs >= 2 && 1 <= b <= max
    ensures Alone(Burst(max - 1, b, windowMs), max, windowMs) == Some(Window(windowMs, b))
    ensures AllowedSince(Burst(max - 1, b, windowMs), 1, max, windowMs) == max - 1 + b
  {
    if b == 1 {
      FirstWindowFills(max - 1, max, windowMs);
    } else {
      SecondWindowFills(b - 1, max, windowMs);
    }
    BurstGrows(max - 1, b, windowMs);
    NextWindowTakes(Burst(max - 1, b - 1, windowMs), Burst(max - 1, b, windowMs), b, max, windowMs);
  }

  /** No smaller bound holds: for every positive quota and every window of at least two
      milliseconds some history gets `2 * max - 1` events into one interval, nearly twice
      the advertised `max`. */
  lemma SlidingBoundIsReached(max: nat, windowMs: nat)
    requires max > 0 && windowMs >= 2
    ensures exists times :: Ascending(times) && AllowedIn(times, 1, 1 + windowMs, max, windowMs) == 2 * max - 1
  {
    SecondWindowFills(max, max, windowMs);
    AllBefore(Burst(max - 1, max, windowMs), 1, 1 + windowMs, max, windowMs);
    assert Ascending(Burst(max - 1, max, windowMs));
  }

  /** Allowed events in the interval of one window's length that begins at `from`. */
  function AllowedFrom(times: seq<nat>, from: nat, max: nat, windowMs: nat): nat {
    AllowedIn(times, from, from + windowMs, max, windowMs)
  }

  /** No interval of one window's length ever sees more than the advertised `max`, exactly
      when `max` is at most one or windows last at most a millisecond. */
  lemma QuotaHoldsForIntervalsExactlyWhen(max: nat, windowMs: nat)
    ensures (forall times, from: nat | Ascending(times) :: AllowedFrom(times, from, max, windowMs) <= max)
            <==> max <= 1 || windowMs <= 1
  {
    if max <= 1 || windowMs <= 1 {
      forall times, from: nat | Ascending(times) ensures AllowedFrom(times, from, max, windowMs) <= max {
        if windowMs <= 1 {
          ShortWindowsKeepTheQuota(times, from, max, windowMs);
        } else {
          SlidingBound(times, from, max, windowMs);
        }
      }
    } else {
      SlidingBoundIsReached(max, windowMs);
      var times :| Ascending(times) && AllowedIn(times, 1, 1 + windowMs, max, windowMs) == 2 * max - 1;
      assert AllowedFrom(times, 1, max, windowMs) == 2 * max - 1;
    }
  }
}
