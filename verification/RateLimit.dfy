/**
 The fixed-window rate limiter (src/do/RateLimitDO.ts). Times are milliseconds; a window is a whole
 number of seconds, at least one.
 */
module RateLimit {
  import opened Arithmetic
  import opened Wrappers

  datatype Limits = Limits(limit: nat, windowSeconds: nat)

  function WindowMs(p: Limits): nat { p.windowSeconds * 1000 }

  /** The stored window, both keys defaulting to 0 when they are missing. */
  datatype Window = Window(start: int, count: nat)

  const CLEARED := Window(0, 0)

  datatype Answer = Answer(allowed: bool, remaining: nat, retryAfterSeconds: int, firstDenied: bool)

  predicate IsNew(w: Window, p: Limits, now: int) {
    now - w.start >= WindowMs(p)
  }

  /** The window after a hit, its counter saturating one above the limit. */
  function Next(w: Window, p: Limits, now: int): Window {
    if IsNew(w, p, now) then Window(now, 1) else Window(w.start, Min(w.count + 1, p.limit + 1))
  }

  function CeilDiv(a: int, b: int): int
    requires b > 0
  {
    (a + b - 1) / b
  }

  function Reply(w: Window, p: Limits, now: int): Answer {
    var next := Next(w, p, now);
    var allowed := next.count <= p.limit;
    Answer(allowed,
           if next.count <= p.limit then p.limit - next.count else 0,
           if allowed then 0 else CeilDiv(next.start + WindowMs(p) - now, 1000),
           !allowed && (IsNew(w, p, now) || w.count <= p.limit))
  }

  class RateLimiter {
    var windowStart: Option<int>
    var count: Option<nat>
    var alarmAt: Option<int>

    ghost function View(): Window
      reads this
    {
      Window(if windowStart.Some? then windowStart.value else 0, if count.Some? then count.value else 0)
    }

    constructor ()
      ensures View() == CLEARED
    {
      windowStart, count, alarmAt := None, None, None;
    }

    method Check(p: Limits, now: int) returns (answer: Answer)
      modifies this
      ensures answer == Reply(old(View()), p, now) && View() == Next(old(View()), p, now)
      ensures IsNew(old(View()), p, now) ==> alarmAt == Some(now + WindowMs(p) + 1000)
      ensures !IsNew(old(View()), p, now) ==> alarmAt == old(alarmAt)
    {
      var windowMs := p.windowSeconds * 1000;
      var storedStart := if windowStart.Some? then windowStart.value else 0;
      var storedCount := if count.Some? then count.value else 0;
      var newWindow := now - storedStart >= windowMs;
      var start := if newWindow then now else storedStart;
      var hits := if newWindow then 1 else Min(storedCount + 1, p.limit + 1);
      if newWindow {
        windowStart, count := Some(start), Some(hits);
        alarmAt := Some(start + windowMs + 1000);
      } else if hits != storedCount {
        count := Some(hits);
      }
      var allowed := hits <= p.limit;
      var firstDenied := !allowed && (newWindow || storedCount <= p.limit);
      var retryAfterSeconds := if allowed then 0 else CeilDiv(start + windowMs - now, 1000);
      return Answer(allowed, if p.limit > hits then p.limit - hits else 0, retryAfterSeconds, firstDenied);
    }

    method Alarm()
      modifies this
      ensures View() == CLEARED
    {
      windowStart, count, alarmAt := None, None, None;
    }
  }

  // ---- Runs ------------------------------------------------------------------

  /** One hit: when, in which window, and how it was answered. */
  datatype Hit = Hit(at: int, start: int, answer: Answer)

  /** The hits of a run without reset, from cleared storage. */
  function Log(p: Limits, times: seq<int>): (Window, seq<Hit>) {
    if times == [] then (CLEARED, [])
    else
      var (w, hits) := Log(p, times[..|times| - 1]);
      var now := times[|times| - 1];
      (Next(w, p, now), hits + [HitNow(p, w, now)])
  }

  predicate Monotone(times: seq<int>) {
    (forall i :: 0 <= i < |times| ==> 0 <= times[i]) && forall i, j :: 0 <= i < j < |times| ==> times[i] <= times[j]
  }

  function Count(hits: seq<Hit>, p: Hit -> bool): nat {
    if hits == [] then 0
    else Count(hits[..|hits| - 1], p) + (if p(hits[|hits| - 1]) then 1 else 0)
  }

  function HitsIn(hits: seq<Hit>, start: int): nat {
    Count(hits, (h: Hit) => h.start == start)
  }

  function AllowedIn(hits: seq<Hit>, start: int): nat {
    Count(hits, (h: Hit) => h.start == start && h.answer.allowed)
  }

  function FirstDenialsIn(hits: seq<Hit>, start: int): nat {
    Count(hits, (h: Hit) => h.start == start && h.answer.firstDenied)
  }

  /** Each hit lies in its window, and different windows do not overlap. */
  ghost predicate SpaceInv(p: Limits, w: Window, hits: seq<Hit>, now: int) {
    && 0 <= w.start <= now
    && (forall h :: h in hits ==> 0 <= h.start <= h.at < h.start + WindowMs(p))
    && (forall h :: h in hits ==> h.start == w.start || h.start + WindowMs(p) <= w.start)
    && (forall g, h :: g in hits && h in hits ==>
          g.start == h.start || g.start + WindowMs(p) <= h.start || h.start + WindowMs(p) <= g.start)
  }

  predicate CountsAt(p: Limits, hits: seq<Hit>, start: int) {
    && AllowedIn(hits, start) == Min(HitsIn(hits, start), p.limit)
    && FirstDenialsIn(hits, start) == if HitsIn(hits, start) > p.limit then 1 else 0
  }

  /** The saturating counter is the true number of hits, cut off one above the limit. */
  ghost predicate CountInv(p: Limits, w: Window, hits: seq<Hit>) {
    && w.count == Min(HitsIn(hits, w.start), p.limit + 1)
    && forall s :: CountsAt(p, hits, s)
  }

  ghost predicate LogInv(p: Limits, w: Window, hits: seq<Hit>, now: int) {
    SpaceInv(p, w, hits, now) && CountInv(p, w, hits)
  }

  lemma {:induction false} CountNone(hits: seq<Hit>, p: Hit -> bool)
    requires forall h :: h in hits ==> !p(h)
    ensures Count(hits, p) == 0
  {
    if hits != [] {
      CountNone(hits[..|hits| - 1], p);
    }
  }

  lemma CountsSnoc(hits: seq<Hit>, h: Hit, s: int)
    ensures HitsIn(hits + [h], s) == HitsIn(hits, s) + (if h.start == s then 1 else 0)
    ensures AllowedIn(hits + [h], s) == AllowedIn(hits, s) + (if h.start == s && h.answer.allowed then 1 else 0)
    ensures FirstDenialsIn(hits + [h], s)
         == FirstDenialsIn(hits, s) + (if h.start == s && h.answer.firstDenied then 1 else 0)
  {
  }

  function HitNow(p: Limits, w: Window, now: int): Hit {
    Hit(now, Next(w, p, now).start, Reply(w, p, now))
  }

  lemma HitKeepsSpace(p: Limits, w: Window, hits: seq<Hit>, before: int, now: int)
    requires p.windowSeconds >= 1 && SpaceInv(p, w, hits, before) && before <= now
    ensures SpaceInv(p, Next(w, p, now), hits + [HitNow(p, w, now)], now)
  {
  }

  lemma HitKeepsCounts(p: Limits, w: Window, hits: seq<Hit>, now: int)
    requires CountInv(p, w, hits)
    requires IsNew(w, p, now) ==> HitsIn(hits, now) == 0
    ensures CountInv(p, Next(w, p, now), hits + [HitNow(p, w, now)])
  {
    var hit := HitNow(p, w, now);
    assert CountsAt(p, hits, hit.start);
    CountsSnoc(hits, hit, hit.start);
    forall s ensures CountsAt(p, hits + [hit], s) {
      assert CountsAt(p, hits, s);
      CountsSnoc(hits, hit, s);
    }
  }

  lemma HitKeepsInv(p: Limits, w: Window, hits: seq<Hit>, before: int, now: int)
    requires p.windowSeconds >= 1 && LogInv(p, w, hits, before) && before <= now
    ensures LogInv(p, Next(w, p, now), hits + [HitNow(p, w, now)], now)
  {
    if IsNew(w, p, now) {
      CountNone(hits, (h: Hit) => h.start == now);
    }
    HitKeepsSpace(p, w, hits, before, now);
    HitKeepsCounts(p, w, hits, now);
  }

  lemma {:induction false} RunKeepsInv(p: Limits, times: seq<int>)
    requires p.windowSeconds >= 1 && Monotone(times)
    ensures var (w, hits) := Log(p, times);
            LogInv(p, w, hits, if times == [] then 0 else times[|times| - 1])
  {
    if times != [] {
      var front := times[..|times| - 1];
      RunKeepsInv(p, front);
      var (w, hits) := Log(p, front);
      HitKeepsInv(p, w, hits, if front == [] then 0 else front[|front| - 1], times[|times| - 1]);
    }
  }

  /** Each window allows exactly min(hits, limit) hits and reports its first denial at most once. */
  lemma WindowAllowsLimit(p: Limits, times: seq<int>, start: int)
    requires p.windowSeconds >= 1 && Monotone(times)
    ensures var hits := Log(p, times).1;
            && AllowedIn(hits, start) == Min(HitsIn(hits, start), p.limit)
            && FirstDenialsIn(hits, start) == if HitsIn(hits, start) > p.limit then 1 else 0
  {
    RunKeepsInv(p, times);
    assert CountsAt(p, Log(p, times).1, start);
  }

  lemma {:induction false} CountCovered(hits: seq<Hit>, p: Hit -> bool, q: Hit -> bool, r: Hit -> bool)
    requires forall h :: h in hits && p(h) ==> q(h) || r(h)
    ensures Count(hits, p) <= Count(hits, q) + Count(hits, r)
  {
    if hits != [] {
      CountCovered(hits[..|hits| - 1], p, q, r);
      assert hits[|hits| - 1] in hits;
    }
  }

  function AllowedWithin(hits: seq<Hit>, from: int, length: int): nat {
    Count(hits, (h: Hit) => from <= h.at < from + length && h.answer.allowed)
  }

  /** An interval of one window length meets at most two windows. */
  lemma TwoWindows(p: Limits, w: Window, hits: seq<Hit>, now: int, from: int) returns (a: int, b: int)
    requires LogInv(p, w, hits, now)
    ensures forall h :: h in hits && from <= h.at < from + WindowMs(p) ==> h.start == a || h.start == b
  {
    a, b := 0, 0;
    if x :| x in hits && from <= x.at < from + WindowMs(p) {
      a, b := x.start, x.start;
      if y :| y in hits && from <= y.at < from + WindowMs(p) && y.start != a {
        b := y.start;
      }
    }
  }

  /** In any interval of `windowSeconds`, at most twice the limit is allowed. */
  lemma AnyIntervalAllowsTwiceLimit(p: Limits, times: seq<int>, from: int)
    requires p.windowSeconds >= 1 && Monotone(times)
    ensures AllowedWithin(Log(p, times).1, from, 1000 * p.windowSeconds) <= 2 * p.limit
  {
    RunKeepsInv(p, times);
    var (w, hits) := Log(p, times);
    var a, b := TwoWindows(p, w, hits, if times == [] then 0 else times[|times| - 1], from);
    CountCovered(hits, (h: Hit) => from <= h.at < from + WindowMs(p) && h.answer.allowed,
                 (h: Hit) => h.start == a && h.answer.allowed, (h: Hit) => h.start == b && h.answer.allowed);
    assert CountsAt(p, hits, a) && CountsAt(p, hits, b);
  }

  /**
   A denied caller's `retryAfterSeconds` is the least whole number of seconds that reaches a new
   window: with a positive limit the next hit is allowed if and only if that long has passed. It is
   never more than a window.
   */
  lemma RetryAfterIsLeast(p: Limits, w: Window, now: int, wait: nat)
    requires p.windowSeconds >= 1 && !Reply(w, p, now).allowed
    ensures IsNew(Next(w, p, now), p, now + 1000 * wait) <==> wait >= Reply(w, p, now).retryAfterSeconds
    ensures p.limit > 0 ==>
              (Reply(Next(w, p, now), p, now + 1000 * wait).allowed <==> wait >= Reply(w, p, now).retryAfterSeconds)
    ensures w.start <= now ==> 1 <= Reply(w, p, now).retryAfterSeconds <= p.windowSeconds
  {
  }

  /** A hit opens a new window exactly when `windowSeconds` have passed since the last one opened. */
  lemma WindowIsExact(p: Limits, w: Window, now: int)
    ensures Next(w, p, now).start == (if now - w.start >= 1000 * p.windowSeconds then now else w.start)
    ensures Next(w, p, now).count ==
            if now - w.start >= 1000 * p.windowSeconds then 1
            else if w.count <= p.limit then w.count + 1 else p.limit + 1
  {
  }

  /** In every run each answer names what is left of the limit in its window, and allows exactly while something was. */
  lemma RemainingIsExact(p: Limits, times: seq<int>)
    requires p.windowSeconds >= 1 && Monotone(times) && times != []
    ensures var hits := Log(p, times).1;
            && hits != []
            && var last := hits[|hits| - 1];
               && last.answer.remaining ==
                    (if HitsIn(hits, last.start) <= p.limit then p.limit - HitsIn(hits, last.start) else 0)
               && (last.answer.allowed <==> HitsIn(hits, last.start) <= p.limit)
  {
    RunKeepsInv(p, times);
  }

  // ---- Saturation ------------------------------------------------------------

  /** The limiter with a counter that never stops counting. */
  function NextUnbounded(w: Window, p: Limits, now: int): Window {
    if IsNew(w, p, now) then Window(now, 1) else Window(w.start, w.count + 1)
  }

  function ReplyUnbounded(w: Window, p: Limits, now: int): Answer {
    var next := NextUnbounded(w, p, now);
    var allowed := next.count <= p.limit;
    Answer(allowed,
           if allowed then p.limit - next.count else 0,
           if allowed then 0 else CeilDiv(next.start + WindowMs(p) - now, 1000),
           next.count == p.limit + 1)
  }

  function Replies(p: Limits, w: Window, times: seq<int>): seq<Answer>
    decreases times
  {
    if times == [] then [] else [Reply(w, p, times[0])] + Replies(p, Next(w, p, times[0]), times[1..])
  }

  function RepliesUnbounded(p: Limits, w: Window, times: seq<int>): seq<Answer>
    decreases times
  {
    if times == [] then []
    else [ReplyUnbounded(w, p, times[0])] + RepliesUnbounded(p, NextUnbounded(w, p, times[0]), times[1..])
  }

  /** Saturation is unobservable: an unbounded counter would give the same answers, at any times. */
  lemma {:induction false} SaturationIsUnobservable(p: Limits, w: Window, v: Window, times: seq<int>)
    requires w.start == v.start && w.count == Min(v.count, p.limit + 1)
    ensures Replies(p, w, times) == RepliesUnbounded(p, v, times)
    decreases times
  {
    if times != [] {
      SaturationIsUnobservable(p, Next(w, p, times[0]), NextUnbounded(v, p, times[0]), times[1..]);
    }
  }

  // ---- The alarm -------------------------------------------------------------

  datatype Event = HitAt(now: int) | AlarmAt(now: int)

  /** The answers of a run in which the alarm may also clear the storage. */
  function Answers(p: Limits, w: Window, events: seq<Event>): seq<Answer>
    decreases events
  {
    if events == [] then []
    else
      match events[0]
      case HitAt(now) => [Reply(w, p, now)] + Answers(p, Next(w, p, now), events[1..])
      case AlarmAt(_) => Answers(p, CLEARED, events[1..])
  }

  /** The same run with the alarms left out. */
  function WithoutAlarms(p: Limits, w: Window, events: seq<Event>): seq<Answer>
    decreases events
  {
    if events == [] then []
    else
      match events[0]
      case HitAt(now) => [Reply(w, p, now)] + WithoutAlarms(p, Next(w, p, now), events[1..])
      case AlarmAt(_) => WithoutAlarms(p, w, events[1..])
  }

  /** Time never goes back, and an alarm fires no earlier than it was set for. */
  predicate Timely(p: Limits, w: Window, since: int, events: seq<Event>)
    decreases events
  {
    events == [] ||
    (since <= events[0].now &&
     match events[0]
     case HitAt(now) => Timely(p, Next(w, p, now), now, events[1..])
     case AlarmAt(now) => now >= w.start + WindowMs(p) + 1000 && Timely(p, w, now, events[1..]))
  }

  /** The alarm is unobservable: with it or without it every hit gets the same answer. */
  lemma {:induction false} AlarmIsUnobservable(p: Limits, w: Window, v: Window, since: int, events: seq<Event>)
    requires 0 <= w.start && Timely(p, w, since, events) && 0 <= since
    requires v == w || (v == CLEARED && since >= w.start + WindowMs(p))
    ensures Answers(p, v, events) == WithoutAlarms(p, w, events)
    decreases events
  {
    if events != [] {
      match events[0] {
        case HitAt(now) => AlarmIsUnobservable(p, Next(w, p, now), Next(v, p, now), now, events[1..]);
        case AlarmAt(now) => AlarmIsUnobservable(p, w, CLEARED, now, events[1..]);
      }
    }
  }
}
