/**
 * The dual sliding-window admission limiter of mcp_server/utils.py.
 *
 * A RateLimiter keeps two logs of admission timestamps (seconds, as read
 * from the clock): the per-minute window, capped by `rpmLimit`, and the
 * per-hour window, capped by `rphLimit`. Each call of AllowRequest first
 * pops stale entries off the front of both logs, then denies when the
 * minute log is full, then denies when the hour log is full, and otherwise
 * appends the clock reading to both logs and admits.
 *
 * The clock reading is a parameter. Nothing requires it to be monotone:
 * the bounds on the log lengths hold for any sequence of readings, and the
 * guarantees that depend on time (sorted logs, fresh entries, no more than
 * `rpmLimit` admissions in any 60 seconds) are stated for histories whose
 * readings never decrease.
 */
module SlidingWindow {

  /** Length in seconds of the short and the long window. */
  const MinuteSpan: real := 60.0
  const HourSpan: real := 3600.0

  /** Limits used when the constructor is called without arguments. */
  const DefaultPerMinute: nat := 30
  const DefaultPerHour: nat := 500

  ghost predicate Sorted(s: seq<real>) {
    forall i, j :: 0 <= i <= j < |s| ==> s[i] <= s[j]
  }

  /** Every entry of `s` lies in the closed interval [lo, hi]. */
  ghost predicate Within(s: seq<real>, lo: real, hi: real) {
    forall i :: 0 <= i < |s| ==> lo <= s[i] <= hi
  }

  /** No entry of `s` is later than `t`. */
  ghost predicate NotAfter(s: seq<real>, t: real) {
    forall i :: 0 <= i < |s| ==> s[i] <= t
  }

  /** Appending keeps a sequence sorted exactly when the new entry is not earlier than the last one. */
  lemma SortedSnoc(s: seq<real>, x: real)
    ensures Sorted(s + [x]) <==> Sorted(s) && (s == [] || s[|s| - 1] <= x)
  {
    var t := s + [x];
    if Sorted(t) {
      forall i, j | 0 <= i <= j < |s|
        ensures s[i] <= s[j]
      {
        assert s[i] == t[i] && s[j] == t[j];
      }
      if s != [] {
        assert t[|s| - 1] <= t[|s|];
      }
    }
  }

  /**
   * What is left of a window once its front has been popped while the
   * front entry is strictly older than `cutoff`.
   */
  function Purge(w: seq<real>, cutoff: real): (r: seq<real>)
    ensures |r| <= |w|
  {
    if w != [] && w[0] < cutoff then Purge(w[1..], cutoff) else w
  }

  /**
   * Purging removes a prefix and nothing else: the result is a suffix of
   * the window, every removed entry was older than the cutoff, and the
   * first retained entry (if any) is not.
   */
  lemma {:induction false} PurgeRemovesStalePrefix(w: seq<real>, cutoff: real)
    ensures |Purge(w, cutoff)| <= |w|
    ensures Purge(w, cutoff) == w[|w| - |Purge(w, cutoff)|..]
    ensures forall i :: 0 <= i < |w| - |Purge(w, cutoff)| ==> w[i] < cutoff
    ensures Purge(w, cutoff) != [] ==> Purge(w, cutoff)[0] >= cutoff
  {
    if w != [] && w[0] < cutoff {
      PurgeRemovesStalePrefix(w[1..], cutoff);
      assert w[1..][|w| - 1 - |Purge(w, cutoff)|..] == w[|w| - |Purge(w, cutoff)|..];
      forall i | 0 <= i < |w| - |Purge(w, cutoff)|
        ensures w[i] < cutoff
      {
        if i > 0 {
          assert w[i] == w[1..][i - 1];
        }
      }
    }
  }

  /**
   * On a sorted window, purging keeps exactly the entries that are not
   * older than the cutoff: an entry equal to the cutoff is retained.
   */
  lemma PurgeKeepsExactlyFresh(w: seq<real>, cutoff: real)
    requires Sorted(w)
    ensures forall i :: 0 <= i < |w| ==> (i >= |w| - |Purge(w, cutoff)| <==> w[i] >= cutoff)
    ensures Sorted(Purge(w, cutoff))
    ensures forall x :: x in Purge(w, cutoff) ==> x >= cutoff
  {
    PurgeRemovesStalePrefix(w, cutoff);
    var k := |w| - |Purge(w, cutoff)|;
    forall i | k <= i < |w|
      ensures w[i] >= cutoff
    {
      assert w[k] == Purge(w, cutoff)[0];
    }
  }

  /**
   * Appending to a Python `deque(maxlen=maxlen)`: when the deque is full
   * the leftmost entry is discarded (a zero-length deque stays empty).
   */
  function DequeAppend(d: seq<real>, maxlen: nat, x: real): (r: seq<real>)
    requires |d| <= maxlen
    ensures |r| == if |d| < maxlen then |d| + 1 else maxlen
    ensures r == (d + [x])[|d| + 1 - |r|..]
  {
    if |d| < maxlen then d + [x] else (d + [x])[|d| + 1 - maxlen..]
  }

  /** Which branch of the admission decision is taken. */
  datatype Decision = Admitted | MinuteExceeded | HourExceeded

  /**
   * The decision taken on the purged window lengths. The minute limit is
   * checked first, so a call with both windows full is reported as a
   * minute-window denial.
   */
  function Decide(minuteCount: nat, hourCount: nat, rpmLimit: nat, rphLimit: nat): (r: Decision)
    ensures r == MinuteExceeded <==> minuteCount >= rpmLimit
    ensures r == HourExceeded <==> minuteCount < rpmLimit && hourCount >= rphLimit
    ensures r == Admitted <==> minuteCount < rpmLimit && hourCount < rphLimit
  {
    if minuteCount >= rpmLimit then MinuteExceeded
    else if hourCount >= rphLimit then HourExceeded
    else Admitted
  }

  /**
   * `w` is a suffix of the admission history `hist`, and every admission
   * of `hist` before that suffix is older than `cutoff`.
   */
  ghost predicate Tracks(w: seq<real>, hist: seq<real>, cutoff: real) {
    |w| <= |hist| && w == hist[|hist| - |w|..] &&
    forall i :: 0 <= i < |hist| - |w| ==> hist[i] < cutoff
  }

  /**
   * No `span` seconds of the history hold more than `limit` admissions:
   * admissions i..j that lie at most `span` apart number fewer than
   * `limit` + 1.
   */
  ghost predicate Ceiling(hist: seq<real>, span: real, limit: nat) {
    forall i, j :: 0 <= i <= j < |hist| && hist[j] - hist[i] <= span ==> j - i < limit
  }

  /** Purging a tracked window at a later cutoff keeps it tracked. */
  lemma TracksPurge(w: seq<real>, hist: seq<real>, cutoff: real, later: real)
    requires Tracks(w, hist, cutoff) && cutoff <= later
    ensures Tracks(Purge(w, later), hist, later)
  {
    PurgeRemovesStalePrefix(w, later);
    var p := Purge(w, later);
    assert p == hist[|hist| - |p|..];
    forall i | |hist| - |w| <= i < |hist| - |p|
      ensures hist[i] < later
    {
      assert hist[i] == w[i - (|hist| - |w|)];
    }
  }

  /** Recording an admission in a tracked window keeps it tracked. */
  lemma TracksAppend(w: seq<real>, hist: seq<real>, cutoff: real, x: real)
    requires Tracks(w, hist, cutoff)
    ensures Tracks(w + [x], hist + [x], cutoff)
  {
    var h := hist + [x];
    assert w + [x] == h[|h| - |w + [x]|..];
  }

  /**
   * Admitting `x` while the window of the last `span` seconds holds fewer
   * than `limit` entries keeps the ceiling.
   */
  lemma CeilingExtend(hist: seq<real>, w: seq<real>, span: real, limit: nat, x: real)
    requires Ceiling(hist, span, limit)
    requires Tracks(w, hist, x - span) && |w| < limit
    ensures Ceiling(hist + [x], span, limit)
  {
    var h := hist + [x];
    forall i, j | 0 <= i <= j < |h| && h[j] - h[i] <= span
      ensures j - i < limit
    {
      if j == |hist| && i < j {
        assert h[i] == hist[i];
      }
    }
  }

  /**
   * One window at the instant of the last clock reading `last`: the recent
   * part of the admission history that holds every admission of the
   * trailing `span` seconds, with the history keeping no more than `limit`
   * admissions in any `span` seconds.
   */
  ghost predicate WindowState(w: seq<real>, hist: seq<real>, last: real, span: real, limit: nat) {
    Tracks(w, hist, last - span) && Ceiling(hist, span, limit)
  }

  /**
   * The state of a limiter whose clock has never gone backwards: it admitted
   * `hist`, holds the windows `mw` and `hw`, and, once `called`, its last
   * clock reading was `last`.
   */
  ghost predicate History(called: bool, last: real, hist: seq<real>, mw: seq<real>, hw: seq<real>, rpm: nat, rph: nat) {
    (!called ==> hist == [] && mw == [] && hw == []) &&
    (called ==>
      WindowState(mw, hist, last, MinuteSpan, rpm) &&
      WindowState(hw, hist, last, HourSpan, rph))
  }

  /** Purging both windows at a reading `now` not before the last one keeps the history. */
  lemma HistoryAfterPurge(called: bool, last: real, now: real, hist: seq<real>, mw: seq<real>, hw: seq<real>, rpm: nat, rph: nat)
    requires History(called, last, hist, mw, hw, rpm, rph)
    requires called ==> last <= now
    ensures History(true, now, hist, Purge(mw, now - MinuteSpan), Purge(hw, now - HourSpan), rpm, rph)
  {
    if called {
      TracksPurge(mw, hist, last - MinuteSpan, now - MinuteSpan);
      TracksPurge(hw, hist, last - HourSpan, now - HourSpan);
    }
  }

  /** Admitting at `now` while both windows are below their limits keeps the history. */
  lemma HistoryAfterAdmit(now: real, hist: seq<real>, mw: seq<real>, hw: seq<real>, rpm: nat, rph: nat)
    requires History(true, now, hist, mw, hw, rpm, rph)
    requires |mw| < rpm && |hw| < rph
    ensures History(true, now, hist + [now], mw + [now], hw + [now], rpm, rph)
  {
    TracksAppend(mw, hist, now - MinuteSpan, now);
    CeilingExtend(hist, mw, MinuteSpan, rpm, now);
    TracksAppend(hw, hist, now - HourSpan, now);
    CeilingExtend(hist, hw, HourSpan, rph, now);
  }

  /** The two windows of a limiter, oldest entry first. */
  datatype Windows = Windows(minute: seq<real>, hour: seq<real>)

  /** The windows of a freshly constructed limiter. */
  const NoWindows := Windows([], [])

  /** No window is longer than its deque's `maxlen`. */
  ghost predicate Bounded(w: Windows, rpm: nat, rph: nat) {
    |w.minute| <= rpm && |w.hour| <= rph
  }

  /** Both windows with their stale entries popped at clock reading `now`; neither grows. */
  function Purged(w: Windows, now: real): (r: Windows)
    ensures |r.minute| <= |w.minute| && |r.hour| <= |w.hour|
  {
    Windows(Purge(w.minute, now - MinuteSpan), Purge(w.hour, now - HourSpan))
  }

  /**
   * The clean-up of both windows at clock reading `now`: each is what is
   * left of the old window once a prefix of entries older than the
   * window's cutoff has gone, and its first entry is not stale.
   */
  lemma PurgedDropsOnlyStale(w: Windows, now: real)
    ensures Purged(w, now).minute == w.minute[|w.minute| - |Purged(w, now).minute|..]
    ensures forall i :: 0 <= i < |w.minute| - |Purged(w, now).minute| ==> w.minute[i] < now - MinuteSpan
    ensures Purged(w, now).minute != [] ==> Purged(w, now).minute[0] >= now - MinuteSpan
    ensures Purged(w, now).hour == w.hour[|w.hour| - |Purged(w, now).hour|..]
    ensures forall i :: 0 <= i < |w.hour| - |Purged(w, now).hour| ==> w.hour[i] < now - HourSpan
    ensures Purged(w, now).hour != [] ==> Purged(w, now).hour[0] >= now - HourSpan
  {
    PurgeRemovesStalePrefix(w.minute, now - MinuteSpan);
    PurgeRemovesStalePrefix(w.hour, now - HourSpan);
  }

  /** The answer to one request and the windows it leaves behind. */
  datatype Step = Step(allowed: bool, windows: Windows)

  /**
   * One call of the limiter at clock reading `now`. The answer is taken on
   * the purged windows, minute limit first; a denial leaves the purged
   * windows as they are, and an admission appends `now` to both, which
   * never reaches the deques' `maxlen` because the lengths were checked
   * first.
   */
  function Request(w: Windows, now: real, rpm: nat, rph: nat): (r: Step)
    requires Bounded(w, rpm, rph)
    ensures Bounded(r.windows, rpm, rph)
    ensures r.allowed <==> Decide(|Purged(w, now).minute|, |Purged(w, now).hour|, rpm, rph) == Admitted
    ensures r.allowed ==>
      r.windows == Windows(Purged(w, now).minute + [now], Purged(w, now).hour + [now])
    ensures !r.allowed ==> r.windows == Purged(w, now)
  {
    var p := Purged(w, now);
    match Decide(|p.minute|, |p.hour|, rpm, rph)
    case Admitted => Step(true, Windows(DequeAppend(p.minute, rpm, now), DequeAppend(p.hour, rph, now)))
    case _ => Step(false, p)
  }

  /**
   * While the clock does not go backwards, a call keeps both windows sorted
   * and leaves in them only entries of the trailing 60 and 3600 seconds.
   */
  lemma RequestKeepsOrder(w: Windows, now: real, rpm: nat, rph: nat)
    requires Bounded(w, rpm, rph)
    requires Sorted(w.minute) && NotAfter(w.minute, now)
    requires Sorted(w.hour) && NotAfter(w.hour, now)
    ensures Sorted(Request(w, now, rpm, rph).windows.minute)
    ensures Within(Request(w, now, rpm, rph).windows.minute, now - MinuteSpan, now)
    ensures Sorted(Request(w, now, rpm, rph).windows.hour)
    ensures Within(Request(w, now, rpm, rph).windows.hour, now - HourSpan, now)
  {
    OrderAfterRequest(w.minute, now, MinuteSpan);
    OrderAfterRequest(w.hour, now, HourSpan);
  }

  /** One window of RequestKeepsOrder, for either outcome. */
  lemma OrderAfterRequest(w: seq<real>, now: real, span: real)
    requires Sorted(w) && NotAfter(w, now) && span >= 0.0
    ensures Sorted(Purge(w, now - span)) && Within(Purge(w, now - span), now - span, now)
    ensures Sorted(Purge(w, now - span) + [now]) && Within(Purge(w, now - span) + [now], now - span, now)
  {
    PurgeRemovesStalePrefix(w, now - span);
    PurgeKeepsExactlyFresh(w, now - span);
    var p := Purge(w, now - span);
    forall i | 0 <= i < |p|
      ensures now - span <= p[i] <= now
    {
      assert p[i] == w[|w| - |p| + i];
    }
    SortedSnoc(p, now);
    var q := p + [now];
    forall i | 0 <= i < |q|
      ensures now - span <= q[i] <= now
    {
      if i < |p| {
        assert q[i] == p[i];
      }
    }
  }

  /** What a sequence of calls answered, and the windows it left. */
  datatype Trace = Trace(windows: Windows, results: seq<bool>)

  /** The calls of the limiter at the clock readings `times`, in order. */
  function Run(start: Windows, times: seq<real>, rpm: nat, rph: nat): (r: Trace)
    requires Bounded(start, rpm, rph)
    ensures Bounded(r.windows, rpm, rph) && |r.results| == |times|
    decreases |times|
  {
    if times == [] then Trace(start, [])
    else
      var before := Run(start, times[..|times| - 1], rpm, rph);
      var step := Request(before.windows, times[|times| - 1], rpm, rph);
      Trace(step.windows, before.results + [step.allowed])
  }

  /**
   * Both windows are sorted, and every entry lies in the trailing 60 or
   * 3600 seconds before `last`.
   */
  ghost predicate Ordered(w: Windows, last: real) {
    Sorted(w.minute) && Within(w.minute, last - MinuteSpan, last) &&
    Sorted(w.hour) && Within(w.hour, last - HourSpan, last)
  }

  /**
   * From a fresh limiter, calls at non-decreasing readings leave both
   * windows sorted and holding only entries of the trailing 60 and 3600
   * seconds before the last reading.
   */
  lemma {:induction false} RunKeepsOrder(times: seq<real>, rpm: nat, rph: nat)
    requires Sorted(times) && times != []
    ensures Ordered(Run(NoWindows, times, rpm, rph).windows, times[|times| - 1])
  {
    var init, now := times[..|times| - 1], times[|times| - 1];
    SortedDropLast(times);
    var before := Run(NoWindows, init, rpm, rph).windows;
    if init != [] {
      RunKeepsOrder(init, rpm, rph);
      WithinNotAfter(before.minute, init[|init| - 1] - MinuteSpan, init[|init| - 1], now);
      WithinNotAfter(before.hour, init[|init| - 1] - HourSpan, init[|init| - 1], now);
    }
    RequestKeepsOrder(before, now, rpm, rph);
  }

  lemma WithinNotAfter(s: seq<real>, lo: real, hi: real, t: real)
    requires Within(s, lo, hi) && hi <= t
    ensures NotAfter(s, t)
  {
  }

  /** The readings of `times` whose call was admitted, in order. */
  function AdmittedTimes(times: seq<real>, results: seq<bool>): seq<real>
    requires |results| == |times|
  {
    if times == [] then []
    else
      AdmittedTimes(times[..|times| - 1], results[..|results| - 1]) +
      (if results[|results| - 1] then [times[|times| - 1]] else [])
  }

  /** One call at a reading `now` not before the last one keeps the history. */
  lemma HistoryAfterRequest(called: bool, last: real, now: real, hist: seq<real>, w: Windows, rpm: nat, rph: nat)
    requires Bounded(w, rpm, rph)
    requires History(called, last, hist, w.minute, w.hour, rpm, rph)
    requires called ==> last <= now
    ensures History(true, now, hist + (if Request(w, now, rpm, rph).allowed then [now] else []),
                    Request(w, now, rpm, rph).windows.minute, Request(w, now, rpm, rph).windows.hour, rpm, rph)
  {
    HistoryAfterPurge(called, last, now, hist, w.minute, w.hour, rpm, rph);
    var p := Purged(w, now);
    if Request(w, now, rpm, rph).allowed {
      HistoryAfterAdmit(now, hist, p.minute, p.hour, rpm, rph);
    } else {
      assert hist + [] == hist;
    }
  }

  /**
   * From a fresh limiter, calls at non-decreasing readings leave windows
   * that are the recent part of the admissions, and the admissions keep
   * both ceilings.
   */
  lemma {:induction false} RunHistory(times: seq<real>, rpm: nat, rph: nat)
    requires Sorted(times)
    ensures History(times != [], if times == [] then 0.0 else times[|times| - 1],
                    AdmittedTimes(times, Run(NoWindows, times, rpm, rph).results),
                    Run(NoWindows, times, rpm, rph).windows.minute,
                    Run(NoWindows, times, rpm, rph).windows.hour, rpm, rph)
  {
    if times != [] {
      var init := times[..|times| - 1];
      var now := times[|times| - 1];
      SortedDropLast(times);
      RunHistory(init, rpm, rph);
      var before := Run(NoWindows, init, rpm, rph);
      var results := Run(NoWindows, times, rpm, rph).results;
      assert results[..|results| - 1] == before.results;
      var last := if init == [] then 0.0 else init[|init| - 1];
      HistoryAfterRequest(init != [], last, now, AdmittedTimes(init, before.results), before.windows, rpm, rph);
    }
  }

  /**
   * The short ceiling: from a fresh limiter, calls at non-decreasing
   * readings never admit more than `rpm` requests within any 60 seconds.
   * The admissions are in time order (AdmittedSorted), so admissions i..j
   * of the ceiling are all those between two admission instants.
   */
  lemma RunKeepsMinuteCeiling(times: seq<real>, rpm: nat, rph: nat)
    requires Sorted(times)
    ensures Ceiling(AdmittedTimes(times, Run(NoWindows, times, rpm, rph).results), MinuteSpan, rpm)
  {
    RunHistory(times, rpm, rph);
  }

  /**
   * The long ceiling: from a fresh limiter, calls at non-decreasing
   * readings never admit more than `rph` requests within any 3600 seconds,
   * read with AdmittedSorted as for the short ceiling.
   */
  lemma RunKeepsHourCeiling(times: seq<real>, rpm: nat, rph: nat)
    requires Sorted(times)
    ensures Ceiling(AdmittedTimes(times, Run(NoWindows, times, rpm, rph).results), HourSpan, rph)
  {
    RunHistory(times, rpm, rph);
  }

  /** The admitted readings of non-decreasing readings are non-decreasing and none is after the last reading. */
  lemma {:induction false} AdmittedSorted(times: seq<real>, results: seq<bool>)
    requires |results| == |times| && Sorted(times)
    ensures Sorted(AdmittedTimes(times, results))
    ensures times != [] ==> NotAfter(AdmittedTimes(times, results), times[|times| - 1])
  {
    if times != [] {
      var init, now := times[..|times| - 1], times[|times| - 1];
      SortedDropLast(times);
      AdmittedSorted(init, results[..|results| - 1]);
      var hist := AdmittedTimes(init, results[..|results| - 1]);
      if init != [] {
        NotAfterLater(hist, init[|init| - 1], now);
      }
      if results[|results| - 1] {
        assert AdmittedTimes(times, results) == hist + [now];
        NotAfterSnoc(hist, now, now);
        SortedSnoc(hist, now);
      } else {
        assert AdmittedTimes(times, results) == hist;
      }
    }
  }

  /** Dropping the last reading keeps the readings sorted; the last reading is the largest. */
  lemma SortedDropLast(s: seq<real>)
    requires Sorted(s) && s != []
    ensures Sorted(s[..|s| - 1])
    ensures |s| > 1 ==> s[|s| - 2] <= s[|s| - 1]
  {
    var init := s[..|s| - 1];
    forall i, j | 0 <= i <= j < |init|
      ensures init[i] <= init[j]
    {
      assert init[i] == s[i] && init[j] == s[j];
    }
  }

  lemma NotAfterSnoc(s: seq<real>, t: real, x: real)
    requires NotAfter(s, t) && x <= t
    ensures NotAfter(s + [x], t)
  {
    var u := s + [x];
    forall i | 0 <= i < |u|
      ensures u[i] <= t
    {
      if i < |s| {
        assert u[i] == s[i];
      }
    }
  }

  lemma NotAfterLater(s: seq<real>, t: real, later: real)
    requires NotAfter(s, t) && t <= later
    ensures NotAfter(s, later)
  {
  }

  class RateLimiter {
    const rpmLimit: nat
    const rphLimit: nat
    /** Admission times of the trailing minute, oldest first. */
    var minuteWindow: seq<real>
    /** Admission times of the trailing hour, oldest first. */
    var hourWindow: seq<real>

    /** Neither window is longer than its deque's `maxlen`. */
    ghost predicate Valid()
      reads this
    {
      |minuteWindow| <= rpmLimit && |hourWindow| <= rphLimit
    }

    constructor (requestsPerMinute: nat := DefaultPerMinute, requestsPerHour: nat := DefaultPerHour)
      ensures Valid()
      ensures rpmLimit == requestsPerMinute && rphLimit == requestsPerHour
      ensures minuteWindow == [] && hourWindow == []
    {
      rpmLimit := requestsPerMinute;
      rphLimit := requestsPerHour;
      minuteWindow := [];
      hourWindow := [];
    }

    /** Pops stale entries off the front of both windows. */
    method CleanWindows(now: real)
      modifies this`minuteWindow, this`hourWindow
      ensures Windows(minuteWindow, hourWindow) == Purged(old(Windows(minuteWindow, hourWindow)), now)
    {
      var minuteAgo := now - MinuteSpan;
      var hourAgo := now - HourSpan;
      while minuteWindow != [] && minuteWindow[0] < minuteAgo
        invariant Purge(minuteWindow, minuteAgo) == Purge(old(minuteWindow), minuteAgo)
        invariant hourWindow == old(hourWindow)
        decreases |minuteWindow|
      {
        minuteWindow := minuteWindow[1..];
      }
      while hourWindow != [] && hourWindow[0] < hourAgo
        invariant Purge(hourWindow, hourAgo) == Purge(old(hourWindow), hourAgo)
        invariant minuteWindow == Purge(old(minuteWindow), minuteAgo)
        decreases |hourWindow|
      {
        hourWindow := hourWindow[1..];
      }
    }

    /**
     * Decides whether a request at clock reading `now` may proceed, and
     * records it in both windows when it may.
     */
    method AllowRequest(now: real) returns (allowed: bool)
      requires Valid()
      modifies this`minuteWindow, this`hourWindow
      ensures Valid()
      ensures Step(allowed, Windows(minuteWindow, hourWindow)) ==
              Request(old(Windows(minuteWindow, hourWindow)), now, rpmLimit, rphLimit)
    {
      CleanWindows(now);
      if |minuteWindow| >= rpmLimit {
        return false;
      }
      if |hourWindow| >= rphLimit {
        return false;
      }
      minuteWindow := DequeAppend(minuteWindow, rpmLimit, now);
      hourWindow := DequeAppend(hourWindow, rphLimit, now);
      allowed := true;
    }
  }

  /**
   * Calls a freshly constructed limiter at each clock reading of `times`
   * in turn and collects its answers: they are those of Run, so
   * RunKeepsMinuteCeiling and RunKeepsHourCeiling bound what any such
   * sequence of calls admits.
   */
  method ReplayCalls(rpm: nat, rph: nat, times: seq<real>) returns (results: seq<bool>)
    ensures results == Run(NoWindows, times, rpm, rph).results
  {
    var limiter := new RateLimiter(rpm, rph);
    results := [];
    var i := 0;
    while i < |times|
      invariant 0 <= i <= |times|
      invariant limiter.Valid() && limiter.rpmLimit == rpm && limiter.rphLimit == rph
      invariant Trace(Windows(limiter.minuteWindow, limiter.hourWindow), results) == Run(NoWindows, times[..i], rpm, rph)
    {
      assert times[..i + 1][..i] == times[..i];
      var allowed := limiter.AllowRequest(times[i]);
      results := results + [allowed];
      i := i + 1;
    }
    assert times[..i] == times;
  }

  /** A window whose entries are all at least `cutoff` is left as it is. */
  lemma PurgeKeepsAllFresh(w: seq<real>, cutoff: real)
    requires forall i :: 0 <= i < |w| ==> w[i] >= cutoff
    ensures Purge(w, cutoff) == w
  {
  }

  /**
   * Windows whose minute entries all lie in the trailing 60 seconds and
   * whose hour entries all lie in the trailing 3600 seconds are left as
   * they are.
   */
  lemma FreshWindowsKept(w: Windows, now: real)
    requires forall i :: 0 <= i < |w.minute| ==> w.minute[i] >= now - MinuteSpan
    requires forall i :: 0 <= i < |w.hour| ==> w.hour[i] >= now - HourSpan
    ensures Purged(w, now) == w
  {
    PurgeKeepsAllFresh(w.minute, now - MinuteSpan);
    PurgeKeepsAllFresh(w.hour, now - HourSpan);
  }

  /** A window whose entries are all older than `cutoff` is emptied. */
  lemma {:induction false} PurgeDropsAllStale(w: seq<real>, cutoff: real)
    requires forall i :: 0 <= i < |w| ==> w[i] < cutoff
    ensures Purge(w, cutoff) == []
  {
    if w != [] {
      assert forall i :: 0 <= i < |w[1..]| ==> w[1..][i] == w[i + 1];
      PurgeDropsAllStale(w[1..], cutoff);
    }
  }

  /**
   * With 2 requests per minute and 5 per hour, three calls in quick
   * succession (non-decreasing readings within one minute) are admitted,
   * admitted and denied.
   */
  method BlocksExcess(t1: real, t2: real, t3: real) returns (first: bool, second: bool, third: bool)
    requires t1 <= t2 <= t3 <= t1 + MinuteSpan
    ensures first && second && !third
  {
    var limiter := new RateLimiter(2, 5);
    ExcessSteps(t1, t2, t3);
    first := limiter.AllowRequest(t1);
    second := limiter.AllowRequest(t2);
    third := limiter.AllowRequest(t3);
  }

  /** The three steps of BlocksExcess, as values. */
  lemma ExcessSteps(t1: real, t2: real, t3: real)
    requires t1 <= t2 <= t3 <= t1 + MinuteSpan
    ensures Request(NoWindows, t1, 2, 5) == Step(true, Windows([t1], [t1]))
    ensures Request(Windows([t1], [t1]), t2, 2, 5) == Step(true, Windows([t1, t2], [t1, t2]))
    ensures !Request(Windows([t1, t2], [t1, t2]), t3, 2, 5).allowed
  {
    FreshWindowsKept(Windows([t1], [t1]), t2);
    FreshWindowsKept(Windows([t1, t2], [t1, t2]), t3);
  }

  /**
   * A full minute window recovers only once its entries are strictly more
   * than 60 seconds old: an entry exactly 60 seconds old still counts.
   */
  method MinuteWindowRecovers(t: real, later: real) returns (first: bool, second: bool, atSixty: bool, after: bool)
    requires later > t + MinuteSpan
    ensures first && second && !atSixty && after
  {
    var limiter := new RateLimiter(2, 100);
    first := limiter.AllowRequest(t);
    PurgeKeepsAllFresh([t], t - MinuteSpan);
    PurgeKeepsAllFresh([t], t - HourSpan);
    second := limiter.AllowRequest(t);
    PurgeKeepsAllFresh([t, t], t);
    atSixty := limiter.AllowRequest(t + MinuteSpan);
    PurgeDropsAllStale([t, t], later - MinuteSpan);
    after := limiter.AllowRequest(later);
  }

  /**
   * A full hour window denies even when the minute window has room, and
   * recovers once its entries are more than an hour old.
   */
  method HourWindowRecovers(t: real, later: real) returns (first: bool, second: bool, halfMinute: bool, after: bool)
    requires later > t + HourSpan
    ensures first && second && !halfMinute && after
  {
    var limiter := new RateLimiter(100, 2);
    first := limiter.AllowRequest(t);
    PurgeKeepsAllFresh([t], t - MinuteSpan);
    PurgeKeepsAllFresh([t], t - HourSpan);
    second := limiter.AllowRequest(t);
    PurgeKeepsAllFresh([t, t], t + 30.0 - HourSpan);
    halfMinute := limiter.AllowRequest(t + 30.0);
    PurgeDropsAllStale([t, t], later - HourSpan);
    after := limiter.AllowRequest(later);
  }
}
