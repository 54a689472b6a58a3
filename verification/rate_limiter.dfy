/** Fixed-window rate limiting, in memory and as one SQL row per key. */
module RateLimits {
  import opened Common

  datatype Window = Window(count: nat, windowStart: int)

  type Table = map<string, Window>

  const SWEEP_THRESHOLD := 10_000

  datatype Policy = Policy(maxPerWindow: int, windowMs: int)

  predicate Ended(w: Window, now: int, p: Policy) { now - w.windowStart >= p.windowMs }

  /** The window that governs a key at `now`, if one is still open. */
  function Current(m: Table, key: string, now: int, p: Policy): Option<Window> {
    if key in m && !Ended(m[key], now, p) then Some(m[key]) else None
  }

  /** The window after one call, and whether the call is allowed. */
  function Admit(open: Option<Window>, now: int, p: Policy): (Window, bool) {
    match open
    case None => (Window(1, now), true)
    case Some(w) => if w.count >= p.maxPerWindow then (w, false) else (w.(count := w.count + 1), true)
  }

  /** The table without the windows that have ended. */
  function Live(m: Table, now: int, p: Policy): Table {
    map k | k in m && !Ended(m[k], now, p) :: m[k]
  }

  class RateLimiter {
    var windows: Table
    const policy: Policy

    constructor (maxPerWindow: int, windowMs: int)
      ensures windows == map[] && policy == Policy(maxPerWindow, windowMs)
    {
      windows := map[];
      policy := Policy(maxPerWindow, windowMs);
    }

    method Allow(key: string, now: int) returns (ok: bool)
      modifies this
      ensures var sweep := |old(windows)| >= SWEEP_THRESHOLD;
              && ok == Answer(old(windows), Call(key, now), sweep, policy)
              && windows == After(old(windows), Call(key, now), sweep, policy)
    {
      if |windows| >= SWEEP_THRESHOLD {
        Sweep(now);
      }
      if key !in windows || now - windows[key].windowStart >= policy.windowMs {
        windows := windows[key := Window(1, now)];
        return true;
      }
      var entry := windows[key];
      if entry.count >= policy.maxPerWindow {
        assert windows[key := entry] == windows;
        return false;
      }
      windows := windows[key := entry.(count := entry.count + 1)];
      ok := true;
    }

    method Sweep(now: int)
      modifies this
      ensures windows == Live(old(windows), now, policy)
    {
      var keys := windows.Keys;
      while keys != {}
        invariant keys <= old(windows).Keys
        invariant forall k :: k in windows <==> k in old(windows) && (k in keys || !Ended(old(windows)[k], now, policy))
        invariant forall k :: k in windows ==> windows[k] == old(windows)[k]
        decreases keys
      {
        var k :| k in keys;
        if now - windows[k].windowStart >= policy.windowMs {
          windows := windows - {k};
        }
        keys := keys - {k};
      }
    }
  }

  /** A key's row after one call: every call is counted, refused ones too, unless it
      opens a window of its own. */
  function Upsert(open: Option<Window>, now: int): Window {
    match open
    case None => Window(1, now)
    case Some(w) => w.(count := w.count + 1)
  }

  class PostgresRateLimiter {
    var rows: Table
    const policy: Policy

    constructor (maxPerWindow: int, windowMs: int)
      ensures rows == map[] && policy == Policy(maxPerWindow, windowMs)
    {
      rows := map[];
      policy := Policy(maxPerWindow, windowMs);
    }

    /** `cleanUp` is the program's occasional choice to delete ended rows. */
    method Allow(key: string, now: int, cleanUp: bool) returns (ok: bool)
      modifies this
      ensures ok == RowAnswer(old(rows), Call(key, now), policy)
      ensures rows == RowsAfter(old(rows), Call(key, now), cleanUp, policy)
    {
      var row := Window(1, now);
      if key in rows {
        if rows[key].windowStart > now - policy.windowMs {
          row := Window(rows[key].count + 1, rows[key].windowStart);
        }
      }
      rows := rows[key := row];
      ok := row.count <= policy.maxPerWindow;
      if cleanUp {
        rows := map k | k in rows && !(rows[k].windowStart <= now - policy.windowMs) :: rows[k];
      }
    }
  }

  // ---------------------------------------------------------------- whole runs

  datatype Call = Call(key: string, now: int)

  ghost predicate ClockRuns(calls: seq<Call>) {
    forall i, j :: 0 <= i < j < |calls| ==> calls[i].now <= calls[j].now
  }

  /** The table after one call, swept first or not. */
  function After(m: Table, c: Call, sweep: bool, p: Policy): Table {
    var kept := if sweep then Live(m, c.now, p) else m;
    kept[c.key := Admit(Current(kept, c.key, c.now, p), c.now, p).0]
  }

  function Answer(m: Table, c: Call, sweep: bool, p: Policy): bool {
    var kept := if sweep then Live(m, c.now, p) else m;
    Admit(Current(kept, c.key, c.now, p), c.now, p).1
  }

  /** The answers of a run, sweeping before call `i` when `sweeps[i]` says so. */
  function Answers(m: Table, calls: seq<Call>, sweeps: seq<bool>, p: Policy): (r: seq<bool>)
    requires |calls| == |sweeps|
    ensures |r| == |calls|
    decreases |calls|
  {
    if calls == [] then []
    else [Answer(m, calls[0], sweeps[0], p)] + Answers(After(m, calls[0], sweeps[0], p), calls[1..], sweeps[1..], p)
  }

  /** Two tables that no call from `now` on can tell apart. */
  ghost predicate SameFrom(a: Table, b: Table, now: int, p: Policy) {
    forall k :: Current(a, k, now, p) == Current(b, k, now, p)
  }

  lemma LiveIsCurrent(m: Table, k: string, now: int, later: int, p: Policy)
    requires now <= later
    ensures Current(Live(m, now, p), k, later, p) == Current(m, k, later, p)
  {
  }

  lemma SameLater(a: Table, b: Table, now: int, later: int, p: Policy)
    requires now <= later && SameFrom(a, b, now, p)
    ensures SameFrom(a, b, later, p)
  {
    forall k
      ensures Current(a, k, later, p) == Current(b, k, later, p)
    {
      assert Current(a, k, now, p) == Current(b, k, now, p);
    }
  }

  lemma AfterAt(m: Table, c: Call, sweep: bool, p: Policy, k: string)
    ensures var next := Admit(Current(m, c.key, c.now, p), c.now, p).0;
            Current(After(m, c, sweep, p), k, c.now, p)
            == if k != c.key then Current(m, k, c.now, p) else if Ended(next, c.now, p) then None else Some(next)
    ensures Answer(m, c, sweep, p) == Admit(Current(m, c.key, c.now, p), c.now, p).1
  {
    LiveIsCurrent(m, k, c.now, c.now, p);
    LiveIsCurrent(m, c.key, c.now, c.now, p);
  }

  lemma SameAfter(a: Table, b: Table, c: Call, sweepA: bool, sweepB: bool, p: Policy)
    requires SameFrom(a, b, c.now, p)
    ensures Answer(a, c, sweepA, p) == Answer(b, c, sweepB, p)
    ensures SameFrom(After(a, c, sweepA, p), After(b, c, sweepB, p), c.now, p)
  {
    hide After, Answer, Admit, Current, Ended;
    forall k
      ensures Current(After(a, c, sweepA, p), k, c.now, p) == Current(After(b, c, sweepB, p), k, c.now, p)
    {
      AfterAt(a, c, sweepA, p, k);
      AfterAt(b, c, sweepB, p, k);
    }
    AfterAt(a, c, sweepA, p, c.key);
    AfterAt(b, c, sweepB, p, c.key);
  }

  lemma {:induction false} SameAnswers(a: Table, b: Table, calls: seq<Call>,
                                       sweepsA: seq<bool>, sweepsB: seq<bool>, p: Policy)
    requires |calls| == |sweepsA| == |sweepsB| && ClockRuns(calls)
    requires calls != [] ==> SameFrom(a, b, calls[0].now, p)
    ensures Answers(a, calls, sweepsA, p) == Answers(b, calls, sweepsB, p)
    decreases |calls|
  {
    hide Answer, After, SameFrom;
    if calls != [] {
      var c := calls[0];
      SameAfter(a, b, c, sweepsA[0], sweepsB[0], p);
      var a', b' := After(a, c, sweepsA[0], p), After(b, c, sweepsB[0], p);
      if |calls| > 1 {
        SameLater(a', b', c.now, calls[1].now, p);
      }
      SameAnswers(a', b', calls[1..], sweepsA[1..], sweepsB[1..], p);
    }
  }

  /** With a clock that never runs back, when and whether ended windows are swept
      changes no answer. */
  lemma SweepingIsInvisible(calls: seq<Call>, sweepsA: seq<bool>, sweepsB: seq<bool>, p: Policy)
    requires |calls| == |sweepsA| == |sweepsB| && ClockRuns(calls)
    ensures Answers(map[], calls, sweepsA, p) == Answers(map[], calls, sweepsB, p)
  {
    SameAnswers(map[], map[], calls, sweepsA, sweepsB, p);
  }

  // ------------------------------------------------------------------ the bound

  /** What one window can grant: its first call is always let through. */
  function Quota(p: Policy): nat { if p.maxPerWindow >= 1 then p.maxPerWindow else 1 }

  ghost predicate Bounded(m: Table, p: Policy) {
    forall k :: k in m ==> 1 <= m[k].count <= Quota(p)
  }

  /** How many calls of `key` made at or after `from` and before `to` are allowed. */
  function Granted(m: Table, calls: seq<Call>, sweeps: seq<bool>, p: Policy, key: string, from: int, to: int): nat
    requires |calls| == |sweeps|
    decreases |calls|
  {
    if calls == [] then 0
    else
      var c := calls[0];
      (if c.key == key && from <= c.now < to && Answer(m, c, sweeps[0], p) then 1 else 0)
      + Granted(After(m, c, sweeps[0], p), calls[1..], sweeps[1..], p, key, from, to)
  }

  lemma AfterBounded(m: Table, c: Call, sweep: bool, p: Policy)
    requires Bounded(m, p)
    ensures Bounded(After(m, c, sweep, p), p)
  {
  }

  /** A call touches only its own key's current window. */
  lemma AfterCurrent(m: Table, c: Call, sweep: bool, p: Policy, key: string, later: int)
    requires c.now <= later
    ensures key != c.key ==> Current(After(m, c, sweep, p), key, later, p) == Current(m, key, later, p)
    ensures After(m, c, sweep, p)[c.key] == Admit(Current(m, c.key, c.now, p), c.now, p).0
    ensures Answer(m, c, sweep, p) == Admit(Current(m, c.key, c.now, p), c.now, p).1
  {
    LiveIsCurrent(m, key, c.now, later, p);
    LiveIsCurrent(m, c.key, c.now, c.now, p);
  }

  /** Within one window a key is granted at most the quota: once `w.count` calls are
      counted, no more than the rest are allowed before the window ends. */
  lemma {:induction false} WithinOneWindow(m: Table, calls: seq<Call>, sweeps: seq<bool>, p: Policy, key: string,
                                           from: int, to: int, w: Window)
    requires |calls| == |sweeps| && ClockRuns(calls) && Bounded(m, p)
    requires 1 <= w.count <= Quota(p) && to <= w.windowStart + p.windowMs
    requires calls != [] && calls[0].now < to ==> Current(m, key, calls[0].now, p) == Some(w)
    ensures Granted(m, calls, sweeps, p, key, from, to) <= Quota(p) - w.count
    decreases |calls|
  {
    if calls != [] {
      var c, m' := calls[0], After(m, calls[0], sweeps[0], p);
      AfterBounded(m, c, sweeps[0], p);
      AfterCurrent(m, c, sweeps[0], p, c.key, c.now);
      var next := if c.key == key && c.now < to then Admit(Some(w), c.now, p).0 else w;
      if |calls| > 1 && calls[1].now < to {
        AfterCurrent(m, c, sweeps[0], p, key, calls[1].now);
        StillCurrent(m, key, w, c.now, calls[1].now, p);
      }
      WithinOneWindow(m', calls[1..], sweeps[1..], p, key, from, to, next);
    }
  }

  lemma StillCurrent(m: Table, key: string, w: Window, now: int, later: int, p: Policy)
    requires Current(m, key, now, p) == Some(w) && later < w.windowStart + p.windowMs
    ensures Current(m, key, later, p) == Some(w)
  {
  }

  /** A window grants at most the quota, its opening call included. */
  lemma OneWindowGrants(m: Table, calls: seq<Call>, sweeps: seq<bool>, p: Policy, key: string)
    requires |calls| == |sweeps| && ClockRuns(calls) && Bounded(m, p)
    requires calls != [] && calls[0].key == key && Current(m, key, calls[0].now, p) == None
    ensures Granted(m, calls, sweeps, p, key, calls[0].now, calls[0].now + p.windowMs) <= Quota(p)
  {
    Opened(m, calls, sweeps, p, key, calls[0].now, calls[0].now + p.windowMs);
  }

  lemma Opened(m: Table, calls: seq<Call>, sweeps: seq<bool>, p: Policy, key: string, from: int, to: int)
    requires |calls| == |sweeps| && ClockRuns(calls) && Bounded(m, p)
    requires calls != [] && calls[0].key == key && Current(m, key, calls[0].now, p) == None
    requires to <= calls[0].now + p.windowMs
    ensures Granted(m, calls, sweeps, p, key, from, to) <= Quota(p)
  {
    var c := calls[0];
    var m', w := After(m, c, sweeps[0], p), Window(1, c.now);
    AfterBounded(m, c, sweeps[0], p);
    AfterAt(m, c, sweeps[0], p, key);
    if |calls| > 1 && calls[1].now < to {
      StillCurrent(m', key, w, c.now, calls[1].now, p);
    }
    WithinOneWindow(m', calls[1..], sweeps[1..], p, key, from, to, w);
  }

  lemma {:induction false} TwoWindows(m: Table, calls: seq<Call>, sweeps: seq<bool>, p: Policy, key: string,
                                      from: int, to: int)
    requires |calls| == |sweeps| && ClockRuns(calls) && Bounded(m, p)
    requires calls != [] && to <= calls[0].now + p.windowMs
    ensures Granted(m, calls, sweeps, p, key, from, to)
         <= match Current(m, key, calls[0].now, p) case None => Quota(p) case Some(w) => 2 * Quota(p) - w.count
    decreases |calls|
  {
    var c, m' := calls[0], After(m, calls[0], sweeps[0], p);
    if c.key == key && Current(m, key, c.now, p).None? {
      Opened(m, calls, sweeps, p, key, from, to);
    } else {
      AfterBounded(m, c, sweeps[0], p);
      AfterAt(m, c, sweeps[0], p, key);
      if |calls| > 1 {
        TwoWindows(m', calls[1..], sweeps[1..], p, key, from, to);
        OnlyEnds(m', key, c.now, calls[1].now, p);
      }
    }
  }

  /** As time passes without a call, a window stays as it is or ends. */
  lemma OnlyEnds(m: Table, key: string, now: int, later: int, p: Policy)
    requires now <= later
    ensures Current(m, key, later, p).None? || Current(m, key, later, p) == Current(m, key, now, p)
  {
  }

  /** In any half-open interval as long as the window, one key is granted at most
      twice the quota, whatever was swept. */
  lemma {:induction false} TwiceTheQuota(m: Table, calls: seq<Call>, sweeps: seq<bool>, p: Policy, key: string,
                                         from: int)
    requires |calls| == |sweeps| && ClockRuns(calls) && Bounded(m, p)
    ensures Granted(m, calls, sweeps, p, key, from, from + p.windowMs) <= 2 * Quota(p)
    decreases |calls|
  {
    if calls != [] {
      if calls[0].now < from {
        AfterBounded(m, calls[0], sweeps[0], p);
        TwiceTheQuota(After(m, calls[0], sweeps[0], p), calls[1..], sweeps[1..], p, key, from);
      } else {
        TwoWindows(m, calls, sweeps, p, key, from, from + p.windowMs);
      }
    }
  }

  // ------------------------------------------------------- one call in full

  /** One in-memory call, in terms of the table alone: a key without a window, or a whole
      window after its start, opens one and is allowed; within it a call is allowed and
      counted while the count is below the maximum; no other key's window changes, and
      only ended ones are swept. */
  lemma AllowInFull(m: Table, c: Call, sweep: bool, p: Policy)
    ensures var next := After(m, c, sweep, p);
            && c.key in next
            && (c.key !in m || c.now >= m[c.key].windowStart + p.windowMs ==>
                  Answer(m, c, sweep, p) && next[c.key] == Window(1, c.now))
            && (c.key in m && c.now < m[c.key].windowStart + p.windowMs ==>
                  && (Answer(m, c, sweep, p) <==> m[c.key].count < p.maxPerWindow)
                  && next[c.key] == Window(m[c.key].count + (if m[c.key].count < p.maxPerWindow then 1 else 0),
                                           m[c.key].windowStart))
            && (forall k :: k in next && k != c.key ==> k in m && next[k] == m[k])
            && (forall k :: k in m && k !in next ==> sweep && c.now >= m[k].windowStart + p.windowMs)
  {
    AfterAt(m, c, sweep, p, c.key);
  }

  /** One call on rows: the same window, but every call counts, and the call is allowed
      when the count it leaves is no more than the maximum. */
  lemma RowInFull(m: Table, c: Call, cleanUp: bool, p: Policy)
    ensures var open := c.key in m && c.now < m[c.key].windowStart + p.windowMs;
            var row := if open then Window(m[c.key].count + 1, m[c.key].windowStart) else Window(1, c.now);
            var next := RowsAfter(m, c, cleanUp, p);
            && (RowAnswer(m, c, p) <==> row.count <= p.maxPerWindow)
            && (if c.key in next then next[c.key] == row else cleanUp && p.windowMs <= 0)
            && (forall k :: k in next && k != c.key ==> k in m && next[k] == m[k])
            && (forall k :: k in m && k !in next && k != c.key ==> cleanUp && c.now >= m[k].windowStart + p.windowMs)
  {
  }

  /** How many calls of `key` fall in the interval. */
  function CallsIn(calls: seq<Call>, key: string, from: int, to: int): nat {
    if calls == [] then 0
    else (if calls[0].key == key && from <= calls[0].now < to then 1 else 0) + CallsIn(calls[1..], key, from, to)
  }

  function Lesser(a: nat, b: nat): nat { if a <= b then a else b }

  lemma {:induction false} RestOfWindow(m: Table, calls: seq<Call>, sweeps: seq<bool>, p: Policy, key: string,
                                        from: int, to: int, w: Window)
    requires |calls| == |sweeps| && ClockRuns(calls) && (calls != [] ==> from <= calls[0].now)
    requires 1 <= w.count <= Quota(p) && to <= w.windowStart + p.windowMs
    requires calls != [] && calls[0].now < to ==> Current(m, key, calls[0].now, p) == Some(w)
    ensures Granted(m, calls, sweeps, p, key, from, to) == Lesser(Quota(p) - w.count, CallsIn(calls, key, from, to))
    decreases |calls|
  {
    if calls != [] {
      var c, m' := calls[0], After(m, calls[0], sweeps[0], p);
      AfterCurrent(m, c, sweeps[0], p, c.key, c.now);
      var next := if c.key == key && c.now < to then Admit(Some(w), c.now, p).0 else w;
      if |calls| > 1 && calls[1].now < to {
        AfterCurrent(m, c, sweeps[0], p, key, calls[1].now);
        StillCurrent(m, key, w, c.now, calls[1].now, p);
      }
      RestOfWindow(m', calls[1..], sweeps[1..], p, key, from, to, next);
    }
  }

  /** From the call that opens it to its end, a window grants a key's first calls up to
      the maximum, or the opening call alone below one, and every one after is refused. */
  lemma WindowGrantsExactly(m: Table, calls: seq<Call>, sweeps: seq<bool>, p: Policy, key: string)
    requires |calls| == |sweeps| && ClockRuns(calls)
    requires calls != [] && calls[0].key == key && Current(m, key, calls[0].now, p) == None
    ensures var from, to := calls[0].now, calls[0].now + p.windowMs;
            Granted(m, calls, sweeps, p, key, from, to)
            == Lesser(if p.maxPerWindow >= 1 then p.maxPerWindow else 1, CallsIn(calls, key, from, to))
  {
    var c, to := calls[0], calls[0].now + p.windowMs;
    var m', w := After(m, c, sweeps[0], p), Window(1, c.now);
    OpensWith(m, c, sweeps[0], p);
    if |calls| > 1 && calls[1].now < to {
      StillCurrent(m', key, w, c.now, calls[1].now, p);
    }
    hide After, Current, Ended, Answer;
    RestOfWindow(m', calls[1..], sweeps[1..], p, key, c.now, to, w);
    if p.windowMs <= 0 {
      NoCallsIn(calls[1..], key, c.now, to);
    }
  }

  lemma OpensWith(m: Table, c: Call, sweep: bool, p: Policy)
    requires Current(m, c.key, c.now, p) == None
    ensures Answer(m, c, sweep, p)
    ensures p.windowMs > 0 ==> Current(After(m, c, sweep, p), c.key, c.now, p) == Some(Window(1, c.now))
  {
    AfterAt(m, c, sweep, p, c.key);
  }

  lemma {:induction false} NoCallsIn(calls: seq<Call>, key: string, from: int, to: int)
    requires to <= from
    ensures CallsIn(calls, key, from, to) == 0
  {
    if calls != [] {
      NoCallsIn(calls[1..], key, from, to);
    }
  }

  /** A new window may open at `now` when the last one started at `start`, if ever. */
  predicate Free(start: Option<int>, now: int, windowMs: int) { start.None? || now - start.value >= windowMs }

  /** Going by call times alone, some call of `key` made at or after `from` and before
      `to` comes a whole window or more after the last call that did. */
  predicate Opens(calls: seq<Call>, start: Option<int>, windowMs: int, key: string, from: int, to: int)
    decreases |calls|
  {
    calls != [] &&
    var c := calls[0];
    if c.key == key && Free(start, c.now, windowMs) then
      from <= c.now < to || Opens(calls[1..], Some(c.now), windowMs, key, from, to)
    else Opens(calls[1..], start, windowMs, key, from, to)
  }

  /** When the window a table holds for a key started, ended or not. */
  function StartOf(m: Table, key: string): Option<int> { if key in m then Some(m[key].windowStart) else None }

  /** `start` says from `now` on when the key's next window may open. */
  ghost predicate StartsAt(m: Table, key: string, start: Option<int>, now: int, p: Policy) {
    match Current(m, key, now, p)
    case None => Free(start, now, p.windowMs)
    case Some(w) => start == Some(w.windowStart) && !Free(start, now, p.windowMs)
  }

  lemma StartsLater(m: Table, key: string, start: Option<int>, now: int, later: int, p: Policy)
    requires now <= later && StartsAt(m, key, start, now, p)
    ensures StartsAt(m, key, start, later, p)
  {
  }

  lemma StartsAfter(m: Table, c: Call, sweep: bool, p: Policy, key: string, start: Option<int>)
    requires StartsAt(m, key, start, c.now, p)
    ensures StartsAt(After(m, c, sweep, p), key,
              if c.key == key && Free(start, c.now, p.windowMs) then Some(c.now) else start, c.now, p)
  {
    AfterAt(m, c, sweep, p, key);
  }

  lemma AnswerBelowOne(m: Table, c: Call, sweep: bool, p: Policy)
    requires Bounded(m, p) && p.maxPerWindow < 1
    ensures Answer(m, c, sweep, p) <==> Current(m, c.key, c.now, p).None?
  {
    AfterAt(m, c, sweep, p, c.key);
  }

  /** Below one, the calls let through are those that open a window. */
  lemma {:induction false} GrantedBelowOne(m: Table, calls: seq<Call>, sweeps: seq<bool>, p: Policy, key: string,
                                           start: Option<int>, from: int, to: int)
    requires |calls| == |sweeps| && ClockRuns(calls) && Bounded(m, p) && p.maxPerWindow < 1
    requires calls != [] ==> StartsAt(m, key, start, calls[0].now, p)
    ensures Granted(m, calls, sweeps, p, key, from, to) > 0 <==> Opens(calls, start, p.windowMs, key, from, to)
    decreases |calls|
  {
    if calls != [] {
      var c, m' := calls[0], After(m, calls[0], sweeps[0], p);
      AnswerBelowOne(m, c, sweeps[0], p);
      AfterBounded(m, c, sweeps[0], p);
      StartsAfter(m, c, sweeps[0], p, key, start);
      var start' := if c.key == key && Free(start, c.now, p.windowMs) then Some(c.now) else start;
      if |calls| > 1 {
        StartsLater(m', key, start', c.now, calls[1].now, p);
      }
      hide Answer, After;
      GrantedBelowOne(m', calls[1..], sweeps[1..], p, key, start', from, to);
    }
  }

  lemma {:induction false} NeverInNoTime(calls: seq<Call>, start: Option<int>, windowMs: int, key: string,
                                         from: int, to: int)
    requires to <= from
    ensures !Opens(calls, start, windowMs, key, from, to)
    decreases |calls|
  {
    if calls != [] {
      NeverInNoTime(calls[1..], start, windowMs, key, from, to);
      NeverInNoTime(calls[1..], Some(calls[0].now), windowMs, key, from, to);
    }
  }

  /** A window grants at most the maximum exactly when the maximum is at least one,
      or at least zero for windows that end as they begin. */
  lemma MaximumPerWindowIff(m: Table, calls: seq<Call>, sweeps: seq<bool>, p: Policy, key: string)
    requires |calls| == |sweeps| && ClockRuns(calls) && Bounded(m, p)
    requires calls != [] && calls[0].key == key && Current(m, key, calls[0].now, p) == None
    ensures Granted(m, calls, sweeps, p, key, calls[0].now, calls[0].now + p.windowMs) <= p.maxPerWindow
       <==> p.maxPerWindow >= if p.windowMs > 0 then 1 else 0
  {
    hide Granted;
    if p.maxPerWindow >= 1 {
      OneWindowGrants(m, calls, sweeps, p, key);
    } else {
      var from := calls[0].now;
      GrantedBelowOne(m, calls, sweeps, p, key, None, from, from + p.windowMs);
      if p.windowMs <= 0 {
        NeverInNoTime(calls, None, p.windowMs, key, from, from + p.windowMs);
      }
    }
  }

  /** In a half-open interval as long as the window one key is granted at most twice
      the maximum exactly when the maximum is at least one, or is zero and, by the
      times of the calls, no window opens in the interval. */
  lemma TwiceTheMaximumIff(m: Table, calls: seq<Call>, sweeps: seq<bool>, p: Policy, key: string, from: int)
    requires |calls| == |sweeps| && ClockRuns(calls) && Bounded(m, p)
    ensures Granted(m, calls, sweeps, p, key, from, from + p.windowMs) <= 2 * p.maxPerWindow
       <==> p.maxPerWindow >= 1
            || (p.maxPerWindow == 0 && !Opens(calls, StartOf(m, key), p.windowMs, key, from, from + p.windowMs))
  {
    hide Granted, Opens;
    if p.maxPerWindow >= 1 {
      TwiceTheQuota(m, calls, sweeps, p, key, from);
    } else {
      GrantedBelowOne(m, calls, sweeps, p, key, StartOf(m, key), from, from + p.windowMs);
    }
  }

  /** A maximum of zero still lets one call through. */
  lemma ZeroMaximumGrants(key: string, now: int, windowMs: int, sweep: bool)
    requires windowMs > 0
    ensures Granted(map[], [Call(key, now)], [sweep], Policy(0, windowMs), key, now, now + windowMs) == 1
  {
    var m, c, p := map[], Call(key, now), Policy(0, windowMs);
    AfterAt(m, c, sweep, p, key);
    assert Granted(After(m, c, sweep, p), [c][1..], [sweep][1..], p, key, now, now + windowMs) == 0;
  }

  // ----------------------------------------------------------- the SQL counter

  function RowsAfter(m: Table, c: Call, cleanUp: bool, p: Policy): Table {
    var written := m[c.key := Upsert(Current(m, c.key, c.now, p), c.now)];
    if cleanUp then Live(written, c.now, p) else written
  }

  function RowAnswer(m: Table, c: Call, p: Policy): bool {
    Upsert(Current(m, c.key, c.now, p), c.now).count <= p.maxPerWindow
  }

  function RowAnswers(m: Table, calls: seq<Call>, cleanUps: seq<bool>, p: Policy): (r: seq<bool>)
    requires |calls| == |cleanUps|
    ensures |r| == |calls|
    decreases |calls|
  {
    if calls == [] then []
    else [RowAnswer(m, calls[0], p)] + RowAnswers(RowsAfter(m, calls[0], cleanUps[0], p), calls[1..], cleanUps[1..], p)
  }

  /** The row counts refused calls too; capped at the maximum it is the window. */
  ghost predicate Caps(w: Option<Window>, row: Option<Window>, p: Policy) {
    match (w, row)
    case (None, None) => true
    case (Some(a), Some(b)) =>
      && a.windowStart == b.windowStart && b.count >= 1
      && a.count as int == if b.count <= p.maxPerWindow then b.count as int else p.maxPerWindow
    case _ => false
  }

  ghost predicate CapsFrom(m: Table, rows: Table, now: int, p: Policy) {
    forall k :: Caps(Current(m, k, now, p), Current(rows, k, now, p), p)
  }

  lemma CapsStep(m: Table, rows: Table, c: Call, sweep: bool, cleanUp: bool, later: int, p: Policy)
    requires p.maxPerWindow >= 1 && CapsFrom(m, rows, c.now, p) && c.now <= later
    ensures Answer(m, c, sweep, p) == RowAnswer(rows, c, p)
    ensures CapsFrom(After(m, c, sweep, p), RowsAfter(rows, c, cleanUp, p), later, p)
  {
    var m', rows' := After(m, c, sweep, p), RowsAfter(rows, c, cleanUp, p);
    assert Caps(Current(m, c.key, c.now, p), Current(rows, c.key, c.now, p), p);
    AfterAt(m, c, sweep, p, c.key);
    forall k
      ensures Caps(Current(m', k, later, p), Current(rows', k, later, p), p)
    {
      assert Caps(Current(m, k, c.now, p), Current(rows, k, c.now, p), p);
      AfterAt(m, c, sweep, p, k);
      OnlyEnds(m', k, c.now, later, p);
      OnlyEnds(rows', k, c.now, later, p);
    }
  }

  lemma {:induction false} CapsAgree(m: Table, rows: Table, calls: seq<Call>,
                                     sweeps: seq<bool>, cleanUps: seq<bool>, p: Policy)
    requires |calls| == |sweeps| == |cleanUps| && ClockRuns(calls) && p.maxPerWindow >= 1
    requires calls != [] ==> CapsFrom(m, rows, calls[0].now, p)
    ensures Answers(m, calls, sweeps, p) == RowAnswers(rows, calls, cleanUps, p)
    decreases |calls|
  {
    hide Answer, RowAnswer, After, RowsAfter, CapsFrom;
    if calls != [] {
      var c := calls[0];
      CapsStep(m, rows, c, sweeps[0], cleanUps[0], if |calls| > 1 then calls[1].now else c.now, p);
      CapsAgree(After(m, c, sweeps[0], p), RowsAfter(rows, c, cleanUps[0], p),
                calls[1..], sweeps[1..], cleanUps[1..], p);
    }
  }

  /** On any non-empty run the two limiters give the same answers exactly when the
      maximum is at least one. */
  lemma {:induction false} LimitersAgreeIff(calls: seq<Call>, sweeps: seq<bool>, cleanUps: seq<bool>, p: Policy)
    requires |calls| == |sweeps| == |cleanUps| && calls != [] && ClockRuns(calls)
    ensures Answers(map[], calls, sweeps, p) == RowAnswers(map[], calls, cleanUps, p) <==> p.maxPerWindow >= 1
  {
    if p.maxPerWindow >= 1 {
      CapsAgree(map[], map[], calls, sweeps, cleanUps, p);
    } else {
      assert Answers(map[], calls, sweeps, p)[0] && !RowAnswers(map[], calls, cleanUps, p)[0];
    }
  }
}
