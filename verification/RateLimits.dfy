/**
 Two bounded in-memory limiters: fixed windows for unauthenticated probes (api/middleware/account.go), and the
 failure counters around a password check, which are read and written in two separate critical sections
 (domain/service/accounts/attempts.go).

 Keys stand for their SHA-256 digests. Times are integers.
 */
module RateLimits {
  import opened Common

  const CAPACITY := 4096

  datatype Entry = Entry(count: int, expires: int)

  /** Deletes the entries that are over. */
  function Purged<K>(entries: map<K, Entry>, now: int): map<K, Entry> {
    map k | k in entries && entries[k].expires > now :: entries[k]
  }

  method Purge<K(==)>(entries: map<K, Entry>, now: int) returns (kept: map<K, Entry>)
    ensures kept == Purged(entries, now)
  {
    kept := entries;
    var rest := entries.Keys;
    while rest != {}
      invariant rest <= entries.Keys
      invariant kept == map k | k in entries && (k in rest || entries[k].expires > now) :: entries[k]
      decreases |rest|
    {
      ghost var some := Pick(rest);
      var k :| k in rest;
      if entries[k].expires <= now { kept := kept - {k}; }
      rest := rest - {k};
    }
  }

  lemma PurgedSize<K>(entries: map<K, Entry>, now: int)
    ensures |Purged(entries, now)| <= |entries|
    ensures forall k | k in entries && entries[k].expires <= now :: |Purged(entries, now)| < |entries|
  {
    var kept := Purged(entries, now);
    SubsetCount(kept.Keys, entries.Keys);
    forall k | k in entries && entries[k].expires <= now ensures |kept| < |entries| {
      SubsetCount(kept.Keys, entries.Keys - {k});
    }
  }

  // ---------------------------------------------------------------- AllowAccountAttempt

  function Current<K>(entries: map<K, Entry>, key: K): Entry {
    if key in entries then entries[key] else Entry(0, 0)
  }

  /** A missing entry counts as expired. */
  predicate Expired<K>(entries: map<K, Entry>, key: K, now: int) {
    key !in entries || entries[key].expires <= now
  }

  function MakeRoom<K>(entries: map<K, Entry>, now: int): map<K, Entry> {
    if |entries| >= CAPACITY then Purged(entries, now) else entries
  }

  function Allow<K>(entries: map<K, Entry>, key: K, limit: int, window: int, now: int): (map<K, Entry>, bool) {
    if Expired(entries, key, now) then
      var room := MakeRoom(entries, now);
      if |room| >= CAPACITY || 0 >= limit then (room, false) else (room[key := Entry(1, now + window)], true)
    else if entries[key].count >= limit then (entries, false)
    else (entries[key := entries[key].(count := entries[key].count + 1)], true)
  }

  class Limiter<K(==)> {
    var entries: map<K, Entry>

    method AllowAccountAttempt(key: K, limit: int, window: int, now: int) returns (allowed: bool)
      modifies this
      ensures (entries, allowed) == Allow(old(entries), key, limit, window, now)
    {
      var entry := if key in entries then entries[key] else Entry(0, now);
      if entry.expires <= now {
        if |entries| >= CAPACITY { entries := Purge(entries, now); }
        if |entries| >= CAPACITY { return false; }
        entry := Entry(0, now + window);
      }
      if entry.count >= limit { return false; }
      entry := entry.(count := entry.count + 1);
      entries := entries[key := entry];
      return true;
    }
  }

  /** The map never grows past its capacity. */
  lemma AllowKeepsCapacity<K>(entries: map<K, Entry>, key: K, limit: int, window: int, now: int)
    requires |entries| <= CAPACITY
    ensures |Allow(entries, key, limit, window, now).0| <= CAPACITY
  {
    PurgedSize(entries, now);
    if !Expired(entries, key, now) {
      OneMore(entries, key, entries[key].(count := entries[key].count + 1));
    } else {
      OneMore(MakeRoom(entries, now), key, Entry(1, now + window));
    }
  }

  // ---------------------------------------------------------------- how many attempts an interval admits

  datatype Call<K> = Call(key: K, limit: int, window: int, now: int)

  /** An admitted attempt, and the start of the window it fell into. */
  datatype Admission<K> = Admission(key: K, at: int, since: int)

  /** `clock` is the newest time any call so far has read. */
  datatype State<K> = State(entries: map<K, Entry>, clock: int, log: seq<Admission<K>>)

  function Max(a: int, b: int): int { if a < b then b else a }

  function Step<K>(s: State<K>, c: Call<K>): State<K> {
    var (entries, allowed) := Allow(s.entries, c.key, c.limit, c.window, c.now);
    State(entries, Max(s.clock, c.now), if allowed then s.log + [Admission(c.key, c.now, Current(entries, c.key).expires - c.window)] else s.log)
  }

  function Run<K>(start: int, calls: seq<Call<K>>): State<K> {
    if calls == [] then State(map[], start, []) else Step(Run(start, calls[..|calls| - 1]), calls[|calls| - 1])
  }

  /** The clock is read before the lock is taken, so a call may be applied after calls that read a later time, but at
      most `lag` later. One key always comes with the same limit and window. */
  ghost predicate Regular<K>(start: int, calls: seq<Call<K>>, key: K, limit: nat, window: int, lag: nat) {
    && (forall i | 0 <= i < |calls| ::
          start <= calls[i].now + lag && (calls[i].key == key ==> calls[i].limit == limit && calls[i].window == window))
    && forall i, j | 0 <= i < j < |calls| :: calls[i].now <= calls[j].now + lag
  }

  function CountSince<K(==)>(log: seq<Admission<K>>, key: K, since: int): nat {
    if log == [] then 0
    else
      var a := log[|log| - 1];
      CountSince(log[..|log| - 1], key, since) + if a.key == key && a.since == since then 1 else 0
  }

  /** Attempts of a key admitted in [from, to). */
  function CountBetween<K(==)>(log: seq<Admission<K>>, key: K, from: int, to: int): nat {
    if log == [] then 0
    else
      var a := log[|log| - 1];
      CountBetween(log[..|log| - 1], key, from, to) + if a.key == key && from <= a.at < to then 1 else 0
  }

  /** The window of a past admission is the current one, or was followed by the current one, or is over. */
  predicate WindowPast<K(==)>(s: State<K>, a: Admission<K>, window: int, lag: nat) {
    if a.key in s.entries then s.entries[a.key].expires == a.since + window || a.since + window <= s.entries[a.key].expires - window + lag
    else a.since + window <= s.clock
  }

  /** Two windows of a key are the same or start at least `gap` apart. */
  predicate Apart<K>(a: Admission<K>, b: Admission<K>, gap: int) {
    a.since == b.since || a.since + gap <= b.since || b.since + gap <= a.since
  }

  ghost predicate WindowInv<K>(s: State<K>, key: K, limit: nat, window: int, lag: nat) {
    && (key in s.entries ==> s.entries[key].expires - window <= s.clock)
    && (key in s.entries ==> s.entries[key].count == CountSince(s.log, key, s.entries[key].expires - window))
    && (forall o :: CountSince(s.log, key, o) <= limit)
    && (forall i | 0 <= i < |s.log| && s.log[i].key == key ::
          s.log[i].since - lag <= s.log[i].at < s.log[i].since + window && Max(s.log[i].since, s.log[i].at) <= s.clock && WindowPast(s, s.log[i], window, lag))
    && (forall i, j | 0 <= i < |s.log| && 0 <= j < |s.log| && s.log[i].key == key && s.log[j].key == key ::
          Apart(s.log[i], s.log[j], window - lag))
  }

  lemma {:induction false} NoneSince<K>(log: seq<Admission<K>>, key: K, since: int)
    requires forall i | 0 <= i < |log| && log[i].key == key :: log[i].since != since
    ensures CountSince(log, key, since) == 0
  {
    if log != [] { NoneSince(log[..|log| - 1], key, since); }
  }

  lemma LogGrows<K>(log: seq<Admission<K>>, a: Admission<K>, key: K, since: int)
    ensures CountSince(log + [a], key, since) == CountSince(log, key, since) + if a.key == key && a.since == since then 1 else 0
  {
    assert (log + [a])[..|log|] == log;
  }

  /** A new window starts after every earlier window of the key has ended, up to the lag. */
  lemma WindowsEnd<K>(s: State<K>, key: K, limit: nat, window: int, lag: nat, now: int)
    requires WindowInv(s, key, limit, window, lag) && s.clock <= now + lag && lag < window && Expired(s.entries, key, now)
    ensures forall i | 0 <= i < |s.log| && s.log[i].key == key :: s.log[i].since + window <= now + lag
  {
    forall i | 0 <= i < |s.log| && s.log[i].key == key ensures s.log[i].since + window <= now + lag {
      assert WindowPast(s, s.log[i], window, lag);
    }
  }

  /** Dropping expired entries, and whatever happens to other keys, leaves the windows of a key alone. */
  lemma RejectionKeepsWindows<K>(s: State<K>, s': State<K>, key: K, limit: nat, window: int, lag: nat)
    requires WindowInv(s, key, limit, window, lag) && s.clock <= s'.clock && s'.log == s.log && lag < window
    requires if key in s'.entries then key in s.entries && s'.entries[key] == s.entries[key] else Expired(s.entries, key, s'.clock)
    ensures WindowInv(s', key, limit, window, lag)
  {
    forall i | 0 <= i < |s.log| && s.log[i].key == key ensures WindowPast(s', s.log[i], window, lag) {
      assert WindowPast(s, s.log[i], window, lag);
    }
  }

  lemma AdmissionKeepsWindows<K>(s: State<K>, s': State<K>, a: Admission<K>, key: K, limit: nat, window: int, lag: nat)
    requires WindowInv(s, key, limit, window, lag) && lag < window && a.key == key
    requires s.clock <= a.at + lag && s'.clock == Max(s.clock, a.at) && s'.log == s.log + [a]
    requires key in s'.entries && s'.entries[key].expires == a.since + window && s'.entries[key].count <= limit
    requires if Expired(s.entries, key, a.at) then a.since == a.at && s'.entries[key].count == 1
             else a.since == s.entries[key].expires - window && s'.entries[key].count == s.entries[key].count + 1
    ensures WindowInv(s', key, limit, window, lag)
  {
    if Expired(s.entries, key, a.at) {
      WindowsEnd(s, key, limit, window, lag, a.at);
      NoneSince(s.log, key, a.since);
    }
    forall o ensures CountSince(s'.log, key, o) == CountSince(s.log, key, o) + if a.since == o then 1 else 0 {
      LogGrows(s.log, a, key, o);
    }
    forall i | 0 <= i < |s'.log| && s'.log[i].key == key
      ensures s'.log[i].since - lag <= s'.log[i].at < s'.log[i].since + window && Max(s'.log[i].since, s'.log[i].at) <= s'.clock
      ensures WindowPast(s', s'.log[i], window, lag) && Apart(s'.log[i], a, window - lag)
    {
      if i < |s.log| { assert WindowPast(s, s.log[i], window, lag); }
    }
  }

  /** A call for another key changes nothing of the key but may drop its expired entry. */
  lemma OthersOnlyPurge<K>(entries: map<K, Entry>, c: Call<K>, key: K)
    requires c.key != key || !Allow(entries, c.key, c.limit, c.window, c.now).1
    ensures var after := Allow(entries, c.key, c.limit, c.window, c.now).0;
      if key in after then key in entries && after[key] == entries[key] else Expired(entries, key, c.now)
  {
  }

  lemma OtherAdmission<K>(s: State<K>, s': State<K>, a: Admission<K>, key: K, limit: nat, window: int, lag: nat)
    requires WindowInv(s, key, limit, window, lag) && a.key != key && s'.log == s.log + [a] && s.clock <= s'.clock && lag < window
    requires if key in s'.entries then key in s.entries && s'.entries[key] == s.entries[key] else Expired(s.entries, key, s'.clock)
    ensures WindowInv(s', key, limit, window, lag)
  {
    RejectionKeepsWindows(s, s'.(log := s.log), key, limit, window, lag);
    forall o ensures CountSince(s'.log, key, o) == CountSince(s.log, key, o) { LogGrows(s.log, a, key, o); }
    forall i | 0 <= i < |s'.log| && s'.log[i].key == key ensures i < |s.log| && s'.log[i] == s.log[i] && WindowPast(s', s.log[i], window, lag) {
      assert WindowPast(s'.(log := s.log), s.log[i], window, lag);
    }
  }

  lemma StepKeepsWindows<K>(s: State<K>, c: Call<K>, key: K, limit: nat, window: int, lag: nat)
    requires WindowInv(s, key, limit, window, lag) && s.clock <= c.now + lag && lag < window
    requires c.key == key ==> c.limit == limit && c.window == window
    ensures WindowInv(Step(s, c), key, limit, window, lag)
  {
    var s' := Step(s, c);
    var allowed := Allow(s.entries, c.key, c.limit, c.window, c.now).1;
    if c.key != key || !allowed { OthersOnlyPurge(s.entries, c, key); }
    if !allowed {
      RejectionKeepsWindows(s, s', key, limit, window, lag);
    } else if c.key != key {
      OtherAdmission(s, s', s'.log[|s.log|], key, limit, window, lag);
    } else {
      AdmissionKeepsWindows(s, s', s'.log[|s.log|], key, limit, window, lag);
    }
  }

  /** The newest reading is the start or one of the calls'. */
  lemma {:induction false} ClockIsRead<K>(start: int, calls: seq<Call<K>>, now: int)
    requires start <= now && forall i | 0 <= i < |calls| :: calls[i].now <= now
    ensures Run(start, calls).clock <= now
  {
    if calls != [] { ClockIsRead(start, calls[..|calls| - 1], now); }
  }

  lemma {:induction false} RunKeepsWindows<K>(start: int, calls: seq<Call<K>>, key: K, limit: nat, window: int, lag: nat)
    requires Regular(start, calls, key, limit, window, lag) && lag < window
    ensures WindowInv(Run(start, calls), key, limit, window, lag)
  {
    if calls != [] {
      var front, c := calls[..|calls| - 1], calls[|calls| - 1];
      RunKeepsWindows(start, front, key, limit, window, lag);
      ClockIsRead(start, front, c.now + lag);
      StepKeepsWindows(Run(start, front), c, key, limit, window, lag);
    }
  }

  lemma {:induction false} RunKeepsCapacity<K>(start: int, calls: seq<Call<K>>)
    ensures |Run(start, calls).entries| <= CAPACITY
  {
    if calls != [] {
      var front, c := calls[..|calls| - 1], calls[|calls| - 1];
      RunKeepsCapacity(start, front);
      AllowKeepsCapacity(Run(start, front).entries, c.key, c.limit, c.window, c.now);
    }
  }

  // ---------------------------------------------------------------- counting an interval

  /** Attempts of a key admitted in windows that started in [from, to). */
  function CountStarted<K(==)>(log: seq<Admission<K>>, key: K, from: int, to: int): nat {
    if log == [] then 0
    else
      var a := log[|log| - 1];
      CountStarted(log[..|log| - 1], key, from, to) + if a.key == key && from <= a.since < to then 1 else 0
  }

  lemma {:induction false} StartedCovers<K>(log: seq<Admission<K>>, key: K, from: int, to: int, first: int, last: int)
    requires forall i | 0 <= i < |log| && log[i].key == key && from <= log[i].at < to :: first <= log[i].since < last
    ensures CountBetween(log, key, from, to) <= CountStarted(log, key, first, last)
  {
    if log != [] { StartedCovers(log[..|log| - 1], key, from, to, first, last); }
  }

  lemma {:induction false} StartedSplits<K>(log: seq<Admission<K>>, key: K, from: int, mid: int, to: int)
    requires from <= mid <= to
    ensures CountStarted(log, key, from, to) == CountStarted(log, key, from, mid) + CountStarted(log, key, mid, to)
  {
    if log != [] { StartedSplits(log[..|log| - 1], key, from, mid, to); }
  }

  lemma {:induction false} OneWindow<K>(log: seq<Admission<K>>, key: K, from: int, to: int, since: int)
    requires forall i | 0 <= i < |log| && log[i].key == key && from <= log[i].since < to :: log[i].since == since
    ensures CountStarted(log, key, from, to) <= CountSince(log, key, since)
  {
    if log != [] { OneWindow(log[..|log| - 1], key, from, to, since); }
  }

  predicate StartedIn<K(==)>(log: seq<Admission<K>>, key: K, from: int, to: int, i: int) {
    0 <= i < |log| && log[i].key == key && from <= log[i].since < to
  }

  /** At most one window starts in a stretch no longer than the gap between windows. */
  lemma GapHoldsOneWindow<K>(s: State<K>, key: K, limit: nat, window: int, lag: nat, from: int)
    requires WindowInv(s, key, limit, window, lag)
    ensures CountStarted(s.log, key, from, from + window - lag) <= limit
  {
    var to := from + window - lag;
    var i := if exists i :: StartedIn(s.log, key, from, to, i) then var i :| StartedIn(s.log, key, from, to, i); i else -1;
    var since := if i >= 0 then s.log[i].since else from;
    forall j | 0 <= j < |s.log| && s.log[j].key == key && from <= s.log[j].since < to ensures s.log[j].since == since {
      assert StartedIn(s.log, key, from, to, j);
      assert Apart(s.log[i], s.log[j], window - lag);
    }
    OneWindow(s.log, key, from, to, since);
  }

  lemma {:induction false} GapsHoldWindows<K>(s: State<K>, key: K, limit: nat, window: int, lag: nat, from: int, n: nat)
    requires WindowInv(s, key, limit, window, lag) && lag <= window
    ensures CountStarted(s.log, key, from, from + n * (window - lag)) <= n * limit
  {
    if n == 0 {
      StartedEmpty(s.log, key, from);
    } else {
      var mid := from + (n - 1) * (window - lag);
      GapsHoldWindows(s, key, limit, window, lag, from, n - 1);
      assert mid + window - lag == from + n * (window - lag);
      StartedSplits(s.log, key, from, mid, mid + window - lag);
      GapHoldsOneWindow(s, key, limit, window, lag, mid);
      assert (n - 1) * limit + limit == n * limit;
    }
  }

  lemma {:induction false} StartedEmpty<K>(log: seq<Admission<K>>, key: K, from: int)
    ensures CountStarted(log, key, from, from) == 0
  {
    if log != [] { StartedEmpty(log[..|log| - 1], key, from); }
  }

  /** What was admitted in an interval was admitted in windows that started within it, a window before or a lag after. */
  lemma StartedNearby<K>(s: State<K>, key: K, limit: nat, window: int, lag: nat, from: int, to: int, span: int)
    requires WindowInv(s, key, limit, window, lag) && to - from + window + lag <= span + 1
    ensures CountBetween(s.log, key, from, to) <= CountStarted(s.log, key, from - window + 1, from - window + 1 + span)
  {
    hide CountBetween, CountStarted, CountSince, Apart, WindowPast;
    var first := from - window + 1;
    forall i | 0 <= i < |s.log| && s.log[i].key == key && from <= s.log[i].at < to ensures first <= s.log[i].since < first + span {
    }
    StartedCovers(s.log, key, from, to, first, first + span);
  }

  /** However calls interleave and however late they are applied within the lag: n windows cover a half-open interval
      [from, to) as soon as n gaps do, and then it admits at most n times the limit of a key. */
  lemma IntervalAdmits<K>(start: int, calls: seq<Call<K>>, key: K, limit: nat, window: int, lag: nat, from: int, to: int, n: nat)
    requires Regular(start, calls, key, limit, window, lag) && lag < window
    requires to - from + window + lag <= n * (window - lag) + 1
    ensures CountBetween(Run(start, calls).log, key, from, to) <= n * limit
  {
    hide Run, Regular, WindowInv, CountBetween, CountStarted;
    var s := Run(start, calls);
    RunKeepsWindows(start, calls, key, limit, window, lag);
    StartedNearby(s, key, limit, window, lag, from, to, n * (window - lag));
    GapsHoldWindows(s, key, limit, window, lag, from - window + 1, n);
  }

  /** In clock order any half-open interval one window long admits at most twice the limit of a key. Under a lag that
      holds for intervals shorter by three lags, and while a window is at least four lags long an interval of a whole
      window admits at most three times the limit. */
  lemma TwiceTheLimit<K>(start: int, calls: seq<Call<K>>, key: K, limit: nat, window: int, lag: nat, from: int)
    requires Regular(start, calls, key, limit, window, lag)
    ensures CountBetween(Run(start, calls).log, key, from, from + window - 3 * lag) <= 2 * limit
    ensures 4 * lag <= window ==> CountBetween(Run(start, calls).log, key, from, from + window) <= 3 * limit
  {
    var log := Run(start, calls).log;
    if window <= 3 * lag { EmptyInterval(log, key, from, from + window - 3 * lag); }
    if window <= 0 { EmptyInterval(log, key, from, from + window); }
    if window > 3 * lag { IntervalAdmits(start, calls, key, limit, window, lag, from, from + window - 3 * lag, 2); }
    if lag < window && 4 * lag <= window { IntervalAdmits(start, calls, key, limit, window, lag, from, from + window, 3); }
  }

  /** What one more call makes of the only entry, with three attempts in ten units allowed. */
  function NextEntry(entry: Entry, now: int): Entry {
    if entry.expires <= now then Entry(1, now + 10) else if entry.count >= 3 then entry else entry.(count := entry.count + 1)
  }

  /** One more call of the only key. */
  lemma OneCall(s: State<int>, now: nat, entry: Entry)
    requires s.entries.Keys <= {1} && Current(s.entries, 1) == entry && (1 in s.entries <==> entry.expires > 0)
    ensures var s', next := Step(s, Call(1, 3, 10, now)), NextEntry(entry, now);
      && s'.entries == map[1 := next] && next.expires > 0
      && CountBetween(s'.log, 1, 9, 19) == CountBetween(s.log, 1, 9, 19) + if 9 <= now < 19 && next != entry then 1 else 0
  {
    SubsetCount(s.entries.Keys, {1});
    var s' := Step(s, Call(1, 3, 10, now));
    assert MakeRoom(s.entries, now) == s.entries;
    assert s'.entries.Keys == {1};
    hide Allow;
    if |s'.log| > |s.log| { assert s'.log[..|s.log|] == s.log; }
  }

  const LATE := [0, 9, 9, 10, 11, 12, 20, 18, 18]

  function LateCalls(n: nat): seq<Call<int>>
    requires n <= |LATE|
  {
    seq(n, i requires 0 <= i < n => Call(1, 3, 10, LATE[i]))
  }

  /** After n of these calls the only entry, and the attempts admitted so far in [9, 19). */
  ghost predicate After(n: nat, entry: Entry, admitted: nat)
    requires n <= |LATE|
  {
    var s := Run(0, LateCalls(n));
    && s.entries.Keys <= {1} && Current(s.entries, 1) == entry && CountBetween(s.log, 1, 9, 19) == admitted
    && (1 in s.entries <==> entry.expires > 0)
  }

  lemma LateCall(n: nat, entry: Entry, admitted: nat)
    requires n < |LATE| && After(n, entry, admitted)
    ensures After(n + 1, NextEntry(entry, LATE[n]), admitted + if 9 <= LATE[n] < 19 && NextEntry(entry, LATE[n]) != entry then 1 else 0)
  {
    hide Run, Step, CountBetween, NextEntry, LateCalls;
    RunLate(n);
    OneCall(Run(0, LateCalls(n)), LATE[n], entry);
  }

  lemma RunLate(n: nat)
    requires n < |LATE|
    ensures Run(0, LateCalls(n + 1)) == Step(Run(0, LateCalls(n)), Call(1, 3, 10, LATE[n])) && LATE[n] >= 0
  {
    hide Step;
    assert LateCalls(n + 1)[..n] == LateCalls(n) && LateCalls(n + 1)[n] == Call(1, 3, 10, LATE[n]);
  }

  /** Clock order matters: nine calls, two of them applied late by two units, admit seven attempts within one window
      of ten although the limit is three. */
  lemma LateCallsAdmitMore()
    ensures Regular(0, LateCalls(9), 1, 3, 10, 2)
    ensures CountBetween(Run(0, LateCalls(9)).log, 1, 9, 19) == 7 > 2 * 3
  {
    hide Run, CountBetween, Regular, LateCalls;
    LateCallsAreRegular();
    BeforeLateCalls();
    EndOfLateCalls();
  }

  lemma LateCallsAreRegular()
    ensures Regular(0, LateCalls(9), 1, 3, 10, 2)
  {
  }

  lemma BeforeLateCalls()
    ensures After(0, Entry(0, 0), 0)
  {
    assert LateCalls(0) == [];
  }

  lemma EndOfLateCalls()
    requires After(0, Entry(0, 0), 0)
    ensures After(9, Entry(3, 30), 7)
  {
    hide After, LateCalls;
    LateCall(0, Entry(0, 0), 0);
    LateCall(1, Entry(1, 10), 0);
    LateCall(2, Entry(2, 10), 1);
    LateCall(3, Entry(3, 10), 2);
    LateCall(4, Entry(1, 20), 3);
    LateCall(5, Entry(2, 20), 4);
    LateCall(6, Entry(3, 20), 5);
    LateCall(7, Entry(1, 30), 5);
    LateCall(8, Entry(2, 30), 6);
  }

  lemma {:induction false} EmptyInterval<K>(log: seq<Admission<K>>, key: K, from: int, to: int)
    requires to <= from
    ensures CountBetween(log, key, from, to) == 0
  {
    if log != [] { EmptyInterval(log[..|log| - 1], key, from, to); }
  }

  lemma {:induction false} SinceWithin<K>(log: seq<Admission<K>>, key: K, since: int, from: int, to: int)
    requires forall i | 0 <= i < |log| && log[i].key == key && log[i].since == since :: from <= log[i].at < to
    ensures CountSince(log, key, since) <= CountBetween(log, key, from, to)
  {
    if log != [] { SinceWithin(log[..|log| - 1], key, since, from, to); }
  }

  lemma {:induction false} EmptyWindowsExpire<K>(start: int, calls: seq<Call<K>>, key: K, limit: nat, window: int, lag: nat)
    requires Regular(start, calls, key, limit, window, lag) && window <= 0
    ensures Expired(Run(start, calls).entries, key, Run(start, calls).clock)
  {
    if calls != [] {
      var front, c := calls[..|calls| - 1], calls[|calls| - 1];
      EmptyWindowsExpire(start, front, key, limit, window, lag);
      if c.key != key { OthersOnlyPurge(Run(start, front).entries, c, key); }
    }
  }

  /** The limiter is not stricter than it must be: after any calls, an attempt is refused only when the last window
      length, widened by the lag, already admitted the limit of its key, or when the map is full of live entries. */
  lemma RefusalIsDue<K>(start: int, calls: seq<Call<K>>, key: K, limit: nat, window: int, lag: nat, now: int)
    requires Regular(start, calls, key, limit, window, lag) && limit > 0 && Run(start, calls).clock <= now + lag
    requires lag < window || lag == 0
    requires !Allow(Run(start, calls).entries, key, limit, window, now).1
    ensures var s := Run(start, calls);
      |Purged(s.entries, now)| >= CAPACITY || CountBetween(s.log, key, now - window - lag + 1, now + lag + 1) >= limit
  {
    var s := Run(start, calls);
    if !Expired(s.entries, key, now) {
      if window > 0 {
        RunKeepsWindows(start, calls, key, limit, window, lag);
        var since := s.entries[key].expires - window;
        SinceWithin(s.log, key, since, now - window - lag + 1, now + lag + 1);
      } else {
        EmptyWindowsExpire(start, calls, key, limit, window, lag);
      }
    }
  }

  // ---------------------------------------------------------------- VerifyPassword

  /** The two budgets of one check: ten failures an account, thirty an address. */
  datatype Key = Account(digest: string) | Address(digest: string)

  const FAILURE_WINDOW := 60_000_000_000

  function LimitOf(key: Key): int { if key.Account? then 10 else 30 }

  type Failures = map<Key, Entry>

  /** The first critical section: drop what is over when full, then admit or refuse; it counts nothing. */
  function Admit(failures: Failures, keys: seq<Key>, now: int): (Failures, bool) {
    var room := MakeRoom(failures, now);
    (room, forall i | 0 <= i < |keys| :: !Refuses(room, keys[i], now))
  }

  predicate Refuses(failures: Failures, key: Key, now: int) {
    var entry := Current(failures, key);
    (key in failures && entry.expires > now && entry.count >= LimitOf(key)) || (key !in failures && |failures| >= CAPACITY)
  }

  /** The second critical section, after the password turned out wrong. */
  function RecordOne(failures: Failures, key: Key, now: int): Failures {
    if key !in failures && |failures| >= CAPACITY then failures
    else
      var entry := if Expired(failures, key, now) then Entry(0, now + FAILURE_WINDOW) else failures[key];
      failures[key := if entry.count < LimitOf(key) then entry.(count := entry.count + 1) else entry]
  }

  function Record(failures: Failures, keys: seq<Key>, now: int): Failures {
    if keys == [] then failures else RecordOne(Record(failures, keys[..|keys| - 1], now), keys[|keys| - 1], now)
  }

  class PasswordBudget {
    var failures: Failures

    method Enter(keys: seq<Key>, now: int) returns (admitted: bool)
      modifies this
      ensures (failures, admitted) == Admit(old(failures), keys, now)
    {
      if |failures| >= CAPACITY { failures := Purge(failures, now); }
      for i := 0 to |keys|
        invariant failures == MakeRoom(old(failures), now)
        invariant forall j | 0 <= j < i :: !Refuses(failures, keys[j], now)
      {
        var present := keys[i] in failures;
        if (present && failures[keys[i]].expires > now && failures[keys[i]].count >= LimitOf(keys[i])) || (!present && |failures| >= CAPACITY) {
          assert Refuses(failures, keys[i], now);
          return false;
        }
      }
      return true;
    }

    method Fail(keys: seq<Key>, now: int)
      modifies this
      ensures failures == Record(old(failures), keys, now)
    {
      for i := 0 to |keys|
        invariant failures == Record(old(failures), keys[..i], now)
      {
        ghost var upto := keys[..i + 1];
        assert upto[..|upto| - 1] == keys[..i] && upto[|upto| - 1] == keys[i];
        var key := keys[i];
        if key in failures || |failures| < CAPACITY {
          var entry := if key in failures then failures[key] else Entry(0, now);
          if entry.expires <= now { entry := Entry(0, now + FAILURE_WINDOW); }
          if entry.count < LimitOf(key) { entry := entry.(count := entry.count + 1); }
          failures := failures[key := entry];
        }
      }
      assert keys[..|keys|] == keys;
    }
  }

  ghost predicate BudgetInv(failures: Failures) {
    |failures| <= CAPACITY && forall key | key in failures :: 0 <= failures[key].count <= LimitOf(key)
  }

  /** Sections of any number of concurrent checks, in any order. */
  datatype Section = Entering(keys: seq<Key>, now: int) | Failing(keys: seq<Key>, now: int)

  function Perform(failures: Failures, section: Section): Failures {
    match section
    case Entering(keys, now) => Admit(failures, keys, now).0
    case Failing(keys, now) => Record(failures, keys, now)
  }

  function PerformAll(failures: Failures, sections: seq<Section>): Failures {
    if sections == [] then failures else Perform(PerformAll(failures, sections[..|sections| - 1]), sections[|sections| - 1])
  }

  lemma OneMore<K>(entries: map<K, Entry>, key: K, entry: Entry)
    ensures |entries[key := entry]| == |entries| + if key in entries then 0 else 1
  {
    assert entries[key := entry].Keys == entries.Keys + {key};
  }

  lemma RecordOneKeepsBudget(failures: Failures, key: Key, now: int)
    requires BudgetInv(failures)
    ensures BudgetInv(RecordOne(failures, key, now))
  {
    var after := RecordOne(failures, key, now);
    if after != failures { OneMore(failures, key, after[key]); }
  }

  lemma {:induction false} RecordKeepsBudget(failures: Failures, keys: seq<Key>, now: int)
    requires BudgetInv(failures)
    ensures BudgetInv(Record(failures, keys, now))
  {
    if keys != [] {
      RecordKeepsBudget(failures, keys[..|keys| - 1], now);
      RecordOneKeepsBudget(Record(failures, keys[..|keys| - 1], now), keys[|keys| - 1], now);
    }
  }

  /** In every interleaving the map holds at most 4096 keys and no counter passes its limit. */
  lemma {:induction false} SectionsKeepBudget(sections: seq<Section>)
    ensures BudgetInv(PerformAll(map[], sections))
  {
    if sections != [] {
      var front, last := sections[..|sections| - 1], sections[|sections| - 1];
      SectionsKeepBudget(front);
      var failures := PerformAll(map[], front);
      PurgedSize(failures, last.now);
      if last.Failing? { RecordKeepsBudget(failures, last.keys, last.now); }
    }
  }

  /** What a key's live window has counted. */
  function Counted(failures: Failures, key: Key, now: int): int {
    if Expired(failures, key, now) then 0 else failures[key].count
  }

  /** A failed check counts once for its account and once for its address, up to their limits, and restarts only a
      window that is over. */
  lemma FailureCounts(failures: Failures, a: Key, b: Key, now: int)
    requires BudgetInv(failures) && a != b && (|failures| + 2 <= CAPACITY || (a in failures && b in failures))
    ensures var after := Record(failures, [a, b], now);
      && a in after && b in after && after[a].expires > now && after[b].expires > now
      && after[a].count == (if Counted(failures, a, now) < LimitOf(a) then Counted(failures, a, now) + 1 else LimitOf(a))
      && after[b].count == (if Counted(failures, b, now) < LimitOf(b) then Counted(failures, b, now) + 1 else LimitOf(b))
      && after[a].expires == (if Expired(failures, a, now) then now + 60 * 1_000_000_000 else failures[a].expires)
      && after[b].expires == (if Expired(failures, b, now) then now + 60 * 1_000_000_000 else failures[b].expires)
      && forall k | k in failures && k != a && k != b :: k in after && after[k] == failures[k]
  {
    assert [a, b][..1] == [a] && [a][..0] == [];
    var first := RecordOne(failures, a, now);
    assert Record(failures, [a], now) == first;
    OneMore(failures, a, first[a]);
  }

  /** A full budget that has not expired. */
  predicate Spent(failures: Failures, key: Key, until: int) {
    key in failures && failures[key].expires == until && failures[key].count >= LimitOf(key)
  }

  lemma {:induction false} RecordKeepsSpent(failures: Failures, keys: seq<Key>, now: int, key: Key, until: int)
    requires Spent(failures, key, until) && now < until
    ensures Spent(Record(failures, keys, now), key, until)
  {
    if keys != [] { RecordKeepsSpent(failures, keys[..|keys| - 1], now, key, until); }
  }

  /** Once a key has used up its budget, no check that names it is admitted before its window ends,
      whatever other checks do meanwhile. */
  lemma {:induction false} SpentStaysRefused(failures: Failures, sections: seq<Section>, key: Key, until: int, keys: seq<Key>, now: int)
    requires Spent(failures, key, until) && (forall i | 0 <= i < |sections| :: sections[i].now < until)
    requires now < until && key in keys
    ensures Spent(PerformAll(failures, sections), key, until)
    ensures !Admit(PerformAll(failures, sections), keys, now).1
  {
    if sections != [] {
      var front, last := sections[..|sections| - 1], sections[|sections| - 1];
      SpentStaysRefused(failures, front, key, until, keys, now);
      if last.Failing? { RecordKeepsSpent(PerformAll(failures, front), last.keys, last.now, key, until); }
    }
    var end := PerformAll(failures, sections);
    var i :| 0 <= i < |keys| && keys[i] == key;
    assert Spent(MakeRoom(end, now), key, until);
    assert Refuses(MakeRoom(end, now), keys[i], now);
  }

  /** A check is admitted exactly when neither its account has ten failures nor its address thirty in a window that is not
      over, and there is room for a counter that does not exist yet; it drops what is over only when the map is full. */
  lemma AdmitDecides(failures: Failures, account: string, address: string, now: int)
    ensures var (kept, admitted) := Admit(failures, [Account(account), Address(address)], now);
      && kept == (if |failures| < 4096 then failures else map k | k in failures && failures[k].expires > now :: failures[k])
      && (admitted <==>
            && (if Account(account) in kept then kept[Account(account)].count < 10 || kept[Account(account)].expires <= now else |kept| < 4096)
            && (if Address(address) in kept then kept[Address(address)].count < 30 || kept[Address(address)].expires <= now else |kept| < 4096))
  {
    var keys := [Account(account), Address(address)];
    var kept := MakeRoom(failures, now);
    assert (forall i | 0 <= i < |keys| :: !Refuses(kept, keys[i], now)) <==> !Refuses(kept, keys[0], now) && !Refuses(kept, keys[1], now);
  }

  /** How often failed checks name a key. */
  function Mentions(keys: seq<Key>, key: Key): nat {
    if keys == [] then 0 else Mentions(keys[..|keys| - 1], key) + if keys[|keys| - 1] == key then 1 else 0
  }

  function FailuresOf(sections: seq<Section>, key: Key): nat {
    if sections == [] then 0
    else
      var last := sections[|sections| - 1];
      FailuresOf(sections[..|sections| - 1], key) + if last.Failing? then Mentions(last.keys, key) else 0
  }

  lemma {:induction false} RecordCounts(failures: Failures, keys: seq<Key>, now: int, key: Key, n: nat)
    requires key in failures ==> failures[key].count <= n
    ensures var after := Record(failures, keys, now); key in after ==> after[key].count <= n + Mentions(keys, key)
  {
    if keys != [] { RecordCounts(failures, keys[..|keys| - 1], now, key, n); }
  }

  /** No counter runs ahead of the failures: in every interleaving a key is charged at most once for each. */
  lemma {:induction false} CountsAreFailures(sections: seq<Section>, key: Key)
    ensures var failures := PerformAll(map[], sections); key in failures ==> failures[key].count <= FailuresOf(sections, key)
  {
    if sections != [] {
      var front, last := sections[..|sections| - 1], sections[|sections| - 1];
      CountsAreFailures(front, key);
      if last.Failing? { RecordCounts(PerformAll(map[], front), last.keys, last.now, key, FailuresOf(front, key)); }
    }
  }

  /** Nobody is locked out early: after any sections, a check whose account failed less than ten times and whose address less
      than thirty times is admitted while the map has room. */
  lemma FewFailuresAreAdmitted(sections: seq<Section>, account: string, address: string, now: int)
    requires FailuresOf(sections, Account(account)) < 10 && FailuresOf(sections, Address(address)) < 30
    requires |MakeRoom(PerformAll(map[], sections), now)| < CAPACITY
    ensures Admit(PerformAll(map[], sections), [Account(account), Address(address)], now).1
  {
    CountsAreFailures(sections, Account(account));
    CountsAreFailures(sections, Address(address));
    AdmitDecides(PerformAll(map[], sections), account, address, now);
  }
}
