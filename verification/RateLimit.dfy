/** The per-address fixed-window limiter of rate_limit.go.  Times are integers, and 0 is Go's zero time. */
module RateLimit {
  import opened Wrappers

  type Key = string

  const DEFAULT_REQUESTS := 60
  /** One second, in nanoseconds. */
  const DEFAULT_WINDOW := 1_000_000_000

  datatype Entry = Entry(count: int, reset: int)

  const NO_ENTRY := Entry(0, 0)

  datatype Limits = Limits(requests: int, window: int) {
    predicate Valid() { requests > 0 && window > 0 }
  }

  // ----- one request

  predicate Expired(e: Entry, now: int) {
    e.reset == 0 || now >= e.reset
  }

  /** The entry a request is judged by. */
  function Current(limits: Limits, e: Entry, now: int): Entry {
    if Expired(e, now) then Entry(0, now + limits.window) else e
  }

  predicate Admits(limits: Limits, e: Entry, now: int) {
    Current(limits, e, now).count < limits.requests
  }

  function Next(limits: Limits, e: Entry, now: int): Entry {
    var c := Current(limits, e, now);
    if c.count < limits.requests then c.(count := c.count + 1) else c
  }

  function Look(entries: map<Key, Entry>, key: Key): Entry {
    if key in entries then entries[key] else NO_ENTRY
  }

  function Cleaned(entries: map<Key, Entry>, now: int): map<Key, Entry> {
    map k | k in entries && now < entries[k].reset :: entries[k]
  }

  /** The table after a request. */
  function After(limits: Limits, entries: map<Key, Entry>, key: Key, now: int): map<Key, Entry> {
    var updated := entries[key := Next(limits, Look(entries, key), now)];
    if Admits(limits, Look(entries, key), now) && |updated| > limits.requests * 32 then Cleaned(updated, now)
    else updated
  }

  class RateLimiter {
    const requests: int
    const window: int
    var entries: map<Key, Entry>

    ghost function Configured(): Limits {
      Limits(requests, window)
    }

    constructor (configured: Limits)
      ensures Configured().Valid() && entries == map[]
      ensures requests == if configured.requests <= 0 then DEFAULT_REQUESTS else configured.requests
      ensures window == if configured.window <= 0 then DEFAULT_WINDOW else configured.window
    {
      var reqs, win := configured.requests, configured.window;
      if reqs <= 0 {
        reqs := DEFAULT_REQUESTS;
      }
      if win <= 0 {
        win := DEFAULT_WINDOW;
      }
      requests, window, entries := reqs, win, map[];
    }

    method Allow(key: Key, now: int) returns (allowed: bool)
      modifies this
      ensures allowed == Admits(Configured(), Look(old(entries), key), now)
      ensures entries == After(Configured(), old(entries), key, now)
    {
      var entry := if key in entries then entries[key] else NO_ENTRY;
      if entry.reset == 0 || !(now < entry.reset) {
        entry := Entry(0, now + window);
      }
      if entry.count >= requests {
        entries := entries[key := entry];
        return false;
      }
      entry := entry.(count := entry.count + 1);
      entries := entries[key := entry];
      if |entries| > requests * 32 {
        Cleanup(now);
      }
      return true;
    }

    /** Go may range over the map in any order. */
    method Cleanup(now: int)
      modifies this
      ensures entries == Cleaned(old(entries), now)
    {
      var todo := entries.Keys;
      while todo != {}
        invariant todo <= old(entries).Keys
        invariant forall k :: k in entries <==> k in old(entries) && (k in todo || now < old(entries)[k].reset)
        invariant forall k | k in entries :: entries[k] == old(entries)[k]
        decreases todo
      {
        var key :| key in todo;
        if !(now < entries[key].reset) {
          entries := entries - {key};
        }
        todo := todo - {key};
      }
    }
  }

  // ----- whole runs

  datatype Request = Request(key: Key, now: int)

  type Trace = seq<Request>

  /** Requests are in the order they take the lock.  Each has read the clock before, so that a time can
      be before an earlier request's, but never by more than the lag. */
  ghost predicate ClockRuns(trace: Trace, lag: nat) {
    forall i, j | 0 <= i <= j < |trace| :: trace[i].now <= trace[j].now + lag
  }

  /** The table after the first n requests to a new limiter. */
  function TableAt(limits: Limits, trace: Trace, n: nat): map<Key, Entry>
    requires n <= |trace|
  {
    if n == 0 then map[]
    else After(limits, TableAt(limits, trace, n - 1), trace[n - 1].key, trace[n - 1].now)
  }

  predicate Answer(limits: Limits, trace: Trace, n: nat)
    requires n < |trace|
  {
    Admits(limits, Look(TableAt(limits, trace, n), trace[n].key), trace[n].now)
  }

  // ----- the reference: one key alone, and no cleanup

  /** The times of the requests of one key among the first n. */
  function Own(trace: Trace, key: Key, n: nat): seq<int>
    requires n <= |trace|
  {
    if n == 0 then []
    else if trace[n - 1].key == key then Own(trace, key, n - 1) + [trace[n - 1].now]
    else Own(trace, key, n - 1)
  }

  function Solo(limits: Limits, times: seq<int>, n: nat): Entry
    requires n <= |times|
  {
    if n == 0 then NO_ENTRY else Next(limits, Solo(limits, times, n - 1), times[n - 1])
  }

  predicate SoloAnswer(limits: Limits, times: seq<int>, n: nat)
    requires n < |times|
  {
    Admits(limits, Solo(limits, times, n), times[n])
  }

  /** Whether request j sets off a cleanup. */
  predicate Cleans(limits: Limits, trace: Trace, j: nat)
    requires j < |trace|
  {
    var table := TableAt(limits, trace, j);
    var updated := table[trace[j].key := Next(limits, Look(table, trace[j].key), trace[j].now)];
    Answer(limits, trace, j) && |updated| > limits.requests * 32
  }

  /** No request has read the clock further before the time of a cleanup it comes after than the gap. */
  ghost predicate CleanupsPast(limits: Limits, trace: Trace, gap: nat) {
    forall j, i | 0 <= j < i < |trace| && Cleans(limits, trace, j) :: trace[j].now <= trace[i].now + gap
  }

  lemma LagIsAGap(limits: Limits, trace: Trace, lag: nat)
    requires ClockRuns(trace, lag)
    ensures CleanupsPast(limits, trace, lag)
  {
    hide Cleans;
    assert forall j, i | 0 <= j < i < |trace| :: trace[j].now <= trace[i].now + lag;
  }

  /** What one cleanup changes of one answer: it admits where it would have been refused, exactly for
      a full entry that has run out by the time of the cleanup but not by the request's. */
  lemma CleanupChanges(limits: Limits, entries: map<Key, Entry>, key: Key, cleanup: int, now: int)
    requires limits.Valid()
    ensures Admits(limits, Look(entries, key), now) ==> Admits(limits, Look(Cleaned(entries, cleanup), key), now)
    ensures Admits(limits, Look(Cleaned(entries, cleanup), key), now) != Admits(limits, Look(entries, key), now)
      <==> key in entries && entries[key].reset != 0 && now < entries[key].reset <= cleanup
           && entries[key].count >= limits.requests
  {}

  ghost predicate Agree(a: Entry, b: Entry, now: int) {
    a == b || (a == NO_ENTRY && Expired(b, now))
  }

  lemma {:induction false} SoloPrefix(limits: Limits, times: seq<int>, more: seq<int>, n: nat)
    requires n <= |times| && |more| >= |times| && more[..|times|] == times
    ensures Solo(limits, more, n) == Solo(limits, times, n)
  {
    if n > 0 {
      SoloPrefix(limits, times, more, n - 1);
      assert more[n - 1] == more[..|times|][n - 1];
    }
  }

  /** What a request does to the entry of its own key and to another's. */
  lemma AfterOwn(limits: Limits, entries: map<Key, Entry>, key: Key, at: int)
    requires limits.Valid()
    ensures Look(After(limits, entries, key, at), key) == Next(limits, Look(entries, key), at)
  {}

  lemma AfterOther(limits: Limits, entries: map<Key, Entry>, other: Key, key: Key, at: int)
    requires key != other
    ensures var updated := entries[other := Next(limits, Look(entries, other), at)];
      var cleans := Admits(limits, Look(entries, other), at) && |updated| > limits.requests * 32;
      Look(After(limits, entries, other, at), key)
      == if cleans && at >= Look(entries, key).reset then NO_ENTRY else Look(entries, key)
  {}

  /** Every cleanup among the first n requests was no later than this time. */
  ghost predicate CleanedBy(limits: Limits, trace: Trace, n: nat, now: int)
    requires n <= |trace|
  {
    forall j | 0 <= j < n && Cleans(limits, trace, j) :: trace[j].now <= now
  }

  lemma CleanedBefore(limits: Limits, trace: Trace, n: nat, now: int)
    requires CleanupsPast(limits, trace, 0) && 0 < n <= |trace| && CleanedBy(limits, trace, n, now)
    ensures CleanedBy(limits, trace, n - 1, trace[n - 1].now) && CleanedBy(limits, trace, n - 1, now)
    ensures Cleans(limits, trace, n - 1) ==> trace[n - 1].now <= now
  {
    hide Cleans;
  }

  /** Up to entries that have run out and been cleaned up, the table holds for each key what that key
      alone would have. */
  lemma {:induction false} TableAgrees(limits: Limits, trace: Trace, key: Key, n: nat, now: int)
    requires limits.Valid() && CleanupsPast(limits, trace, 0) && n <= |trace| && CleanedBy(limits, trace, n, now)
    ensures var own := Own(trace, key, n);
      Agree(Look(TableAt(limits, trace, n), key), Solo(limits, own, |own|), now)
  {
    hide CleanupsPast, CleanedBy, Cleans, Look, TableAt, Solo, Own;
    if n == 0 {
      NothingYet(limits, trace, key);
    } else {
      var own, before, at := Own(trace, key, n), Own(trace, key, n - 1), trace[n - 1].now;
      CleanedBefore(limits, trace, n, now);
      if trace[n - 1].key == key {
        TableAgrees(limits, trace, key, n - 1, at);
        OwnStep(limits, trace, key, n);
      } else {
        TableAgrees(limits, trace, key, n - 1, now);
        OtherStep(limits, trace, key, n);
      }
    }
  }

  lemma NothingYet(limits: Limits, trace: Trace, key: Key)
    ensures Own(trace, key, 0) == [] && Look(TableAt(limits, trace, 0), key) == Solo(limits, [], 0)
  {}

  lemma OwnStep(limits: Limits, trace: Trace, key: Key, n: nat)
    requires limits.Valid() && 0 < n <= |trace| && trace[n - 1].key == key
    requires var before := Own(trace, key, n - 1);
      Agree(Look(TableAt(limits, trace, n - 1), key), Solo(limits, before, |before|), trace[n - 1].now)
    ensures var own := Own(trace, key, n); Look(TableAt(limits, trace, n), key) == Solo(limits, own, |own|)
  {
    var own, before, at := Own(trace, key, n), Own(trace, key, n - 1), trace[n - 1].now;
    SoloPrefix(limits, before, own, |before|);
    AfterOwn(limits, TableAt(limits, trace, n - 1), key, at);
    assert Solo(limits, own, |own|) == Next(limits, Solo(limits, before, |before|), at);
  }

  lemma OtherStep(limits: Limits, trace: Trace, key: Key, n: nat)
    requires 0 < n <= |trace| && trace[n - 1].key != key
    ensures Look(TableAt(limits, trace, n), key)
      == if Cleans(limits, trace, n - 1) && trace[n - 1].now >= Look(TableAt(limits, trace, n - 1), key).reset
         then NO_ENTRY else Look(TableAt(limits, trace, n - 1), key)
    ensures Own(trace, key, n) == Own(trace, key, n - 1)
  {
    AfterOther(limits, TableAt(limits, trace, n - 1), trace[n - 1].key, key, trace[n - 1].now);
  }

  /** Neither cleanup nor any other key changes an answer: it is the one a limiter with no cleanup
      gives to this key's requests alone. */
  lemma AnswersAreSolo(limits: Limits, trace: Trace, n: nat)
    requires limits.Valid() && CleanupsPast(limits, trace, 0) && n < |trace|
    ensures var own := Own(trace, trace[n].key, n + 1);
      |own| > 0 && Answer(limits, trace, n) == SoloAnswer(limits, own, |own| - 1)
  {
    var before, own := Own(trace, trace[n].key, n), Own(trace, trace[n].key, n + 1);
    assert CleanedBy(limits, trace, n, trace[n].now) by {
      hide Cleans;
    }
    TableAgrees(limits, trace, trace[n].key, n, trace[n].now);
    hide CleanupsPast, CleanedBy, TableAt;
    SoloPrefix(limits, before, own, |before|);
  }

  // ----- how much is served

  /** How many of the first n requests from a key were served at a time from a to b. */
  function Served(limits: Limits, trace: Trace, key: Key, n: nat, a: int, b: int): nat
    requires n <= |trace|
  {
    if n == 0 then 0
    else
      var before := Served(limits, trace, key, n - 1, a, b);
      if trace[n - 1].key == key && a <= trace[n - 1].now <= b && Answer(limits, trace, n - 1) then before + 1
      else before
  }

  /** The entry a key was last given, also after a cleanup has deleted it. */
  ghost function Last(limits: Limits, trace: Trace, key: Key, n: nat): Entry
    requires n <= |trace|
  {
    if n == 0 then NO_ENTRY
    else if trace[n - 1].key == key then
      Next(limits, Look(TableAt(limits, trace, n - 1), key), trace[n - 1].now)
    else Last(limits, trace, key, n - 1)
  }

  /** It is the one in the table, if there is one. */
  lemma {:induction false} TableHoldsLast(limits: Limits, trace: Trace, key: Key, n: nat)
    requires limits.Valid() && n <= |trace|
    ensures key in TableAt(limits, trace, n) ==> TableAt(limits, trace, n)[key] == Last(limits, trace, key, n)
  {
    if n > 0 {
      TableHoldsLast(limits, trace, key, n - 1);
    }
  }

  ghost predicate Positive(trace: Trace) {
    forall i | 0 <= i < |trace| :: 0 < trace[i].now
  }

  /** What the entry a key was last given, and the one in the table, say of the requests still to come. */
  ghost predicate Shape(limits: Limits, trace: Trace, lag: nat, gap: nat, key: Key, n: nat)
    requires n <= |trace|
  {
    var e, inTable := Last(limits, trace, key, n), Look(TableAt(limits, trace, n), key);
    && (e == NO_ENTRY || 0 < e.reset) && 0 <= e.count <= limits.requests
    && (forall i | n <= i < |trace| && 0 < e.reset :: e.reset - limits.window <= trace[i].now + lag)
    && (inTable == e || (inTable == NO_ENTRY && forall i | n <= i < |trace| :: e.reset <= trace[i].now + gap))
  }

  lemma {:induction false} ShapeHolds(limits: Limits, trace: Trace, lag: nat, gap: nat, key: Key, n: nat)
    requires limits.Valid() && ClockRuns(trace, lag) && CleanupsPast(limits, trace, gap) && Positive(trace) && n <= |trace|
    ensures Shape(limits, trace, lag, gap, key, n)
  {
    hide TableAt, Look, Last, CleanupsPast, ClockRuns, Positive, Cleans;
    if n == 0 {
      NoneYet(limits, trace, key);
    } else {
      ShapeHolds(limits, trace, lag, gap, key, n - 1);
      ToCome(limits, trace, lag, gap, n);
      if trace[n - 1].key == key {
        OwnKept(limits, trace, key, n);
      } else {
        OtherStep(limits, trace, key, n);
        OtherRequest(limits, trace, key, n);
      }
    }
  }

  lemma NoneYet(limits: Limits, trace: Trace, key: Key)
    ensures Last(limits, trace, key, 0) == NO_ENTRY && Look(TableAt(limits, trace, 0), key) == NO_ENTRY
    ensures forall a, b :: Served(limits, trace, key, 0, a, b) == 0
  {}

  lemma OtherRequest(limits: Limits, trace: Trace, key: Key, n: nat)
    requires 0 < n <= |trace| && trace[n - 1].key != key
    ensures Last(limits, trace, key, n) == Last(limits, trace, key, n - 1)
    ensures forall a, b :: Served(limits, trace, key, n, a, b) == Served(limits, trace, key, n - 1, a, b)
  {}

  /** The request before n, and a cleanup of it, against those from n on. */
  lemma ToCome(limits: Limits, trace: Trace, lag: nat, gap: nat, n: nat)
    requires ClockRuns(trace, lag) && CleanupsPast(limits, trace, gap) && Positive(trace) && 0 < n <= |trace|
    ensures 0 < trace[n - 1].now && forall i | n <= i < |trace| :: trace[n - 1].now <= trace[i].now + lag
    ensures Cleans(limits, trace, n - 1) ==> forall i | n <= i < |trace| :: trace[n - 1].now <= trace[i].now + gap
  {
    hide Cleans;
  }

  lemma OwnKept(limits: Limits, trace: Trace, key: Key, n: nat)
    requires limits.Valid() && 0 < n <= |trace| && trace[n - 1].key == key
    ensures Last(limits, trace, key, n) == Next(limits, Look(TableAt(limits, trace, n - 1), key), trace[n - 1].now)
    ensures Look(TableAt(limits, trace, n), key) == Last(limits, trace, key, n)
  {
    AfterOwn(limits, TableAt(limits, trace, n - 1), key, trace[n - 1].now);
  }

  /** A request of a key against the entry it was last given: it goes on in that window, or begins one no
      earlier than the end of that, less the gap. */
  lemma Continues(limits: Limits, trace: Trace, lag: nat, gap: nat, key: Key, n: nat)
    requires limits.Valid() && ClockRuns(trace, lag) && CleanupsPast(limits, trace, gap) && Positive(trace)
    requires n < |trace| && trace[n].key == key
    ensures 0 < trace[n].now
    ensures var e, now := Last(limits, trace, key, n), trace[n].now;
      var next := Last(limits, trace, key, n + 1);
      && (e == NO_ENTRY || 0 < e.reset) && 0 <= e.count <= limits.requests
      && (|| (0 < e.reset && now < e.reset && e.reset - limits.window <= now + lag
              && Answer(limits, trace, n) == (e.count < limits.requests)
              && next == if Answer(limits, trace, n) then e.(count := e.count + 1) else e)
          || (e.reset <= now + gap && Answer(limits, trace, n) && next == Entry(1, now + limits.window)))
  {
    ShapeHolds(limits, trace, lag, gap, key, n);
    hide TableAt;
  }

  // ----- never more than twice the share

  /** A bound on what can have been served from a on, from the last entry alone. */
  function Used(limits: Limits, gap: nat, e: Entry, a: int): int {
    if e.reset - limits.window + gap > a then limits.requests + e.count
    else if e.reset > a then e.count
    else 0
  }

  lemma {:induction false} ServedAtMostUsed(limits: Limits, trace: Trace, lag: nat, gap: nat, key: Key, n: nat,
                                            a: int, b: int)
    requires limits.Valid() && ClockRuns(trace, lag) && CleanupsPast(limits, trace, gap) && Positive(trace)
    requires n <= |trace| && a <= b <= a + limits.window - lag - 2 * gap
    ensures var served, e := Served(limits, trace, key, n, a, b), Last(limits, trace, key, n);
      && served <= 2 * limits.requests
      && (if e == NO_ENTRY then served == 0
          else e.reset - limits.window <= b + lag ==> served <= Used(limits, gap, e, a))
  {
    hide TableAt, Answer, CleanupsPast, ClockRuns, Positive, Cleans, Last, Served, Used;
    if n == 0 {
      NoneYet(limits, trace, key);
    } else {
      ServedAtMostUsed(limits, trace, lag, gap, key, n - 1, a, b);
      if trace[n - 1].key == key {
        Continues(limits, trace, lag, gap, key, n - 1);
        ServedStep(limits, trace, key, n, a, b);
        UsedStep(limits, Last(limits, trace, key, n - 1), trace[n - 1].now, Answer(limits, trace, n - 1),
                 Last(limits, trace, key, n), lag, gap, a, b, Served(limits, trace, key, n - 1, a, b));
      } else {
        OtherRequest(limits, trace, key, n);
      }
    }
  }

  lemma ServedStep(limits: Limits, trace: Trace, key: Key, n: nat, a: int, b: int)
    requires 0 < n <= |trace| && trace[n - 1].key == key
    ensures Served(limits, trace, key, n, a, b) == Served(limits, trace, key, n - 1, a, b)
      + if a <= trace[n - 1].now <= b && Answer(limits, trace, n - 1) then 1 else 0
  {
    hide Answer;
  }

  /** One request, by its entries alone. */
  lemma UsedStep(limits: Limits, e: Entry, now: int, answer: bool, next: Entry, lag: nat, gap: nat, a: int, b: int,
                 served: nat)
    requires limits.Valid() && a <= b <= a + limits.window - lag - 2 * gap && 0 <= e.count <= limits.requests
    requires e == NO_ENTRY || 0 < e.reset
    requires served <= 2 * limits.requests
    requires if e == NO_ENTRY then served == 0
             else e.reset - limits.window <= b + lag ==> served <= Used(limits, gap, e, a)
    requires || (0 < e.reset && now < e.reset && e.reset - limits.window <= now + lag
                 && answer == (e.count < limits.requests)
                 && next == if answer then e.(count := e.count + 1) else e)
             || (0 < now && e.reset <= now + gap && answer && next == Entry(1, now + limits.window))
    ensures var total := served + if a <= now <= b && answer then 1 else 0;
      && next != NO_ENTRY && total <= 2 * limits.requests
      && (next.reset - limits.window <= b + lag ==> total <= Used(limits, gap, next, a))
  {}

  /** In every run no interval as long as the window, less the lag and twice the gap, serves a key more
      than twice its share. */
  lemma AtMostTwiceServed(limits: Limits, trace: Trace, lag: nat, gap: nat, key: Key, a: int)
    requires limits.Valid() && ClockRuns(trace, lag) && CleanupsPast(limits, trace, gap) && Positive(trace)
    ensures Served(limits, trace, key, |trace|, a, a + limits.window - lag - 2 * gap) <= 2 * limits.requests
  {
    var b := a + limits.window - lag - 2 * gap;
    if a <= b {
      ServedAtMostUsed(limits, trace, lag, gap, key, |trace|, a, b);
    } else {
      NothingBetween(limits, trace, key, |trace|, a, b);
    }
  }

  lemma {:induction false} NothingBetween(limits: Limits, trace: Trace, key: Key, n: nat, a: int, b: int)
    requires n <= |trace| && b < a
    ensures Served(limits, trace, key, n, a, b) == 0
  {
    hide Answer;
    if n > 0 {
      NothingBetween(limits, trace, key, n - 1, a, b);
    }
  }

  /** The same with nothing said of cleanups: the gap is at most the lag. */
  lemma AtMostTwiceServedAnyway(limits: Limits, trace: Trace, lag: nat, key: Key, a: int)
    requires limits.Valid() && ClockRuns(trace, lag) && Positive(trace)
    ensures Served(limits, trace, key, |trace|, a, a + limits.window - 3 * lag) <= 2 * limits.requests
  {
    LagIsAGap(limits, trace, lag);
    AtMostTwiceServed(limits, trace, lag, lag, key, a);
  }

  // ----- and a refusal only after the whole share

  /** An entry counts no more than has been served since its window began, less the lag. */
  lemma {:induction false} CountIsServed(limits: Limits, trace: Trace, lag: nat, key: Key, n: nat, b: int)
    requires limits.Valid() && ClockRuns(trace, lag) && Positive(trace) && n <= |trace|
    requires forall i | 0 <= i < n :: trace[i].now <= b
    ensures var e := Last(limits, trace, key, n);
      e.count <= Served(limits, trace, key, n, e.reset - limits.window - lag, b)
  {
    if n > 0 {
      CountIsServed(limits, trace, lag, key, n - 1, b);
      hide TableAt, Answer;
      if trace[n - 1].key == key {
        LagIsAGap(limits, trace, lag);
        Continues(limits, trace, lag, lag, key, n - 1);
      }
    }
  }

  /** And no fewer than have been served since its window began, and the gap. */
  lemma {:induction false} ServedIsCounted(limits: Limits, trace: Trace, lag: nat, gap: nat, key: Key, n: nat, b: int)
    requires limits.Valid() && ClockRuns(trace, lag) && CleanupsPast(limits, trace, gap) && Positive(trace)
    requires n <= |trace| && gap <= limits.window
    ensures var e := Last(limits, trace, key, n);
      && Served(limits, trace, key, n, e.reset - limits.window + gap, b) <= e.count
      && forall i | 0 <= i < n && trace[i].key == key :: trace[i].now < e.reset
  {
    hide TableAt, Answer, CleanupsPast, ClockRuns, Positive, Cleans, Last, Served;
    if n == 0 {
      NoneYet(limits, trace, key);
    } else {
      ServedIsCounted(limits, trace, lag, gap, key, n - 1, b);
      if trace[n - 1].key == key {
        var before, e := Last(limits, trace, key, n - 1), Last(limits, trace, key, n);
        Continues(limits, trace, lag, gap, key, n - 1);
        ServedStep(limits, trace, key, n, e.reset - limits.window + gap, b);
        if before.reset <= trace[n - 1].now + gap && e == Entry(1, trace[n - 1].now + limits.window) {
          NoneFrom(limits, trace, key, n - 1, e.reset - limits.window + gap, b);
        }
      } else {
        OtherRequest(limits, trace, key, n);
      }
    }
  }

  lemma {:induction false} NoneFrom(limits: Limits, trace: Trace, key: Key, n: nat, a: int, b: int)
    requires n <= |trace| && forall i | 0 <= i < n && trace[i].key == key :: trace[i].now < a
    ensures Served(limits, trace, key, n, a, b) == 0
  {
    hide Answer;
    if n > 0 {
      NoneFrom(limits, trace, key, n - 1, a, b);
    }
  }

  lemma {:induction false} WiderServesMore(limits: Limits, trace: Trace, key: Key, n: nat, a: int, c: int, b: int)
    requires n <= |trace| && a <= c
    ensures Served(limits, trace, key, n, c, b) <= Served(limits, trace, key, n, a, b)
  {
    hide Answer;
    if n > 0 {
      WiderServesMore(limits, trace, key, n - 1, a, c, b);
    }
  }

  /** In every run a request is refused only when its key has been served its whole share less than a
      window, and the lag, ago. */
  lemma RefusedOnlyWhenFull(limits: Limits, trace: Trace, lag: nat, n: nat)
    requires limits.Valid() && ClockRuns(trace, lag) && Positive(trace)
    requires n < |trace| && !Answer(limits, trace, n)
    ensures var now := trace[n].now;
      Served(limits, trace, trace[n].key, n, now - limits.window + 1 - lag, now + lag) >= limits.requests
  {
    var key, now, e := trace[n].key, trace[n].now, Last(limits, trace, trace[n].key, n);
    LagIsAGap(limits, trace, lag);
    Continues(limits, trace, lag, lag, key, n);
    CountIsServed(limits, trace, lag, key, n, now + lag);
    WiderServesMore(limits, trace, key, n, now - limits.window + 1 - lag, e.reset - limits.window - lag, now + lag);
  }

  /** No entry ever counts more than the limit. */
  lemma {:induction false} CountsBounded(limits: Limits, trace: Trace, n: nat)
    requires limits.Valid() && n <= |trace|
    ensures forall k | k in TableAt(limits, trace, n) :: 0 < TableAt(limits, trace, n)[k].count <= limits.requests
  {
    if n > 0 {
      CountsBounded(limits, trace, n - 1);
    }
  }

  // ----- a run in which a cleanup comes too late

  const KEY: Key := "a"

  /** As many other keys as wanted. */
  function Crowd(i: nat): Key {
    seq(i, _ => 'x')
  }

  lemma CrowdsDiffer(i: nat, j: nat)
    ensures Crowd(i) != KEY && (i != j ==> Crowd(i) != Crowd(j))
  {
    assert |Crowd(i)| == i && |Crowd(j)| == j;
    assert i == 1 ==> Crowd(i)[0] == 'x';
  }

  /** With a limit of one request: KEY is served, 32 others come as its window ends, and the last of them
      sets off a cleanup; KEY has read the clock just before that.  Then one more other, and KEY, again. */
  function LateRun(window: nat): Trace {
    [Request(KEY, 1)] + seq(32, i requires 0 <= i < 32 => Request(Crowd(i), 1 + window))
    + [Request(KEY, window), Request(Crowd(32), 2 * window), Request(KEY, 2 * window - 1)]
  }

  lemma LateRunAt(window: nat)
    ensures var t := LateRun(window);
      && |t| == 36 && t[0] == Request(KEY, 1) && (forall i | 1 <= i <= 32 :: t[i] == Request(Crowd(i - 1), 1 + window))
      && t[33] == Request(KEY, window) && t[34] == Request(Crowd(32), 2 * window) && t[35] == Request(KEY, 2 * window - 1)
  {}

  /** A table of KEY's entry and those of m others. */
  ghost predicate Holds(t: map<Key, Entry>, e: Option<Entry>, m: nat, window: nat) {
    && |t| == m + (if e.Some? then 1 else 0)
    && (if e.Some? then KEY in t && t[KEY] == e.value else KEY !in t)
    && (forall i | 0 <= i < m :: Crowd(i) in t && t[Crowd(i)].reset > 2 * window)
    && (forall k | k in t && k != KEY :: InCrowd(k, m))
  }

  ghost predicate InCrowd(k: Key, m: nat) {
    exists i | 0 <= i < m :: k == Crowd(i)
  }

  lemma InLargerCrowd(k: Key, m: nat)
    ensures InCrowd(k, m) ==> InCrowd(k, m + 1)
    ensures InCrowd(Crowd(m), m + 1)
  {
    hide Crowd;
    if InCrowd(k, m) {
      var i :| 0 <= i < m && k == Crowd(i);
      assert 0 <= i < m + 1;
    }
    assert 0 <= m < m + 1;
  }

  lemma HoldsOther(t: map<Key, Entry>, e: Option<Entry>, m: nat, window: nat, reset: int)
    requires Holds(t, e, m, window) && reset > 2 * window
    ensures Crowd(m) !in t && Holds(t[Crowd(m) := Entry(1, reset)], e, m + 1, window)
  {
    CrowdIsNew(t, e, m, window);
    var k := Crowd(m);
    var more := t[k := Entry(1, reset)];
    NewKey(t, k, Entry(1, reset));
    forall i | 0 <= i < m + 1
      ensures Crowd(i) in more && more[Crowd(i)].reset > 2 * window
    {
      assert i < m ==> Crowd(i) in t && Crowd(i) != k;
    }
    forall l | l in more && l != KEY
      ensures InCrowd(l, m + 1)
    {
      InLargerCrowd(l, m);
    }
  }

  lemma NewKey(t: map<Key, Entry>, k: Key, e: Entry)
    requires k !in t
    ensures |t[k := e]| == |t| + 1
  {
    assert t[k := e].Keys == t.Keys + {k};
  }

  lemma CrowdIsNew(t: map<Key, Entry>, e: Option<Entry>, m: nat, window: nat)
    requires Holds(t, e, m, window)
    ensures Crowd(m) !in t && Crowd(m) != KEY && forall i | 0 <= i < m :: Crowd(i) != Crowd(m)
  {
    CrowdsDiffer(m, 0);
    forall i | 0 <= i < m
      ensures Crowd(i) != Crowd(m)
    {
      CrowdsDiffer(i, m);
    }
  }

  /** A cleanup in the second window takes KEY's entry if that has run out, and no other's. */
  lemma HoldsCleaned(t: map<Key, Entry>, e: Entry, m: nat, window: nat, now: int)
    requires Holds(t, Some(e), m, window) && now <= 2 * window
    ensures Holds(Cleaned(t, now), if now < e.reset then Some(e) else None, m, window)
  {
    var c := Cleaned(t, now);
    forall k | k in t && k != KEY
      ensures k in c
    {
      assert InCrowd(k, m);
    }
    assert c.Keys == if now < e.reset then t.Keys else t.Keys - {KEY};
    forall i | 0 <= i < m
      ensures Crowd(i) in c
    {
      CrowdsDiffer(i, i);
    }
  }

  function OneIn(window: int): Limits {
    Limits(1, window)
  }

  lemma HoldsKey(t: map<Key, Entry>, e: Entry, m: nat, window: nat)
    requires Holds(t, None, m, window)
    ensures Holds(t[KEY := e], Some(e), m, window)
  {
    forall i | 0 <= i < m
      ensures Crowd(i) != KEY
    {
      CrowdsDiffer(i, i);
    }
    assert t[KEY := e].Keys == t.Keys + {KEY};
  }

  lemma OtherComes(t: map<Key, Entry>, e: Option<Entry>, m: nat, window: nat, now: int)
    requires Holds(t, e, m, window) && window > 0 && 2 * window < now + window && now <= 2 * window
    ensures var after := After(OneIn(window), t, Crowd(m), now);
      && Admits(OneIn(window), Look(t, Crowd(m)), now)
      && (m < 31 && e.Some? ==> Holds(after, e, m + 1, window))
      && (m >= 31 && e.Some? && e.value.reset <= now ==> Holds(after, None, m + 1, window))
  {
    HoldsOther(t, e, m, window, now + window);
    AfterNew(t, Crowd(m), window, now);
    var updated := t[Crowd(m) := Entry(1, now + window)];
    HoldsSize(updated, e, m + 1, window);
    hide Holds, After, Admits, Look, Crowd;
    if e.Some? {
      HoldsCleaned(updated, e.value, m + 1, window, now);
    }
  }

  lemma HoldsSize(t: map<Key, Entry>, e: Option<Entry>, m: nat, window: nat)
    requires Holds(t, e, m, window)
    ensures |t| == m + if e.Some? then 1 else 0
  {}

  lemma AfterNew(t: map<Key, Entry>, key: Key, window: nat, now: int)
    requires key !in t && window > 0
    ensures var updated := t[key := Entry(1, now + window)];
      && Admits(OneIn(window), Look(t, key), now)
      && After(OneIn(window), t, key, now) == if |updated| > 32 then Cleaned(updated, now) else updated
  {}

  lemma KeyComes(t: map<Key, Entry>, m: nat, window: nat, now: int)
    requires Holds(t, None, m, window) && 0 < window && now <= 2 * window
    ensures Admits(OneIn(window), Look(t, KEY), now)
    ensures Holds(After(OneIn(window), t, KEY, now), Some(Entry(1, now + window)), m, window)
  {
    HoldsKey(t, Entry(1, now + window), m, window);
    AfterNew(t, KEY, window, now);
    hide After, Admits, Look;
    HoldsCleaned(t[KEY := Entry(1, now + window)], Entry(1, now + window), m, window, now);
  }

  lemma {:induction false} CrowdFills(window: nat, m: nat)
    requires window > 0 && m <= 31
    ensures Holds(TableAt(OneIn(window), LateRun(window), m + 1), Some(Entry(1, 1 + window)), m, window)
  {
    LateRunAt(window);
    hide Holds, LateRun, After;
    if m == 0 {
      FirstTable(window);
    } else {
      CrowdFills(window, m - 1);
      OtherComes(TableAt(OneIn(window), LateRun(window), m), Some(Entry(1, 1 + window)), m - 1, window, 1 + window);
    }
  }

  lemma FirstTable(window: nat)
    requires window > 0
    ensures Holds(TableAt(OneIn(window), LateRun(window), 1), Some(Entry(1, 1 + window)), 0, window)
  {
    LateRunAt(window);
    assert TableAt(OneIn(window), LateRun(window), 0) == map[] && Holds(map[], None, 0, window);
    KeyComes(map[], 0, window, 1);
  }

  /** KEY is served three times: at 1, at the window and just before twice it. */
  lemma ServedThrice(window: nat)
    requires window > 0
    ensures var limits, t := OneIn(window), LateRun(window);
      |t| == 36 && Answer(limits, t, 0) && Answer(limits, t, 33) && Answer(limits, t, 35)
  {
    var limits, t := OneIn(window), LateRun(window);
    LateRunAt(window);
    hide LateRun, Holds, After;
    CrowdFills(window, 31);
    var e := Entry(1, 1 + window);
    OtherComes(TableAt(limits, t, 32), Some(e), 31, window, 1 + window);
    KeyComes(TableAt(limits, t, 33), 32, window, window);
    OtherComes(TableAt(limits, t, 34), Some(Entry(1, 2 * window)), 32, window, 2 * window);
    KeyComes(TableAt(limits, t, 35), 33, window, 2 * window - 1);
    assert TableAt(limits, t, 0) == map[];
  }

  lemma LateRunLags(window: nat)
    requires window > 0
    ensures ClockRuns(LateRun(window), 1) && Positive(LateRun(window))
  {
    LateRunAt(window);
    hide LateRun;
  }

  /** With a lag of 1, a cleanup changes an answer: the request is admitted, and alone its key would have
      been refused. */
  lemma CleanupChangesAnswer(window: nat)
    requires window > 0
    ensures var limits, t := OneIn(window), LateRun(window);
      && ClockRuns(t, 1) && |t| == 36 && Answer(limits, t, 33)
      && Own(t, t[33].key, 34) == [1, window] && !SoloAnswer(limits, [1, window], 1)
  {
    LateRunLags(window);
    ServedThrice(window);
    LateRunAt(window);
    hide LateRun, TableAt, Answer;
    OwnInCrowd(window, 32);
    assert Solo(OneIn(window), [1, window], 1) == Entry(1, 1 + window);
  }

  lemma {:induction false} OwnInCrowd(window: nat, m: nat)
    requires m <= 32
    ensures |LateRun(window)| == 36 && Own(LateRun(window), KEY, m + 1) == [1]
    ensures forall a, b :: Served(OneIn(window), LateRun(window), KEY, m + 1, a, b)
                        == Served(OneIn(window), LateRun(window), KEY, 1, a, b)
  {
    LateRunAt(window);
    hide LateRun, Answer;
    if m > 0 {
      CrowdsDiffer(m - 1, 0);
      OwnInCrowd(window, m - 1);
    }
  }

  lemma ServedInLateRun(window: nat, a: int, b: int)
    requires window > 0 && a <= 1 && 2 * window - 1 <= b
    ensures |LateRun(window)| == 36 && Served(OneIn(window), LateRun(window), KEY, 36, a, b) == 3
  {
    var limits, t := OneIn(window), LateRun(window);
    ServedThrice(window);
    LateRunAt(window);
    OwnInCrowd(window, 32);
    CrowdsDiffer(32, 0);
    hide LateRun, Answer, Crowd, Served, Own;
    NoneYet(limits, t, KEY);
    ServedStep(limits, t, KEY, 1, a, b);
    ServedStep(limits, t, KEY, 34, a, b);
    OtherRequest(limits, t, KEY, 35);
    ServedStep(limits, t, KEY, 36, a, b);
  }

  /** And the bound with a gap of 0 fails: with a window and a lag of 1, three are served at one time. */
  lemma GapMatters(window: nat)
    requires window == 1
    ensures var t := LateRun(window);
      && ClockRuns(t, window) && Positive(t) && |t| == 36
      && Served(OneIn(window), t, KEY, 36, 1, window) == 3
  {
    LateRunLags(window);
    ServedInLateRun(window, 1, window);
  }
}
