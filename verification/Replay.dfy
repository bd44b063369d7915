/** The bounded single-use caches: the request-id caches of the gateway and the
    control plane, and the TOTP step set of the control plane. */
module ReplayCache {
  import opened Collections

  const MAX_REPLAY_IDS := 4_096

  /** `(session_id, request_id)`. */
  type Key = (string, string)

  /** The last `n` elements. */
  function LastOf<T>(s: seq<T>, n: nat): seq<T> { if |s| <= n then s else s[|s| - n..] }

  /** The window slides by at most one element. */
  lemma LastOfAppend<T>(s: seq<T>, x: T, n: nat)
    requires n > 0
    ensures |LastOf(s, n)| <= n
    ensures var window := LastOf(s, n) + [x];
      LastOf(s + [x], n) == if |window| > n then window[1..] else window
  {
  }

  lemma LastOfExact<T>(s: seq<T>, n: nat, x: T)
    ensures x in LastOf(s, n) <==> exists i | 0 <= i < |s| && |s| - i <= n :: s[i] == x
  {
    var window := LastOf(s, n);
    assert forall i | 0 <= i < |s| && |s| - i <= n :: s[i] == window[|window| - (|s| - i)];
  }

  lemma PushNew<T>(s: seq<T>, x: T)
    requires Distinct(s)
    ensures x in Elements(s) <==> x in s
    ensures x !in s ==> Distinct(s + [x])
    ensures Elements(s + [x]) == Elements(s) + {x}
  {
  }

  lemma PopOldest<T>(s: seq<T>)
    requires Distinct(s) && s != []
    ensures Distinct(s[1..]) && Elements(s[1..]) == Elements(s) - {s[0]}
  {
    assert s == [s[0]] + s[1..];
  }

  class Cache {
    var ids: set<Key>
    var order: seq<Key>
    /** All keys accepted so far, oldest first. */
    ghost var accepted: seq<Key>

    ghost predicate Valid()
      reads this
    {
      && order == LastOf(accepted, MAX_REPLAY_IDS)
      && ids == Elements(order)
      && Distinct(order)
    }

    constructor ()
      ensures Valid() && accepted == []
    {
      ids, order, accepted := {}, [], [];
    }

    /** A key is accepted exactly when it is not among the last 4,096 accepted. */
    method Consume(sessionId: string, requestId: string) returns (isNew: bool)
      requires Valid()
      modifies this
      ensures Valid()
      ensures isNew <==> forall i | 0 <= i < |old(accepted)| && |old(accepted)| - i <= 4_096 ::
        old(accepted)[i] != (sessionId, requestId)
      ensures accepted == if isNew then old(accepted) + [(sessionId, requestId)] else old(accepted)
    {
      var key := (sessionId, requestId);
      LastOfExact(accepted, MAX_REPLAY_IDS, key);
      LastOfAppend(accepted, key, MAX_REPLAY_IDS);
      PushNew(order, key);
      hide LastOf, Distinct, Elements;
      if key in ids { return false; }
      ghost var window := order + [key];
      ids := ids + {key};
      order := order + [key];
      accepted := accepted + [key];
      ghost var evicted := false;
      while |order| > MAX_REPLAY_IDS
        invariant order == if evicted then window[1..] else window
        invariant evicted ==> |window| > MAX_REPLAY_IDS
        invariant |window| <= MAX_REPLAY_IDS + 1
        invariant ids == Elements(order) && Distinct(order)
        invariant accepted == old(accepted) + [key]
        decreases |order|
      {
        var oldest := order[0];
        PopOldest(order);
        order := order[1..];
        ids := ids - {oldest};
        evicted := true;
      }
      return true;
    }
  }

  /** The accepted keys after a run of requests, by the sliding-window rule. */
  function AcceptedKeys(requests: seq<Key>): seq<Key> {
    if requests == [] then []
    else
      var before := AcceptedKeys(requests[..|requests| - 1]);
      var key := requests[|requests| - 1];
      if key in LastOf(before, MAX_REPLAY_IDS) then before else before + [key]
  }

  /** A whole run of requests through one cache leaves exactly those. */
  method ConsumeAll(cache: Cache, requests: seq<Key>) returns (results: seq<bool>)
    requires cache.Valid() && cache.accepted == []
    modifies cache
    ensures cache.Valid() && cache.accepted == AcceptedKeys(requests)
    ensures |results| == |requests| && forall i | 0 <= i < |requests| :: results[i] == NotRecent(requests, i)
  {
    hide LastOf, AcceptedKeys;
    results := [];
    NothingAccepted();
    assert requests[..0] == [];
    for i := 0 to |requests|
      invariant cache.Valid() && cache.accepted == AcceptedKeys(requests[..i])
      invariant |results| == i && forall j | 0 <= j < i :: results[j] == NotRecent(requests, j)
    {
      RunOneMore(requests, i);
      var isNew := cache.Consume(requests[i].0, requests[i].1);
      results := results + [isNew];
    }
    assert requests[..|requests|] == requests;
  }

  lemma NothingAccepted()
    ensures AcceptedKeys([]) == []
  {
  }

  /** Request `i` is not among the last 4,096 accepted before it. */
  predicate NotRecent(requests: seq<Key>, i: nat)
    requires i < |requests|
  {
    var before := AcceptedKeys(requests[..i]);
    forall k | 0 <= k < |before| && |before| - k <= 4_096 :: before[k] != requests[i]
  }

  lemma RunOneMore(requests: seq<Key>, i: nat)
    requires i < |requests|
    ensures AcceptedKeys(requests[..i + 1]) ==
      if NotRecent(requests, i) then AcceptedKeys(requests[..i]) + [requests[i]] else AcceptedKeys(requests[..i])
  {
    assert requests[..i + 1][..i] == requests[..i];
    LastOfExact(AcceptedKeys(requests[..i]), MAX_REPLAY_IDS, requests[i]);
  }

  /** Two acceptances of one key have at least 4,096 acceptances between them. */
  lemma {:induction false} AcceptancesApart(requests: seq<Key>, i: nat, j: nat)
    requires i < j < |AcceptedKeys(requests)|
    requires AcceptedKeys(requests)[i] == AcceptedKeys(requests)[j]
    ensures j - i > 4_096
  {
    var init := requests[..|requests| - 1];
    var before := AcceptedKeys(init);
    if j < |before| {
      AcceptancesApart(init, i, j);
    } else {
      var key := requests[|requests| - 1];
      assert key !in LastOf(before, MAX_REPLAY_IDS);
      LastOfExact(before, MAX_REPLAY_IDS, key);
    }
  }
}

module Totp {
  import opened Wrappers

  const STEP_SECONDS := 30

  /** The 30-second counter of a clock reading in whole seconds. */
  function Counter(seconds: nat): nat { seconds / STEP_SECONDS }

  /** `matching_totp_step`: the first of the three counters around the present
      whose code is the supplied one. Counters before the first have no code. */
  function MatchingStep(code: int -> Option<string>, supplied: string, seconds: nat): Option<int> {
    var current := Counter(seconds) as int;
    if |supplied| != 6 || !(forall c <- supplied :: '0' <= c <= '9') then None
    else if code(current - 1) == Some(supplied) then Some(current - 1)
    else if code(current) == Some(supplied) then Some(current)
    else if code(current + 1) == Some(supplied) then Some(current + 1)
    else None
  }

  predicate SixDigits(text: string) { |text| == 6 && forall c <- text :: c in "0123456789" }

  /** A counter whose code was supplied, within one step of the clock reading. */
  predicate Fits(code: int -> Option<string>, supplied: string, seconds: nat, c: int) {
    seconds / 30 - 1 <= c <= seconds / 30 + 1 && code(c) == Some(supplied)
  }

  /** The step found is the least one that fits; none is found exactly when none fits. */
  lemma MatchingStepExact(code: int -> Option<string>, supplied: string, seconds: nat, c: int)
    ensures MatchingStep(code, supplied, seconds) == Some(c) <==>
      SixDigits(supplied) && Fits(code, supplied, seconds, c) && forall d | d < c :: !Fits(code, supplied, seconds, d)
    ensures MatchingStep(code, supplied, seconds) == None <==>
      !SixDigits(supplied) || forall d :: !Fits(code, supplied, seconds, d)
  {
    assert (forall d <- supplied :: '0' <= d <= '9') <==> forall d <- supplied :: d in "0123456789";
    var current := seconds / 30;
    assert forall d :: Fits(code, supplied, seconds, d) ==> d == current - 1 || d == current || d == current + 1;
    assert Fits(code, supplied, seconds, current - 1) <==> code(current - 1) == Some(supplied);
    assert Fits(code, supplied, seconds, current) <==> code(current) == Some(supplied);
    assert Fits(code, supplied, seconds, current + 1) <==> code(current + 1) == Some(supplied);
  }

  /** What the set keeps when the clock reads `current`. */
  function Window(current: int): set<int> { {current - 2, current - 1, current, current + 1} }

  /** The critical section of `consume_otp`. */
  function UseStep(used: set<int>, step: int, current: int): (set<int>, bool) {
    var kept := used * Window(current);
    if step in kept then (kept, false) else (kept + {step}, true)
  }

  class StepSet {
    var used: set<int>

    constructor ()
      ensures used == {}
    {
      used := {};
    }

    /** `matchedAt` and `prunedAt` are the two clock readings of one call. */
    method ConsumeOtp(code: int -> Option<string>, supplied: string, matchedAt: nat, prunedAt: nat) returns (ok: bool)
      modifies this
      ensures var step := MatchingStep(code, supplied, matchedAt);
        if step == None then !ok && used == old(used)
        else (used, ok) == UseStep(old(used), step.value, Counter(prunedAt))
    {
      var step := MatchingStep(code, supplied, matchedAt);
      if step == None { return false; }
      var current := Counter(prunedAt) as int;
      used := used * {current - 2, current - 1, current, current + 1};
      if step.value in used { return false; }
      used := used + {step.value};
      return true;
    }
  }

  /** One call that found a matching counter: the counter, and the counters of
      its two clock readings. */
  datatype Call = Call(step: int, matchedAt: int, prunedAt: int)

  /** What `MatchingStep` and a clock that never goes back promise about a call. */
  predicate Matched(c: Call) { c.matchedAt - 1 <= c.step <= c.matchedAt + 1 && c.matchedAt <= c.prunedAt }

  /** Calls in the order of their critical sections, which is also the order of
      the clock readings they prune by. Calls one after the other are an instance. */
  predicate Ordered(calls: seq<Call>) {
    && (forall c <- calls :: Matched(c))
    && forall i, j | 0 <= i < j < |calls| :: calls[i].prunedAt <= calls[j].prunedAt
  }

  /** One `consume_otp`: the supplied code and the two clock readings. */
  datatype Attempt = Attempt(supplied: string, matchedAt: nat, prunedAt: nat)

  /** The calls that reach the critical section. */
  function CallsOf(code: int -> Option<string>, attempts: seq<Attempt>): (calls: seq<Call>)
    ensures (forall a <- attempts :: a.matchedAt <= a.prunedAt) ==> forall c <- calls :: Matched(c)
  {
    if attempts == [] then []
    else
      var before := CallsOf(code, attempts[..|attempts| - 1]);
      var a := attempts[|attempts| - 1];
      var step := MatchingStep(code, a.supplied, a.matchedAt);
      if step == None then before
      else before + [Call(step.value, Counter(a.matchedAt), Counter(a.prunedAt))]
  }

  /** A run of attempts: a code is accepted exactly when it matches a counter
      that the specification of the calls before it accepts. */
  method ConsumeAll(steps: StepSet, code: int -> Option<string>, attempts: seq<Attempt>) returns (results: seq<bool>)
    requires steps.used == {}
    modifies steps
    ensures steps.used == UsedAfter(CallsOf(code, attempts)) && |results| == |attempts|
    ensures forall i | 0 <= i < |attempts| :: results[i] <==> AttemptAccepted(code, attempts, i)
    ensures forall i | 0 <= i < |attempts| && results[i] :: RightCode(code, attempts[i])
  {
    hide AttemptAccepted, RightCode, MatchingStep, UseStep, UsedAfter;
    NothingUsed();
    results := [];
    for i := 0 to |attempts|
      invariant steps.used == UsedAfter(CallsOf(code, attempts[..i])) && |results| == i
      invariant forall j | 0 <= j < i :: results[j] <==> AttemptAccepted(code, attempts, j)
    {
      OneMoreAttempt(code, attempts, i);
      var ok := steps.ConsumeOtp(code, attempts[i].supplied, attempts[i].matchedAt, attempts[i].prunedAt);
      results := results + [ok];
    }
    assert attempts[..|attempts|] == attempts;
    forall i | 0 <= i < |attempts| && results[i] ensures RightCode(code, attempts[i]) {
      AcceptedFits(code, attempts, i);
    }
  }

  lemma NothingUsed()
    ensures UsedAfter([]) == {}
  {
  }

  /** Six digits, and the code of a counter within one step of the first clock reading. */
  ghost predicate RightCode(code: int -> Option<string>, a: Attempt) {
    SixDigits(a.supplied) && exists c :: Fits(code, a.supplied, a.matchedAt, c)
  }

  lemma AcceptedFits(code: int -> Option<string>, attempts: seq<Attempt>, i: nat)
    requires i < |attempts|
    ensures AttemptAccepted(code, attempts, i) ==> RightCode(code, attempts[i])
  {
    OneMoreAttempt(code, attempts, i);
    var (a, step) := (attempts[i], MatchingStep(code, attempts[i].supplied, attempts[i].matchedAt));
    hide MatchingStep, UseStep, AttemptAccepted;
    if step.Some? {
      MatchingStepExact(code, a.supplied, a.matchedAt, step.value);
    }
  }

  lemma OneMoreAttempt(code: int -> Option<string>, attempts: seq<Attempt>, i: nat)
    requires i < |attempts|
    ensures var (calls, a) := (CallsOf(code, attempts[..i]), attempts[i]);
      var step := MatchingStep(code, a.supplied, a.matchedAt);
      (UsedAfter(CallsOf(code, attempts[..i + 1])), AttemptAccepted(code, attempts, i)) ==
        if step == None then (UsedAfter(calls), false)
        else UseStep(UsedAfter(calls), step.value, Counter(a.prunedAt))
  {
    var (before, calls) := (CallsOf(code, attempts[..i]), CallsOf(code, attempts[..i + 1]));
    assert attempts[..i + 1][..i] == attempts[..i];
    assert |calls| > |before| ==> calls[..|before|] == before;
  }

  predicate AttemptAccepted(code: int -> Option<string>, attempts: seq<Attempt>, i: nat)
    requires i < |attempts|
  {
    var (before, calls) := (CallsOf(code, attempts[..i]), CallsOf(code, attempts[..i + 1]));
    |calls| > |before| && AcceptedAt(calls, |before|)
  }

  function UsedAfter(calls: seq<Call>): set<int> {
    if calls == [] then {}
    else UseStep(UsedAfter(calls[..|calls| - 1]), calls[|calls| - 1].step, calls[|calls| - 1].prunedAt).0
  }

  predicate AcceptedAt(calls: seq<Call>, i: nat)
    requires i < |calls|
  {
    UseStep(UsedAfter(calls[..i]), calls[i].step, calls[i].prunedAt).1
  }

  /** At most one step boundary between the two readings of a call. */
  predicate OneBoundary(c: Call) { c.prunedAt <= c.matchedAt + 1 }

  /** Each call from the one after `i` up to the one before `end` prunes by a
      window that keeps the counter of call `i`. */
  predicate KeptUntil(calls: seq<Call>, i: nat, end: nat)
    requires i < end <= |calls|
  {
    forall k | i < k < end :: calls[i].step in Window(calls[k].prunedAt)
  }

  predicate UsedAndKept(calls: seq<Call>, step: int, i: nat) {
    i < |calls| && calls[i].step == step && KeptUntil(calls, i, |calls|)
  }

  /** What the set holds: the counters that some call used, or found used, and that
      every later call's window kept. */
  lemma {:induction false} UsedExact(calls: seq<Call>, step: int)
    ensures step in UsedAfter(calls) <==> exists i :: UsedAndKept(calls, step, i)
  {
    if calls != [] {
      var n := |calls| - 1;
      var init := calls[..n];
      UsedExact(init, step);
      assert forall i | 0 <= i < n :: UsedAndKept(calls, step, i) <==>
          UsedAndKept(init, step, i) && step in Window(calls[n].prunedAt) by {
        forall i | 0 <= i < n
          ensures UsedAndKept(calls, step, i) <==> UsedAndKept(init, step, i) && step in Window(calls[n].prunedAt)
        {
          assert forall k | 0 <= k < n :: init[k] == calls[k];
        }
      }
      assert UsedAndKept(calls, step, n) <==> calls[n].step == step;
    }
  }

  /** Call `j` finds its counter used since call `i`, and no window has dropped it. */
  predicate Blocks(calls: seq<Call>, i: nat, j: nat)
    requires j < |calls|
  {
    i < j && calls[i].step == calls[j].step && KeptUntil(calls, i, j + 1)
  }

  /** For any run, of any threads, with any clock readings: a call is turned down
      exactly when an earlier call had its counter and no window dropped it since. */
  lemma AcceptedExact(calls: seq<Call>, j: nat)
    requires j < |calls|
    ensures AcceptedAt(calls, j) <==> forall i: nat :: !Blocks(calls, i, j)
  {
    var (before, step) := (calls[..j], calls[j].step);
    UsedExact(before, step);
    assert forall k | 0 <= k < j :: before[k] == calls[k];
    forall i: nat ensures Blocks(calls, i, j) <==> UsedAndKept(before, step, i) && step in Window(calls[j].prunedAt) {
    }
  }

  predicate AcceptsTwice(calls: seq<Call>, i: nat, j: nat) {
    i < j < |calls| && calls[i].step == calls[j].step && AcceptedAt(calls, i) && AcceptedAt(calls, j)
  }

  /** A counter used by calls `i` and `j` is kept by every window on the way. */
  predicate NeverDropped(calls: seq<Call>, i: nat, j: nat)
    requires i < j < |calls|
  {
    calls[i].step == calls[j].step ==> KeptUntil(calls, i, j + 1)
  }

  /** Section 5.2 of RFC 6238, exactly: no counter is accepted twice in a run if and
      only if no call, from after one use of a counter up to a later one, prunes by
      a window without that counter. */
  lemma SingleUseExact(calls: seq<Call>)
    ensures (forall i: nat, j: nat :: !AcceptsTwice(calls, i, j)) <==>
      forall i, j | 0 <= i < j < |calls| :: NeverDropped(calls, i, j)
  {
    hide AcceptedAt, Window;
    if forall i, j | 0 <= i < j < |calls| :: NeverDropped(calls, i, j) {
      forall i: nat, j: nat ensures !AcceptsTwice(calls, i, j) {
        if 0 <= i < j < |calls| && calls[i].step == calls[j].step {
          AcceptedExact(calls, j);
          assert NeverDropped(calls, i, j);
          assert Blocks(calls, i, j);
        }
      }
    }
    forall i, j | 0 <= i < j < |calls| && !NeverDropped(calls, i, j) ensures exists x, y :: AcceptsTwice(calls, x, y) {
      DroppedAcceptsTwice(calls, i, j);
    }
  }

  /** A counter that was dropped between two uses is accepted at its first use, and
      again at its first use since. */
  lemma DroppedAcceptsTwice(calls: seq<Call>, i: nat, j: nat)
    requires i < j < |calls| && !NeverDropped(calls, i, j)
    ensures exists x, y :: AcceptsTwice(calls, x, y)
  {
    hide AcceptedAt, Window;
    var step := calls[i].step;
    var k :| i < k <= j && step !in Window(calls[k].prunedAt);
    var x := FirstUse(calls, step, 0, i);
    var y := FirstUse(calls, step, k, j);
    AcceptedExact(calls, x);
    AcceptedExact(calls, y);
    assert AcceptsTwice(calls, x, y);
  }

  lemma {:induction false} FirstUse(calls: seq<Call>, step: int, start: nat, j: nat) returns (x: nat)
    requires start <= j < |calls| && calls[j].step == step
    ensures start <= x <= j && calls[x].step == step && forall i | start <= i < x :: calls[i].step != step
    decreases j - start
  {
    if calls[start].step == step {
      x := start;
    } else {
      x := FirstUse(calls, step, start + 1, j);
    }
  }

  /** With clock readings in order, only the last window matters. */
  lemma OrderedExact(calls: seq<Call>, i: nat, j: nat)
    requires Ordered(calls) && i < j < |calls| && calls[i].step == calls[j].step
    ensures AcceptedAt(calls, j) <==> calls[j].step !in Window(calls[j].prunedAt)
  {
    hide AcceptedAt;
    AcceptedExact(calls, j);
    assert Matched(calls[i]);
    assert calls[j].step in Window(calls[j].prunedAt) ==> Blocks(calls, i, j);
  }

  /** Calls in order are single-use, provided each call crosses at most one step
      boundary between its clock readings. */
  lemma SingleUse(calls: seq<Call>, i: nat, j: nat)
    requires Ordered(calls) && i < j < |calls| && OneBoundary(calls[j]) && calls[i].step == calls[j].step
    ensures !AcceptedAt(calls, j)
  {
    OrderedExact(calls, i, j);
    assert Matched(calls[i]) && Matched(calls[j]) && calls[i].prunedAt <= calls[j].prunedAt;
  }

  predicate AllOneBoundary(calls: seq<Call>) { forall c <- calls :: Matched(c) && OneBoundary(c) }

  /** Neither proviso can be dropped. A call that crosses two boundaries can accept a
      used counter again; so can one after a call that pruned by an older reading.
      They suffice; the exact condition is in `SingleUseExact`. */
  lemma ProvisosNeeded()
    ensures exists calls :: Ordered(calls) && AcceptsTwice(calls, 0, 1)
    ensures exists calls :: AllOneBoundary(calls) && AcceptsTwice(calls, 0, 2)
  {
    var slow := [Call(10, 10, 10), Call(10, 11, 13)];
    assert slow[..0] == [] && slow[..1] == [slow[0]] && slow[..1][..0] == [];
    assert UsedAfter(slow[..1]) == {10};
    assert Ordered(slow) && AcceptsTwice(slow, 0, 1);
    var crossed := [Call(11, 10, 10), Call(9, 9, 9), Call(11, 11, 11)];
    assert crossed[..0] == [] && crossed[..1] == [crossed[0]] && crossed[..2] == [crossed[0], crossed[1]];
    assert crossed[..1][..0] == [] && crossed[..2][..1] == crossed[..1];
    assert UsedAfter(crossed[..1]) == {11};
    assert UsedAfter(crossed[..2]) == {9};
    assert AllOneBoundary(crossed) && AcceptsTwice(crossed, 0, 2);
  }

  /** The set never holds more than four counters when no call crosses two boundaries. */
  lemma {:induction false} UsedIsSmall(calls: seq<Call>)
    requires AllOneBoundary(calls)
    ensures |UsedAfter(calls)| <= 4
  {
    if calls != [] {
      var last := calls[|calls| - 1];
      assert last in calls;
      StepInWindow(UsedAfter(calls[..|calls| - 1]), last);
      WindowSubset(UsedAfter(calls), last.prunedAt);
    }
  }

  lemma StepInWindow(used: set<int>, c: Call)
    requires Matched(c) && OneBoundary(c)
    ensures UseStep(used, c.step, c.prunedAt).0 <= Window(c.prunedAt)
  {
    assert c.step in Window(c.prunedAt);
  }

  lemma WindowSubset(used: set<int>, current: int)
    requires used <= Window(current)
    ensures |used| <= 4
  {
    assert used + (Window(current) - used) == Window(current);
  }
}
