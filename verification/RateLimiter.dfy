/**
 The per-consumer sliding-window rate limit and the last-seen throttle of the authentication middleware.

 The specification looks at the whole history of accepted calls; the limiter keeps only a window of it.
 Times come from a monotonic clock, in seconds.
 */
module RateLimiter {
  const WINDOW := 60.0

  datatype Call = Call(consumer: int, now: real)

  // ---- specification ----

  function Since(times: seq<real>, cutoff: real): seq<real> {
    if times == [] then []
    else
      var rest := Since(times[..|times| - 1], cutoff);
      if times[|times| - 1] >= cutoff then rest + [times[|times| - 1]] else rest
  }

  /** The positions of the times in a closed interval. */
  function Within(times: seq<real>, from: real, to: real): set<int> {
    set i | 0 <= i < |times| && from <= times[i] <= to
  }

  /** A call is refused when the accepted calls of the last sixty seconds already make up the limit. */
  predicate Refused(accepted: seq<real>, now: real, limit: int) {
    |Since(accepted, now - WINDOW)| >= limit
  }

  /** The calls of one consumer that are accepted when nobody else calls. */
  function Solo(times: seq<real>, limit: int): seq<real> {
    if times == [] then []
    else
      var accepted, now := Solo(times[..|times| - 1], limit), times[|times| - 1];
      if Refused(accepted, now, limit) then accepted else accepted + [now]
  }

  function Of<T>(m: map<int, seq<T>>, consumer: int): seq<T> {
    if consumer in m then m[consumer] else []
  }

  /** The accepted calls of every consumer in a merged trace. */
  function Accepted(calls: seq<Call>, limit: int): map<int, seq<real>> {
    if calls == [] then map[]
    else
      var before, call := Accepted(calls[..|calls| - 1], limit), calls[|calls| - 1];
      var mine := Of(before, call.consumer);
      before[call.consumer := if Refused(mine, call.now, limit) then mine else mine + [call.now]]
  }

  function TimesOf(calls: seq<Call>, consumer: int): seq<real> {
    if calls == [] then []
    else
      var before, call := TimesOf(calls[..|calls| - 1], consumer), calls[|calls| - 1];
      if call.consumer == consumer then before + [call.now] else before
  }

  ghost predicate Nondecreasing(times: seq<real>) {
    forall i, j :: 0 <= i < j < |times| ==> times[i] <= times[j]
  }

  /** Consumers do not affect each other: a merged trace accepts for each what it would accept alone. */
  lemma {:induction false} TracesProject(calls: seq<Call>, limit: int, consumer: int)
    ensures Of(Accepted(calls, limit), consumer) == Solo(TimesOf(calls, consumer), limit)
  {
    if calls == [] {
    } else {
      var before, call := calls[..|calls| - 1], calls[|calls| - 1];
      TracesProject(before, limit, consumer);
      if call.consumer == consumer {
        assert TimesOf(calls, consumer)[..|TimesOf(before, consumer)|] == TimesOf(before, consumer);
      }
    }
  }

  lemma WithinGrows(times: seq<real>, now: real, from: real, to: real)
    ensures Within(times + [now], from, to) == Within(times, from, to) + if from <= now <= to then {|times|} else {}
  {
  }

  lemma {:induction false} WithinIsRecent(times: seq<real>, from: real, to: real, cutoff: real)
    requires cutoff <= from
    ensures |Within(times, from, to)| <= |Since(times, cutoff)|
  {
    if times == [] {
      assert Within(times, from, to) == {};
    } else {
      var m := |times| - 1;
      WithinIsRecent(times[..m], from, to, cutoff);
      WithinGrows(times[..m], times[m], from, to);
      assert times[..m] + [times[m]] == times;
    }
  }

  /** No closed sixty-second interval, wherever it starts, holds more accepted calls than the limit. */
  lemma AnyWindowIsBounded(times: seq<real>, limit: int, from: real)
    ensures var accepted := Solo(times, limit);
            |set i | 0 <= i < |accepted| && from <= accepted[i] <= from + 60.0| <= if limit > 0 then limit else 0
  {
    BoundedWithin(times, limit, from);
    assert (set i | 0 <= i < |Solo(times, limit)| && from <= Solo(times, limit)[i] <= from + 60.0) ==
           Within(Solo(times, limit), from, from + WINDOW);
  }

  lemma {:induction false} BoundedWithin(times: seq<real>, limit: int, from: real)
    ensures |Within(Solo(times, limit), from, from + WINDOW)| <= if limit > 0 then limit else 0
  {
    if times == [] {
      assert Within([], from, from + WINDOW) == {};
    } else {
      var before, now := times[..|times| - 1], times[|times| - 1];
      BoundedWithin(before, limit, from);
      if !Refused(Solo(before, limit), now, limit) {
        OneMoreIsBounded(Solo(before, limit), now, limit, from);
      }
    }
  }

  lemma OneMoreIsBounded(accepted: seq<real>, now: real, limit: int, from: real)
    requires |Within(accepted, from, from + WINDOW)| <= (if limit > 0 then limit else 0)
    requires !Refused(accepted, now, limit)
    ensures |Within(accepted + [now], from, from + WINDOW)| <= if limit > 0 then limit else 0
  {
    WithinGrows(accepted, now, from, from + WINDOW);
    if from <= now <= from + WINDOW {
      WithinIsRecent(accepted, from, from + WINDOW, now - WINDOW);
    }
  }

  // ---- dropping the front of an ordered window ----

  lemma {:induction false} SinceIsSuffix(times: seq<real>, cutoff: real, n: nat)
    requires n <= |times|
    requires forall i :: 0 <= i < n ==> times[i] < cutoff
    requires forall i :: n <= i < |times| ==> times[i] >= cutoff
    ensures Since(times, cutoff) == times[n..]
    decreases |times|
  {
    if times == [] {
    } else {
      var m := |times| - 1;
      if n <= m {
        SinceIsSuffix(times[..m], cutoff, n);
        assert times[n..] == times[..m][n..] + [times[m]];
      } else {
        SinceIsSuffix(times[..m], cutoff, m);
      }
    }
  }

  /** In a history that is in order, the times since a cutoff are its tail. */
  lemma {:induction false} SinceIsTail(times: seq<real>, cutoff: real) returns (n: nat)
    requires Nondecreasing(times)
    ensures n <= |times| && Since(times, cutoff) == times[n..] && IsTail(times, cutoff, n)
  {
    n := 0;
    if times == [] || times[0] >= cutoff {
    } else {
      n := SinceIsTail(times[1..], cutoff);
      n := n + 1;
    }
    SinceIsSuffix(times, cutoff, n);
  }

  ghost predicate IsTail(times: seq<real>, cutoff: real, n: nat) {
    n <= |times| && forall i :: 0 <= i < |times| ==> (times[i] >= cutoff <==> n <= i)
  }

  /** A later cutoff can be applied to what an earlier one left. */
  lemma {:induction false} SinceTwice(times: seq<real>, early: real, late: real)
    requires early <= late
    ensures Since(Since(times, early), late) == Since(times, late)
  {
    if times == [] {
    } else {
      var m := |times| - 1;
      SinceTwice(times[..m], early, late);
      if times[m] >= early {
        var kept := Since(times[..m], early);
        assert (kept + [times[m]])[..|kept|] == kept;
      }
    }
  }

  lemma {:induction false} SinceKeepsOrder(times: seq<real>, cutoff: real)
    requires Nondecreasing(times)
    ensures Nondecreasing(Since(times, cutoff))
    ensures forall x :: x in Since(times, cutoff) ==> x in times
  {
    if times == [] {
    } else {
      var rest := Since(times[..|times| - 1], cutoff);
      SinceKeepsOrder(times[..|times| - 1], cutoff);
      forall i | 0 <= i < |rest| ensures rest[i] <= times[|times| - 1] {
        var x := rest[i];
        assert x in rest && x in times[..|times| - 1];
      }
    }
  }

  ghost predicate UpTo(times: seq<real>, bound: real) {
    forall i :: 0 <= i < |times| ==> times[i] <= bound
  }

  lemma {:induction false} AcceptedUpTo(calls: seq<Call>, limit: int, consumer: int, bound: real)
    requires forall i :: 0 <= i < |calls| ==> calls[i].now <= bound
    ensures UpTo(Of(Accepted(calls, limit), consumer), bound)
  {
    if calls == [] {
      assert Of(Accepted(calls, limit), consumer) == [];
    } else {
      var m := |calls| - 1;
      AcceptedUpTo(calls[..m], limit, consumer, bound);
      assert calls[m].now <= bound;
    }
  }

  lemma LatestKeepsOrder(times: seq<real>, now: real)
    requires Nondecreasing(times) && UpTo(times, now)
    ensures Nondecreasing(times + [now])
  {
  }

  lemma {:induction false} AcceptedInOrder(calls: seq<Call>, limit: int, consumer: int)
    requires InOrder(calls)
    ensures Nondecreasing(Of(Accepted(calls, limit), consumer))
  {
    if calls == [] {
    } else {
      var m := |calls| - 1;
      var now := calls[m].now;
      AcceptedInOrder(calls[..m], limit, consumer);
      AcceptedUpTo(calls[..m], limit, consumer, now);
      LatestKeepsOrder(Of(Accepted(calls[..m], limit), consumer), now);
    }
  }

  ghost predicate InOrder(calls: seq<Call>) {
    forall i, j :: 0 <= i < j < |calls| ==> calls[i].now <= calls[j].now
  }

  predicate NotBefore(now: real, calls: seq<Call>) {
    calls == [] || calls[|calls| - 1].now <= now
  }

  predicate NotAfter(time: real, calls: seq<Call>) {
    calls != [] && time <= calls[|calls| - 1].now
  }

  lemma SinceWithNew(times: seq<real>, now: real)
    ensures Since(times + [now], now - WINDOW) == Since(times, now - WINDOW) + [now]
  {
    assert (times + [now])[..|times|] == times;
  }

  /** The trimmed window decides the call as the whole history would. */
  lemma Verdict(calls: seq<Call>, accepted: map<int, seq<real>>, limit: int, call: Call, trimmed: seq<real>,
      window: seq<real>)
    returns (history: seq<real>)
    requires accepted == Accepted(calls, limit)
    requires trimmed == Since(Of(accepted, call.consumer), call.now - WINDOW)
    requires window == if |trimmed| >= limit then trimmed else trimmed + [call.now]
    ensures Refused(Of(accepted, call.consumer), call.now, limit) <==> |trimmed| >= limit
    ensures history == if |trimmed| >= limit then Of(accepted, call.consumer)
      else Of(accepted, call.consumer) + [call.now]
    ensures Accepted(calls + [call], limit) == accepted[call.consumer := history]
    ensures window == Since(history, call.now - WINDOW)
  {
    assert (calls + [call])[..|calls|] == calls;
    history := Of(accepted, call.consumer);
    SinceWithNew(history, call.now);
    if |trimmed| < limit {
      history := history + [call.now];
    }
  }

  /** Every window is the consumer's accepted history, trimmed at some earlier time. */
  ghost predicate Consistent(windows: map<int, seq<real>>, cutoffs: map<int, real>, calls: seq<Call>,
      accepted: map<int, seq<real>>)
  {
    && InOrder(calls)
    && windows.Keys == cutoffs.Keys == accepted.Keys
    && forall c :: c in windows ==> Trimmed(windows[c], accepted[c], cutoffs[c], calls)
  }

  ghost predicate Trimmed(window: seq<real>, history: seq<real>, cutoff: real, calls: seq<Call>) {
    window == Since(history, cutoff) && NotAfter(cutoff + WINDOW, calls)
  }

  lemma CallKeepsConsistent(windows: map<int, seq<real>>, cutoffs: map<int, real>, calls: seq<Call>,
                            accepted: map<int, seq<real>>, call: Call, window: seq<real>, history: seq<real>)
    requires Consistent(windows, cutoffs, calls, accepted) && NotBefore(call.now, calls)
    requires window == Since(history, call.now - WINDOW)
    ensures Consistent(windows[call.consumer := window], cutoffs[call.consumer := call.now - WINDOW], calls + [call],
                       accepted[call.consumer := history])
  {
    var windows', cutoffs', accepted' :=
      windows[call.consumer := window], cutoffs[call.consumer := call.now - WINDOW], accepted[call.consumer := history];
    forall c | c in windows' ensures Trimmed(windows'[c], accepted'[c], cutoffs'[c], calls + [call]) {
      assert c != call.consumer ==> Trimmed(windows[c], accepted[c], cutoffs[c], calls);
    }
  }

  // ---- the limiter ----

  class Limiter {
    const limit: int
    var windows: map<int, seq<real>>
    ghost var calls: seq<Call>
    /** everything accepted so far, per consumer */
    ghost var accepted: map<int, seq<real>>
    /** the cutoff each window was last trimmed to */
    ghost var cutoffs: map<int, real>

    ghost predicate Valid()
      reads this
    {
      accepted == Accepted(calls, limit) && Consistent(windows, cutoffs, calls, accepted)
    }

    constructor (limit: int)
      ensures Valid() && calls == [] && this.limit == limit
    {
      this.limit := limit;
      windows, cutoffs, accepted, calls := map[], map[], map[], [];
    }

    /** The consumer's window without the times that have left it. */
    method Trim(consumer: int, now: real) returns (window: seq<real>)
      requires Valid() && NotBefore(now, calls)
      ensures window == Since(Of(accepted, consumer), now - WINDOW)
    {
      window := Of(windows, consumer);
      var cutoff := now - 60.0;
      TrimmedIsRecent(consumer, now);
      while window != [] && window[0] < cutoff
        invariant Nondecreasing(window) && Since(window, cutoff) == Since(Of(accepted, consumer), cutoff)
      {
        DropFront(window, cutoff);
        window := window[1..];
      }
      SinceIsSuffix(window, cutoff, 0);
    }

    /** Whether the call is refused, and the window it leaves; `history` is what that makes of the accepted calls. */
    method Decide(consumer: int, now: real) returns (limited: bool, window: seq<real>, ghost history: seq<real>)
      requires Valid() && NotBefore(now, calls)
      ensures limited <==> Refused(Of(accepted, consumer), now, limit)
      ensures history == if limited then Of(accepted, consumer) else Of(accepted, consumer) + [now]
      ensures Accepted(calls + [Call(consumer, now)], limit) == accepted[consumer := history]
      ensures window == Since(history, now - WINDOW)
    {
      var trimmed := Trim(consumer, now);
      limited := |trimmed| >= limit;
      window := if limited then trimmed else trimmed + [now];
      history := Verdict(calls, accepted, limit, Call(consumer, now), trimmed, window);
    }

    /**
     Trim the consumer's window, then refuse or record the call.  It is refused exactly when the limit-th latest of
     the consumer's accepted calls is at most sixty seconds old; the window is left with the accepted calls of
     those sixty seconds, and no other consumer's is touched.
     */
    method RateLimited(consumer: int, now: real) returns (limited: bool)
      requires Valid() && NotBefore(now, calls)
      modifies this
      ensures Valid() && calls == old(calls) + [Call(consumer, now)]
      ensures limited <==> Refused(Of(old(accepted), consumer), now, limit)
      ensures var mine := if consumer in old(accepted) then old(accepted)[consumer] else [];
              && (limited <==> limit <= 0 || (|mine| >= limit && mine[|mine| - limit] >= now - 60.0))
              && accepted == old(accepted)[consumer := if limited then mine else mine + [now]]
      ensures windows == old(windows)[consumer := Since(Of(accepted, consumer), now - WINDOW)]
      ensures exists n: nat :: IsTail(accepted[consumer], now - 60.0, n) && windows[consumer] == accepted[consumer][n..]
    {
      var window;
      ghost var history;
      AcceptedInOrder(calls, limit, consumer);
      ghost var m := SinceIsTail(Of(accepted, consumer), now - WINDOW);
      limited, window, history := Decide(consumer, now);
      Store(consumer, now, window, history);
      AcceptedInOrder(calls, limit, consumer);
      ghost var n := SinceIsTail(history, now - WINDOW);
    }

    /** Put the window back in the dictionary. */
    method Store(consumer: int, now: real, window: seq<real>, ghost history: seq<real>)
      requires Valid() && NotBefore(now, calls)
      requires Accepted(calls + [Call(consumer, now)], limit) == accepted[consumer := history]
      requires window == Since(history, now - WINDOW)
      modifies this
      ensures Valid() && calls == old(calls) + [Call(consumer, now)]
      ensures windows == old(windows)[consumer := window] && accepted == old(accepted)[consumer := history]
    {
      CallKeepsConsistent(windows, cutoffs, calls, accepted, Call(consumer, now), window, history);
      windows := windows[consumer := window];
      cutoffs := cutoffs[consumer := now - WINDOW];
      accepted := accepted[consumer := history];
      calls := calls + [Call(consumer, now)];
    }

    /** What the window holds suffices to see the last sixty seconds. */
    lemma TrimmedIsRecent(consumer: int, now: real)
      requires Valid() && NotBefore(now, calls)
      ensures Nondecreasing(Of(windows, consumer))
      ensures Since(Of(windows, consumer), now - WINDOW) == Since(Of(accepted, consumer), now - WINDOW)
    {
      if consumer in windows {
        assert Trimmed(windows[consumer], accepted[consumer], cutoffs[consumer], calls);
        AcceptedInOrder(calls, limit, consumer);
        SinceKeepsOrder(accepted[consumer], cutoffs[consumer]);
        SinceTwice(accepted[consumer], cutoffs[consumer], now - WINDOW);
      }
    }
  }

  lemma {:induction false} DropFront(times: seq<real>, cutoff: real)
    requires times != [] && times[0] < cutoff
    ensures Since(times[1..], cutoff) == Since(times, cutoff)
    decreases |times|
  {
    if |times| <= 1 {
    } else {
      var m := |times| - 1;
      DropFront(times[..m], cutoff);
      assert times[1..][..m - 1] == times[..m][1..];
    }
  }

  // ---- the last-seen throttle ----

  /** When the last-seen column is written, for calls at `times`; a consumer never marked counts as marked at 0. */
  function Marks(times: seq<real>): seq<real> {
    if times == [] then []
    else
      var marks, now := Marks(times[..|times| - 1]), times[|times| - 1];
      if now - LastMark(marks) >= WINDOW then marks + [now] else marks
  }

  function LastMark(marks: seq<real>): real {
    if marks == [] then 0.0 else marks[|marks| - 1]
  }

  /**
   Writes are at least sixty seconds apart, the first no earlier than sixty seconds on the clock, and after every
   call the last mark is less than sixty seconds old.
   */
  lemma {:induction false} MarksAreThrottledAndFresh(times: seq<real>)
    ensures forall i :: 0 < i < |Marks(times)| ==> Marks(times)[i] - Marks(times)[i - 1] >= 60.0
    ensures Marks(times) != [] ==> Marks(times)[0] >= 60.0
    ensures forall x :: x in Marks(times) ==> x in times
    ensures times != [] ==>
      times[|times| - 1] - (if Marks(times) == [] then 0.0 else Marks(times)[|Marks(times)| - 1]) < 60.0
  {
    if times == [] {
    } else {
      MarksAreThrottledAndFresh(times[..|times| - 1]);
    }
  }

  lemma MarksExtend(times: seq<real>, now: real)
    ensures Marks(times + [now]) == if now - LastMark(Marks(times)) >= WINDOW then Marks(times) + [now]
      else Marks(times)
  {
    assert (times + [now])[..|times|] == times;
  }

  ghost predicate MarkedAs(marked: map<int, real>, times: map<int, seq<real>>, c: int) {
    (if c in marked then marked[c] else 0.0) == LastMark(Marks(Of(times, c)))
  }

  /** A call of one consumer leaves the others' marks alone. */
  lemma TouchMarks(marked: map<int, real>, times: map<int, seq<real>>, consumer: int, now: real, write: bool,
      marked': map<int, real>, times': map<int, seq<real>>)
    requires forall c :: MarkedAs(marked, times, c)
    requires write <==> now - (if consumer in marked then marked[consumer] else 0.0) >= 60.0
    requires marked' == if write then marked[consumer := now] else marked
    requires times' == times[consumer := Of(times, consumer) + [now]]
    ensures Marks(Of(times, consumer) + [now]) == Marks(Of(times, consumer)) + if write then [now] else []
    ensures forall c :: MarkedAs(marked', times', c)
  {
    MarksExtend(Of(times, consumer), now);
    assert MarkedAs(marked, times, consumer);
    forall c ensures MarkedAs(marked', times', c) {
      if c != consumer {
        assert MarkedAs(marked, times, c);
      }
    }
  }

  class LastSeen {
    var marked: map<int, real>
    ghost var times: map<int, seq<real>>

    ghost predicate Valid()
      reads this
    {
      forall c :: MarkedAs(marked, times, c)
    }

    constructor ()
      ensures Valid() && times == map[]
    {
      marked, times := map[], map[];
    }

    /** Says whether the database column is to be written for this accepted call. */
    method Touch(consumer: int, now: real) returns (write: bool)
      requires Valid()
      modifies this
      ensures Valid() && times == old(times)[consumer := Of(old(times), consumer) + [now]]
      ensures Marks(Of(times, consumer)) == Marks(Of(old(times), consumer)) + if write then [now] else []
      ensures write <==> now - (if consumer in old(marked) then old(marked)[consumer] else 0.0) >= 60.0
      ensures marked == if write then old(marked)[consumer := now] else old(marked)
    {
      ghost var before := Of(times, consumer);
      var last := if consumer in marked then marked[consumer] else 0.0;
      write := now - last >= 60.0;
      TouchMarks(marked, times, consumer, now, write, if write then marked[consumer := now] else marked,
                 times[consumer := before + [now]]);
      if write {
        marked := marked[consumer := now];
      }
      times := times[consumer := before + [now]];
    }
  }
}
