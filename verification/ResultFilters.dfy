/**
 * The windowed statistics of inet/common/ResultFilters: throughput, packet rate and utilization.
 *
 * Times are integer ticks, lengths integer bits, and the emitted ratios exact rationals.  What a filter
 * fires is appended to a sequence; the simulation time is a parameter that never goes back.
 */
module ResultFilters {

  import opened Options

  // ------------------------------------------------------------ windows

  datatype Arrival = Arrival(time: int, amount: int)

  /** A closed window of time with what arrived in it. */
  datatype Window = Window(start: int, end: int, arrivals: seq<Arrival>)

  /** The windows closed since `start`, and what has arrived since the last of them. */
  datatype Log = Log(start: int, windows: seq<Window>, pending: seq<Arrival>)

  function Total(arrivals: seq<Arrival>): int
  {
    if arrivals == [] then 0 else Total(arrivals[..|arrivals| - 1]) + arrivals[|arrivals| - 1].amount
  }

  function Last(log: Log): int { if log.windows == [] then log.start else log.windows[|log.windows| - 1].end }

  function Close(log: Log, end: int): Log
  {
    log.(windows := log.windows + [Window(Last(log), end, log.pending)], pending := [])
  }

  /** Everything that has arrived, window by window. */
  function Received(windows: seq<Window>): seq<Arrival>
  {
    if windows == [] then [] else Received(windows[..|windows| - 1]) + windows[|windows| - 1].arrivals
  }

  predicate Within(arrivals: seq<Arrival>, from: int, to: int)
  {
    forall i :: 0 <= i < |arrivals| ==> from <= arrivals[i].time <= to
  }

  /** Each window begins where the one before it ends, and holds what arrived in between. */
  predicate Tiles(log: Log)
  {
    && (forall i :: 0 <= i < |log.windows| ==>
         log.windows[i].start <= log.windows[i].end && Within(log.windows[i].arrivals, log.windows[i].start, log.windows[i].end))
    && (log.windows != [] ==> log.windows[0].start == log.start)
    && (forall i, j :: 0 <= i < j == i + 1 < |log.windows| ==> log.windows[i].end == log.windows[j].start)
  }

  /** The log accounts for all arrivals up to `now`. */
  predicate Accounts(log: Log, arrivals: seq<Arrival>, now: int)
  {
    Tiles(log) && log.start <= Last(log) <= now && arrivals == Received(log.windows) + log.pending && Within(log.pending, Last(log), now)
  }

  lemma ReceivedGrows(windows: seq<Window>, w: Window)
    ensures Received(windows + [w]) == Received(windows) + w.arrivals
  {
    assert (windows + [w])[..|windows|] == windows;
  }

  lemma TilesGrow(log: Log, end: int)
    requires Tiles(log) && log.start <= Last(log) <= end && Within(log.pending, Last(log), end)
    ensures Tiles(Close(log, end))
  {
    hide Within;
    var next := Close(log, end);
    assert next.windows == log.windows + [Window(Last(log), end, log.pending)];
  }

  lemma CloseKeeps(log: Log, arrivals: seq<Arrival>, now: int, end: int, then': int)
    requires Accounts(log, arrivals, now) && Last(log) <= end <= then' && now <= then' && Within(log.pending, Last(log), end)
    ensures Accounts(Close(log, end), arrivals, then') && Last(Close(log, end)) == end
    ensures Close(log, end).windows[..|log.windows|] == log.windows
  {
    hide Tiles, Received;
    var next := Close(log, end);
    TilesGrow(log, end);
    ReceivedGrows(log.windows, Window(Last(log), end, log.pending));
    assert Received(next.windows) + [] == Received(log.windows) + log.pending;
  }

  function WithArrival(log: Log, a: Arrival): Log { log.(pending := log.pending + [a]) }

  lemma ArrivalKeeps(log: Log, arrivals: seq<Arrival>, now: int, a: Arrival)
    requires Accounts(log, arrivals, now) && now <= a.time
    ensures Accounts(WithArrival(log, a), arrivals + [a], a.time)
    ensures Last(WithArrival(log, a)) == Last(log) && Total(log.pending + [a]) == Total(log.pending) + a.amount
    ensures forall to :: Within(log.pending, Last(log), to) && a.time <= to ==> Within(log.pending + [a], Last(log), to)
  {
    var next := WithArrival(log, a);
    assert next.pending[..|log.pending|] == log.pending;
    assert Received(log.windows) + log.pending + [a] == Received(log.windows) + (log.pending + [a]);
  }

  /** No bit is lost or counted twice: windows and pending total add up to what has arrived. */
  lemma {:induction false} TotalOfWindows(windows: seq<Window>)
    ensures Total(Received(windows)) == TotalAmount(windows)
  {
    if windows != [] {
      TotalOfWindows(windows[..|windows| - 1]);
      TotalOfSum(Received(windows[..|windows| - 1]), windows[|windows| - 1].arrivals);
    }
  }

  function TotalAmount(windows: seq<Window>): int
  {
    if windows == [] then 0 else TotalAmount(windows[..|windows| - 1]) + Total(windows[|windows| - 1].arrivals)
  }

  lemma {:induction false} TotalOfSum(a: seq<Arrival>, b: seq<Arrival>)
    ensures Total(a + b) == Total(a) + Total(b)
  {
    if b == [] {
      assert a + b == a;
    } else {
      assert (a + b)[..|a + b| - 1] == a + b[..|b| - 1];
      TotalOfSum(a, b[..|b| - 1]);
    }
  }

  lemma AllIsAccountedFor(log: Log, arrivals: seq<Arrival>, now: int)
    requires Accounts(log, arrivals, now)
    ensures Total(arrivals) == TotalAmount(log.windows) + Total(log.pending)
  {
    TotalOfWindows(log.windows);
    TotalOfSum(Received(log.windows), log.pending);
  }

  /** The windows cover the time from the start to the last end without a gap. */
  lemma {:induction false} TimeIsCovered(log: Log, t: int)
    requires Tiles(log) && log.start <= t < Last(log)
    ensures exists i :: 0 <= i < |log.windows| && log.windows[i].start <= t < log.windows[i].end
    decreases |log.windows|
  {
    var n := |log.windows| - 1;
    if t < log.windows[n].start {
      var front := log.(windows := log.windows[..n]);
      assert n > 0;
      assert log.windows[n - 1].end == log.windows[n].start;
      TimeIsCovered(front, t);
      var i :| 0 <= i < |front.windows| && front.windows[i].start <= t < front.windows[i].end;
      assert log.windows[i] == front.windows[i];
    }
  }

  /** The windows from the n-th on last an interval each. */
  predicate LastIntervals(windows: seq<Window>, n: nat, interval: int)
  {
    forall i :: n <= i < |windows| ==> windows[i].end == windows[i].start + interval
  }

  /** What was pending is in a window of an interval now, and empty ones of an interval each may follow it. */
  predicate ClosesIntervals(before: Log, after: Log, interval: int)
  {
    var (n, start) := (|before.windows|, Last(before));
    && after.start == before.start && after.pending == [] && |after.windows| > n
    && before.windows == after.windows[..n] && after.windows[n] == Window(start, start + interval, before.pending)
    && (forall i :: n < i < |after.windows| ==> after.windows[i].arrivals == [])
    && LastIntervals(after.windows, n, interval)
  }

  /**
   * When an interval has passed, what was pending is in a window of one interval; empty windows follow up to the
   * current interval, or a single one, up to an interval ago.
   */
  predicate Passes(before: Log, after: Log, now: int, interval: int, zeros: bool)
  {
    var (n, start) := (|before.windows|, Last(before));
    && after.start == before.start && after.pending == [] && |after.windows| > n
    && before.windows == after.windows[..n] && after.windows[n] == Window(start, start + interval, before.pending)
    && (forall i :: n < i < |after.windows| ==> after.windows[i].arrivals == [])
    && (if zeros then LastIntervals(after.windows, n, interval) && now < Last(after) + interval
        else |after.windows| == n + 1 || (|after.windows| == n + 2 && Last(after) == now - interval))
  }

  /** What was pending is in a window that ends at a time. */
  predicate ClosesAt(before: Log, after: Log, end: int)
  {
    && |after.windows| > |before.windows| && before.windows == after.windows[..|before.windows|]
    && after.windows[|before.windows|].arrivals == before.pending && after.windows[|before.windows|].end == end
  }

  /**
   * What an arrival does.  At the limit it is the last one of a window that ends with it.  When an interval has passed,
   * it comes after the windows that this closes.
   */
  predicate Receives(before: Log, after: Log, a: Arrival, interval: int, limited: bool, zeros: bool)
  {
    if limited then after == Close(WithArrival(before, a), a.time)
    else if Last(before) + interval <= a.time then
      after.pending == [a] && Passes(before, after.(pending := []), a.time, interval, zeros)
    else after == WithArrival(before, a)
  }

  /** What the end does: the last window reaches to it, and with intermediate zeros none is longer than an interval. */
  predicate Finishes(before: Log, after: Log, interval: int, now: int, zeros: bool)
  {
    if Last(before) < now then
      && after.start == before.start && after.pending == [] && Last(after) == now && |after.windows| > |before.windows|
      && before.windows <= after.windows
      && (zeros ==> LastIntervals(after.windows[..|after.windows| - 1], |before.windows|, interval))
      && (zeros ==> now - after.windows[|after.windows| - 1].start <= interval)
    else
      after == before
  }

  // ------------------------------------------------------------ throughput

  /** A fired value; a window without duration has no finite throughput. */
  datatype Emission = Emission(time: int, value: Option<real>)

  function Rate(amount: int, duration: int): Option<real>
  {
    if duration == 0 then None else Some(amount as real / duration as real)
  }

  function Throughputs(windows: seq<Window>): seq<Emission>
  {
    if windows == [] then []
    else
      var w := windows[|windows| - 1];
      Throughputs(windows[..|windows| - 1]) + [Emission(w.end, Rate(Total(w.arrivals), w.end - w.start))]
  }

  class ThroughputFilter {
    const interval: int
    const numLengthLimit: nat
    const emitIntermediateZeros: bool
    var lastSignalTime: int
    var totalLength: int
    var numLengths: nat
    var fired: seq<Emission>
    ghost var clock: int
    ghost var arrivals: seq<Arrival>
    ghost var log: Log
    ghost var carried: bool   // whether the first of the pending packets ended an interval, uncounted

    /** What the fields say of the log. */
    ghost predicate Keeps()
      reads this
    {
      && interval > 0 && Accounts(log, arrivals, clock) && lastSignalTime <= clock
      && lastSignalTime == Last(log) && totalLength == Total(log.pending) && fired == Throughputs(log.windows)
      && (numLengthLimit > 0 ==> numLengths <= numLengthLimit && forall i :: 0 <= i < |log.windows| ==> |log.windows[i].arrivals| <= numLengthLimit + 1)
    }

    ghost predicate Valid()
      reads this
    {
      && Keeps() && (numLengthLimit > 0 ==> numLengths < numLengthLimit)
      && Within(log.pending, lastSignalTime, lastSignalTime + interval) && |log.pending| == numLengths + Uncounted(carried)
    }

    constructor (interval: int, numLengthLimit: nat, emitIntermediateZeros: bool, now: int)
      requires interval > 0
      ensures Valid() && arrivals == [] && fired == [] && clock == now && log == Log(now, [], []) && !carried
      ensures this.interval == interval && this.numLengthLimit == numLengthLimit && this.emitIntermediateZeros == emitIntermediateZeros
    {
      this.interval, this.numLengthLimit, this.emitIntermediateZeros := interval, numLengthLimit, emitIntermediateZeros;
      lastSignalTime, totalLength, numLengths, fired := now, 0, 0, [];
      clock, arrivals, log, carried := now, [], Log(now, [], []), false;
    }

    /** The values fired so far account for all arrivals, with what they cannot stand for and what is pending. */
    lemma FiredAccounts()
      requires Keeps()
      ensures FiresBits(fired, log.windows, log.start)
      ensures forall i :: 0 <= i < |fired| ==> (fired[i].value.Some? <==> log.windows[i].start != log.windows[i].end)
      ensures Fired(fired, log.start) + Unfired(log.windows) as real + totalLength as real == Total(arrivals) as real
    {
      ThroughputsFireBits(log);
      FiredBitsAddUp(log, fired, arrivals, clock);
    }

    method EmitThroughput(endInterval: int, ghost now: int)
      requires Keeps() && clock <= now && lastSignalTime <= endInterval <= now && Within(log.pending, lastSignalTime, endInterval)
      requires |log.pending| <= numLengths + 1
      modifies this
      ensures Valid() && log == Close(old(log), endInterval) && clock == now && arrivals == old(arrivals) && lastSignalTime == endInterval
      ensures numLengths == 0 && !carried
    {
      hide Accounts, Last, Within;
      CloseKeeps(log, arrivals, clock, endInterval, now);
      NothingPending(endInterval, endInterval + interval);
      fired := fired + [Emission(endInterval, Rate(totalLength, endInterval - lastSignalTime))];
      lastSignalTime := endInterval;
      totalLength := 0;
      numLengths := 0;
      log, clock, carried := Close(log, endInterval), now, false;
    }

    /** The length of a packet joins the ones that are pending. */
    method AddLength(length: int, ghost now: int)
      requires Keeps() && clock <= now
      modifies this`totalLength, this`log, this`arrivals, this`clock
      ensures Keeps() && log == WithArrival(old(log), Arrival(now, length)) && clock == now
      ensures |log.pending| == |old(log.pending)| + 1
      ensures arrivals == old(arrivals) + [Arrival(now, length)]
      ensures forall to :: old(Within(log.pending, lastSignalTime, to)) && now <= to ==> Within(log.pending, lastSignalTime, to)
      ensures Within(log.pending, lastSignalTime, now)
    {
      hide Accounts, Total, Throughputs, Last, Received, Tiles;
      ArrivalKeeps(log, arrivals, clock, Arrival(now, length));
      totalLength := totalLength + length;
      log, arrivals, clock := WithArrival(log, Arrival(now, length)), arrivals + [Arrival(now, length)], now;
    }

    /** An interval has passed. */
    method CloseWindows(now: int)
      requires Keeps() && clock <= now && lastSignalTime + interval <= now
      requires Within(log.pending, lastSignalTime, lastSignalTime + interval) && |log.pending| <= numLengths + 1
      modifies this
      ensures Valid() && clock == now && arrivals == old(arrivals) && numLengths == 0 && !carried
      ensures Passes(old(log), log, now, interval, emitIntermediateZeros) && log.start == old(log.start) && now <= lastSignalTime + interval
      ensures ClosesAt(old(log), log, old(lastSignalTime) + interval) && (emitIntermediateZeros ==> now < lastSignalTime + interval)
    {
      hide Accounts, Total, Throughputs, Last, Within;
      EmitThroughput(lastSignalTime + interval, now);
      if emitIntermediateZeros {
        while lastSignalTime + interval <= now
          invariant Valid() && clock == now && arrivals == old(arrivals) && log.start == old(log.start) && lastSignalTime <= now
          invariant numLengths == 0 && !carried && ClosesIntervals(old(log), log, interval)
          decreases now - lastSignalTime
        {
          EmitThroughput(lastSignalTime + interval, now);
        }
      } else {
        if lastSignalTime + interval <= now { // nothing has arrived for long
          NothingPending(lastSignalTime, now - interval);
          EmitThroughput(now - interval, now);
        }
      }
    }

    method ReceiveSignal(length: int, now: int)
      requires Valid() && clock <= now
      modifies this
      ensures Valid() && arrivals == old(arrivals) + [Arrival(now, length)] && clock == now && log.start == old(log.start)
      ensures var limited := numLengthLimit > 0 && old(numLengths) + 1 == numLengthLimit;
        Receives(old(log), log, Arrival(now, length), interval, limited, emitIntermediateZeros)
      ensures numLengthLimit > 0 && old(numLengths) + 1 == numLengthLimit ==>
        numLengths == 0 && !carried && |log.windows[|log.windows| - 1].arrivals| == numLengthLimit + Uncounted(old(carried))
      ensures !(numLengthLimit > 0 && old(numLengths) + 1 == numLengthLimit) ==>
        if old(lastSignalTime) + interval <= now then
          && numLengths == 0 && carried && ClosesAt(old(log), log, old(lastSignalTime) + interval)
          && (emitIntermediateZeros ==> now < lastSignalTime + interval)
        else numLengths == old(numLengths) + 1 && carried == old(carried)
    {
      hide Accounts, Total, Throughputs, Last, Within, Passes;
      numLengths := numLengths + 1;
      assert numLengthLimit == 0 || numLengths <= numLengthLimit;
      if numLengthLimit > 0 && numLengths == numLengthLimit {
        AddLength(length, now);
        EmitThroughput(now, now);
      } else if lastSignalTime + interval <= now {
        CloseWindows(now);
        ghost var closed := log;
        AddLength(length, now);
        carried := true;
        assert log.(pending := []) == closed;
      } else {
        AddLength(length, now);
      }
    }

    /** Closes the last window, unless it has no duration: then what is pending is never fired. */
    method Finish(now: int)
      requires Valid() && clock <= now
      modifies this
      ensures Valid() && arrivals == old(arrivals) && clock == now && log.start == old(log.start) && lastSignalTime == now
      ensures Total(arrivals) == TotalAmount(log.windows) <==> old(lastSignalTime) < now || old(totalLength) == 0
      ensures Finishes(old(log), log, interval, now, emitIntermediateZeros)
      ensures old(lastSignalTime) < now <= old(lastSignalTime) + interval ==> log == Close(old(log), now)
      ensures old(lastSignalTime) + interval < now ==> ClosesAt(old(log), log, old(lastSignalTime) + interval)
    {
      hide Total, Throughputs, Last, Within, Tiles, Received, TotalAmount;
      ghost var was := lastSignalTime;
      if lastSignalTime < now {
        if lastSignalTime + interval < now {
          EmitThroughput(lastSignalTime + interval, now);
          if emitIntermediateZeros {
            while lastSignalTime + interval < now
              invariant Valid() && clock == now && arrivals == old(arrivals) && log.start == old(log.start) && lastSignalTime < now
              invariant ClosesIntervals(old(log), log, interval)
              decreases now - lastSignalTime
            {
              EmitThroughput(lastSignalTime + interval, now);
            }
          }
          NothingPending(lastSignalTime, now);
        }
        WithinLonger(log.pending, lastSignalTime, clock, now);
        ghost var closed := log.windows;
        EmitThroughput(now, now);
        assert log.windows[..|log.windows| - 1] == closed;
      }
      AllIsAccountedFor(log, arrivals, now);
      assert Total([]) == 0 by { NoTotal(); }
      clock := now;
    }
  }

  /** The packet that ends an interval is pending, but not counted. */
  function Uncounted(carried: bool): nat { if carried then 1 else 0 }

  /** With an interval of 10 and a limit of 2, packets at 10, 11 and 12 share a window. */
  method LimitIsExceeded() returns (f: ThroughputFilter)
    ensures f.Valid() && f.interval == 10 && f.numLengthLimit == 2
    ensures f.log.windows == [Window(0, 10, []), Window(10, 12, [Arrival(10, 1), Arrival(11, 1), Arrival(12, 1)])]
  {
    hide Passes, Tiles, Within, Received, Total, Throughputs;
    f := new ThroughputFilter(10, 2, false, 0);
    f.ReceiveSignal(1, 10);
    FirstInterval(f.log, Arrival(10, 1));
    f.ReceiveSignal(1, 11);
    f.ReceiveSignal(1, 12);
    ghost var pending := [Arrival(10, 1)] + [Arrival(11, 1)] + [Arrival(12, 1)];
    assert f.log == Log(0, [Window(0, 10, [])] + [Window(10, 12, pending)], []);
    assert pending == [Arrival(10, 1), Arrival(11, 1), Arrival(12, 1)];
  }

  // ------------------------------------------------------------ what is fired

  /** When the value before was fired, or the filter started. */
  function Before(fired: seq<Emission>, start: int, i: nat): int
    requires i <= |fired|
  {
    if i == 0 then start else fired[i - 1].time
  }

  /** The fired values, each for the time since the one before it. */
  function Fired(fired: seq<Emission>, start: int): real
  {
    if fired == [] then 0.0
    else
      var n := |fired| - 1;
      Fired(fired[..n], start) + Worth(fired[n], Before(fired, start, n))
  }

  /** What is in windows without a duration. */
  function Unfired(windows: seq<Window>): int
  {
    if windows == [] then 0
    else
      var w := windows[|windows| - 1];
      Unfired(windows[..|windows| - 1]) + if w.start == w.end then Total(w.arrivals) else 0
  }

  /** One value for each window, at its end; over the duration of the window, if it has one, it gives what the window holds. */
  predicate FiresBits(fired: seq<Emission>, windows: seq<Window>, start: int)
  {
    && |fired| == |windows|
    && forall i :: 0 <= i < |fired| ==> fired[i].time == windows[i].end && FiresBitsAt(fired, windows, start, i)
  }

  predicate FiresBitsAt(fired: seq<Emission>, windows: seq<Window>, start: int, i: nat)
    requires i < |fired| == |windows|
  {
    var duration := fired[i].time - Before(fired, start, i);
    duration != 0 ==> fired[i].value.Some? && fired[i].value.value * duration as real == Total(windows[i].arrivals) as real
  }

  lemma RateTimesDuration(amount: int, duration: int)
    requires duration != 0
    ensures amount as real / duration as real * duration as real == amount as real
  {
  }

  /** Each window begins where the values before it end. */
  lemma WindowStarts(log: Log, fired: seq<Emission>, i: nat)
    requires Tiles(log) && i < |fired| == |log.windows| && forall k :: 0 <= k < |fired| ==> fired[k].time == log.windows[k].end
    ensures Before(fired, log.start, i) == log.windows[i].start
  {
    if i > 0 {
      var j := i - 1;
      assert log.windows[j].end == log.windows[i].start;
    }
  }

  lemma {:induction false} ThroughputAt(windows: seq<Window>, i: nat)
    requires i < |windows|
    ensures |Throughputs(windows)| == |windows|
    ensures var w := windows[i]; Throughputs(windows)[i] == Emission(w.end, Rate(Total(w.arrivals), w.end - w.start))
  {
    hide Rate, Total;
    var front := windows[..|windows| - 1];
    if i < |front| {
      ThroughputAt(front, i);
    } else if front != [] {
      ThroughputAt(front, 0);
    }
  }

  lemma ThroughputFiresAt(log: Log, i: nat)
    requires Tiles(log) && i < |log.windows|
    ensures |Throughputs(log.windows)| == |log.windows|
    ensures Throughputs(log.windows)[i].value.Some? <==> log.windows[i].start != log.windows[i].end
    ensures Throughputs(log.windows)[i].time == log.windows[i].end && FiresBitsAt(Throughputs(log.windows), log.windows, log.start, i)
  {
    hide Tiles, Throughputs, Total;
    var fired, w := Throughputs(log.windows), log.windows[i];
    forall k | 0 <= k < |log.windows| ensures |fired| == |log.windows| && fired[k].time == log.windows[k].end {
      ThroughputAt(log.windows, k);
    }
    ThroughputAt(log.windows, i);
    WindowStarts(log, fired, i);
    if w.end != w.start { RateTimesDuration(Total(w.arrivals), w.end - w.start); }
  }

  lemma ThroughputsFireBits(log: Log)
    requires Tiles(log)
    ensures FiresBits(Throughputs(log.windows), log.windows, log.start)
    ensures forall i :: 0 <= i < |log.windows| ==>
      (Throughputs(log.windows)[i].value.Some? <==> log.windows[i].start != log.windows[i].end)
  {
    hide Tiles, FiresBitsAt;
    var fired := Throughputs(log.windows);
    forall i | 0 <= i < |log.windows|
      ensures |fired| == |log.windows| && fired[i].time == log.windows[i].end && FiresBitsAt(fired, log.windows, log.start, i)
      ensures fired[i].value.Some? <==> log.windows[i].start != log.windows[i].end
    {
      ThroughputFiresAt(log, i);
    }
  }

  lemma FiresAtInFront(fired: seq<Emission>, windows: seq<Window>, start: int, n: nat, i: nat)
    requires |fired| == |windows| && i < n <= |fired|
    ensures Before(fired[..n], start, i) == Before(fired, start, i)
    ensures FiresBitsAt(fired[..n], windows[..n], start, i) <==> FiresBitsAt(fired, windows, start, i)
  {
    hide Total;
  }

  lemma FiresInFront(fired: seq<Emission>, windows: seq<Window>, start: int, n: nat)
    requires FiresBits(fired, windows, start) && n <= |fired|
    ensures FiresBits(fired[..n], windows[..n], start)
    ensures forall i :: 0 <= i < n ==> Before(fired[..n], start, i) == Before(fired, start, i)
  {
    hide FiresBitsAt, Before;
    forall i | 0 <= i < n
      ensures FiresBitsAt(fired[..n], windows[..n], start, i) && Before(fired[..n], start, i) == Before(fired, start, i)
    {
      FiresAtInFront(fired, windows, start, n, i);
    }
  }

  /** What one value stands for. */
  function Worth(e: Emission, before: int): real
  {
    match e.value case None => 0.0 case Some(x) => x * (e.time - before) as real
  }

  lemma WorthIsBits(fired: seq<Emission>, windows: seq<Window>, start: int, i: nat)
    requires FiresBits(fired, windows, start) && i < |fired| && Before(fired, start, i) == windows[i].start
    ensures var w := windows[i];
      Worth(fired[i], w.start) + (if w.start == w.end then Total(w.arrivals) else 0) as real == Total(w.arrivals) as real
  {
    hide Total;
    assert FiresBitsAt(fired, windows, start, i);
  }

  lemma {:induction false} FiredAndUnfired(fired: seq<Emission>, windows: seq<Window>, start: int)
    requires FiresBits(fired, windows, start)
    requires forall i :: 0 <= i < |windows| ==> Before(fired, start, i) == windows[i].start
    ensures Fired(fired, start) + Unfired(windows) as real == TotalAmount(windows) as real
    decreases |fired|
  {
    if fired != [] {
      var n := |fired| - 1;
      FiresInFront(fired, windows, start, n);
      WorthIsBits(fired, windows, start, n);
      hide FiresBits, Worth, Before;
      FiredAndUnfired(fired[..n], windows[..n], start);
    }
  }

  /** No bit is lost: what is fired for the time it stands for, what windows without a duration hold, and what is pending. */
  lemma FiredBitsAddUp(log: Log, fired: seq<Emission>, arrivals: seq<Arrival>, now: int)
    requires Accounts(log, arrivals, now) && FiresBits(fired, log.windows, log.start)
    ensures Fired(fired, log.start) + Unfired(log.windows) as real + Total(log.pending) as real == Total(arrivals) as real
  {
    hide FiresBits, Fired, Unfired, Total, TotalAmount;
    AllIsAccountedFor(log, arrivals, now);
    assert |fired| == |log.windows| && forall k :: 0 <= k < |fired| ==> fired[k].time == log.windows[k].end by { TimesAreEnds(fired, log); }
    forall i | 0 <= i < |log.windows| ensures Before(fired, log.start, i) == log.windows[i].start {
      WindowStarts(log, fired, i);
    }
    FiredAndUnfired(fired, log.windows, log.start);
  }

  lemma TimesAreEnds(fired: seq<Emission>, log: Log)
    requires FiresBits(fired, log.windows, log.start)
    ensures |fired| == |log.windows| && forall k :: 0 <= k < |fired| ==> fired[k].time == log.windows[k].end
  {
  }

  lemma {:induction false} SizeIsTotal(arrivals: seq<Arrival>)
    requires forall i :: 0 <= i < |arrivals| ==> arrivals[i].amount == 1
    ensures Total(arrivals) == |arrivals|
  {
    if arrivals != [] {
      SizeIsTotal(arrivals[..|arrivals| - 1]);
    }
  }

  lemma PendingAreOnes(log: Log, arrivals: seq<Arrival>)
    requires arrivals == Received(log.windows) + log.pending && forall i :: 0 <= i < |arrivals| ==> arrivals[i].amount == 1
    ensures forall i :: 0 <= i < |log.pending| ==> log.pending[i].amount == 1
  {
    var n := |Received(log.windows)|;
    assert forall i :: 0 <= i < |log.pending| ==> log.pending[i] == arrivals[n + i];
  }

  lemma {:induction false} WindowsHoldOnes(windows: seq<Window>, i: nat)
    requires i < |windows| && forall k :: 0 <= k < |Received(windows)| ==> Received(windows)[k].amount == 1
    ensures Total(windows[i].arrivals) == |windows[i].arrivals|
  {
    var front, w := windows[..|windows| - 1], windows[|windows| - 1];
    var n := |Received(front)|;
    if i == |front| {
      assert forall k :: 0 <= k < |w.arrivals| ==> w.arrivals[k] == Received(windows)[n + k];
      SizeIsTotal(w.arrivals);
    } else {
      assert forall k :: 0 <= k < n ==> Received(front)[k] == Received(windows)[k];
      WindowsHoldOnes(front, i);
    }
  }

  lemma {:induction false} PacketRateAt(windows: seq<Window>, i: nat)
    requires i < |windows|
    ensures |PacketRates(windows)| == |windows|
    ensures var w := windows[i]; PacketRates(windows)[i] == Emission(w.end, Some(RateOrZero(|w.arrivals|, w.end - w.start)))
  {
    hide RateOrZero;
    var front := windows[..|windows| - 1];
    if i < |front| {
      PacketRateAt(front, i);
    } else if front != [] {
      PacketRateAt(front, 0);
    }
  }

  lemma PacketRatesFirePackets(log: Log, arrivals: seq<Arrival>, now: int)
    requires Accounts(log, arrivals, now) && forall i :: 0 <= i < |arrivals| ==> arrivals[i].amount == 1
    ensures FiresBits(PacketRates(log.windows), log.windows, log.start)
    ensures forall i :: 0 <= i < |log.windows| && log.windows[i].start == log.windows[i].end ==>
      PacketRates(log.windows)[i].value == Some(0.0)
  {
    var fired := PacketRates(log.windows);
    assert forall k :: 0 <= k < |Received(log.windows)| ==> Received(log.windows)[k] == arrivals[k];
    hide Tiles, PacketRates, Total, Received;
    if log.windows != [] { PacketRateAt(log.windows, 0); } else { assert |fired| == 0 by { NoRates(); } }
    forall i | 0 <= i < |log.windows|
      ensures fired[i].time == log.windows[i].end && (log.windows[i].start == log.windows[i].end ==> fired[i].value == Some(0.0))
    {
      PacketRateAt(log.windows, i);
    }
    forall i | 0 <= i < |log.windows| ensures FiresBitsAt(fired, log.windows, log.start, i) {
      PacketRateAt(log.windows, i);
      WindowStarts(log, fired, i);
      WindowsHoldOnes(log.windows, i);
      var w := log.windows[i];
      if w.end != w.start { RateTimesDuration(|w.arrivals|, w.end - w.start); }
    }
  }

  lemma NoRates()
    ensures PacketRates([]) == []
  {
  }

  /** A packet at the end of the last window: with an interval of 10, one at 10 is lost when the filter finishes then. */
  method EndIsLost() returns (f: ThroughputFilter)
    ensures f.Valid() && f.log.windows == [Window(0, 10, [])] && f.arrivals == [Arrival(10, 1)]
    ensures Total(f.arrivals) != TotalAmount(f.log.windows)
  {
    hide Passes, Tiles, Within, Received, Throughputs;
    f := new ThroughputFilter(10, 0, false, 0);
    f.ReceiveSignal(1, 10);
    FirstInterval(f.log, Arrival(10, 1));
    assert [Arrival(10, 1)][..0] == [];
    f.Finish(10);
  }

  lemma FirstInterval(log: Log, a: Arrival)
    requires Receives(Log(0, [], []), log, a, 10, false, false) && Tiles(log) && a.time == 10
    ensures log == Log(0, [Window(0, 10, [])], [a])
  {
  }

  lemma WithinLonger(arrivals: seq<Arrival>, from: int, to: int, later: int)
    requires Within(arrivals, from, to) && to <= later
    ensures Within(arrivals, from, later)
  {
  }

  lemma NoTotal()
    ensures Total([]) == 0
  {
  }

  lemma NothingPending(from: int, to: int)
    ensures Within([], from, to)
  {
  }

  // ------------------------------------------------------------ packet rate

  function PacketRates(windows: seq<Window>): seq<Emission>
  {
    if windows == [] then []
    else
      var w := windows[|windows| - 1];
      PacketRates(windows[..|windows| - 1]) + [Emission(w.end, Some(RateOrZero(|w.arrivals|, w.end - w.start)))]
  }

  function RateOrZero(amount: int, duration: int): real
  {
    if duration == 0 then 0.0 else amount as real / duration as real
  }

  class PacketRateFilter {
    const interval: int
    const emitIntermediateZeros: bool
    var lastSignalTime: int
    var numPackets: nat
    var fired: seq<Emission>
    ghost var clock: int
    ghost var arrivals: seq<Arrival>
    ghost var log: Log

    ghost predicate Valid()
      reads this
    {
      && interval > 0 && Accounts(log, arrivals, clock) && lastSignalTime <= clock
      && lastSignalTime == Last(log) && numPackets == |log.pending| && fired == PacketRates(log.windows)
      && (forall i :: 0 <= i < |arrivals| ==> arrivals[i].amount == 1)
      && Within(log.pending, lastSignalTime, lastSignalTime + interval)
    }

    constructor (interval: int, emitIntermediateZeros: bool, now: int)
      requires interval > 0
      ensures Valid() && arrivals == [] && fired == [] && clock == now && log.start == now
      ensures this.interval == interval && this.emitIntermediateZeros == emitIntermediateZeros
    {
      this.interval, this.emitIntermediateZeros := interval, emitIntermediateZeros;
      lastSignalTime, numPackets, fired := now, 0, [];
      clock, arrivals, log := now, [], Log(now, [], []);
    }

    /** The values fired so far account for all packets, with those in windows without a duration and what is pending. */
    lemma FiredAccounts()
      requires Valid()
      ensures FiresBits(fired, log.windows, log.start)
      ensures forall i :: 0 <= i < |fired| && log.windows[i].start == log.windows[i].end ==> fired[i].value == Some(0.0)
      ensures Fired(fired, log.start) + Unfired(log.windows) as real + numPackets as real == |arrivals| as real
    {
      PacketRatesFirePackets(log, arrivals, clock);
      FiredBitsAddUp(log, fired, arrivals, clock);
      SizeIsTotal(arrivals);
      PendingAreOnes(log, arrivals);
      SizeIsTotal(log.pending);
    }

    method EmitPacketRate(endInterval: int, ghost now: int)
      requires Valid() && clock <= now && lastSignalTime <= endInterval <= now && Within(log.pending, lastSignalTime, endInterval)
      modifies this
      ensures Valid() && log == Close(old(log), endInterval) && clock == now && arrivals == old(arrivals) && lastSignalTime == endInterval
    {
      hide Accounts, Last, Within;
      CloseKeeps(log, arrivals, clock, endInterval, now);
      NothingPending(endInterval, endInterval + interval);
      fired := fired + [Emission(endInterval, Some(RateOrZero(numPackets, endInterval - lastSignalTime)))];
      lastSignalTime := endInterval;
      numPackets := 0;
      log, clock := Close(log, endInterval), now;
    }

    /** A packet arrives; the windows that have passed are closed before it is counted. */
    method ReceiveSignal(now: int)
      requires Valid() && clock <= now
      modifies this
      ensures Valid() && arrivals == old(arrivals) + [Arrival(now, 1)] && clock == now && log.start == old(log.start)
      ensures Receives(old(log), log, Arrival(now, 1), interval, false, emitIntermediateZeros)
      ensures if old(lastSignalTime) + interval <= now then numPackets == 1 && ClosesAt(old(log), log, old(lastSignalTime) + interval)
              else numPackets == old(numPackets) + 1 && log.windows == old(log.windows)
      ensures emitIntermediateZeros ==> now < lastSignalTime + interval
    {
      hide Accounts, Total, PacketRates, Last, Within;
      if lastSignalTime + interval <= now {
        EmitPacketRate(lastSignalTime + interval, now);
        if emitIntermediateZeros {
          while lastSignalTime + interval <= now
            invariant Valid() && clock == now && arrivals == old(arrivals) && log.start == old(log.start)
            invariant ClosesIntervals(old(log), log, interval)
            decreases now - lastSignalTime
          {
            EmitPacketRate(lastSignalTime + interval, now);
          }
        } else {
          if lastSignalTime + interval <= now {
            NothingPending(lastSignalTime, now - interval);
            EmitPacketRate(now - interval, now);
          }
        }
      }
      ArrivalKeeps(log, arrivals, clock, Arrival(now, 1));
      numPackets := numPackets + 1;
      log, arrivals, clock := WithArrival(log, Arrival(now, 1)), arrivals + [Arrival(now, 1)], now;
    }

    method Finish(now: int)
      requires Valid() && clock <= now
      modifies this
      ensures Valid() && arrivals == old(arrivals) && clock == now && log.start == old(log.start) && lastSignalTime == now
      ensures log.pending == [] <==> old(lastSignalTime) < now || old(numPackets) == 0
      ensures Finishes(old(log), log, interval, now, emitIntermediateZeros)
      ensures old(lastSignalTime) < now <= old(lastSignalTime) + interval ==> log == Close(old(log), now)
      ensures old(lastSignalTime) + interval < now ==> ClosesAt(old(log), log, old(lastSignalTime) + interval)
    {
      hide Total, PacketRates, Last, Within, Tiles, Received;
      if lastSignalTime < now {
        if lastSignalTime + interval < now {
          EmitPacketRate(lastSignalTime + interval, now);
          if emitIntermediateZeros {
            while lastSignalTime + interval < now
              invariant Valid() && clock == now && arrivals == old(arrivals) && log.start == old(log.start) && lastSignalTime < now
              invariant ClosesIntervals(old(log), log, interval)
              decreases now - lastSignalTime
            {
              EmitPacketRate(lastSignalTime + interval, now);
            }
          }
          NothingPending(lastSignalTime, now);
        }
        WithinLonger(log.pending, lastSignalTime, clock, now);
        ghost var closed := log.windows;
        EmitPacketRate(now, now);
        assert log.windows[..|log.windows| - 1] == closed;
      }
      clock := now;
    }
  }

  // ------------------------------------------------------------ utilization

  /** The signal takes a new value; before the first change it is 0. */
  datatype Change = Change(time: int, value: int)

  /** How long the signal has been 1 up to a time. */
  function BusyTime(changes: seq<Change>, t: int): int
  {
    if changes == [] then 0
    else
      var (front, c) := (changes[..|changes| - 1], changes[|changes| - 1]);
      if c.time <= t then BusyTime(front, c.time) + c.value * (t - c.time) else BusyTime(front, t)
  }

  predicate IsSignal(changes: seq<Change>, now: int)
  {
    && (forall i :: 0 <= i < |changes| ==> changes[i].time <= now && (changes[i].value == 0 || changes[i].value == 1))
    && (forall i, j :: 0 <= i < j < |changes| ==> changes[i].time <= changes[j].time)
  }

  function LastValue(changes: seq<Change>): int { if changes == [] then 0 else changes[|changes| - 1].value }

  /** The value of the signal in the tick that begins at a time. */
  function ValueAt(changes: seq<Change>, t: int): int
  {
    if changes == [] then 0
    else
      var c := changes[|changes| - 1];
      if c.time <= t then c.value else ValueAt(changes[..|changes| - 1], t)
  }

  /** The ticks from `s` to `t` in which the signal is 1. */
  function TicksAtOne(changes: seq<Change>, s: int, t: int): int
    decreases t - s
  {
    if t <= s then 0 else TicksAtOne(changes, s, t - 1) + ValueAt(changes, t - 1)
  }

  lemma {:induction false} BusyTimeOfTick(changes: seq<Change>, now: int, t: int)
    requires IsSignal(changes, now)
    ensures BusyTime(changes, t + 1) == BusyTime(changes, t) + ValueAt(changes, t)
    decreases |changes|
  {
    if changes != [] {
      var front, c := changes[..|changes| - 1], changes[|changes| - 1];
      if c.time <= t {
        assert c.value * (t + 1 - c.time) == c.value * (t - c.time) + c.value;
      } else {
        BusyTimeOfTick(front, now, t);
        if c.time == t + 1 { assert c.value * 0 == 0; }
      }
    }
  }

  /** The busy time between two times is the number of ticks between them in which the signal is 1. */
  lemma {:induction false} BusyTimeIsIntegral(changes: seq<Change>, now: int, s: int, t: int)
    requires IsSignal(changes, now) && s <= t
    ensures BusyTime(changes, t) - BusyTime(changes, s) == TicksAtOne(changes, s, t)
    decreases t - s
  {
    if s < t {
      BusyTimeIsIntegral(changes, now, s, t - 1);
      BusyTimeOfTick(changes, now, t - 1);
    }
  }

  /** Between two times the signal can be 1 for no longer than the time between them. */
  lemma {:induction false} BusyTimeIsBounded(changes: seq<Change>, now: int, s: int, t: int)
    requires IsSignal(changes, now) && s <= t
    ensures 0 <= BusyTime(changes, t) - BusyTime(changes, s) <= t - s
    decreases |changes|
  {
    if changes != [] {
      var front, c := changes[..|changes| - 1], changes[|changes| - 1];
      assert c.value == 0 || c.value == 1;
      if c.time <= s {
        assert c.value * (t - c.time) - c.value * (s - c.time) == c.value * (t - s);
      } else if c.time <= t {
        BusyTimeIsBounded(front, now, s, c.time);
      } else {
        BusyTimeIsBounded(front, now, s, t);
      }
    }
  }

  /** After the last change the busy time grows with the last value. */
  lemma BusyTimeGrows(changes: seq<Change>, now: int, s: int, t: int)
    requires IsSignal(changes, s) && s <= t
    ensures BusyTime(changes, t) == BusyTime(changes, s) + LastValue(changes) * (t - s)
  {
  }

  /** A later change leaves the past alone. */
  lemma PastIsFixed(changes: seq<Change>, c: Change, t: int)
    requires IsSignal(changes, c.time) && t <= c.time
    ensures BusyTime(changes + [c], t) == BusyTime(changes, t)
  {
    assert (changes + [c])[..|changes|] == changes;
  }

  datatype Span = Span(start: int, end: int)

  datatype Utilization = Utilization(time: int, value: real)

  /** The exact share of a span that the signal was 1. */
  function Share(changes: seq<Change>, span: Span): real
  {
    RateOrZero(BusyTime(changes, span.end) - BusyTime(changes, span.start), span.end - span.start)
  }

  predicate SpansTile(spans: seq<Span>, start: int, end: int)
  {
    && (forall i :: 0 <= i < |spans| ==> spans[i].start <= spans[i].end <= end)
    && (forall i, j :: 0 <= i < j == i + 1 < |spans| ==> spans[i].end == spans[j].start)
    && (if spans == [] then start == end else spans[0].start == start && spans[|spans| - 1].end == end)
  }

  predicate LastSpans(spans: seq<Span>, n: nat, interval: int)
  {
    forall i :: n <= i < |spans| ==> spans[i].end == spans[i].start + interval
  }

  /** A window of an interval from `last` on has been closed, and perhaps more of them. */
  predicate ClosesSpans(before: seq<Span>, last: int, after: seq<Span>, interval: int)
  {
    && |after| > |before| && before == after[..|before|] && after[|before|] == Span(last, last + interval)
    && LastSpans(after, |before|, interval)
  }

  /** What a new value does to the windows; `last` and `then'` are the times of the last firing before and after it. */
  predicate SpansReceive(before: seq<Span>, last: int, after: seq<Span>, then': int, now: int, interval: int, limited: bool, values: bool)
  {
    if limited then
      after == before + [Span(last, now)]
    else if last + interval <= now then
      && |after| > |before| && before == after[..|before|] && after[|before|] == Span(last, last + interval)
      && (if values then LastSpans(after, |before|, interval) && now < then' + interval
          else |after| == |before| + 1 || (|after| == |before| + 2 && then' == now - interval))
    else
      after == before
  }

  predicate SpansFinish(before: seq<Span>, last: int, after: seq<Span>, now: int, interval: int, values: bool)
  {
    if last < now then
      && |after| > |before| && before == after[..|before|]
      && (values ==> LastSpans(after[..|after| - 1], |before|, interval))
      && (values ==> now - after[|after| - 1].start <= interval)
    else
      after == before
  }

  predicate AreShares(fired: seq<Utilization>, spans: seq<Span>, changes: seq<Change>)
  {
    |fired| == |spans| && forall i :: 0 <= i < |fired| ==> fired[i] == Utilization(spans[i].end, Share(changes, spans[i]))
  }

  function Clamp(x: real): real { if x < 0.0 then 0.0 else if x > 1.0 then 1.0 else x }

  /** The share is between 0 and 1, so that the clamp changes nothing. */
  lemma ShareIsBounded(changes: seq<Change>, now: int, span: Span)
    requires IsSignal(changes, now) && span.start <= span.end
    ensures 0.0 <= Share(changes, span) <= 1.0 && Clamp(Share(changes, span)) == Share(changes, span)
  {
    BusyTimeIsBounded(changes, now, span.start, span.end);
    RatioIsBounded(BusyTime(changes, span.end) - BusyTime(changes, span.start), span.end - span.start);
  }

  lemma QuotientIsBounded(x: real, y: real)
    requires 0.0 <= x <= y && y > 0.0
    ensures 0.0 <= x / y <= 1.0
  {
  }

  lemma RatioIsBounded(x: int, y: int)
    requires 0 <= x <= y
    ensures 0.0 <= RateOrZero(x, y) <= 1.0
  {
    if y > 0 {
      QuotientIsBounded(x as real, y as real);
    }
  }

  class UtilizationFilter {
    const interval: int
    const numValueLimit: nat
    const emitIntermediateValues: bool
    var lastSignalTime: int
    var totalValueTime: int
    var lastValue: int
    var totalValue: int
    var numValues: nat
    var fired: seq<Utilization>
    ghost var start: int
    ghost var changes: seq<Change>
    ghost var spans: seq<Span>
    /** How many values belong to the windows closed so far: the one that reaches the limit is the last of its window. */
    ghost var counted: nat
    ghost var carried: bool   // whether the first value since then ended an interval, uncounted

    ghost predicate Keeps()
      reads this
    {
      && interval > 0 && lastSignalTime <= totalValueTime
      && IsSignal(changes, totalValueTime) && lastValue == LastValue(changes)
      && totalValue == BusyTime(changes, totalValueTime) - BusyTime(changes, lastSignalTime)
      && SpansTile(spans, start, lastSignalTime) && AreShares(fired, spans, changes)
    }

    ghost predicate Valid()
      reads this
    {
      Keeps() && totalValueTime <= lastSignalTime + interval && numValues < numValueLimit && |changes| == counted + numValues + Uncounted(carried)
    }

    /** The limit counts two values for each packet. */
    constructor (interval: int, configuredLimit: nat, emitIntermediateValues: bool, now: int)
      requires interval > 0 && configuredLimit > 0
      ensures Valid() && changes == [] && fired == [] && start == totalValueTime == lastSignalTime == now
      ensures this.interval == interval && this.emitIntermediateValues == emitIntermediateValues
      ensures numValueLimit == 2 * configuredLimit
    {
      this.interval, this.emitIntermediateValues, numValueLimit := interval, emitIntermediateValues, 2 * configuredLimit;
      lastSignalTime, totalValueTime, lastValue, totalValue, numValues, fired := now, now, 0, 0, 0, [];
      start, changes, spans, counted, carried := now, [], [], 0, false;
    }

    method UpdateTotalValue(time: int)
      requires Keeps() && totalValueTime <= time
      modifies this`totalValue, this`totalValueTime
      ensures Keeps() && totalValueTime == time
    {
      hide BusyTime, AreShares, SpansTile;
      BusyTimeGrows(changes, time, totalValueTime, time);
      SignalLater(changes, totalValueTime, time);
      totalValue := totalValue + lastValue * (time - totalValueTime);
      totalValueTime := time;
    }

    method EmitUtilization(time: int)
      requires Keeps() && totalValueTime == time && numValueLimit > 0
      modifies this`fired, this`lastSignalTime, this`totalValue, this`numValues, this`spans, this`counted, this`carried
      ensures Valid() && counted == |changes| && numValues == 0 && !carried && lastSignalTime == time && spans == old(spans) + [Span(old(lastSignalTime), time)]
    {
      hide BusyTime, IsSignal, AreShares, SpansTile;
      var utilization := if time == lastSignalTime then 0.0 else totalValue as real / (time - lastSignalTime) as real;
      ShareIsBounded(changes, totalValueTime, Span(lastSignalTime, time));
      assert utilization == Share(changes, Span(lastSignalTime, time));
      utilization := Clamp(utilization);
      SharesGrow(fired, spans, changes, Span(lastSignalTime, time));
      fired := fired + [Utilization(time, utilization)];
      SpansGrow(spans, start, lastSignalTime, time);
      spans := spans + [Span(lastSignalTime, time)];
      lastSignalTime := time;
      totalValue := 0;
      numValues := 0;
      counted, carried := |changes|, false;
    }

    /** The windows that have passed when a value comes after the end of an interval. */
    method CloseWindows(now: int)
      requires Keeps() && numValueLimit > 0 && totalValueTime <= lastSignalTime + interval <= now
      modifies this`fired, this`lastSignalTime, this`totalValue, this`totalValueTime, this`numValues, this`spans, this`counted, this`carried
      ensures Valid() && counted == |changes| && numValues == 0 && !carried && totalValueTime == lastSignalTime <= now <= lastSignalTime + interval
      ensures SpansReceive(old(spans), old(lastSignalTime), spans, lastSignalTime, now, interval, false, emitIntermediateValues)
    {
      hide BusyTime, IsSignal, AreShares, SpansTile;
      UpdateTotalValue(lastSignalTime + interval);
      EmitUtilization(lastSignalTime + interval);
      if emitIntermediateValues {
        while lastSignalTime + interval <= now
          invariant Valid() && totalValueTime == lastSignalTime <= now
          invariant counted == |changes| && numValues == 0 && !carried && ClosesSpans(old(spans), old(lastSignalTime), spans, interval)
          decreases now - lastSignalTime
        {
          UpdateTotalValue(lastSignalTime + interval);
          EmitUtilization(lastSignalTime + interval);
        }
      } else {
        if lastSignalTime + interval <= now {
          UpdateTotalValue(now - interval);
          EmitUtilization(now - interval);
        }
      }
    }

    /** The signal takes a new value. */
    method Process(value: int, now: int)
      requires Valid() && (value == 0 || value == 1) && totalValueTime <= now
      modifies this
      ensures Valid() && changes == old(changes) + [Change(now, value)] && totalValueTime == now && start == old(start)
      ensures var limited := old(numValues) + 1 == numValueLimit;
        SpansReceive(old(spans), old(lastSignalTime), spans, lastSignalTime, now, interval, limited, emitIntermediateValues)
      ensures old(numValues) + 1 == numValueLimit ==> lastSignalTime == now && spans == old(spans) + [Span(old(lastSignalTime), now)]
      ensures old(numValues) + 1 != numValueLimit && old(lastSignalTime) + interval <= now ==>
        && |spans| > |old(spans)| && spans[|old(spans)|] == Span(old(lastSignalTime), old(lastSignalTime) + interval)
        && (emitIntermediateValues ==> now < lastSignalTime + interval)
      ensures old(numValues) + 1 == numValueLimit ==>
        numValues == 0 && !carried && counted == |changes| == old(counted) + numValueLimit + Uncounted(old(carried))
      ensures old(numValues) + 1 != numValueLimit ==>
        if old(lastSignalTime) + interval <= now then numValues == 0 && carried && counted == |old(changes)|
        else numValues == old(numValues) + 1 && carried == old(carried) && counted == old(counted)
    {
      hide BusyTime, IsSignal, AreShares, SpansTile;
      numValues := numValues + 1;
      assert numValues <= numValueLimit;
      if numValueLimit > 0 && numValues == numValueLimit {
        UpdateTotalValue(now);
        EmitUtilization(now);
        counted := counted + 1;
      } else if lastSignalTime + interval <= now {
        CloseWindows(now);
        UpdateTotalValue(now);
        carried := true;
      } else {
        UpdateTotalValue(now);
      }
      ChangeKeeps(changes, Change(now, value), lastSignalTime, fired, spans, start);
      lastValue := value;
      changes := changes + [Change(now, value)];
    }

    method Finish(now: int)
      requires Valid() && totalValueTime <= now
      modifies this
      ensures Valid() && lastSignalTime == now && changes == old(changes) && start == old(start)
      ensures SpansFinish(old(spans), old(lastSignalTime), spans, now, interval, emitIntermediateValues)
      ensures old(lastSignalTime) < now <= old(lastSignalTime) + interval ==> spans == old(spans) + [Span(old(lastSignalTime), now)]
      ensures old(lastSignalTime) + interval < now ==>
        |spans| > |old(spans)| && spans[|old(spans)|] == Span(old(lastSignalTime), old(lastSignalTime) + interval)
    {
      hide BusyTime, IsSignal, AreShares, SpansTile;
      if lastSignalTime < now {
        if lastSignalTime + interval < now {
          UpdateTotalValue(lastSignalTime + interval);
          EmitUtilization(lastSignalTime + interval);
          if emitIntermediateValues {
            while lastSignalTime + interval < now
              invariant Valid() && totalValueTime == lastSignalTime < now && changes == old(changes) && start == old(start)
              invariant ClosesSpans(old(spans), old(lastSignalTime), spans, interval)
              decreases now - lastSignalTime
            {
              UpdateTotalValue(lastSignalTime + interval);
              EmitUtilization(lastSignalTime + interval);
            }
          }
        }
        UpdateTotalValue(now);
        ghost var closed := spans;
        EmitUtilization(now);
        assert spans[..|spans| - 1] == closed;
      }
    }
  }

  lemma SignalLater(changes: seq<Change>, s: int, t: int)
    requires IsSignal(changes, s) && s <= t
    ensures IsSignal(changes, t)
  {
  }

  lemma SharesGrow(fired: seq<Utilization>, spans: seq<Span>, changes: seq<Change>, span: Span)
    requires AreShares(fired, spans, changes)
    ensures AreShares(fired + [Utilization(span.end, Share(changes, span))], spans + [span], changes)
  {
    hide Share;
  }

  lemma SpansGrow(spans: seq<Span>, start: int, s: int, t: int)
    requires SpansTile(spans, start, s) && s <= t
    ensures SpansTile(spans + [Span(s, t)], start, t)
  {
  }

  /** A new value of the signal leaves everything that has been fired the exact share. */
  lemma ChangeKeeps(changes: seq<Change>, c: Change, last: int, fired: seq<Utilization>, spans: seq<Span>, start: int)
    requires IsSignal(changes, c.time) && (c.value == 0 || c.value == 1) && last <= c.time
    requires SpansTile(spans, start, last) && AreShares(fired, spans, changes)
    ensures var more := changes + [c];
      && IsSignal(more, c.time) && LastValue(more) == c.value && AreShares(fired, spans, more)
      && BusyTime(more, c.time) == BusyTime(changes, c.time) && BusyTime(more, last) == BusyTime(changes, last)
  {
    var more := changes + [c];
    hide BusyTime;
    PastIsFixed(changes, c, c.time);
    PastIsFixed(changes, c, last);
    forall i | 0 <= i < |fired| ensures fired[i] == Utilization(spans[i].end, Share(more, spans[i])) {
      PastIsFixed(changes, c, spans[i].start);
      PastIsFixed(changes, c, spans[i].end);
    }
  }

  /** The shares of all windows, weighted with their durations, add up to the time that the signal was 1. */
  lemma {:induction false} SharesAddUp(spans: seq<Span>, changes: seq<Change>, start: int, end: int)
    requires SpansTile(spans, start, end)
    ensures Weighted(spans, changes) == (BusyTime(changes, end) - BusyTime(changes, start)) as real
    decreases |spans|
  {
    hide BusyTime;
    if spans != [] {
      var front, s := spans[..|spans| - 1], spans[|spans| - 1];
      assert |spans| > 1 ==> spans[|spans| - 2].end == s.start;
      assert SpansTile(front, start, s.start) by {
        if front != [] { EndsInOrder(spans); }
      }
      SharesAddUp(front, changes, start, s.start);
      WeightOfShare(BusyTime(changes, s.end) - BusyTime(changes, s.start), s.end - s.start);
      assert s.end == s.start ==> BusyTime(changes, s.end) == BusyTime(changes, s.start);
    }
  }

  function Weighted(spans: seq<Span>, changes: seq<Change>): real
  {
    if spans == [] then 0.0
    else
      var s := spans[|spans| - 1];
      Weighted(spans[..|spans| - 1], changes) + Share(changes, s) * (s.end - s.start) as real
  }

  lemma WeightOfShare(x: int, d: int)
    ensures d != 0 ==> RateOrZero(x, d) * d as real == x as real
  {
  }

  lemma {:induction false} EndsInOrder(spans: seq<Span>)
    requires |spans| > 1
    requires forall i :: 0 <= i < |spans| ==> spans[i].start <= spans[i].end
    requires forall i, j :: 0 <= i < j == i + 1 < |spans| ==> spans[i].end == spans[j].start
    ensures forall i :: 0 <= i < |spans| - 1 ==> spans[i].end <= spans[|spans| - 1].start
    decreases |spans|
  {
    var n := |spans| - 1;
    var k := n - 1;
    assert spans[k].end == spans[n].start;
    if n > 1 {
      EndsInOrder(spans[..n]);
    }
  }
}
