/** What the launch loop promises about its trace: every accepted entry is spawned exactly
    once and in order, whether or not the spawn succeeds; an entry with two markers stops the
    loop; the number of ticks is the sum of the entries' steps; and the percentages shown on
    the splash screen rise from the first tick to the last and never leave 0..100. */
module Timeline {
  import opened Wrappers
  import opened Entry
  import opened Progress
  import opened Sequencer

  // ---------------------------------------------------------------------------------------
  // Views of a trace

  predicate IsSpawn(ev: Event) {
    ev.Spawned? || ev.SpawnFailed?
  }

  function SpawnPart(ev: Event): seq<Event> {
    if IsSpawn(ev) then [ev] else []
  }

  function TickPart(ev: Event): nat {
    if ev.Tick? then 1 else 0
  }

  function PercentPart(ev: Event): seq<real> {
    if ev.Percent? then [ev.value] else []
  }

  /** The spawn attempts of a trace, in order. */
  function Spawns(trace: seq<Event>): seq<Event> {
    if |trace| == 0 then []
    else Spawns(trace[..|trace| - 1]) + SpawnPart(trace[|trace| - 1])
  }

  /** The number of tenth-of-a-second sleeps in a trace. */
  function TickCount(trace: seq<Event>): nat {
    if |trace| == 0 then 0
    else TickCount(trace[..|trace| - 1]) + TickPart(trace[|trace| - 1])
  }

  /** The percentages pushed to the splash screen, in order. */
  function Percents(trace: seq<Event>): seq<real> {
    if |trace| == 0 then []
    else Percents(trace[..|trace| - 1]) + PercentPart(trace[|trace| - 1])
  }

  lemma {:induction false} SpawnsAppend(a: seq<Event>, b: seq<Event>)
    ensures Spawns(a + b) == Spawns(a) + Spawns(b)
    decreases |b|
  {
    if b == [] {
      assert a + b == a;
    } else {
      SpawnsAppend(a, b[..|b| - 1]);
      assert (a + b)[..|a + b| - 1] == a + b[..|b| - 1];
      assert (a + b)[|a + b| - 1] == b[|b| - 1];
    }
  }

  lemma {:induction false} TickCountAppend(a: seq<Event>, b: seq<Event>)
    ensures TickCount(a + b) == TickCount(a) + TickCount(b)
    decreases |b|
  {
    if b == [] {
      assert a + b == a;
    } else {
      TickCountAppend(a, b[..|b| - 1]);
      assert (a + b)[..|a + b| - 1] == a + b[..|b| - 1];
      assert (a + b)[|a + b| - 1] == b[|b| - 1];
    }
  }

  lemma {:induction false} PercentsAppend(a: seq<Event>, b: seq<Event>)
    ensures Percents(a + b) == Percents(a) + Percents(b)
    decreases |b|
  {
    if b == [] {
      assert a + b == a;
    } else {
      PercentsAppend(a, b[..|b| - 1]);
      assert (a + b)[..|a + b| - 1] == a + b[..|b| - 1];
      assert (a + b)[|a + b| - 1] == b[|b| - 1];
    }
  }

  // ---------------------------------------------------------------------------------------
  // The ticks of one wait

  /** The percentages shown during the `n` ticks that follow `start` tenths. */
  function Ramp(start: nat, n: nat, total: real): (ps: seq<real>)
    requires total > 0.0
    ensures |ps| == n
  {
    if n == 0 then [] else Ramp(start, n - 1, total) + [PercentOf(start + n, total)]
  }

  lemma OnceSpawns(elapsed: nat, total: real)
    ensures Spawns(TickOnce(elapsed, total)) == []
  {
    var once := TickOnce(elapsed, total);
    assert once[..|once| - 1] == if total > 0.0 then [Tick] else [];
    if total > 0.0 {
      assert [Tick][..0] == [];
    }
  }

  lemma OnceTicks(elapsed: nat, total: real)
    ensures TickCount(TickOnce(elapsed, total)) == 1
  {
    var once := TickOnce(elapsed, total);
    assert once[..|once| - 1] == if total > 0.0 then [Tick] else [];
    if total > 0.0 {
      assert [Tick][..0] == [];
    }
  }

  lemma OncePercentShown(elapsed: nat, total: real)
    requires total > 0.0
    ensures Percents(TickOnce(elapsed, total)) == [PercentOf(elapsed, total)]
  {
    var once := TickOnce(elapsed, total);
    assert once == [Tick, Percent(PercentOf(elapsed, total))];
    assert once[..1] == [Tick];
    assert [Tick][..0] == [];
  }

  lemma OncePercentHidden(elapsed: nat, total: real)
    requires total <= 0.0
    ensures Percents(TickOnce(elapsed, total)) == []
  {
    assert TickOnce(elapsed, total) == [Tick];
    assert [Tick][..0] == [];
  }

  /** A wait spawns nothing. */
  lemma {:induction false} TickEventsSpawnNothing(start: nat, n: nat, total: real)
    ensures Spawns(TickEvents(start, n, total)) == []
  {
    if n > 0 {
      var prev, once := TickEvents(start, n - 1, total), TickOnce(start + n, total);
      assert TickEvents(start, n, total) == prev + once;
      TickEventsSpawnNothing(start, n - 1, total);
      SpawnsAppend(prev, once);
      OnceSpawns(start + n, total);
      assert Spawns(prev + once) == [] + [];
    }
  }

  /** A wait of `n` steps sleeps `n` times. */
  lemma {:induction false} TickEventsCount(start: nat, n: nat, total: real)
    ensures TickCount(TickEvents(start, n, total)) == n
  {
    if n > 0 {
      var prev, once := TickEvents(start, n - 1, total), TickOnce(start + n, total);
      assert TickEvents(start, n, total) == prev + once;
      TickEventsCount(start, n - 1, total);
      TickCountAppend(prev, once);
      OnceTicks(start + n, total);
      assert TickCount(prev + once) == (n - 1) + 1;
    }
  }

  /** With a splash screen, a wait shows the percentage after each of its ticks. */
  lemma {:induction false} TickEventsShown(start: nat, n: nat, total: real)
    requires total > 0.0
    ensures Percents(TickEvents(start, n, total)) == Ramp(start, n, total)
  {
    if n > 0 {
      var prev, once := TickEvents(start, n - 1, total), TickOnce(start + n, total);
      assert TickEvents(start, n, total) == prev + once;
      TickEventsShown(start, n - 1, total);
      PercentsAppend(prev, once);
      OncePercentShown(start + n, total);
      assert Percents(prev + once) == Ramp(start, n - 1, total) + [PercentOf(start + n, total)];
      assert Ramp(start, n, total) == Ramp(start, n - 1, total) + [PercentOf(start + n, total)];
    }
  }

  /** Without a splash screen, a wait shows nothing. */
  lemma {:induction false} TickEventsHidden(start: nat, n: nat, total: real)
    requires total <= 0.0
    ensures Percents(TickEvents(start, n, total)) == []
  {
    if n > 0 {
      var prev, once := TickEvents(start, n - 1, total), TickOnce(start + n, total);
      assert TickEvents(start, n, total) == prev + once;
      TickEventsHidden(start, n - 1, total);
      PercentsAppend(prev, once);
      OncePercentHidden(start + n, total);
      assert Percents(prev + once) == [] + [];
    }
  }

  lemma {:induction false} RampSplit(start: nat, a: nat, b: nat, total: real)
    requires total > 0.0
    ensures Ramp(start, a, total) + Ramp(start + a, b, total) == Ramp(start, a + b, total)
  {
    if b > 0 {
      RampSplit(start, a, b - 1, total);
    }
  }

  /** The percentage at tick `j` of a ramp is the one for `start + j + 1` tenths elapsed. */
  lemma {:induction false} RampAt(start: nat, n: nat, total: real, j: nat)
    requires total > 0.0 && j < n
    ensures Ramp(start, n, total)[j] == PercentOf(start + j + 1, total)
  {
    if j < n - 1 {
      RampAt(start, n - 1, total, j);
    }
  }

  /** A ramp stays within 0..100 and never goes down. */
  lemma RampRises(start: nat, n: nat, total: real)
    requires total > 0.0
    ensures forall i :: 0 <= i < n ==> 0.0 <= Ramp(start, n, total)[i] <= 100.0
    ensures forall i, j :: 0 <= i <= j < n ==> Ramp(start, n, total)[i] <= Ramp(start, n, total)[j]
  {
    forall i | 0 <= i < n
      ensures 0.0 <= Ramp(start, n, total)[i] <= 100.0
    {
      RampAt(start, n, total, i);
    }
    forall i, j | 0 <= i <= j < n
      ensures Ramp(start, n, total)[i] <= Ramp(start, n, total)[j]
    {
      RampAt(start, n, total, i);
      RampAt(start, n, total, j);
      PercentMonotone(start + i + 1, start + j + 1, total);
    }
  }

  // ---------------------------------------------------------------------------------------
  // One pass of the loop body

  /** What an accepted entry adds to the state of the loop. */
  lemma NextAccepted(prev: Replayed, e: LaunchEntry, index: nat, total: real, spawnOk: nat -> bool)
    requires !prev.crashed
    ensures Next(prev, Ok(e), index, total, spawnOk)
         == Replayed(prev.trace + [SpawnEvent(e, spawnOk(index))] + TickEvents(prev.tenths, Steps(e.wait), total),
                     prev.tenths + Steps(e.wait), false)
  {
  }

  lemma SpawnsAfterSpawn(trace: seq<Event>, spawn: Event, w: seq<Event>)
    requires IsSpawn(spawn) && Spawns(w) == []
    ensures Spawns(trace + [spawn] + w) == Spawns(trace) + [spawn]
  {
    assert (trace + [spawn])[..|trace|] == trace;
    assert Spawns(trace + [spawn]) == Spawns(trace) + [spawn];
    SpawnsAppend(trace + [spawn], w);
  }

  lemma TicksAfterSpawn(trace: seq<Event>, spawn: Event, w: seq<Event>)
    requires IsSpawn(spawn)
    ensures TickCount(trace + [spawn] + w) == TickCount(trace) + TickCount(w)
  {
    assert (trace + [spawn])[..|trace|] == trace;
    assert TickCount(trace + [spawn]) == TickCount(trace);
    TickCountAppend(trace + [spawn], w);
  }

  lemma PercentsAfterSpawn(trace: seq<Event>, spawn: Event, w: seq<Event>)
    requires IsSpawn(spawn)
    ensures Percents(trace + [spawn] + w) == Percents(trace) + Percents(w)
  {
    assert (trace + [spawn])[..|trace|] == trace;
    assert Percents(trace + [spawn]) == Percents(trace);
    PercentsAppend(trace + [spawn], w);
  }

  /** An accepted entry is spawned once, and its wait adds its steps to the tenths. */
  lemma NextSpawns(prev: Replayed, e: LaunchEntry, index: nat, total: real, spawnOk: nat -> bool)
    requires !prev.crashed
    ensures Spawns(Next(prev, Ok(e), index, total, spawnOk).trace) == Spawns(prev.trace) + [SpawnEvent(e, spawnOk(index))]
    ensures Next(prev, Ok(e), index, total, spawnOk).tenths == prev.tenths + Steps(e.wait)
    ensures !Next(prev, Ok(e), index, total, spawnOk).crashed
  {
    NextAccepted(prev, e, index, total, spawnOk);
    TickEventsSpawnNothing(prev.tenths, Steps(e.wait), total);
    SpawnsAfterSpawn(prev.trace, SpawnEvent(e, spawnOk(index)), TickEvents(prev.tenths, Steps(e.wait), total));
  }

  /** A pass keeps one tick per tenth counted. */
  lemma NextTicks(prev: Replayed, parsed: Result<LaunchEntry, EntryError>, index: nat, total: real, spawnOk: nat -> bool)
    requires TickCount(prev.trace) == prev.tenths
    ensures TickCount(Next(prev, parsed, index, total, spawnOk).trace) == Next(prev, parsed, index, total, spawnOk).tenths
  {
    if !prev.crashed && parsed.Ok? {
      var e := parsed.value;
      var w := TickEvents(prev.tenths, Steps(e.wait), total);
      NextAccepted(prev, e, index, total, spawnOk);
      TickEventsCount(prev.tenths, Steps(e.wait), total);
      TicksAfterSpawn(prev.trace, SpawnEvent(e, spawnOk(index)), w);
    }
  }

  /** With a splash screen a pass extends the ramp of percentages by its own ticks. */
  lemma NextShown(prev: Replayed, parsed: Result<LaunchEntry, EntryError>, index: nat, total: real, spawnOk: nat -> bool)
    requires total > 0.0 && Percents(prev.trace) == Ramp(0, prev.tenths, total)
    ensures Percents(Next(prev, parsed, index, total, spawnOk).trace) == Ramp(0, Next(prev, parsed, index, total, spawnOk).tenths, total)
  {
    if !prev.crashed && parsed.Ok? {
      var e := parsed.value;
      var w := TickEvents(prev.tenths, Steps(e.wait), total);
      NextAccepted(prev, e, index, total, spawnOk);
      TickEventsShown(prev.tenths, Steps(e.wait), total);
      PercentsAfterSpawn(prev.trace, SpawnEvent(e, spawnOk(index)), w);
      RampSplit(0, prev.tenths, Steps(e.wait), total);
      assert Percents(prev.trace + [SpawnEvent(e, spawnOk(index))] + w)
          == Ramp(0, prev.tenths, total) + Ramp(prev.tenths, Steps(e.wait), total);
    }
  }

  /** Without a splash screen a pass shows no percentage. */
  lemma NextHidden(prev: Replayed, parsed: Result<LaunchEntry, EntryError>, index: nat, total: real, spawnOk: nat -> bool)
    requires total <= 0.0 && Percents(prev.trace) == []
    ensures Percents(Next(prev, parsed, index, total, spawnOk).trace) == []
  {
    if !prev.crashed && parsed.Ok? {
      var e := parsed.value;
      var w := TickEvents(prev.tenths, Steps(e.wait), total);
      NextAccepted(prev, e, index, total, spawnOk);
      TickEventsHidden(prev.tenths, Steps(e.wait), total);
      PercentsAfterSpawn(prev.trace, SpawnEvent(e, spawnOk(index)), w);
      assert Percents(prev.trace) + Percents(w) == [] + [];
    }
  }

  // ---------------------------------------------------------------------------------------
  // The whole loop

  /** The number of leading entries the loop accepts (none of them holds the marker twice). */
  function Accepted(apps: seq<string>): (a: nat)
    ensures a <= |apps|
  {
    if AllWellFormed(apps) then |apps| else Accepted(apps[..|apps| - 1])
  }

  function StepsOf(es: seq<LaunchEntry>): nat {
    if es == [] then 0 else StepsOf(es[..|es| - 1]) + Steps(es[|es| - 1].wait)
  }

  /** The spawns an accepted prefix makes, one per entry and in the order of the entries. */
  function SpawnList(es: seq<LaunchEntry>, spawnOk: nat -> bool): (s: seq<Event>)
    ensures |s| == |es|
  {
    if es == [] then [] else SpawnList(es[..|es| - 1], spawnOk) + [SpawnEvent(es[|es| - 1], spawnOk(|es| - 1))]
  }

  /** Without a malformed entry the loop runs to the end: it spawns every entry in order,
      failed spawns included, and waits the sum of their steps. */
  lemma {:induction false} CompleteRun(apps: seq<string>, total: real, spawnOk: nat -> bool)
    requires AllWellFormed(apps)
    ensures var r := Replay(apps, total, spawnOk);
      && !r.crashed
      && Spawns(r.trace) == SpawnList(ParseAll(apps), spawnOk)
      && r.tenths == StepsOf(ParseAll(apps))
  {
    if apps != [] {
      var front := apps[..|apps| - 1];
      CompleteRun(front, total, spawnOk);
      var prev := Replay(front, total, spawnOk);
      var e := ParseEntry(apps[|apps| - 1]).value;
      var es := ParseAll(apps);
      assert es[..|es| - 1] == ParseAll(front) && es[|es| - 1] == e;
      assert Replay(apps, total, spawnOk) == Next(prev, Ok(e), |apps| - 1, total, spawnOk);
      NextSpawns(prev, e, |apps| - 1, total, spawnOk);
      assert SpawnList(es, spawnOk) == SpawnList(ParseAll(front), spawnOk) + [SpawnEvent(e, spawnOk(|apps| - 1))];
    }
  }

  /** An entry holding the marker twice ends the loop: what happened is what the entries
      before it did, and the first such entry is the one at `Accepted(apps)`. */
  lemma {:induction false} StopsAtMalformed(apps: seq<string>, total: real, spawnOk: nat -> bool)
    ensures var a := Accepted(apps);
      && AllWellFormed(apps[..a])
      && (a < |apps| ==> ParseEntry(apps[a]).Err?)
      && Replay(apps, total, spawnOk) == Replay(apps[..a], total, spawnOk).(crashed := a < |apps|)
  {
    if AllWellFormed(apps) {
      assert apps[..|apps|] == apps;
      CompleteRun(apps, total, spawnOk);
    } else {
      var front := apps[..|apps| - 1];
      StopsAtMalformed(front, total, spawnOk);
      var a := Accepted(front);
      assert front[..a] == apps[..a];
      if a == |front| {
        assert front[..a] == front;
        CompleteRun(front, total, spawnOk);
      }
    }
  }

  /** The loop reports a failure exactly when some entry holds the marker twice. */
  lemma CrashIffMalformed(apps: seq<string>, total: real, spawnOk: nat -> bool)
    ensures Replay(apps, total, spawnOk).crashed <==> !AllWellFormed(apps)
  {
    StopsAtMalformed(apps, total, spawnOk);
    if AllWellFormed(apps) {
      CompleteRun(apps, total, spawnOk);
    }
  }

  /** Whatever the entries, the loop sleeps once per tenth it counts. */
  lemma {:induction false} TicksOfRun(apps: seq<string>, total: real, spawnOk: nat -> bool)
    ensures TickCount(Replay(apps, total, spawnOk).trace) == Replay(apps, total, spawnOk).tenths
  {
    if apps != [] {
      TicksOfRun(apps[..|apps| - 1], total, spawnOk);
      NextTicks(Replay(apps[..|apps| - 1], total, spawnOk), ParseEntry(apps[|apps| - 1]), |apps| - 1, total, spawnOk);
    }
  }

  /** With a splash screen the percentages shown are those of 1, 2, ... tenths elapsed, up to
      the tenths the loop counted. */
  lemma {:induction false} PercentsOfRun(apps: seq<string>, total: real, spawnOk: nat -> bool)
    requires total > 0.0
    ensures Percents(Replay(apps, total, spawnOk).trace) == Ramp(0, Replay(apps, total, spawnOk).tenths, total)
  {
    if apps != [] {
      PercentsOfRun(apps[..|apps| - 1], total, spawnOk);
      NextShown(Replay(apps[..|apps| - 1], total, spawnOk), ParseEntry(apps[|apps| - 1]), |apps| - 1, total, spawnOk);
    }
  }

  /** Without a splash screen (a total wait of 0 or less) no percentage is shown. */
  lemma {:induction false} NoSplashNoPercents(apps: seq<string>, total: real, spawnOk: nat -> bool)
    requires total <= 0.0
    ensures Percents(Replay(apps, total, spawnOk).trace) == []
  {
    if apps != [] {
      NoSplashNoPercents(apps[..|apps| - 1], total, spawnOk);
      NextHidden(Replay(apps[..|apps| - 1], total, spawnOk), ParseEntry(apps[|apps| - 1]), |apps| - 1, total, spawnOk);
    }
  }

  /** No event of the trace shows or closes the splash screen. */
  predicate LoopOnly(trace: seq<Event>) {
    forall j :: 0 <= j < |trace| ==> !trace[j].SplashShown? && !trace[j].SplashClosed?
  }

  lemma {:induction false} TickEventsLoopOnly(start: nat, n: nat, total: real)
    ensures LoopOnly(TickEvents(start, n, total))
  {
    if n > 0 {
      TickEventsLoopOnly(start, n - 1, total);
      assert TickEvents(start, n, total) == TickEvents(start, n - 1, total) + TickOnce(start + n, total);
    }
  }

  lemma NextLoopOnly(prev: Replayed, parsed: Result<LaunchEntry, EntryError>, index: nat, total: real, spawnOk: nat -> bool)
    requires LoopOnly(prev.trace)
    ensures LoopOnly(Next(prev, parsed, index, total, spawnOk).trace)
  {
    if !prev.crashed && parsed.Ok? {
      var e := parsed.value;
      NextAccepted(prev, e, index, total, spawnOk);
      TickEventsLoopOnly(prev.tenths, Steps(e.wait), total);
    }
  }

  /** The launch loop itself never shows or closes the splash screen. */
  lemma {:induction false} ReplayLoopOnly(apps: seq<string>, total: real, spawnOk: nat -> bool)
    ensures LoopOnly(Replay(apps, total, spawnOk).trace)
  {
    if apps != [] {
      ReplayLoopOnly(apps[..|apps| - 1], total, spawnOk);
      NextLoopOnly(Replay(apps[..|apps| - 1], total, spawnOk), ParseEntry(apps[|apps| - 1]), |apps| - 1, total, spawnOk);
    }
  }

  /** The splash screen's percentages never go down and stay within 0..100, one per tick. */
  lemma PercentsRise(apps: seq<string>, total: real, spawnOk: nat -> bool)
    requires total > 0.0
    ensures var ps := Percents(Replay(apps, total, spawnOk).trace);
      && |ps| == TickCount(Replay(apps, total, spawnOk).trace)
      && (forall i :: 0 <= i < |ps| ==> 0.0 <= ps[i] <= 100.0)
      && (forall i, j :: 0 <= i <= j < |ps| ==> ps[i] <= ps[j])
  {
    PercentsOfRun(apps, total, spawnOk);
    TicksOfRun(apps, total, spawnOk);
    RampRises(0, Replay(apps, total, spawnOk).tenths, total);
  }
}
