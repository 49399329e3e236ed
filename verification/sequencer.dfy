/** The launch loop: the total wait computed before anything starts, then for each entry in
    order a spawn and, for a positive wait, one tick per tenth of a second, each tick pushing
    the overall percentage to the splash screen when there is one. */
module Sequencer {
  import opened Wrappers
  import opened Entry
  import opened Progress

  /** What the loop does that can be observed: spawning (or failing to spawn) a program,
      sleeping one tick, and the splash screen being shown, updated and closed. */
  datatype Event =
    | SplashShown
    | Spawned(exe: string, args: seq<string>)
    | SpawnFailed(exe: string)
    | Tick
    | Percent(value: real)
    | SplashClosed

  /** The outcome of `Popen([exe] + args)` for an entry: success, or a failure that is logged. */
  function SpawnEvent(e: LaunchEntry, ok: bool): Event {
    if ok then Spawned(e.exe, e.args) else SpawnFailed(e.exe)
  }

  // ---------------------------------------------------------------------------------------
  // Total wait (the loop before the splash is created)

  /** One entry's share of `total_wait_time`: with the marker, `float` of the second piece of
      the split (0 when that is not a number), without it nothing. An entry with two markers
      contributes its middle piece here, before the launch loop fails on it. */
  function WaitTerm(entry: string): real {
    var pieces := Split(entry);
    if |pieces| == 1 then 0.0 else WaitValue(pieces[1])
  }

  function SumWaits(apps: seq<string>): real {
    if apps == [] then 0.0 else SumWaits(apps[..|apps| - 1]) + WaitTerm(apps[|apps| - 1])
  }

  method TotalWait(apps: seq<string>) returns (total: real)
    ensures total == SumWaits(apps)
  {
    total := 0.0;
    var i := 0;
    while i < |apps|
      invariant 0 <= i <= |apps|
      invariant total == SumWaits(apps[..i])
    {
      assert apps[..i + 1][..i] == apps[..i];
      var entry := apps[i];
      if HasMarker(entry) {
        SplitSingle(entry);
        var value := Decimal.ParseNumber(Split(entry)[1]);
        if value.Some? {
          total := total + value.value;
        }
      } else {
        SplitSingle(entry);
      }
      i := i + 1;
    }
    assert apps[..|apps|] == apps;
  }

  /** For an entry the launch loop accepts, its share of the total is the wait it waits. */
  lemma WaitTermAgrees(raw: string)
    requires ParseEntry(raw).Ok?
    ensures WaitTerm(raw) == ParseEntry(raw).value.wait
  {
  }

  /** No entry holds the marker twice, so the launch loop accepts every one. */
  predicate AllWellFormed(apps: seq<string>) {
    apps == [] || (AllWellFormed(apps[..|apps| - 1]) && ParseEntry(apps[|apps| - 1]).Ok?)
  }

  /** The entries as the launch loop parses them. */
  function ParseAll(apps: seq<string>): (es: seq<LaunchEntry>)
    requires AllWellFormed(apps)
    ensures |es| == |apps|
  {
    if apps == [] then [] else ParseAll(apps[..|apps| - 1]) + [ParseEntry(apps[|apps| - 1]).value]
  }

  function SumEntryWaits(es: seq<LaunchEntry>): real {
    if es == [] then 0.0 else SumEntryWaits(es[..|es| - 1]) + es[|es| - 1].wait
  }

  /** When every entry has at most one marker, the total that decides on the splash screen is
      the sum of the waits the launch loop uses, unparsable ones counting 0. */
  lemma {:induction false} TotalIsSumOfWaits(apps: seq<string>)
    requires AllWellFormed(apps)
    ensures SumWaits(apps) == SumEntryWaits(ParseAll(apps))
  {
    if apps != [] {
      var front := apps[..|apps| - 1];
      TotalIsSumOfWaits(front);
      WaitTermAgrees(apps[|apps| - 1]);
      assert ParseAll(apps)[..|apps| - 1] == ParseAll(front);
    }
  }

  // ---------------------------------------------------------------------------------------
  // The launch loop, as a specification

  /** One tick at `elapsed` tenths: the sleep, then the percentage if there is a splash. */
  function TickOnce(elapsed: nat, total: real): seq<Event> {
    [Tick] + if total > 0.0 then [Percent(PercentOf(elapsed, total))] else []
  }

  /** The `n` ticks of a wait that starts with `start` tenths elapsed. */
  function TickEvents(start: nat, n: nat, total: real): seq<Event> {
    if n == 0 then [] else TickEvents(start, n - 1, total) + TickOnce(start + n, total)
  }

  /** The state of the launch loop after some entries: what it did, the tenths elapsed, and
      whether it stopped on an entry it could not unpack. */
  datatype Replayed = Replayed(trace: seq<Event>, tenths: nat, crashed: bool)

  /** One pass of the loop body for entry number `index`, which parsed as `parsed`. */
  function Next(prev: Replayed, parsed: Result<LaunchEntry, EntryError>, index: nat, total: real, spawnOk: nat -> bool): Replayed {
    if prev.crashed then prev
    else
      match parsed
      case Err(_) => prev.(crashed := true)
      case Ok(e) =>
        var steps := Steps(e.wait);
        Replayed(prev.trace + [SpawnEvent(e, spawnOk(index))] + TickEvents(prev.tenths, steps, total),
                 prev.tenths + steps, false)
  }

  function Replay(apps: seq<string>, total: real, spawnOk: nat -> bool): Replayed {
    if apps == [] then Replayed([], 0, false)
    else Next(Replay(apps[..|apps| - 1], total, spawnOk), ParseEntry(apps[|apps| - 1]), |apps| - 1, total, spawnOk)
  }

  lemma ReplayPrefix(apps: seq<string>, i: nat, total: real, spawnOk: nat -> bool)
    requires i < |apps|
    ensures Replay(apps[..i + 1], total, spawnOk) == Next(Replay(apps[..i], total, spawnOk), ParseEntry(apps[i]), i, total, spawnOk)
  {
    assert apps[..i + 1][..i] == apps[..i];
  }

  /** Once the loop has stopped, later entries change nothing. */
  lemma {:induction false} CrashIsFinal(apps: seq<string>, i: nat, total: real, spawnOk: nat -> bool)
    requires i <= |apps| && Replay(apps[..i], total, spawnOk).crashed
    ensures Replay(apps, total, spawnOk) == Replay(apps[..i], total, spawnOk)
    decreases |apps|
  {
    if i < |apps| {
      var front := apps[..|apps| - 1];
      assert front[..i] == apps[..i];
      CrashIsFinal(front, i, total, spawnOk);
    } else {
      assert apps[..i] == apps;
    }
  }

  /** The wait after a spawn: `steps` sleeps of a tenth of a second, each followed by the
      percentage when there is a splash screen (`total > 0`). */
  method Wait(start: nat, steps: nat, total: real) returns (ticks: seq<Event>, elapsed: nat)
    ensures ticks == TickEvents(start, steps, total)
    ensures elapsed == start + steps
  {
    ticks, elapsed := [], start;
    var k := 0;
    while k < steps
      invariant 0 <= k <= steps
      invariant elapsed == start + k
      invariant ticks == TickEvents(start, k, total)
    {
      elapsed := elapsed + 1;
      ticks := ticks + [Tick];
      if total > 0.0 {
        ticks := ticks + [Percent(PercentOf(elapsed, total))];
      }
      k := k + 1;
    }
  }

  /** The loop body for an entry that unpacked: spawn it, then wait its steps. */
  method Launch(trace: seq<Event>, elapsed: nat, e: LaunchEntry, ok: bool, total: real)
    returns (trace': seq<Event>, elapsed': nat)
    ensures trace' == trace + [SpawnEvent(e, ok)] + TickEvents(elapsed, Steps(e.wait), total)
    ensures elapsed' == elapsed + Steps(e.wait)
  {
    trace', elapsed' := trace + [SpawnEvent(e, ok)], elapsed;
    if e.wait > 0.0 {
      var ticks;
      ticks, elapsed' := Wait(elapsed, (e.wait * 10.0).Floor, total);
      trace' := trace' + ticks;
    } else {
      assert trace' == trace' + TickEvents(elapsed, 0, total);
    }
  }

  /** The launch loop. `spawnOk(i)` says whether starting entry `i` succeeds. */
  method Run(apps: seq<string>, total: real, spawnOk: nat -> bool) returns (trace: seq<Event>, crashed: bool)
    ensures trace == Replay(apps, total, spawnOk).trace
    ensures crashed == Replay(apps, total, spawnOk).crashed
  {
    trace, crashed := [], false;
    var elapsed: nat := 0;
    var i := 0;
    while i < |apps|
      invariant 0 <= i <= |apps|
      invariant Replay(apps[..i], total, spawnOk) == Replayed(trace, elapsed, false)
    {
      var parsed := ParseEntry(apps[i]);
      if parsed.Err? {
        ReplayPrefix(apps, i, total, spawnOk);
        crashed := true;
        CrashIsFinal(apps, i + 1, total, spawnOk);
        return;
      }
      trace, elapsed := Launch(trace, elapsed, parsed.value, spawnOk(i), total);
      ReplayPrefix(apps, i, total, spawnOk);
      i := i + 1;
    }
    assert apps[..|apps|] == apps;
  }
}
