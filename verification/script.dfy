/** The launch script from the detected resolution and the loaded configuration to its exit
    status and what it did: pick the section, collect the launch list, add up the waits, show
    the splash screen when there is something to wait for, run the launch loop, close the
    splash screen. */
module Script {
  import opened Wrappers
  import opened Numerals
  import opened Profile
  import opened Entry
  import opened Progress
  import opened Sequencer
  import opened Timeline

  /** The exit status and the observable trace of one run of the script. */
  datatype Outcome = Outcome(code: int, trace: seq<Event>)

  /** The launch loop's trace between the splash screen being shown (when `splash`) and being
      closed (when `closed`). */
  function Framed(splash: bool, closed: bool, body: seq<Event>): seq<Event> {
    (if splash then [SplashShown] else []) + body + (if closed then [SplashClosed] else [])
  }

  /** The script as a specification. A missing resolution or an unreadable configuration
      exits 1 before anything happens; an empty launch list exits 0; otherwise the loop runs
      inside the splash screen when the total wait is positive, and an entry holding the
      marker twice ends the script with status 1 before the splash screen is closed. */
  function Plan(resolution: Option<string>, config: Option<Config>, spawnOk: nat -> bool): Outcome {
    if resolution.None? || config.None? then Outcome(1, [])
    else
      var apps := LaunchList(config.value, SelectSection(config.value, resolution.value));
      if apps == [] then Outcome(0, [])
      else
        var total := SumWaits(apps);
        var r := Replay(apps, total, spawnOk);
        Outcome(if r.crashed then 1 else 0, Framed(total > 0.0, total > 0.0 && !r.crashed, r.trace))
  }

  /** The script, step by step: the launch list built by its loop, the total wait by its loop,
      then the launch loop itself. */
  method Execute(resolution: Option<string>, config: Option<Config>, spawnOk: nat -> bool)
    returns (code: int, trace: seq<Event>)
    ensures Outcome(code, trace) == Plan(resolution, config, spawnOk)
  {
    if resolution.None? || config.None? {
      return 1, [];
    }
    var section := SelectSection(config.value, resolution.value);
    var apps := CollectEntries(config.value, section);
    if apps == [] {
      return 0, [];
    }
    var total := TotalWait(apps);
    var splash := total > 0.0;
    trace := if splash then [SplashShown] else [];
    var ran, crashed := Run(apps, total, spawnOk);
    trace := trace + ran;
    if crashed {
      return 1, trace;
    }
    if splash {
      trace := trace + [SplashClosed];
    }
    code := 0;
  }

  // ---------------------------------------------------------------------------------------
  // Properties of the script

  /** The list the script launches for a resolution and a configuration. */
  function Apps(resolution: string, config: Config): seq<string> {
    LaunchList(config, SelectSection(config, resolution))
  }

  /** The script exits 0 or 1, and 1 exactly when the resolution or the configuration is
      missing or, with something to launch, some entry holds the marker twice. */
  lemma ExitStatus(resolution: Option<string>, config: Option<Config>, spawnOk: nat -> bool)
    ensures var o := Plan(resolution, config, spawnOk);
      && (o.code == 0 || o.code == 1)
      && (o.code == 1 <==> resolution.None? || config.None?
                           || !AllWellFormed(Apps(resolution.value, config.value)))
  {
    if resolution.Some? && config.Some? {
      var apps := Apps(resolution.value, config.value);
      CrashIffMalformed(apps, SumWaits(apps), spawnOk);
    }
  }

  /** Without an existing section, or with no non-empty all-digit option in it, the script
      exits 0 and starts nothing. */
  lemma NothingToLaunch(resolution: string, config: Config, spawnOk: nat -> bool)
    requires Apps(resolution, config) == []
    ensures Plan(Some(resolution), Some(config), spawnOk) == Outcome(0, [])
  {
  }

  /** Without a section for the resolution and without "other", nothing is launched. */
  lemma NoSectionNoApps(resolution: string, config: Config)
    requires resolution !in config && Fallback !in config
    ensures Apps(resolution, config) == []
  {
  }

  /** Showing and closing the splash screen neither starts a program, nor sleeps, nor
      shows a percentage. */
  lemma FramedViews(splash: bool, closed: bool, body: seq<Event>)
    ensures Spawns(Framed(splash, closed, body)) == Spawns(body)
    ensures TickCount(Framed(splash, closed, body)) == TickCount(body)
    ensures Percents(Framed(splash, closed, body)) == Percents(body)
  {
    var front: seq<Event> := if splash then [SplashShown] else [];
    var back: seq<Event> := if closed then [SplashClosed] else [];
    assert front[..0] == [] && back[..0] == [];
    FramedSpawns(front, body, back);
    FramedTicks(front, body, back);
    FramedPercents(front, body, back);
  }

  lemma FramedSpawns(front: seq<Event>, body: seq<Event>, back: seq<Event>)
    requires Spawns(front) == [] && Spawns(back) == []
    ensures Spawns(front + body + back) == Spawns(body)
  {
    SpawnsAppend(front, body);
    SpawnsAppend(front + body, back);
    assert Spawns(front + body + back) == ([] + Spawns(body)) + [];
  }

  lemma FramedTicks(front: seq<Event>, body: seq<Event>, back: seq<Event>)
    requires TickCount(front) == 0 && TickCount(back) == 0
    ensures TickCount(front + body + back) == TickCount(body)
  {
    TickCountAppend(front, body);
    TickCountAppend(front + body, back);
  }

  lemma FramedPercents(front: seq<Event>, body: seq<Event>, back: seq<Event>)
    requires Percents(front) == [] && Percents(back) == []
    ensures Percents(front + body + back) == Percents(body)
  {
    PercentsAppend(front, body);
    PercentsAppend(front + body, back);
    assert Percents(front + body + back) == ([] + Percents(body)) + [];
  }

  /** With something to launch, the script first shows the splash screen exactly when the
      total wait is positive. */
  lemma SplashShownFirst(resolution: string, config: Config, spawnOk: nat -> bool)
    requires Apps(resolution, config) != []
    ensures var o := Plan(Some(resolution), Some(config), spawnOk);
      |o.trace| > 0 && o.trace[0] == SplashShown <==> SumWaits(Apps(resolution, config)) > 0.0
  {
    var apps := Apps(resolution, config);
    var total := SumWaits(apps);
    var r := Replay(apps, total, spawnOk);
    var o := Plan(Some(resolution), Some(config), spawnOk);
    if total > 0.0 {
      assert o.trace == [SplashShown] + (r.trace + if r.crashed then [] else [SplashClosed]);
    } else {
      assert o.trace == ([] + r.trace) + [];
      ReplayLoopOnly(apps, total, spawnOk);
    }
  }

  /** With something to launch, the script ends by closing the splash screen exactly when
      there is one and no entry stopped the loop. */
  lemma SplashClosedLast(resolution: string, config: Config, spawnOk: nat -> bool)
    requires Apps(resolution, config) != []
    ensures var o := Plan(Some(resolution), Some(config), spawnOk);
      (|o.trace| > 0 && o.trace[|o.trace| - 1] == SplashClosed) <==> (SumWaits(Apps(resolution, config)) > 0.0 && o.code == 0)
  {
    var apps := Apps(resolution, config);
    var total := SumWaits(apps);
    var r := Replay(apps, total, spawnOk);
    var o := Plan(Some(resolution), Some(config), spawnOk);
    var front: seq<Event> := if total > 0.0 then [SplashShown] else [];
    if total > 0.0 && !r.crashed {
      assert o.trace == (front + r.trace) + [SplashClosed];
    } else {
      assert o.trace == (front + r.trace) + [];
      ReplayLoopOnly(apps, total, spawnOk);
    }
  }

  /** When no entry holds the marker twice, the script exits 0 having tried to start every
      entry of the launch list once, in order, failed starts included. */
  lemma EveryEntryStarted(resolution: string, config: Config, spawnOk: nat -> bool)
    requires AllWellFormed(Apps(resolution, config))
    ensures var o := Plan(Some(resolution), Some(config), spawnOk);
      && o.code == 0
      && Spawns(o.trace) == SpawnList(ParseAll(Apps(resolution, config)), spawnOk)
  {
    var apps := Apps(resolution, config);
    if apps != [] {
      var total := SumWaits(apps);
      var r := Replay(apps, total, spawnOk);
      CompleteRun(apps, total, spawnOk);
      FramedViews(total > 0.0, total > 0.0 && !r.crashed, r.trace);
    } else {
      assert Spawns([]) == [];
    }
  }

  /** The splash screen receives one percentage per tick; they never go down, stay within
      0..100, and each label shows the whole part of its percentage, 0..100, followed by '%'. */
  lemma ShownPercents(resolution: string, config: Config, spawnOk: nat -> bool)
    ensures var ps := Percents(Plan(Some(resolution), Some(config), spawnOk).trace);
      && (forall i, j :: 0 <= i <= j < |ps| ==> ps[i] <= ps[j])
      && (forall i :: 0 <= i < |ps| ==>
            && 0.0 <= ps[i] <= 100.0
            && IsDigitString(PercentLabel(ps[i])[..|PercentLabel(ps[i])| - 1])
            && DigitsValue(PercentLabel(ps[i])[..|PercentLabel(ps[i])| - 1]) == ps[i].Floor
            && 0 <= ps[i].Floor <= 100)
  {
    var o := Plan(Some(resolution), Some(config), spawnOk);
    var apps := Apps(resolution, config);
    if apps == [] {
      assert Percents(o.trace) == [];
    } else {
      var total := SumWaits(apps);
      var r := Replay(apps, total, spawnOk);
      FramedViews(total > 0.0, total > 0.0 && !r.crashed, r.trace);
      if total > 0.0 {
        PercentsRise(apps, total, spawnOk);
      } else {
        NoSplashNoPercents(apps, total, spawnOk);
      }
    }
    var ps := Percents(o.trace);
    forall i | 0 <= i < |ps|
      ensures IsDigitString(PercentLabel(ps[i])[..|PercentLabel(ps[i])| - 1])
      ensures DigitsValue(PercentLabel(ps[i])[..|PercentLabel(ps[i])| - 1]) == ps[i].Floor
      ensures 0 <= ps[i].Floor <= 100
    {
      LabelOfPercent(ps[i]);
    }
  }
}
