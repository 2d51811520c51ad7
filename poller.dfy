/**
 * The body of `main`'s endless loop: the refresh-interval check, the
 * connection-error path, the stale-date test, the hot override, the
 * numeric code-change test and the settings reload. The weather feed, the
 * heat index, the clock and the settings file are inputs; `updateWallpaper`,
 * `drawOverlayFromFile` and `updateDesktop` are recorded as events.
 */
module Poller {
  import opened Wrappers
  import opened Text
  import opened Weather
  import opened Catalog

  /** Times are `datetime` values, counted in microseconds. */
  const MicrosPerMinute := 60_000_000
  /** `timedelta(days = 7)`. */
  const Week := 7 * 24 * 60 * MicrosPerMinute
  /** The condition code forced when it is hot. */
  const HotCode := "36"
  const ConnectErrorMessage := "Could Not Connect"

  /** The fields of the weather feed's answer that the loop reads. */
  datatype WeatherRecord = WeatherRecord(
    date: string, code: string, temp: string, text: string,
    humidity: string, forecast: string, tempUnit: string)

  /**
   * The inputs of one fetch: whether the first request failed with a
   * connection error (the retry loop then runs until `record` arrives), the
   * record, the heat index computed from it, and the outcomes of the two
   * shuffles (`errorPick` for the error image, `pick` for the new wallpaper).
   */
  datatype Sample = Sample(connectFailed: bool, record: WeatherRecord, heatIndex: int, pick: nat, errorPick: nat)

  datatype Event =
    | UpdateWallpaper(status: Status)   // `updateWallpaper(WStatus)`
    | DrawOverlay(status: Status)       // `drawOverlayFromFile(WError)`
    | UpdateDesktop                     // `updateDesktop()`

  /** The uncaught exceptions of the loop body. */
  datatype Fault =
    | SelectionFailed(error: CatalogError)  // `getWallpaper` raised or never returned
    | NoFileElement                         // the chosen image has no `<file>` child
    | BadTemp(temp: string)                 // `int(temp)` raised
    | BadHumidity(humidity: string)         // `int(humidity)` raised in `getHeatIndex`
    | BadCode(code: string)                 // `int(code)` raised

  datatype Outcome = Continue | Fatal(fault: Fault)

  /** The loop's own variables, besides the settings. */
  datatype Memory = Memory(lastUpdate: int, previousCode: string, previousDate: string, status: Status)

  /** What one pass does: how it ends, the variables afterwards and the calls it made. */
  datatype Observed = Observed(outcome: Outcome, memory: Memory, events: seq<Event>)

  /**
   * What the loop keeps true: the previous code always converts with `int`,
   * and the previous date is either cleared or the date in the status record.
   */
  predicate Consistent(m: Memory) {
    ParseInt(m.previousCode).Some? && (m.previousDate == "" || m.previousDate == m.status.date)
  }

  /** The variables `main` starts with; `started` is the clock when it starts. */
  function InitialMemory(started: int): (m: Memory)
    ensures Consistent(m)
  {
    Memory(started - Week, "-1", "", InitialStatus)
  }

  /** More than the refresh delay has passed since the last fetch. */
  predicate RefreshDue(lastUpdate: int, now: int, refreshDelay: int) {
    now - lastUpdate > refreshDelay * MicrosPerMinute
  }

  /**
   * The code after the hot override: `36` when the heat index (if the
   * settings use it) or the temperature reaches the hot threshold, else the
   * feed's code. There is no cold override.
   */
  function EffectiveCode(settings: Settings, code: string, temp: string, heatIndex: int): (r: Result<string, Fault>)
    ensures r.Ok? ==> r.value == HotCode || r.value == code
    ensures settings.useHeatIndex && heatIndex >= settings.hotThreshold ==> r == Ok(HotCode)
    ensures ParseInt(temp).Some? && ParseInt(temp).value >= settings.hotThreshold ==> r == Ok(HotCode)
    ensures !(settings.useHeatIndex && heatIndex >= settings.hotThreshold) ==>
              (ParseInt(temp).None? ==> r == Err(BadTemp(temp))) &&
              (ParseInt(temp).Some? && ParseInt(temp).value < settings.hotThreshold ==> r == Ok(code))
  {
    if settings.useHeatIndex && heatIndex >= settings.hotThreshold then Ok(HotCode)
    else match ParseInt(temp)
      case None => Err(BadTemp(temp))
      case Some(t) => if t >= settings.hotThreshold then Ok(HotCode) else Ok(code)
  }

  /** The record `WError` the connection-error path draws. */
  function ErrorStatus(errorCode: string, file: string): (r: Status)
    ensures r.code == errorCode && r.filename == file && r.errorMessage == Some(ConnectErrorMessage)
    ensures r.title == "" && r.author == "" && r.date == "" && r.temp == "" && r.heatIndex.None?
  {
    Status("", "", file, errorCode, "", None, "", "", "", "", "", Some(ConnectErrorMessage))
  }

  /** The connection-error path: with the overlay on, draw the error image and refresh the desktop. */
  function ConnectErrorEvents(settings: Settings, images: seq<ImageEntry>, pick: nat): (r: Result<seq<Event>, Fault>)
    ensures !settings.overlayEnabled ==> r == Ok([])
    ensures settings.overlayEnabled && r.Ok? ==>
              |r.value| == 2 && r.value[0].DrawOverlay? && r.value[1] == UpdateDesktop
              && r.value[0].status.code == settings.errorCode
              && r.value[0].status.errorMessage == Some(ConnectErrorMessage)
    ensures r.Ok? ==> Updates(r.value) == 0 && ErrorOverlays(r.value) == (if settings.overlayEnabled then 1 else 0)
    // With the overlay on, the error image is the one `getWallpaper` picks for the error code.
    ensures settings.overlayEnabled ==>
              var chosen := Selection(images, settings.errorCode, settings.errorCode, pick);
              && (chosen.Err? ==> r == Err(SelectionFailed(chosen.error)))
              && (chosen.Ok? && chosen.value.file.None? ==> r == Err(NoFileElement))
              && (chosen.Ok? && chosen.value.file.Some? ==>
                    r.Ok? && r.value[0] == DrawOverlay(ErrorStatus(settings.errorCode, chosen.value.file.value)))
  {
    if !settings.overlayEnabled then Ok([])
    else match Selection(images, settings.errorCode, settings.errorCode, pick)
      case Err(e) => Err(SelectionFailed(e))
      case Ok(image) =>
        if image.file.None? then Err(NoFileElement)
        else
          var events := [DrawOverlay(ErrorStatus(settings.errorCode, image.file.value)), UpdateDesktop];
          assert events[1..] == [UpdateDesktop] && events[1..][1..] == [];
          assert Updates(events[1..]) == 0 && ErrorOverlays(events[1..]) == 0;
          Ok(events)
  }

  /** The weather fields of a new sample copied into the status record. */
  function WithRecord(status: Status, record: WeatherRecord, heatIndex: int): (r: Status)
    ensures r.date == record.date && r.code == record.code && r.temp == record.temp
    ensures r.condition == record.text && r.humidity == record.humidity && r.forecast == record.forecast
    ensures r.tempUnit == record.tempUnit && r.heatIndex == Some(heatIndex)
    // The wallpaper fields and the error message stay as they were.
    ensures r.title == status.title && r.author == status.author && r.filename == status.filename
    ensures r.errorMessage == status.errorMessage
  {
    status.(date := record.date, code := record.code, temp := record.temp, condition := record.text,
            humidity := record.humidity, forecast := record.forecast, tempUnit := record.tempUnit,
            heatIndex := Some(heatIndex))
  }

  /** The title, author and file of a newly chosen wallpaper; a missing title or author reads as empty. */
  function WithWallpaper(status: Status, image: ImageEntry): (r: Result<Status, Fault>)
    ensures r.Ok? <==> image.file.Some?
    ensures r.Ok? ==> r.value.title == image.title.GetOr("") && r.value.author == image.author.GetOr("")
                      && r.value.filename == image.file.value
    ensures r.Ok? ==> r.value.(title := status.title, author := status.author, filename := status.filename) == status
  {
    if image.file.None? then Err(NoFileElement)
    else Ok(status.(title := image.title.GetOr(""), author := image.author.GetOr(""), filename := image.file.value))
  }

  /**
   * A sample with a new date (source lines 538-587): copy the weather fields,
   * compute the heat index, which converts the temperature and then the
   * humidity with `int`, apply the override, choose a new wallpaper only when
   * the code changed as a number, and call `updateWallpaper` once.
   */
  function NewSampleSpec(m: Memory, settings: Settings, sample: Sample, images: seq<ImageEntry>): (r: Observed)
    ensures ParseInt(sample.record.temp).None? ==> r.outcome == Fatal(BadTemp(sample.record.temp))
    ensures ParseInt(sample.record.temp).Some? && ParseInt(sample.record.humidity).None? ==>
              r.outcome == Fatal(BadHumidity(sample.record.humidity))
    ensures r.outcome.Continue? ==>
              && r.memory.lastUpdate == m.lastUpdate
              && r.memory.previousDate == sample.record.date
              && r.events == [UpdateWallpaper(r.memory.status)]
              && ParseInt(r.memory.previousCode).Some?
              && ParseInt(r.memory.previousCode) == ParseInt(r.memory.status.code)
              && r.memory.status.date == sample.record.date
              && r.memory.status.temp == sample.record.temp
              && r.memory.status.condition == sample.record.text
              && r.memory.status.humidity == sample.record.humidity
              && r.memory.status.forecast == sample.record.forecast
              && r.memory.status.tempUnit == sample.record.tempUnit
              && r.memory.status.heatIndex == Some(sample.heatIndex)
              && EffectiveCode(settings, sample.record.code, sample.record.temp, sample.heatIndex)
                 == Ok(r.memory.status.code)
    // A new wallpaper exactly when the code changed as a number.
    ensures r.outcome.Continue? && ParseInt(r.memory.status.code) == ParseInt(m.previousCode) ==>
              && r.memory.previousCode == m.previousCode
              && r.memory.status.title == m.status.title
              && r.memory.status.author == m.status.author
              && r.memory.status.filename == m.status.filename
    ensures r.outcome.Continue? && ParseInt(r.memory.status.code) != ParseInt(m.previousCode) ==>
              && r.memory.previousCode == r.memory.status.code
              && var chosen := Selection(images, r.memory.status.code, settings.errorCode, sample.pick);
                 && chosen.Ok?
                 && r.memory.status.title == chosen.value.title.GetOr("")
                 && r.memory.status.author == chosen.value.author.GetOr("")
                 && Some(r.memory.status.filename) == chosen.value.file
  {
    var record := sample.record;
    match (ParseInt(record.temp), ParseInt(record.humidity))
    case (None, _) => Observed(Fatal(BadTemp(record.temp)), m, [])
    case (_, None) => Observed(Fatal(BadHumidity(record.humidity)), m, [])
    case _ =>
      var status := WithRecord(m.status, record, sample.heatIndex);
      match EffectiveCode(settings, record.code, record.temp, sample.heatIndex)
      case Err(f) => Observed(Fatal(f), m, [])
      case Ok(code) =>
        var status := status.(code := code);
        match (ParseInt(code), ParseInt(m.previousCode))
        case (None, _) => Observed(Fatal(BadCode(code)), m, [])
        case (_, None) => Observed(Fatal(BadCode(m.previousCode)), m, [])
        case _ => CodeChangeSpec(Memory(m.lastUpdate, m.previousCode, record.date, status), settings, images, sample.pick)
  }

  /** Once both conversions and the override succeed, the new-sample branch goes on as `CodeChangeSpec`. */
  lemma NewSampleReaches(m: Memory, settings: Settings, sample: Sample, images: seq<ImageEntry>, code: string)
    requires ParseInt(sample.record.temp).Some? && ParseInt(sample.record.humidity).Some?
    requires EffectiveCode(settings, sample.record.code, sample.record.temp, sample.heatIndex) == Ok(code)
    requires ParseInt(code).Some? && ParseInt(m.previousCode).Some?
    ensures NewSampleSpec(m, settings, sample, images)
            == CodeChangeSpec(Memory(m.lastUpdate, m.previousCode, sample.record.date,
                                     WithRecord(m.status, sample.record, sample.heatIndex).(code := code)),
                              settings, images, sample.pick)
  {
  }

  /**
   * Source lines 561-587, once the status holds the new sample: a new
   * wallpaper when the code changed as a number, then `updateWallpaper`.
   */
  function CodeChangeSpec(m: Memory, settings: Settings, images: seq<ImageEntry>, pick: nat): (r: Observed)
    requires ParseInt(m.status.code).Some? && ParseInt(m.previousCode).Some?
    // Same condition: keep the wallpaper, redraw the overlay for the new data.
    ensures ParseInt(m.status.code) == ParseInt(m.previousCode) ==> r == Observed(Continue, m, [UpdateWallpaper(m.status)])
    ensures ParseInt(m.status.code) != ParseInt(m.previousCode) ==>
              var chosen := Selection(images, m.status.code, settings.errorCode, pick);
              && (chosen.Err? ==> r.outcome == Fatal(SelectionFailed(chosen.error)))
              && (chosen.Ok? && chosen.value.file.None? ==> r.outcome == Fatal(NoFileElement))
              && (chosen.Ok? && chosen.value.file.Some? ==>
                    && r.outcome == Continue
                    && r.memory == m.(previousCode := m.status.code, status := r.memory.status)
                    && r.events == [UpdateWallpaper(r.memory.status)]
                    && r.memory.status.title == chosen.value.title.GetOr("")
                    && r.memory.status.author == chosen.value.author.GetOr("")
                    && r.memory.status.filename == chosen.value.file.value
                    && r.memory.status.(title := m.status.title, author := m.status.author,
                                        filename := m.status.filename) == m.status)
  {
    if ParseInt(m.status.code).value == ParseInt(m.previousCode).value then
      Observed(Continue, m, [UpdateWallpaper(m.status)])
    else match Selection(images, m.status.code, settings.errorCode, pick)
      case Err(e) => Observed(Fatal(SelectionFailed(e)), m, [])
      case Ok(image) =>
        match WithWallpaper(m.status, image)
        case Err(f) => Observed(Fatal(f), m, [])
        case Ok(chosen) => Observed(Continue, m.(previousCode := m.status.code, status := chosen), [UpdateWallpaper(chosen)])
  }

  /** How many `updateWallpaper` calls a list of events holds. */
  function Updates(events: seq<Event>): nat {
    if events == [] then 0
    else (if events[0].UpdateWallpaper? then 1 else 0) + Updates(events[1..])
  }

  /** How many error overlays a list of events holds. */
  function ErrorOverlays(events: seq<Event>): nat {
    if events == [] then 0
    else (if events[0].DrawOverlay? then 1 else 0) + ErrorOverlays(events[1..])
  }

  /**
   * The first half of a pass (source lines 491-587): fetch when the refresh
   * delay has passed, follow the connection-error path if the first request
   * failed, and evaluate the sample if its date is new.
   */
  function PollSpec(m: Memory, settings: Settings, now: int, sample: Sample, images: seq<ImageEntry>): (r: Observed)
    ensures !RefreshDue(m.lastUpdate, now, settings.refreshDelay) ==> r == Observed(Continue, m, [])
    ensures Consistent(m) && r.outcome.Continue? ==> Consistent(r.memory)
  {
    if !RefreshDue(m.lastUpdate, now, settings.refreshDelay) then Observed(Continue, m, [])
    else
      var fetched := m.(lastUpdate := now);
      var errorEvents := if sample.connectFailed then ConnectErrorEvents(settings, images, sample.errorPick) else Ok([]);
      match errorEvents
      case Err(f) => Observed(Fatal(f), fetched, [])
      case Ok(before) =>
        var seen := if sample.connectFailed then "" else m.previousDate;
        Preceded(before, SampleSpec(fetched.(previousDate := seen), settings, sample, images))
  }

  /** What a pass observes, with `before` made first. */
  function Preceded(before: seq<Event>, r: Observed): Observed {
    Observed(r.outcome, r.memory, before + r.events)
  }

  /**
   * Source lines 534-587, once the sample has arrived: store its date, and
   * evaluate it if the date differs from the previous one.
   */
  function SampleSpec(m: Memory, settings: Settings, sample: Sample, images: seq<ImageEntry>): (r: Observed)
    ensures Consistent(m.(previousDate := "")) && r.outcome.Continue? ==> Consistent(r.memory)
    ensures m.previousDate == sample.record.date ==>
              r == Observed(Continue, m.(status := m.status.(date := sample.record.date)), [])
  {
    var dated := m.(status := m.status.(date := sample.record.date));
    if m.previousDate == sample.record.date then Observed(Continue, dated, [])
    else NewSampleSpec(dated, settings, sample, images)
  }

  /**
   * A pass that fetches and continues: the clock of the fetch is recorded, the
   * sample's date is stored, one error overlay is drawn when the connection
   * failed and the overlay is on, and `updateWallpaper` is called once exactly
   * when the date is new, which also means both conversions of `getHeatIndex`
   * succeeded.
   */
  lemma PollSpecFetched(m: Memory, settings: Settings, now: int, sample: Sample, images: seq<ImageEntry>)
    ensures var r := PollSpec(m, settings, now, sample, images);
            RefreshDue(m.lastUpdate, now, settings.refreshDelay) && r.outcome.Continue? ==>
              && r.memory.lastUpdate == now
              && r.memory.status.date == sample.record.date
              && ErrorOverlays(r.events) == (if sample.connectFailed && settings.overlayEnabled then 1 else 0)
              && var seen := if sample.connectFailed then "" else m.previousDate;
                 && (seen == sample.record.date ==>
                       && Updates(r.events) == 0
                       && r.memory == Memory(now, m.previousCode, seen, m.status.(date := sample.record.date)))
                 && (seen != sample.record.date ==>
                       && Updates(r.events) == 1
                       && ParseInt(sample.record.temp).Some? && ParseInt(sample.record.humidity).Some?
                       && r.events[|r.events| - 1] == UpdateWallpaper(r.memory.status)
                       && r.memory.previousDate == sample.record.date)
  {
    if RefreshDue(m.lastUpdate, now, settings.refreshDelay) {
      var errorEvents := if sample.connectFailed then ConnectErrorEvents(settings, images, sample.errorPick) else Ok([]);
      if errorEvents.Ok? {
        var before := errorEvents.value;
        assert Updates(before) == 0;
        assert ErrorOverlays(before) == if sample.connectFailed && settings.overlayEnabled then 1 else 0;
        var seen := if sample.connectFailed then "" else m.previousDate;
        var fetched := m.(lastUpdate := now, previousDate := seen);
        assert PollSpec(m, settings, now, sample, images) == Preceded(before, SampleSpec(fetched, settings, sample, images));
        SampleAfter(before, fetched, settings, sample, images);
      }
    }
  }

  /** The sample half of a pass, after the calls `before` of the connection-error path. */
  lemma SampleAfter(before: seq<Event>, m: Memory, settings: Settings, sample: Sample, images: seq<ImageEntry>)
    requires Updates(before) == 0
    ensures var r := Preceded(before, SampleSpec(m, settings, sample, images));
            r.outcome.Continue? ==>
              && r.memory.lastUpdate == m.lastUpdate
              && r.memory.status.date == sample.record.date
              && ErrorOverlays(r.events) == ErrorOverlays(before)
              && (m.previousDate == sample.record.date ==>
                    && Updates(r.events) == 0
                    && r.memory == m.(status := m.status.(date := sample.record.date)))
              && (m.previousDate != sample.record.date ==>
                    && Updates(r.events) == 1
                    && ParseInt(sample.record.temp).Some? && ParseInt(sample.record.humidity).Some?
                    && r.events[|r.events| - 1] == UpdateWallpaper(r.memory.status)
                    && r.memory.previousDate == sample.record.date)
  {
    var later := SampleSpec(m, settings, sample, images);
    CountsAppend(before, later.events);
    if m.previousDate == sample.record.date {
      assert before + [] == before;
    } else {
      assert later == NewSampleSpec(m.(status := m.status.(date := sample.record.date)), settings, sample, images);
    }
  }

  lemma {:induction false} CountsAppend(a: seq<Event>, b: seq<Event>)
    ensures Updates(a + b) == Updates(a) + Updates(b)
    ensures ErrorOverlays(a + b) == ErrorOverlays(a) + ErrorOverlays(b)
  {
    if a == [] {
      assert a + b == b;
    } else {
      CountsAppend(a[1..], b);
      assert (a + b)[1..] == a[1..] + b;
    }
  }

  /**
   * The second half of a pass (source lines 594-604): a settings file that
   * differs from the settings in use replaces them, forces `updateWallpaper`,
   * clears the previous date and moves the last fetch a week back.
   */
  function ReloadSpec(m: Memory, settings: Settings, reloaded: Settings, later: int): (r: Observed)
    ensures r.outcome == Continue
    ensures reloaded == settings ==> r == Observed(Continue, m, [])
    ensures reloaded != settings ==>
              && r.events == [UpdateWallpaper(m.status)]
              && r.memory == m.(previousDate := "", lastUpdate := later - Week)
    ensures Consistent(m) ==> Consistent(r.memory)
  {
    if reloaded == settings then Observed(Continue, m, [])
    else Observed(Continue, m.(previousDate := "", lastUpdate := later - Week), [UpdateWallpaper(m.status)])
  }

  /**
   * The first pass fetches and treats its sample as new, as long as the
   * refresh delay is under a week, the clock has not gone back since `main`
   * started and the sample has a date.
   */
  lemma FirstPassFetches(started: int, settings: Settings, now: int, sample: Sample, images: seq<ImageEntry>)
    requires settings.refreshDelay < 7 * 24 * 60
    requires now >= started
    requires sample.record.date != ""
    ensures RefreshDue(InitialMemory(started).lastUpdate, now, settings.refreshDelay)
    ensures var first := PollSpec(InitialMemory(started), settings, now, sample, images);
            first.outcome.Continue? ==> Updates(first.events) == 1
  {
    assert now - InitialMemory(started).lastUpdate >= Week;
    assert settings.refreshDelay * MicrosPerMinute < Week;
    PollSpecFetched(InitialMemory(started), settings, now, sample, images);
  }

  /**
   * After a settings change, the next pass always fetches and treats its
   * sample as new, as long as the refresh delay is under a week, the clock
   * has not gone back and the sample has a date.
   */
  lemma ReloadForcesRefresh(m: Memory, settings: Settings, reloaded: Settings, later: int,
                            now: int, sample: Sample, images: seq<ImageEntry>)
    requires reloaded != settings
    requires reloaded.refreshDelay < 7 * 24 * 60
    requires now >= later
    requires sample.record.date != ""
    ensures var after := ReloadSpec(m, settings, reloaded, later).memory;
            && RefreshDue(after.lastUpdate, now, reloaded.refreshDelay)
            && var next := PollSpec(after, reloaded, now, sample, images);
               next.outcome.Continue? ==> Updates(next.events) == 1
  {
    var after := ReloadSpec(m, settings, reloaded, later).memory;
    assert now - after.lastUpdate >= Week;
    assert reloaded.refreshDelay * MicrosPerMinute < Week;
    PollSpecFetched(after, reloaded, now, sample, images);
  }

  /** The inputs of one pass of `main`'s loop. */
  datatype Tick = Tick(now: int, sample: Sample, images: seq<ImageEntry>, reloaded: Settings, later: int)

  /** What the notional retry loop and two halves of one pass do, and the settings after it. */
  function StepSpec(m: Memory, settings: Settings, tick: Tick): (r: (Observed, Settings))
    ensures Consistent(m) && r.0.outcome.Continue? ==> Consistent(r.0.memory)
    ensures r.0.outcome.Continue? ==> r.1 == tick.reloaded
  {
    var polled := PollSpec(m, settings, tick.now, tick.sample, tick.images);
    if polled.outcome.Fatal? then (polled, settings)
    else
      var reloaded := ReloadSpec(polled.memory, settings, tick.reloaded, tick.later);
      (Observed(Continue, reloaded.memory, polled.events + reloaded.events), tick.reloaded)
  }

  /** A run of passes, stopping at the first fatal one. */
  function RunSpec(m: Memory, settings: Settings, ticks: seq<Tick>): (r: (Observed, Settings))
    ensures Consistent(m) && r.0.outcome.Continue? ==> Consistent(r.0.memory)
    decreases |ticks|
  {
    if ticks == [] then (Observed(Continue, m, []), settings)
    else
      var step := StepSpec(m, settings, ticks[0]);
      if step.0.outcome.Fatal? then step
      else
        var rest := RunSpec(step.0.memory, step.1, ticks[1..]);
        (Observed(rest.0.outcome, rest.0.memory, step.0.events + rest.0.events), rest.1)
  }

  /** The state of `main`: the settings in use, the loop's variables and the calls made so far. */
  class Weatherpaper {
    var settings: Settings
    var lastUpdate: int
    var previousCode: string
    var previousDate: string
    var status: Status
    var events: seq<Event>

    function Snapshot(): Memory
      reads this
    {
      Memory(lastUpdate, previousCode, previousDate, status)
    }

    ghost predicate Valid()
      reads this
    {
      Consistent(Snapshot())
    }

    /** The start of `main`: empty status, previous code -1, last fetch a week before `started`. */
    constructor (settings: Settings, started: int)
      ensures Valid()
      ensures Snapshot() == InitialMemory(started) && this.settings == settings && events == []
    {
      this.settings := settings;
      lastUpdate := started - Week;
      previousCode := "-1";
      previousDate := "";
      status := InitialStatus;
      events := [];
    }

    /** Source lines 487-587, at clock `now`. */
    method Poll(now: int, sample: Sample, images: seq<ImageEntry>) returns (outcome: Outcome)
      requires Valid()
      modifies this
      ensures settings == old(settings)
      ensures var spec := PollSpec(old(Snapshot()), old(settings), now, sample, images);
              && outcome == spec.outcome
              && (outcome.Continue? ==> Valid() && Snapshot() == spec.memory && events == old(events) + spec.events)
    {
      if !(now - lastUpdate > settings.refreshDelay * MicrosPerMinute) {
        return Continue;
      }
      lastUpdate := now;
      ghost var before: seq<Event> := [];
      if sample.connectFailed {
        var fault := ConnectionLost(images, sample.errorPick);
        if fault.Some? {
          return Fatal(fault.value);
        }
        before := ConnectErrorEvents(settings, images, sample.errorPick).value;
        // The retry loop ends when `sample.record` arrives.
      }
      ghost var spec := SampleSpec(Snapshot(), settings, sample, images);
      outcome := Arrived(sample, images);
      Regroup(old(events), before, spec.events);
    }

    /** Source lines 502-526: the first request failed with a connection error. */
    method ConnectionLost(images: seq<ImageEntry>, errorPick: nat) returns (fault: Option<Fault>)
      modifies this
      ensures settings == old(settings) && lastUpdate == old(lastUpdate)
      ensures previousCode == old(previousCode) && status == old(status)
      ensures previousDate == ""
      ensures var spec := ConnectErrorEvents(settings, images, errorPick);
              && (fault.Some? <==> spec.Err?)
              && (spec.Err? ==> fault == Some(spec.error))
              && (spec.Ok? ==> events == old(events) + spec.value)
    {
      // Clear the date so that the error image is replaced once the connection is back.
      previousDate := "";
      if settings.overlayEnabled {
        var wallpaper := GetWallpaper(images, settings.errorCode, settings.errorCode, errorPick);
        if wallpaper.Err? {
          return Some(SelectionFailed(wallpaper.error));
        }
        if wallpaper.value.file.None? {
          return Some(NoFileElement);
        }
        var werror := ErrorStatus(settings.errorCode, wallpaper.value.file.value);
        events := events + [DrawOverlay(werror), UpdateDesktop];
      } else {
        assert events == old(events) + [];
      }
      return None;
    }

    /** Source lines 534-587: the sample has arrived. */
    method Arrived(sample: Sample, images: seq<ImageEntry>) returns (outcome: Outcome)
      requires ParseInt(previousCode).Some?
      modifies this
      ensures settings == old(settings)
      ensures var spec := SampleSpec(old(Snapshot()), old(settings), sample, images);
              && outcome == spec.outcome
              && (outcome.Continue? ==> Snapshot() == spec.memory && events == old(events) + spec.events)
    {
      var record := sample.record;
      status := status.(date := record.date);
      if previousDate != record.date {
        outcome := NewSample(sample, images);
        return;
      }
      return Continue;
    }

    /** Source lines 538-587: a sample whose date is new. */
    method NewSample(sample: Sample, images: seq<ImageEntry>) returns (outcome: Outcome)
      requires ParseInt(previousCode).Some?
      modifies this
      ensures settings == old(settings)
      ensures var spec := NewSampleSpec(old(Snapshot()), old(settings), sample, images);
              && outcome == spec.outcome
              && (outcome.Continue? ==> Snapshot() == spec.memory && events == old(events) + spec.events)
    {
      var record := sample.record;
      previousDate := record.date;
      // `getHeatIndex` converts the temperature and then the humidity.
      var temp := ParseInt(record.temp);
      if temp.None? {
        return Fatal(BadTemp(record.temp));
      }
      if ParseInt(record.humidity).None? {
        return Fatal(BadHumidity(record.humidity));
      }
      var effective := record.code;
      if settings.useHeatIndex && sample.heatIndex >= settings.hotThreshold {
        effective := HotCode;
      } else if temp.value >= settings.hotThreshold {
        effective := HotCode;
      }
      assert EffectiveCode(settings, record.code, record.temp, sample.heatIndex) == Ok(effective);
      status := WithRecord(status, record, sample.heatIndex).(code := effective);
      if ParseInt(status.code).None? {
        return Fatal(BadCode(status.code));
      }
      NewSampleReaches(old(Snapshot()), settings, sample, images, effective);
      outcome := CodeChange(images, sample.pick);
    }

    /** Source lines 561-587, once the status holds the new sample. */
    method CodeChange(images: seq<ImageEntry>, pick: nat) returns (outcome: Outcome)
      requires ParseInt(status.code).Some? && ParseInt(previousCode).Some?
      modifies this
      ensures settings == old(settings)
      ensures var spec := CodeChangeSpec(old(Snapshot()), old(settings), images, pick);
              && outcome == spec.outcome
              && (outcome.Continue? ==> Snapshot() == spec.memory && events == old(events) + spec.events)
    {
      if ParseInt(status.code).value != ParseInt(previousCode).value {
        previousCode := status.code;
        var wallpaper := GetWallpaper(images, status.code, settings.errorCode, pick);
        if wallpaper.Err? {
          return Fatal(SelectionFailed(wallpaper.error));
        }
        status := status.(title := wallpaper.value.title.GetOr(""), author := wallpaper.value.author.GetOr(""));
        if wallpaper.value.file.None? {
          return Fatal(NoFileElement);
        }
        status := status.(filename := wallpaper.value.file.value);
      }
      events := events + [UpdateWallpaper(status)];
      return Continue;
    }

    /** Source lines 594-604: compare the settings file with the settings in use. */
    method Reload(reloaded: Settings, later: int) returns (changed: bool)
      requires Valid()
      modifies this
      ensures Valid() && settings == reloaded && changed == (reloaded != old(settings))
      ensures var spec := ReloadSpec(old(Snapshot()), old(settings), reloaded, later);
              Snapshot() == spec.memory && events == old(events) + spec.events
    {
      changed := settings != reloaded;
      if changed {
        settings := reloaded;
        events := events + [UpdateWallpaper(status)];
        previousDate := "";
        lastUpdate := later - Week;
      }
    }

    /** One pass of the loop: `Poll`, the ten-second sleep, then `Reload`. */
    method Step(tick: Tick) returns (outcome: Outcome)
      requires Valid()
      modifies this
      ensures var spec := StepSpec(old(Snapshot()), old(settings), tick);
              && outcome == spec.0.outcome
              && (outcome.Continue? ==> Valid() && Snapshot() == spec.0.memory && settings == spec.1
                                        && events == old(events) + spec.0.events)
    {
      outcome := Poll(tick.now, tick.sample, tick.images);
      if outcome.Continue? {
        var _ := Reload(tick.reloaded, tick.later);
      }
    }

    /** Pass `i` of `Run`, given what passes before it made. */
    method Pass(ticks: seq<Tick>, i: nat, ghost done: seq<Event>, ghost total: (Observed, Settings),
                ghost rest: (Observed, Settings))
      returns (outcome: Outcome, ghost more: seq<Event>, ghost after: (Observed, Settings))
      requires i < |ticks| && Valid()
      requires rest == RunSpec(Snapshot(), settings, ticks[i..])
      requires total == Continued(done, rest)
      modifies this
      ensures outcome.Fatal? ==> outcome == total.0.outcome
      ensures outcome.Continue? ==>
                && Valid() && events == old(events) + more
                && after == RunSpec(Snapshot(), settings, ticks[i + 1..])
                && total == Continued(done + more, after)
    {
      ghost var step := StepSpec(Snapshot(), settings, ticks[i]);
      RunUnfold(Snapshot(), settings, ticks, i);
      outcome := Step(ticks[i]);
      more := step.0.events;
      after := RunSpec(Snapshot(), settings, ticks[i + 1..]);
      if outcome.Continue? {
        ContinuedTwice(done, more, after);
      }
    }

    /** `main`'s `while True`, over a finite list of passes; it stops at the first fatal one. */
    method Run(ticks: seq<Tick>) returns (outcome: Outcome)
      requires Valid()
      modifies this
      ensures var spec := RunSpec(old(Snapshot()), old(settings), ticks);
              && outcome == spec.0.outcome
              && (outcome.Continue? ==> Valid() && Snapshot() == spec.0.memory && settings == spec.1
                                        && events == old(events) + spec.0.events)
    {
      var i := 0;
      ghost var done: seq<Event> := [];
      ghost var total := RunSpec(Snapshot(), settings, ticks);
      ghost var rest := total;
      assert ticks[0..] == ticks;
      ContinuedNothing(total);
      while i < |ticks|
        invariant 0 <= i <= |ticks|
        invariant Valid()
        invariant events == old(events) + done
        invariant rest == RunSpec(Snapshot(), settings, ticks[i..])
        invariant total == Continued(done, rest)
      {
        ghost var more;
        outcome, more, rest := Pass(ticks, i, done, total, rest);
        if outcome.Fatal? {
          return;
        }
        Regroup(old(events), done, more);
        done := done + more;
        i := i + 1;
      }
      RunEnd(Snapshot(), settings, ticks, done, total, rest);
      outcome := Continue;
    }
  }

  /** Once every pass has run, the run is what the passes made. */
  lemma RunEnd(m: Memory, settings: Settings, ticks: seq<Tick>, done: seq<Event>,
               total: (Observed, Settings), rest: (Observed, Settings))
    requires rest == RunSpec(m, settings, ticks[|ticks|..])
    requires total == Continued(done, rest)
    ensures total == (Observed(Continue, m, done), settings)
  {
    assert ticks[|ticks|..] == [];
    assert done + [] == done;
  }

  /** A run from pass `i` on is pass `i`, then, unless it was fatal, the run from pass `i + 1` on. */
  lemma RunUnfold(m: Memory, settings: Settings, ticks: seq<Tick>, i: nat)
    requires i < |ticks|
    ensures var step := StepSpec(m, settings, ticks[i]);
            RunSpec(m, settings, ticks[i..])
            == if step.0.outcome.Fatal? then step
               else Continued(step.0.events, RunSpec(step.0.memory, step.1, ticks[i + 1..]))
  {
    assert ticks[i..][1..] == ticks[i + 1..];
  }

  lemma Regroup(a: seq<Event>, b: seq<Event>, c: seq<Event>)
    ensures a + b + c == a + (b + c)
  {
  }

  lemma ContinuedNothing(rest: (Observed, Settings))
    ensures Continued([], rest) == rest
  {
    assert [] + rest.0.events == rest.0.events;
  }

  lemma ContinuedTwice(done: seq<Event>, more: seq<Event>, rest: (Observed, Settings))
    ensures Continued(done, Continued(more, rest)) == Continued(done + more, rest)
  {
    assert done + (more + rest.0.events) == (done + more) + rest.0.events;
  }

  /** A run whose first passes made `done` and whose remaining passes give `rest`. */
  function Continued(done: seq<Event>, rest: (Observed, Settings)): (Observed, Settings) {
    (Observed(rest.0.outcome, rest.0.memory, done + rest.0.events), rest.1)
  }
}
