/** The drop-alert timer of backend/src/ingestTimer/index.ts.

    Every tick takes one market snapshot, flags each coin whose 24h change is
    at or below -5 percent, and emits an alert for it unless the same id was
    alerted less than (or exactly) 30 minutes before, as recorded in a
    process-wide table from id to the time of its last alert.  The HTTP fetch
    and the clock are inputs of a tick; an alert is a record appended to the
    tick's output instead of a formatted log line. */
module IngestTimer {
  import opened Wrappers

  /** Minimum gap, in milliseconds, between two alerts for one id (30 minutes). */
  const CooldownMs: int := 30 * 60 * 1000

  /** A 24h change at or below this percentage is a drop worth an alert. */
  const DropThreshold: real := -5.0

  /** One entry of the market snapshot; a null 24h change is `None`. */
  datatype Coin = Coin(id: string, name: string, priceChange24h: Option<real>)

  /** What the fetch of one tick yields: a failure (non-ok status, network or
      parse error) or the decoded list of coins. */
  datatype FetchResult = FetchFailed | Fetched(data: seq<Coin>)

  /** An emitted alert: the coin and the change that triggered it. */
  datatype Alert = Alert(id: string, name: string, change24h: real)

  /** The cooldown table and the alerts emitted so far in a tick. */
  datatype Outcome = Outcome(table: map<string, int>, alerts: seq<Alert>)

  /** The change the tick compares: a null change counts as 0. */
  function ChangeOrZero(c: Coin): real
  {
    match c.priceChange24h
    case None => 0.0
    case Some(ch) => ch
  }

  /** Whether the coin breaches the drop threshold (inclusive). */
  predicate IsBreach(c: Coin)
    ensures IsBreach(c) <==> c.priceChange24h.Some? && c.priceChange24h.value <= -5.0
  {
    ChangeOrZero(c) <= DropThreshold
  }

  /** The time of the last alert for `id`; a missing entry reads as 0. */
  function LastAlert(table: map<string, int>, id: string): int
  {
    if id in table then table[id] else 0
  }

  /** Whether the cooldown for `id` has elapsed at `now` (strictly). */
  predicate ShouldAlert(table: map<string, int>, id: string, now: int)
    ensures ShouldAlert(table, id, now) <==>
              if id in table then now - table[id] > 30 * 60 * 1000
              else now > 30 * 60 * 1000
  {
    now - LastAlert(table, id) > CooldownMs
  }

  /** One iteration of the tick's loop over the snapshot. */
  function Step(o: Outcome, c: Coin, now: int): Outcome
  {
    if IsBreach(c) && ShouldAlert(o.table, c.id, now) then
      Outcome(o.table[c.id := now], o.alerts + [Alert(c.id, c.name, ChangeOrZero(c))])
    else
      o
  }

  /** The loop over a whole snapshot, in order, every coin sharing one `now`. */
  function Scan(table: map<string, int>, data: seq<Coin>, now: int): Outcome
  {
    if data == [] then Outcome(table, [])
    else Step(Scan(table, data[..|data| - 1], now), data[|data| - 1], now)
  }

  /** One tick: a failed fetch aborts it with no alert and no change to the table. */
  function RunTick(table: map<string, int>, fetch: FetchResult, now: int): Outcome
  {
    match fetch
    case FetchFailed => Outcome(table, [])
    case Fetched(data) => Scan(table, data, now)
  }

  /** The ids that alerted in a tick. */
  function AlertIds(alerts: seq<Alert>): set<string>
  {
    set a | a in alerts :: a.id
  }

  /** Every alert of a tick stems from a breaching coin of the snapshot and
      carries that coin's name and change; there are never more alerts than coins. */
  lemma {:induction false} ScanAlertsAreBreaches(table: map<string, int>, data: seq<Coin>, now: int)
    ensures |Scan(table, data, now).alerts| <= |data|
    ensures forall a :: a in Scan(table, data, now).alerts ==>
              a.change24h <= DropThreshold &&
              exists c :: c in data && IsBreach(c) && c.id == a.id && c.name == a.name && ChangeOrZero(c) == a.change24h
  {
    if data != [] {
      var init := data[..|data| - 1];
      ScanAlertsAreBreaches(table, init, now);
      forall c | c in init ensures c in data {
        var k :| 0 <= k < |init| && init[k] == c;
        assert data[k] == c;
      }
    }
  }

  /** The table after a tick: an id that alerted maps to `now`; every other
      entry is untouched, and no entry is removed. */
  lemma {:induction false} ScanTable(table: map<string, int>, data: seq<Coin>, now: int)
    ensures Scan(table, data, now).table.Keys == table.Keys + AlertIds(Scan(table, data, now).alerts)
    ensures forall k :: k in Scan(table, data, now).table ==>
              Scan(table, data, now).table[k] ==
                if k in AlertIds(Scan(table, data, now).alerts) then now else table[k]
  {
    if data != [] {
      var prev := Scan(table, data[..|data| - 1], now);
      ScanTable(table, data[..|data| - 1], now);
      var c := data[|data| - 1];
      if IsBreach(c) && ShouldAlert(prev.table, c.id, now) {
        var a := Alert(c.id, c.name, ChangeOrZero(c));
        assert AlertIds(prev.alerts + [a]) == AlertIds(prev.alerts) + {c.id};
      }
    }
  }

  /** Within one tick an id alerts at most once: after its alert the table
      holds `now` for it, and `now - now` is not above the cooldown. */
  lemma {:induction false} ScanAlertsDistinct(table: map<string, int>, data: seq<Coin>, now: int)
    ensures var alerts := Scan(table, data, now).alerts;
      forall i, j :: 0 <= i < j < |alerts| ==> alerts[i].id != alerts[j].id
  {
    if data != [] {
      var init := data[..|data| - 1];
      var prev := Scan(table, init, now);
      ScanAlertsDistinct(table, init, now);
      ScanTable(table, init, now);
      var c := data[|data| - 1];
      assert c.id in AlertIds(prev.alerts) ==> !ShouldAlert(prev.table, c.id, now);
      if IsBreach(c) && ShouldAlert(prev.table, c.id, now) {
        forall i | 0 <= i < |prev.alerts| ensures prev.alerts[i].id != c.id {
          assert prev.alerts[i] in prev.alerts;
        }
      }
    }
  }

  /** The ids that alert in a tick are exactly those of the snapshot's
      breaching coins whose cooldown has elapsed against the table as it was
      before the tick. */
  lemma {:induction false} ScanAlertIds(table: map<string, int>, data: seq<Coin>, now: int)
    ensures AlertIds(Scan(table, data, now).alerts) ==
              set c | c in data && IsBreach(c) && ShouldAlert(table, c.id, now) :: c.id
  {
    if data != [] {
      var init := data[..|data| - 1];
      var c := data[|data| - 1];
      var prev := Scan(table, init, now);
      ScanAlertIds(table, init, now);
      ScanTable(table, init, now);
      assert data == init + [c];
      // An id that has not alerted yet in this tick reads its old entry.
      assert c.id !in AlertIds(prev.alerts) ==> ShouldAlert(prev.table, c.id, now) == ShouldAlert(table, c.id, now);
      assert c.id in AlertIds(prev.alerts) ==> !ShouldAlert(prev.table, c.id, now);
      if IsBreach(c) && ShouldAlert(prev.table, c.id, now) {
        var a := Alert(c.id, c.name, ChangeOrZero(c));
        assert AlertIds(prev.alerts + [a]) == AlertIds(prev.alerts) + {c.id};
      }
    }
  }

  /** Position `k` of the snapshot holds the first breaching coin with the
      alert's id, and the alert carries that coin's name and change. */
  predicate FirstBreachFor(data: seq<Coin>, k: int, a: Alert)
  {
    0 <= k < |data| && IsBreach(data[k]) &&
    data[k].id == a.id && data[k].name == a.name && ChangeOrZero(data[k]) == a.change24h &&
    forall j :: 0 <= j < k && data[j].id == a.id ==> !IsBreach(data[j])
  }

  /** Each alert of a tick is raised by the first breaching occurrence of its
      id in the snapshot; a later breaching duplicate is the one suppressed. */
  lemma {:induction false} ScanAlertsFromFirstBreach(table: map<string, int>, data: seq<Coin>, now: int)
    ensures forall a :: a in Scan(table, data, now).alerts ==> exists k :: FirstBreachFor(data, k, a)
  {
    if data != [] {
      var n := |data| - 1;
      var init := data[..n];
      var c := data[n];
      var prev := Scan(table, init, now);
      ScanAlertsFromFirstBreach(table, init, now);
      forall a | a in prev.alerts ensures exists k :: FirstBreachFor(data, k, a) {
        var k :| FirstBreachFor(init, k, a);
        assert FirstBreachFor(data, k, a);
      }
      if IsBreach(c) && ShouldAlert(prev.table, c.id, now) {
        ScanAlertIds(table, init, now);
        ScanTable(table, init, now);
        assert c.id !in AlertIds(prev.alerts);
        assert ShouldAlert(table, c.id, now);
        forall j | 0 <= j < n && data[j].id == c.id ensures !IsBreach(data[j]) {
          assert data[j] == init[j] && init[j] in init;
        }
        assert FirstBreachFor(data, n, Alert(c.id, c.name, ChangeOrZero(c)));
      }
    }
  }

  /** On a fresh process's empty table, a breaching coin alerts exactly when
      the clock reading itself exceeds the cooldown, since a missing entry
      reads as time 0. */
  lemma FirstTickAlerts(data: seq<Coin>, now: int)
    ensures AlertIds(Scan(map[], data, now).alerts) ==
              if now > CooldownMs then set c | c in data && IsBreach(c) :: c.id else {}
  {
    ScanAlertIds(map[], data, now);
  }

  /** A log entry: one alert for `id` emitted at time `at`. */
  datatype Stamp = Stamp(id: string, at: int)

  /** The log entries of the alerts of one tick. */
  function Stamps(alerts: seq<Alert>, now: int): seq<Stamp>
  {
    seq(|alerts|, i requires 0 <= i < |alerts| => Stamp(alerts[i].id, now))
  }

  /** Two alerts for the same id lie more than the cooldown apart. */
  ghost predicate WellSpaced(log: seq<Stamp>)
  {
    forall i, j :: 0 <= i < j < |log| && log[i].id == log[j].id ==> log[j].at - log[i].at > CooldownMs
  }

  /** The table covers every logged id with a time no earlier than its alerts. */
  ghost predicate Consistent(table: map<string, int>, log: seq<Stamp>)
  {
    forall i :: 0 <= i < |log| ==> log[i].id in table && log[i].at <= table[log[i].id]
  }

  /** Recording an alert that the cooldown allowed keeps the log well spaced. */
  lemma RecordAlertKeepsSpacing(table: map<string, int>, log: seq<Stamp>, id: string, now: int)
    requires Consistent(table, log) && WellSpaced(log)
    requires ShouldAlert(table, id, now)
    ensures Consistent(table[id := now], log + [Stamp(id, now)])
    ensures WellSpaced(log + [Stamp(id, now)])
  {
  }

  /** A whole tick keeps the log of all alerts well spaced. */
  lemma {:induction false} ScanKeepsSpacing(table: map<string, int>, log: seq<Stamp>, data: seq<Coin>, now: int)
    requires Consistent(table, log) && WellSpaced(log)
    ensures Consistent(Scan(table, data, now).table, log + Stamps(Scan(table, data, now).alerts, now))
    ensures WellSpaced(log + Stamps(Scan(table, data, now).alerts, now))
  {
    if data != [] {
      var prev := Scan(table, data[..|data| - 1], now);
      ScanKeepsSpacing(table, log, data[..|data| - 1], now);
      var c := data[|data| - 1];
      if IsBreach(c) && ShouldAlert(prev.table, c.id, now) {
        var a := Alert(c.id, c.name, ChangeOrZero(c));
        RecordAlertKeepsSpacing(prev.table, log + Stamps(prev.alerts, now), c.id, now);
        assert Stamps(prev.alerts + [a], now) == Stamps(prev.alerts, now) + [Stamp(c.id, now)];
        assert log + Stamps(prev.alerts + [a], now) == log + Stamps(prev.alerts, now) + [Stamp(c.id, now)];
      }
    }
  }

  /** The clock reading and fetch result of one tick. */
  datatype TickInput = TickInput(fetch: FetchResult, now: int)

  /** The table after a run of ticks and the log of every alert they emitted. */
  datatype History = History(table: map<string, int>, log: seq<Stamp>)

  /** Sequential ticks, each one finishing before the next starts. */
  function RunTicks(table: map<string, int>, ticks: seq<TickInput>): History
  {
    if ticks == [] then History(table, [])
    else
      var h := RunTicks(table, ticks[..|ticks| - 1]);
      var t := ticks[|ticks| - 1];
      var o := RunTick(h.table, t.fetch, t.now);
      History(o.table, h.log + Stamps(o.alerts, t.now))
  }

  /** From the empty table of a fresh process, any run of ticks, with any clock
      readings, never emits two alerts for one id within the cooldown. */
  lemma {:induction false} CooldownAcrossTicks(ticks: seq<TickInput>)
    ensures Consistent(RunTicks(map[], ticks).table, RunTicks(map[], ticks).log)
    ensures WellSpaced(RunTicks(map[], ticks).log)
  {
    if ticks != [] {
      var h := RunTicks(map[], ticks[..|ticks| - 1]);
      CooldownAcrossTicks(ticks[..|ticks| - 1]);
      var t := ticks[|ticks| - 1];
      match t.fetch
      case FetchFailed =>
        assert Stamps([], t.now) == [];
        assert h.log + [] == h.log;
      case Fetched(data) =>
        ScanKeepsSpacing(h.table, h.log, data, t.now);
    }
  }

  /** If every fetch fails, no alert is ever emitted and the table never changes. */
  lemma {:induction false} FailingFetchesChangeNothing(table: map<string, int>, ticks: seq<TickInput>)
    requires forall t :: t in ticks ==> t.fetch.FetchFailed?
    ensures RunTicks(table, ticks) == History(table, [])
  {
    if ticks != [] {
      var init := ticks[..|ticks| - 1];
      forall t | t in init ensures t.fetch.FetchFailed? {
        var k :| 0 <= k < |init| && init[k] == t;
        assert ticks[k] == t;
      }
      FailingFetchesChangeNothing(table, init);
      assert ticks[|ticks| - 1] in ticks;
      assert Stamps([], ticks[|ticks| - 1].now) == [];
    }
  }

  /** The timer function's module-level state: `alertedRecently`, plus a ghost
      log of every alert it has emitted. */
  class AlertDispatcher {
    var alertedRecently: map<string, int>
    ghost var log: seq<Stamp>

    ghost predicate Valid()
      reads this
    {
      Consistent(alertedRecently, log) && WellSpaced(log)
    }

    /** The empty table of a freshly loaded module. */
    constructor ()
      ensures Valid()
      ensures alertedRecently == map[] && log == []
    {
      alertedRecently := map[];
      log := [];
    }

    /** One timer invocation, given the fetch result and the clock reading. */
    method Tick(fetch: FetchResult, now: int) returns (alerts: seq<Alert>)
      requires Valid()
      modifies this
      ensures Valid()
      ensures Outcome(alertedRecently, alerts) == RunTick(old(alertedRecently), fetch, now)
      ensures log == old(log) + Stamps(alerts, now)
    {
      alerts := [];
      if fetch.FetchFailed? {
        assert Stamps([], now) == [];
        assert log + [] == log;
        return;
      }
      var data := fetch.data;
      for i := 0 to |data|
        invariant Outcome(alertedRecently, alerts) == Scan(old(alertedRecently), data[..i], now)
        invariant log == old(log)
      {
        var c := data[i];
        assert data[..i + 1][..i] == data[..i];
        var ch := ChangeOrZero(c);
        if ch <= DropThreshold {
          var last := if c.id in alertedRecently then alertedRecently[c.id] else 0;
          if now - last > CooldownMs {
            alerts := alerts + [Alert(c.id, c.name, ch)];
            alertedRecently := alertedRecently[c.id := now];
          }
        }
      }
      assert data[..|data|] == data;
      ScanKeepsSpacing(old(alertedRecently), log, data, now);
      log := log + Stamps(alerts, now);
    }
  }
}
