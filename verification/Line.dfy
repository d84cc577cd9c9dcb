/**
 The production line: stations take units in parallel, fold each result into shared counters and
 push its record. Every atomic operation is one step; all interleavings are considered.
 */
module Line {
  import opened Bytes

  const RECENT_KEEP: nat := 500

  // ---------------------------------------------------------------- one unit

  datatype Attempt = Good(bytes: nat) | Bad(error: string)

  datatype Record = Record(pass: bool, attempts: nat, bytes: nat, error: Option<string>)

  /** The record of a unit whose first `k` attempts failed; `tries(k)` is how attempt `k` turns out. */
  function UnitFrom(tries: nat -> Attempt, k: nat, retries: nat): (rec: Record)
    requires k <= retries
    ensures k < rec.attempts <= retries + 1
    decreases retries - k
  {
    match tries(k)
    case Good(bytes) => Record(true, k + 1, bytes, None)
    case Bad(e) => if k == retries then Record(false, k + 1, 0, Some(e)) else UnitFrom(tries, k + 1, retries)
  }

  /** Flash a unit, trying again up to `retries` times, with a recovery between two attempts. */
  method RunUnit(tries: nat -> Attempt, retries: nat) returns (rec: Record, recoveries: nat)
    ensures rec == UnitFrom(tries, 0, retries)
    ensures recoveries == rec.attempts - 1
    ensures forall k | 0 <= k < rec.attempts - 1 :: tries(k).Bad?
    ensures rec.pass ==> tries(rec.attempts - 1) == Good(rec.bytes) && rec.error == None
    ensures !rec.pass ==>
              && rec.attempts == retries + 1 && rec.bytes == 0
              && tries(retries).Bad? && rec.error == Some(tries(retries).error)
  {
    var attempts, lastErr := 0, "";
    recoveries := 0;
    while attempts <= retries
      invariant attempts <= retries + 1
      invariant forall k | 0 <= k < attempts :: tries(k).Bad?
      invariant attempts > 0 ==> lastErr == tries(attempts - 1).error
      invariant UnitFrom(tries, 0, retries)
             == if attempts > retries then Record(false, attempts, 0, Some(lastErr))
                else UnitFrom(tries, attempts, retries)
      invariant recoveries == Min(attempts, retries)
    {
      attempts := attempts + 1;
      match tries(attempts - 1) {
        case Good(bytes) =>
          return Record(true, attempts, bytes, None), recoveries;
        case Bad(e) =>
          lastErr := e;
          if attempts <= retries {
            recoveries := recoveries + 1;
          }
      }
    }
    rec := Record(false, attempts, 0, Some(lastErr));
  }

  // ---------------------------------------------------------------- the shared state

  datatype Totals = Totals(passed: nat, failed: nat, retries: nat, bytes: nat)

  const ZERO: Totals := Totals(0, 0, 0, 0)

  function Plus(a: Totals, b: Totals): Totals
  {
    Totals(a.passed + b.passed, a.failed + b.failed, a.retries + b.retries, a.bytes + b.bytes)
  }

  function Outcome(rec: Record): Totals
  {
    if rec.pass then Totals(1, 0, 0, 0) else Totals(0, 1, 0, 0)
  }

  function Retries(rec: Record): Totals { Totals(0, 0, Max(rec.attempts - 1, 0), 0) }

  function Written(rec: Record): Totals { Totals(0, 0, 0, rec.bytes) }

  /** What one unit contributes when it is fully recorded. */
  function Whole(rec: Record): Totals
  {
    Plus(Plus(Outcome(rec), Retries(rec)), Written(rec))
  }

  /**
   Where a station is: flashing, or with a finished record whose outcome, retries and bytes have
   been added to the counters so far, or between units, or gone.
   */
  datatype Pc =
    | Flashing
    | Finished(rec: Record)
    | Counted(rec: Record)
    | Retried(rec: Record)
    | Summed(rec: Record)
    | Pushed
    | Halted

  /** `pushed` is the history of pushes; the code keeps only `records`. */
  datatype State = State(counters: Totals, records: seq<Record>, stations: seq<Pc>, pushed: seq<Record>)

  datatype Config = Config(continuous: bool, retries: nat, stations: nat)

  /**
   Station `i` takes its next atomic step; `tries` is how the attempts of a unit that ends turn
   out, `stop` what is seen after a push.
   */
  datatype Event = Event(i: nat, tries: nat -> Attempt, stop: bool)

  function Trim(cfg: Config, records: seq<Record>): seq<Record>
  {
    if cfg.continuous && |records| > RECENT_KEEP then records[|records| - RECENT_KEEP..] else records
  }

  ghost function Next(cfg: Config, s: State, e: Event): State
  {
    if e.i >= |s.stations| then s
    else
      match s.stations[e.i]
      case Flashing =>
        s.(stations := s.stations[e.i := Finished(UnitFrom(e.tries, 0, cfg.retries))])
      case Finished(rec) =>
        s.(stations := s.stations[e.i := Counted(rec)], counters := Plus(s.counters, Outcome(rec)))
      case Counted(rec) =>
        s.(stations := s.stations[e.i := Retried(rec)], counters := Plus(s.counters, Retries(rec)))
      case Retried(rec) =>
        s.(stations := s.stations[e.i := Summed(rec)], counters := Plus(s.counters, Written(rec)))
      case Summed(rec) =>
        s.(stations := s.stations[e.i := Pushed], records := Trim(cfg, s.records + [rec]), pushed := s.pushed + [rec])
      case Pushed =>
        s.(stations := s.stations[e.i := if !cfg.continuous || e.stop then Halted else Flashing])
      case Halted => s
  }

  function Start(cfg: Config): State
  {
    State(ZERO, [], seq(cfg.stations, _ => Flashing), [])
  }

  ghost function Reached(cfg: Config, events: seq<Event>): State
  {
    if events == [] then Start(cfg)
    else Next(cfg, Reached(cfg, events[..|events| - 1]), events[|events| - 1])
  }

  // ---------------------------------------------------------------- the invariant

  /** What a station has added to the counters for a record it has not pushed yet. */
  function Share(pc: Pc): Totals
  {
    match pc
    case Counted(rec) => Outcome(rec)
    case Retried(rec) => Plus(Outcome(rec), Retries(rec))
    case Summed(rec) => Whole(rec)
    case _ => ZERO
  }

  /** What the first `n` stations have added. */
  function Shares(pcs: seq<Pc>, n: nat): Totals
    requires n <= |pcs|
  {
    if n == 0 then ZERO else Plus(Shares(pcs, n - 1), Share(pcs[n - 1]))
  }

  function Fold(records: seq<Record>): Totals
  {
    if records == [] then ZERO else Plus(Fold(records[..|records| - 1]), Whole(records[|records| - 1]))
  }

  function Last(records: seq<Record>, n: nat): seq<Record>
  {
    if |records| > n then records[|records| - n..] else records
  }

  /** Units a station has finished for good, in a run that gives each station one unit. */
  function PushedOnce(pc: Pc): nat { if pc == Pushed || pc == Halted then 1 else 0 }

  function PushCount(pcs: seq<Pc>, n: nat): nat
    requires n <= |pcs|
  {
    if n == 0 then 0 else PushCount(pcs, n - 1) + PushedOnce(pcs[n - 1])
  }

  /** The counters are what the pushed records add up to plus what is still on its way. */
  ghost predicate Balanced(cfg: Config, s: State)
    requires |s.stations| == cfg.stations
  {
    && s.counters == Plus(Fold(s.pushed), Shares(s.stations, cfg.stations))
    && (!cfg.continuous ==> |s.pushed| == PushCount(s.stations, cfg.stations))
  }

  /** The retained records are all pushes or, in continuous mode, the last 500. */
  ghost predicate Kept(cfg: Config, s: State)
  {
    s.records == if cfg.continuous then Last(s.pushed, RECENT_KEEP) else s.pushed
  }

  ghost predicate Possible(cfg: Config, rec: Record) { 1 <= rec.attempts <= cfg.retries + 1 }

  /** Every record, pushed or held, took a possible number of attempts. */
  ghost predicate Sound(cfg: Config, s: State)
  {
    && (forall rec | rec in s.pushed :: Possible(cfg, rec))
    && (forall i | 0 <= i < |s.stations| && Held(s.stations[i]) :: Possible(cfg, s.stations[i].rec))
  }

  predicate Held(pc: Pc) { pc.Finished? || pc.Counted? || pc.Retried? || pc.Summed? }

  ghost predicate Inv(cfg: Config, s: State)
  {
    |s.stations| == cfg.stations && Balanced(cfg, s) && Kept(cfg, s) && Sound(cfg, s)
  }

  /** Moving one station changes the sums by that station's terms only. */
  lemma {:induction false} SharesUpdate(pcs: seq<Pc>, i: nat, pc: Pc, n: nat)
    requires i < |pcs| && n <= |pcs|
    ensures i >= n ==> Shares(pcs[i := pc], n) == Shares(pcs, n) && PushCount(pcs[i := pc], n) == PushCount(pcs, n)
    ensures i < n ==>
              && Plus(Shares(pcs[i := pc], n), Share(pcs[i])) == Plus(Shares(pcs, n), Share(pc))
              && PushCount(pcs[i := pc], n) + PushedOnce(pcs[i]) == PushCount(pcs, n) + PushedOnce(pc)
  {
    hide Share, PushedOnce;
    if n == 0 {
    } else {
      SharesUpdate(pcs, i, pc, n - 1);
    }
  }

  /** A station that has counted `add` more holds that much more. */
  lemma CountStep(cfg: Config, s: State, t: State, i: nat, add: Totals)
    requires i < |s.stations| == cfg.stations && Balanced(cfg, s)
    requires |t.stations| == |s.stations| && t.stations == s.stations[i := t.stations[i]] && t.pushed == s.pushed
    requires t.counters == Plus(s.counters, add) && Share(t.stations[i]) == Plus(Share(s.stations[i]), add)
    requires PushedOnce(t.stations[i]) == PushedOnce(s.stations[i])
    ensures Balanced(cfg, t)
  {
    hide Share, Shares, PushedOnce, PushCount, Fold;
    SharesUpdate(s.stations, i, t.stations[i], cfg.stations);
  }

  /** A push moves a whole share into the fold. */
  lemma PushStep(cfg: Config, s: State, t: State, i: nat, rec: Record)
    requires i < |s.stations| == cfg.stations && Balanced(cfg, s)
    requires s.stations[i] == Summed(rec) && t.stations == s.stations[i := Pushed]
    requires t.pushed == s.pushed + [rec] && t.counters == s.counters
    ensures Balanced(cfg, t)
  {
    hide Shares, PushCount, Outcome, Retries, Written;
    SharesUpdate(s.stations, i, Pushed, cfg.stations);
    assert t.pushed[..|s.pushed|] == s.pushed;
  }

  /** A station without a counted record moves on. */
  lemma IdleStep(cfg: Config, s: State, t: State, i: nat)
    requires i < |s.stations| == cfg.stations && Balanced(cfg, s)
    requires |t.stations| == |s.stations| && t.stations == s.stations[i := t.stations[i]]
    requires t.pushed == s.pushed && t.counters == s.counters
    requires Share(t.stations[i]) == Share(s.stations[i])
    requires !cfg.continuous ==> PushedOnce(t.stations[i]) == PushedOnce(s.stations[i])
    ensures Balanced(cfg, t)
  {
    hide Share, Shares, PushedOnce, PushCount, Fold;
    SharesUpdate(s.stations, i, t.stations[i], cfg.stations);
  }

  lemma BalancedStep(cfg: Config, s: State, e: Event)
    requires |s.stations| == cfg.stations && Balanced(cfg, s)
    ensures Balanced(cfg, Next(cfg, s, e))
  {
    hide Balanced, Trim, Outcome, Retries, Written, UnitFrom;
    if e.i < |s.stations| {
      var t := Next(cfg, s, e);
      match s.stations[e.i] {
        case Finished(rec) => CountStep(cfg, s, t, e.i, Outcome(rec));
        case Counted(rec) => CountStep(cfg, s, t, e.i, Retries(rec));
        case Retried(rec) => CountStep(cfg, s, t, e.i, Written(rec));
        case Summed(rec) => PushStep(cfg, s, t, e.i, rec);
        case _ => IdleStep(cfg, s, t, e.i);
      }
    }
  }

  lemma KeptStep(cfg: Config, s: State, e: Event)
    requires Kept(cfg, s)
    ensures Kept(cfg, Next(cfg, s, e))
  {
    hide Plus, UnitFrom;
  }

  lemma InvStep(cfg: Config, s: State, e: Event)
    requires Inv(cfg, s)
    ensures Inv(cfg, Next(cfg, s, e))
  {
    hide Balanced, Kept, Trim, Plus;
    BalancedStep(cfg, s, e);
    KeptStep(cfg, s, e);
  }

  lemma NothingAdded(t: Totals)
    ensures Plus(t, ZERO) == t
  {
  }

  /** Stations that have not finished a unit, or are gone, hold nothing that is on its way. */
  lemma {:induction false} IdleShares(pcs: seq<Pc>, n: nat, gone: bool)
    requires n <= |pcs| && forall i | 0 <= i < n :: if gone then pcs[i].Halted? else pcs[i].Flashing?
    ensures Shares(pcs, n) == ZERO && PushCount(pcs, n) == if gone then n else 0
  {
    hide Plus;
    if n == 0 {
    } else {
      IdleShares(pcs, n - 1, gone);
      NothingAdded(ZERO);
    }
  }

  lemma InvStart(cfg: Config)
    ensures Inv(cfg, Start(cfg))
  {
    hide Shares, PushCount, Possible, Plus;
    IdleShares(Start(cfg).stations, cfg.stations, false);
    NothingAdded(ZERO);
  }

  lemma {:induction false} InvAlways(cfg: Config, events: seq<Event>)
    ensures Inv(cfg, Reached(cfg, events))
  {
    hide Inv, Next;
    if events == [] {
      InvStart(cfg);
    } else {
      InvAlways(cfg, events[..|events| - 1]);
      InvStep(cfg, Reached(cfg, events[..|events| - 1]), events[|events| - 1]);
    }
  }

  // ---------------------------------------------------------------- what it gives

  lemma {:induction false} SharesBound(pcs: seq<Pc>, n: nat)
    requires n <= |pcs|
    ensures Shares(pcs, n).passed + Shares(pcs, n).failed <= n
  {
    if n == 0 {
    } else {
      SharesBound(pcs, n - 1);
    }
  }

  lemma {:induction false} FoldCounts(records: seq<Record>)
    ensures Fold(records).passed + Fold(records).failed == |records|
  {
    if records == [] {
    } else {
      FoldCounts(records[..|records| - 1]);
    }
  }

  /** At any moment of any interleaving the counters lead the pushes by at most one per station. */
  lemma CountersLeadPushes(cfg: Config, events: seq<Event>)
    ensures var s := Reached(cfg, events);
            |s.pushed| <= s.counters.passed + s.counters.failed <= |s.pushed| + cfg.stations
  {
    var s := Reached(cfg, events);
    InvAlways(cfg, events);
    FoldCounts(s.pushed);
    SharesBound(s.stations, cfg.stations);
  }

  /** Plain sum of one amount over the records. */
  function Tally(records: seq<Record>, amount: Record -> nat): nat
  {
    if records == [] then 0 else Tally(records[..|records| - 1], amount) + amount(records[|records| - 1])
  }

  const PASSES: Record -> nat := (r: Record) => if r.pass then 1 else 0
  const ATTEMPTS: Record -> nat := (r: Record) => r.attempts
  const BYTES: Record -> nat := (r: Record) => r.bytes

  /** The counters in plain sums, when every unit was attempted. */
  lemma {:induction false} FoldIsTally(records: seq<Record>)
    requires forall rec | rec in records :: rec.attempts >= 1
    ensures var t := Fold(records);
            && t.passed == Tally(records, PASSES) && t.failed == |records| - Tally(records, PASSES)
            && t.retries == Tally(records, ATTEMPTS) - |records|
            && t.bytes == Tally(records, BYTES)
  {
    if records == [] {
    } else {
      assert records[|records| - 1] in records;
      FoldIsTally(records[..|records| - 1]);
    }
  }

  /**
   At the join, however the stations interleaved: the counters are the plain sums over all units,
   the retained records are all pushes (exactly one per station) or the last 500 in push order,
   and every unit took between one and `retries + 1` attempts.
   */
  lemma JoinIsExact(cfg: Config, events: seq<Event>)
    requires forall pc | pc in Reached(cfg, events).stations :: pc.Halted?
    ensures var s := Reached(cfg, events);
            && s.counters.passed == Tally(s.pushed, PASSES)
            && s.counters.passed + s.counters.failed == |s.pushed|
            && s.counters.retries == Tally(s.pushed, ATTEMPTS) - |s.pushed|
            && s.counters.bytes == Tally(s.pushed, BYTES)
            && s.records == (if cfg.continuous then Last(s.pushed, 500) else s.pushed)
            && (!cfg.continuous ==> |s.pushed| == cfg.stations)
            && (forall rec | rec in s.pushed :: 1 <= rec.attempts <= cfg.retries + 1)
  {
    hide Reached, Tally, Fold, Last, Shares, PushCount;
    var s := Reached(cfg, events);
    InvAlways(cfg, events);
    IdleShares(s.stations, cfg.stations, true);
    FoldIsTally(s.pushed);
  }

  /** A continuous line goes on until it is told to stop: before that no station is gone. */
  lemma {:induction false} GoesOn(cfg: Config, events: seq<Event>)
    requires cfg.continuous && forall e | e in events :: !e.stop
    ensures forall pc | pc in Reached(cfg, events).stations :: !pc.Halted?
  {
    hide UnitFrom, Plus, Trim, Outcome, Retries, Written;
    if events != [] {
      var front, e := events[..|events| - 1], events[|events| - 1];
      GoesOn(cfg, front);
      assert e in events && forall x | x in front :: x in events;
      var s, t := Reached(cfg, front), Reached(cfg, events);
      assert t == Next(cfg, s, e);
      forall j | 0 <= j < |t.stations|
        ensures !t.stations[j].Halted?
      {
        assert j < |s.stations| && s.stations[j] in s.stations;
      }
    }
  }
}
