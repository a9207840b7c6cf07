/**
 * Any number of callers sharing one cache table and one sweep clock, interleaved
 * between their individual clock reads, atomic operations and SQL statements.
 */
module CacheConcurrency {
  import opened Outcomes
  import opened CacheStore

  /** One write as the database ordered it. */
  datatype Write = Wrote(key: string, row: Row) | Removed(key: string)

  /** What the writes so far say about `key`: the row last written, unless removed since. */
  function Latest(log: seq<Write>, key: string): Option<Row> {
    if log == [] then None
    else
      var last := log[|log| - 1];
      if last.key != key then Latest(log[..|log| - 1], key)
      else if last.Wrote? then Some(last.row) else None
  }

  /** Where one caller stands. `since` and `round` only record history, for the statements below. */
  datatype Caller =
    | Idle
    | HasClock(now: nat)
    | HasLoaded(now: nat, previous: int, round: nat)
    | Sweeping(round: nat)
    | HasRow(key: string, row: Option<Row>, since: nat)
    | Evicting(key: string, expired: Row, since: nat)

  /** A value handed to a caller of `get`: read when `since` writes had been made, checked at `now`. */
  datatype Answer = Answer(key: string, row: Row, since: nat, now: nat)

  datatype World = World(
    rows: Table,
    log: seq<Write>,
    lastSweep: int,
    sweeps: seq<int>,
    callers: map<nat, Caller>,
    answers: seq<Answer>
  )

  /** One atomic step of one caller; `ok` says whether its statement succeeds. */
  datatype Action =
    | ReadSweepClock(c: nat, now: nat)
    | LoadLastSweep(c: nat)
    | CompareAndSwap(c: nat)
    | DeleteExpired(c: nat, ok: bool)
    | Upsert(c: nat, key: string, row: Row)
    | DeleteKey(c: nat, key: string)
    | Select(c: nat, key: string)
    | CheckExpiry(c: nat, now: nat)
    | EvictKey(c: nat, ok: bool)

  function At(w: World, c: nat): Caller {
    if c in w.callers then w.callers[c] else Idle
  }

  predicate Enabled(w: World, a: Action) {
    match a
    case ReadSweepClock(c, _) => At(w, c).Idle?
    case LoadLastSweep(c) => At(w, c).HasClock?
    case CompareAndSwap(c) => At(w, c).HasLoaded?
    case DeleteExpired(c, _) => At(w, c).Sweeping? && At(w, c).round < |w.sweeps|
    case Upsert(c, _, _) => At(w, c).Idle?
    case DeleteKey(c, _) => At(w, c).Idle?
    case Select(c, _) => At(w, c).Idle?
    case CheckExpiry(c, _) => At(w, c).HasRow?
    case EvictKey(c, _) => At(w, c).Evicting?
  }

  function Move(w: World, c: nat, to: Caller): World {
    w.(callers := w.callers[c := to])
  }

  function Next(w: World, a: Action): World
    requires Enabled(w, a)
  {
    match a
    case ReadSweepClock(c, now) => Move(w, c, HasClock(now))
    case LoadLastSweep(c) => Move(w, c, HasLoaded(At(w, c).now, w.lastSweep, |w.sweeps|))
    case CompareAndSwap(c) =>
      var HasLoaded(now, previous, _) := At(w, c);
      if now - previous < SWEEP_INTERVAL_SECS || w.lastSweep != previous then Move(w, c, Idle)
      else Move(w.(lastSweep := now, sweeps := w.sweeps + [now]), c, Sweeping(|w.sweeps|))
    case DeleteExpired(c, ok) =>
      var w1 := if ok then w.(rows := Unexpired(w.rows, w.sweeps[At(w, c).round])) else w;
      Move(w1, c, Idle)
    case Upsert(c, key, row) => w.(rows := w.rows[key := row], log := w.log + [Wrote(key, row)])
    case DeleteKey(c, key) => w.(rows := w.rows - {key}, log := w.log + [Removed(key)])
    case Select(c, key) => Move(w, c, HasRow(key, if key in w.rows then Some(w.rows[key]) else None, |w.log|))
    case CheckExpiry(c, now) =>
      var HasRow(key, row, since) := At(w, c);
      if row.None? then Move(w, c, Idle)
      else if row.value.expiresAt <= now then Move(w, c, Evicting(key, row.value, since))
      else Move(w.(answers := w.answers + [Answer(key, row.value, since, now)]), c, Idle)
    case EvictKey(c, ok) =>
      Move(if ok then w.(rows := w.rows - {At(w, c).key}) else w, c, Idle)
  }

  const START := World(map[], [], 0, [], map[], [])

  /** The world after `actions`, if each was enabled in its turn. */
  function After(actions: seq<Action>): Option<World>
    decreases |actions|
  {
    if actions == [] then Some(START)
    else
      match After(actions[..|actions| - 1])
      case None => None
      case Some(w) => if Enabled(w, actions[|actions| - 1]) then Some(Next(w, actions[|actions| - 1])) else None
  }

  // ----- what every interleaving keeps -----

  /** The sweep clock after the first `round` sweeps. */
  function SweepValue(sweeps: seq<int>, round: nat): int
    requires round <= |sweeps|
  {
    if round == 0 then 0 else sweeps[round - 1]
  }

  ghost predicate SweepsAreSpaced(sweeps: seq<int>) {
    forall i :: 0 <= i < |sweeps| ==> sweeps[i] - SweepValue(sweeps, i) >= SWEEP_INTERVAL_SECS
  }

  ghost predicate CallerInv(w: World, caller: Caller) {
    match caller
    case HasLoaded(_, previous, round) => round <= |w.sweeps| && previous == SweepValue(w.sweeps, round)
    case Sweeping(round) => round < |w.sweeps|
    case HasRow(key, row, since) => since <= |w.log| && (row.Some? ==> Latest(w.log[..since], key) == row)
    case Evicting(key, row, since) => since <= |w.log| && Latest(w.log[..since], key) == Some(row)
    case _ => true
  }

  /** The value was the last one written to its key when it was read, and unexpired when checked. */
  ghost predicate Sound(log: seq<Write>, answer: Answer) {
    answer.since <= |log| && Latest(log[..answer.since], answer.key) == Some(answer.row) &&
    answer.row.expiresAt > answer.now
  }

  predicate IsSweeping(w: World, c: nat) {
    c in w.callers && w.callers[c].Sweeping?
  }

  /** Callers that sweep at the same time won different rounds. */
  ghost predicate OneCallerPerSweep(w: World) {
    forall c, d :: IsSweeping(w, c) && IsSweeping(w, d) && c != d ==> w.callers[c].round != w.callers[d].round
  }

  ghost predicate Inv(w: World) {
    (forall key :: key in w.rows ==> Latest(w.log, key) == Some(w.rows[key])) &&
    w.lastSweep == SweepValue(w.sweeps, |w.sweeps|) &&
    SweepsAreSpaced(w.sweeps) &&
    (forall c :: c in w.callers ==> CallerInv(w, w.callers[c])) &&
    OneCallerPerSweep(w) &&
    forall i :: 0 <= i < |w.answers| ==> Sound(w.log, w.answers[i])
  }

  lemma {:induction false} SpacedApart(sweeps: seq<int>, i: nat, j: nat)
    requires SweepsAreSpaced(sweeps) && i <= j <= |sweeps|
    ensures SweepValue(sweeps, j) - SweepValue(sweeps, i) >= SWEEP_INTERVAL_SECS * (j - i)
    decreases j
  {
    if i < j {
      SpacedApart(sweeps, i, j - 1);
      assert sweeps[j - 1] - SweepValue(sweeps, j - 1) >= SWEEP_INTERVAL_SECS;
    }
  }

  /** Recorded sweeps lie 300 seconds apart for each step between them. */
  ghost predicate FarApart(sweeps: seq<int>) {
    forall i, j :: 0 <= i <= j < |sweeps| ==> sweeps[j] - sweeps[i] >= 300 * (j - i)
  }

  lemma SpacingAddsUp(sweeps: seq<int>)
    requires SweepsAreSpaced(sweeps)
    ensures FarApart(sweeps)
  {
    forall i, j | 0 <= i <= j < |sweeps| ensures sweeps[j] - sweeps[i] >= SWEEP_INTERVAL_SECS * (j - i) {
      SpacedApart(sweeps, i + 1, j + 1);
    }
  }

  /**
   * No ABA: a compare-and-swap that finds the value it loaded finds that no sweep
   * was recorded since, because the recorded values only grow.
   */
  lemma NoAba(w: World, c: nat)
    requires Inv(w) && c in w.callers && w.callers[c].HasLoaded? && w.lastSweep == w.callers[c].previous
    ensures w.callers[c].round == |w.sweeps|
  {
    SpacedApart(w.sweeps, w.callers[c].round, |w.sweeps|);
  }

  lemma LatestAfter(log: seq<Write>, write: Write)
    ensures forall key :: key != write.key ==> Latest(log + [write], key) == Latest(log, key)
    ensures Latest(log + [write], write.key) == if write.Wrote? then Some(write.row) else None
  {
  }

  lemma MoveKeepsInv(w: World, c: nat, to: Caller)
    requires Inv(w) && CallerInv(w, to) && !to.Sweeping?
    ensures Inv(Move(w, c, to))
  {
  }

  lemma LosingRowsKeepsInv(w: World, rows: Table)
    requires Inv(w) && forall key :: key in rows ==> key in w.rows && rows[key] == w.rows[key]
    ensures Inv(w.(rows := rows))
  {
  }

  /** Appending a write changes nothing that was said about an earlier point. */
  lemma WriteKeepsInv(w: World, rows: Table, write: Write)
    requires Inv(w)
    requires rows == if write.Wrote? then w.rows[write.key := write.row] else w.rows - {write.key}
    ensures Inv(w.(rows := rows, log := w.log + [write]))
  {
    var w' := w.(rows := rows, log := w.log + [write]);
    LatestAfter(w.log, write);
    assert forall since :: 0 <= since <= |w.log| ==> w'.log[..since] == w.log[..since];
    forall d | d in w'.callers ensures CallerInv(w', w'.callers[d]) {
      assert CallerInv(w, w.callers[d]);
    }
    forall i | 0 <= i < |w'.answers| ensures Sound(w'.log, w'.answers[i]) {
      assert Sound(w.log, w.answers[i]);
    }
  }

  lemma AnswerKeepsInv(w: World, answer: Answer)
    requires Inv(w) && Sound(w.log, answer)
    ensures Inv(w.(answers := w.answers + [answer]))
  {
  }

  lemma StepKeepsInv(w: World, a: Action)
    requires Inv(w) && Enabled(w, a)
    ensures Inv(Next(w, a))
  {
    match a
    case ReadSweepClock(c, now) => MoveKeepsInv(w, c, HasClock(now));
    case LoadLastSweep(c) => MoveKeepsInv(w, c, HasLoaded(At(w, c).now, w.lastSweep, |w.sweeps|));
    case CompareAndSwap(c) =>
      var HasLoaded(now, previous, _) := At(w, c);
      if now - previous < SWEEP_INTERVAL_SECS || w.lastSweep != previous {
        MoveKeepsInv(w, c, Idle);
      } else {
        WinningKeepsInv(w, c, now);
      }
    case DeleteExpired(c, ok) =>
      var rows := Unexpired(w.rows, w.sweeps[At(w, c).round]);
      LosingRowsKeepsInv(w, rows);
      MoveKeepsInv(if ok then w.(rows := rows) else w, c, Idle);
    case Upsert(_, key, row) => WriteKeepsInv(w, w.rows[key := row], Wrote(key, row));
    case DeleteKey(_, key) => WriteKeepsInv(w, w.rows - {key}, Removed(key));
    case Select(c, key) =>
      assert w.log[..|w.log|] == w.log;
      MoveKeepsInv(w, c, HasRow(key, if key in w.rows then Some(w.rows[key]) else None, |w.log|));
    case CheckExpiry(c, now) =>
      var HasRow(key, row, since) := At(w, c);
      assert CallerInv(w, At(w, c));
      if row.None? {
        MoveKeepsInv(w, c, Idle);
      } else if row.value.expiresAt <= now {
        MoveKeepsInv(w, c, Evicting(key, row.value, since));
      } else {
        AnswerKeepsInv(w, Answer(key, row.value, since, now));
        MoveKeepsInv(w.(answers := w.answers + [Answer(key, row.value, since, now)]), c, Idle);
      }
    case EvictKey(c, ok) =>
      LosingRowsKeepsInv(w, w.rows - {At(w, c).key});
      MoveKeepsInv(if ok then w.(rows := w.rows - {At(w, c).key}) else w, c, Idle);
  }

  lemma SpacingGrows(sweeps: seq<int>, now: int)
    requires SweepsAreSpaced(sweeps) && now - SweepValue(sweeps, |sweeps|) >= SWEEP_INTERVAL_SECS
    ensures SweepsAreSpaced(sweeps + [now])
    ensures forall round :: 0 <= round <= |sweeps| ==> SweepValue(sweeps + [now], round) == SweepValue(sweeps, round)
  {
  }

  lemma WinningKeepsInv(w: World, c: nat, now: int)
    requires Inv(w) && now - w.lastSweep >= SWEEP_INTERVAL_SECS
    ensures Inv(Move(w.(lastSweep := now, sweeps := w.sweeps + [now]), c, Sweeping(|w.sweeps|)))
  {
    var w' := Move(w.(lastSweep := now, sweeps := w.sweeps + [now]), c, Sweeping(|w.sweeps|));
    SpacingGrows(w.sweeps, now);
    forall d | d in w'.callers ensures CallerInv(w', w'.callers[d]) {
      assert d != c ==> CallerInv(w, w.callers[d]);
    }
    forall d, e | IsSweeping(w', d) && IsSweeping(w', e) && d != e ensures w'.callers[d].round != w'.callers[e].round {
      assert d != c ==> IsSweeping(w, d) && CallerInv(w, w.callers[d]);
      assert e != c ==> IsSweeping(w, e) && CallerInv(w, w.callers[e]);
    }
  }

  lemma {:induction false} EveryRunKeepsInv(actions: seq<Action>)
    requires After(actions).Some?
    ensures Inv(After(actions).value)
    decreases |actions|
  {
    if actions != [] {
      var sofar, last := actions[..|actions| - 1], actions[|actions| - 1];
      EveryRunKeepsInv(sofar);
      StepKeepsInv(After(sofar).value, last);
    }
  }

  /**
   * In every interleaving, from any clock readings whatever: recorded sweeps lie at
   * least an interval apart for each step between them, callers sweeping at the same
   * time hold different ones, and every answer was the last value written to its key
   * when it was read and unexpired when it was checked.
   */
  lemma InterleavingsAreSafe(actions: seq<Action>)
    requires After(actions).Some?
    ensures var w := After(actions).value;
            FarApart(w.sweeps) &&
            OneCallerPerSweep(w) &&
            (forall i :: 0 <= i < |w.answers| ==> Sound(w.log, w.answers[i]))
  {
    EveryRunKeepsInv(actions);
    SpacingAddsUp(After(actions).value.sweeps);
  }

  // ----- undisturbed, the steps are the driver's operations -----

  /** The swap is won exactly when an interval has passed and nobody else has swept since the load. */
  lemma SwapIsWonExactly(w: World, c: nat)
    requires Enabled(w, CompareAndSwap(c))
    ensures var HasLoaded(now, previous, _) := At(w, c);
            var w' := Next(w, CompareAndSwap(c));
            if now - previous >= 300 && w.lastSweep == previous then
              w' == w.(lastSweep := now, sweeps := w.sweeps + [now], callers := w'.callers) &&
              w'.callers == w.callers[c := Sweeping(|w.sweeps|)]
            else
              w' == w.(callers := w.callers[c := Idle])
  {
  }

  /** One caller's way through a sweep that no other disturbs. */
  function SweepActions(w: World, c: nat, now: nat, ok: bool): seq<Action> {
    [ReadSweepClock(c, now)] + [LoadLastSweep(c)] + [CompareAndSwap(c)] +
    if now - w.lastSweep < 300 then [] else [DeleteExpired(c, ok)]
  }

  /** The state after `actions` from any world, if each was enabled in its turn. */
  function From(w: World, actions: seq<Action>): Option<World>
    decreases |actions|
  {
    if actions == [] then Some(w)
    else if !Enabled(w, actions[0]) then None
    else From(Next(w, actions[0]), actions[1..])
  }

  lemma FromCons(w: World, a: Action, rest: seq<Action>)
    requires Enabled(w, a)
    ensures From(w, [a] + rest) == From(Next(w, a), rest)
  {
    assert ([a] + rest)[1..] == rest;
  }

  /** Its steps are always enabled, and together they sweep as the driver does. */
  lemma SweepIsItsSteps(w: World, c: nat, now: nat, ok: bool)
    requires At(w, c).Idle?
    ensures From(w, SweepActions(w, c, now, ok)).Some?
    ensures var w' := From(w, SweepActions(w, c, now, ok)).value;
            Swept(State(w.rows, w.lastSweep), State(w'.rows, w'.lastSweep), now, ok) &&
            At(w', c).Idle? && w'.log == w.log && w'.answers == w.answers
  {
    var read, load, swap, delete := ReadSweepClock(c, now), LoadLastSweep(c), CompareAndSwap(c), DeleteExpired(c, ok);
    var w1 := Next(w, read);
    var w2 := Next(w1, load);
    var w3 := Next(w2, swap);
    hide From;
    if now - w.lastSweep < 300 {
      assert SweepActions(w, c, now, ok) == [read] + ([load] + ([swap] + []));
      FromNothing(w3);
    } else {
      assert SweepActions(w, c, now, ok) == [read] + ([load] + ([swap] + ([delete] + [])));
      FromNothing(Next(w3, delete));
      FromCons(w3, delete, []);
      FromCons(w2, swap, [delete] + []);
      FromCons(w1, load, [swap] + ([delete] + []));
      FromCons(w, read, [load] + ([swap] + ([delete] + [])));
    }
    FromCons(w2, swap, []);
    FromCons(w1, load, [swap] + []);
    FromCons(w, read, [load] + ([swap] + []));
  }

  lemma FromNothing(w: World)
    ensures From(w, []) == Some(w)
  {
  }

  predicate IsLiveRow(w: World, key: string, now: int) {
    key in w.rows && w.rows[key].expiresAt > now
  }

  /** A live row is answered, exactly once and as it was read; nothing else is ever answered. */
  lemma GetIsItsSteps(w: World, c: nat, key: string, now: nat, ok: bool)
    requires At(w, c).Idle?
    ensures Enabled(w, Select(c, key)) && Enabled(Next(w, Select(c, key)), CheckExpiry(c, now))
    ensures var w' := Next(Next(w, Select(c, key)), CheckExpiry(c, now));
            w'.rows == w.rows && w'.log == w.log && w'.lastSweep == w.lastSweep &&
            w'.answers == (if IsLiveRow(w, key, now) then w.answers + [Answer(key, w.rows[key], |w.log|, now)]
                           else w.answers) &&
            if key in w.rows && !IsLiveRow(w, key, now) then
              Enabled(w', EvictKey(c, ok)) &&
              Next(w', EvictKey(c, ok)).rows == (if ok then w.rows - {key} else w.rows) &&
              At(Next(w', EvictKey(c, ok)), c).Idle?
            else At(w', c).Idle?
  {
  }

  /** A write is one step, and the log keeps it. */
  lemma WritesAreSteps(w: World, c: nat, key: string, row: Row)
    requires At(w, c).Idle?
    ensures Enabled(w, Upsert(c, key, row)) && Enabled(w, DeleteKey(c, key))
    ensures var w' := Next(w, Upsert(c, key, row));
            w' == w.(rows := w.rows[key := row], log := w.log + [Wrote(key, row)])
    ensures var w' := Next(w, DeleteKey(c, key));
            w' == w.(rows := w.rows - {key}, log := w.log + [Removed(key)])
  {
  }

  // ----- what interleaving does cost -----

  predicate LiveAt(log: seq<Write>, key: string, t: int) {
    Latest(log, key).Some? && Latest(log, key).value.expiresAt > t
  }

  /** The key's last write is still unexpired at `t`, but its row is gone. */
  ghost predicate Missing(w: World, key: string, t: int) {
    LiveAt(w.log, key, t) && key !in w.rows
  }

  ghost predicate Complete(w: World, t: int) {
    forall key :: !Missing(w, key, t)
  }

  /** The step evicts `key`, which has been written afresh. */
  predicate EvictsLive(w: World, a: Action, key: string, t: int)
    requires Enabled(w, a)
  {
    a.EvictKey? && a.ok && At(w, a.c).key == key && LiveAt(w.log, key, t)
  }

  /** No step at time `t` acts on a clock reading from after `t`. */
  predicate ReadingsArePast(w: World, a: Action, t: int)
    requires Enabled(w, a)
  {
    a.DeleteExpired? ==> w.sweeps[At(w, a.c).round] <= t
  }

  predicate WritesTo(a: Action, key: string) {
    (a.Upsert? || a.DeleteKey?) && a.key == key
  }

  /**
   * A step loses an unexpired entry exactly when it is a successful eviction, by key
   * alone, of a key that is live again; the next write to the key makes good for it.
   */
  lemma OnlyEvictionLoses(w: World, a: Action, key: string, t: int)
    requires Inv(w) && Enabled(w, a) && ReadingsArePast(w, a, t)
    ensures Missing(Next(w, a), key, t) <==> !WritesTo(a, key) && (Missing(w, key, t) || EvictsLive(w, a, key, t))
  {
    match a
    case Upsert(_, k, row) => LatestAfter(w.log, Wrote(k, row));
    case DeleteKey(_, k) => LatestAfter(w.log, Removed(k));
    case _ =>
  }

  // ----- how a key comes to be live again -----

  /** Write `i` stored an unexpired row under `key`, and nothing was written to the key since. */
  ghost predicate IsFreshWrite(log: seq<Write>, key: string, i: nat, t: int) {
    i < |log| && log[i].Wrote? && log[i].key == key && log[i].row.expiresAt > t &&
    forall j :: i < j < |log| ==> log[j].key != key
  }

  lemma {:induction false} LiveMeansFreshWrite(log: seq<Write>, key: string, t: int)
    ensures LiveAt(log, key, t) <==> exists i: nat :: IsFreshWrite(log, key, i, t)
  {
    if log != [] {
      var front, last := log[..|log| - 1], |log| - 1;
      if log[last].key == key {
        assert LiveAt(log, key, t) ==> IsFreshWrite(log, key, last, t);
      } else {
        LiveMeansFreshWrite(front, key, t);
        forall i: nat ensures IsFreshWrite(log, key, i, t) <==> IsFreshWrite(front, key, i, t) {
          assert forall j :: 0 <= j < last ==> front[j] == log[j];
        }
      }
    }
  }

  /** The caller is about to delete a key that was stored afresh after it read the expired row. */
  ghost predicate LostTheRace(w: World, c: nat, key: string, t: int) {
    At(w, c).Evicting? && At(w, c).key == key && exists i: nat :: At(w, c).since <= i && IsFreshWrite(w.log, key, i, t)
  }

  /** The key an eviction deletes is live exactly when it was stored between that caller's SELECT and its DELETE. */
  lemma LosingTakesAWrite(w: World, c: nat, t: int)
    requires Inv(w) && c in w.callers && w.callers[c].Evicting? && w.callers[c].expired.expiresAt <= t
    ensures LiveAt(w.log, w.callers[c].key, t) <==>
            exists i: nat :: w.callers[c].since <= i && IsFreshWrite(w.log, w.callers[c].key, i, t)
  {
    var Evicting(key, expired, since) := w.callers[c];
    LiveMeansFreshWrite(w.log, key, t);
    if i: nat :| IsFreshWrite(w.log, key, i, t) {
      if i < since {
        var before := w.log[..since];
        assert forall j :: 0 <= j < since ==> before[j] == w.log[j];
        assert IsFreshWrite(before, key, i, t);
        LiveMeansFreshWrite(before, key, t);
        assert false;
      }
    }
  }

  // ----- over runs -----

  /** The step reads no clock value from after `t`. */
  predicate ReadsBy(a: Action, t: int) {
    a.ReadSweepClock? || a.CheckExpiry? ==> a.now <= t
  }

  ghost predicate AllReadBy(actions: seq<Action>, t: int) {
    forall i :: 0 <= i < |actions| ==> ReadsBy(actions[i], t)
  }

  predicate CallerBy(caller: Caller, t: int) {
    match caller
    case HasClock(now) => now <= t
    case HasLoaded(now, _, _) => now <= t
    case Evicting(_, expired, _) => expired.expiresAt <= t
    case _ => true
  }

  ghost predicate WorldBy(w: World, t: int) {
    (forall i :: 0 <= i < |w.sweeps| ==> w.sweeps[i] <= t) && forall c :: c in w.callers ==> CallerBy(w.callers[c], t)
  }

  lemma StepStaysBy(w: World, a: Action, t: int)
    requires WorldBy(w, t) && Enabled(w, a) && ReadsBy(a, t)
    ensures WorldBy(Next(w, a), t) && ReadingsArePast(w, a, t)
  {
  }

  lemma {:induction false} RunStaysBy(actions: seq<Action>, t: int)
    requires After(actions).Some? && AllReadBy(actions, t)
    ensures WorldBy(After(actions).value, t)
    decreases |actions|
  {
    if actions != [] {
      var sofar := actions[..|actions| - 1];
      RunStaysBy(sofar, t);
      StepStaysBy(After(sofar).value, actions[|actions| - 1], t);
    }
  }

  /** Step `i` is a successful lazy DELETE of `key` by a caller that lost the race. */
  ghost predicate LosesAt(actions: seq<Action>, i: nat, key: string, t: int) {
    i < |actions| && actions[i].EvictKey? && actions[i].ok &&
    After(actions[..i]).Some? && LostTheRace(After(actions[..i]).value, actions[i].c, key, t)
  }

  predicate NotWrittenAfter(actions: seq<Action>, i: nat, key: string) {
    forall j :: i < j < |actions| ==> !WritesTo(actions[j], key)
  }

  ghost predicate LostForGood(actions: seq<Action>, i: nat, key: string, t: int) {
    LosesAt(actions, i, key, t) && NotWrittenAfter(actions, i, key)
  }

  ghost predicate IsLost(actions: seq<Action>, key: string, t: int) {
    exists i: nat :: LostForGood(actions, i, key, t)
  }

  lemma LostBefore(actions: seq<Action>, i: nat, key: string, t: int)
    requires actions != [] && i < |actions| - 1
    ensures LostForGood(actions, i, key, t) <==>
            LostForGood(actions[..|actions| - 1], i, key, t) && !WritesTo(actions[|actions| - 1], key)
  {
    var sofar := actions[..|actions| - 1];
    assert sofar[..i] == actions[..i];
    assert forall j :: 0 <= j < |sofar| ==> sofar[j] == actions[j];
  }

  lemma LostNow(actions: seq<Action>, key: string, t: int)
    requires After(actions).Some? && actions != [] && AllReadBy(actions, t)
    ensures var w, last := After(actions[..|actions| - 1]).value, actions[|actions| - 1];
            Enabled(w, last) && (LostForGood(actions, |actions| - 1, key, t) <==> EvictsLive(w, last, key, t))
  {
    var sofar, last := actions[..|actions| - 1], actions[|actions| - 1];
    EveryRunKeepsInv(sofar);
    RunStaysBy(sofar, t);
    var w := After(sofar).value;
    if last.EvictKey? {
      assert At(w, last.c).Evicting? && CallerBy(w.callers[last.c], t);
      LosingTakesAWrite(w, last.c, t);
    }
  }

  /**
   * In every interleaving that reads no clock value from after `t`, an entry unexpired at `t`
   * is missing exactly when a caller deleted its key after losing the race for it, and the
   * key has not been written since.
   */
  lemma {:induction false} EntriesAreLostExactly(actions: seq<Action>, key: string, t: int)
    requires After(actions).Some? && AllReadBy(actions, t)
    ensures Missing(After(actions).value, key, t) <==> IsLost(actions, key, t)
    decreases |actions|
  {
    if actions != [] {
      AfterLast(actions);
      hide After, IsLost, Missing, EvictsLive, Next, AllReadBy, Inv, WorldBy, Enabled, ReadsBy;
      var sofar, last := actions[..|actions| - 1], actions[|actions| - 1];
      ShorterReadsBy(actions, t);
      EntriesAreLostExactly(sofar, key, t);
      EveryRunKeepsInv(sofar);
      RunStaysBy(sofar, t);
      StepStaysBy(After(sofar).value, last, t);
      OnlyEvictionLoses(After(sofar).value, last, key, t);
      LostExtends(actions, key, t);
      EvictionWritesNothing(After(sofar).value, last, key, t);
    }
  }

  /** One more step: what was lost stays lost unless it is written, and a lost race loses. */
  lemma LostExtends(actions: seq<Action>, key: string, t: int)
    requires After(actions).Some? && actions != [] && AllReadBy(actions, t)
    ensures var sofar, last := actions[..|actions| - 1], actions[|actions| - 1];
            After(sofar).Some? && Enabled(After(sofar).value, last) &&
            (IsLost(actions, key, t) <==>
               EvictsLive(After(sofar).value, last, key, t) || (IsLost(sofar, key, t) && !WritesTo(last, key)))
  {
    AfterLast(actions);
    LostNow(actions, key, t);
    hide After, LostForGood, EvictsLive, AllReadBy, Enabled, WritesTo;
    var n := |actions| - 1;
    forall i: nat | i < n
      ensures LostForGood(actions, i, key, t) <==>
              LostForGood(actions[..n], i, key, t) && !WritesTo(actions[n], key)
    {
      LostBefore(actions, i, key, t);
    }
    LostIsInside(actions, key, t);
    LostIsInside(actions[..n], key, t);
  }

  lemma AfterLast(actions: seq<Action>)
    requires After(actions).Some? && actions != []
    ensures var before, last := After(actions[..|actions| - 1]), actions[|actions| - 1];
            before.Some? && Enabled(before.value, last) && After(actions).value == Next(before.value, last)
  {
  }

  lemma ShorterReadsBy(actions: seq<Action>, t: int)
    requires actions != [] && AllReadBy(actions, t)
    ensures AllReadBy(actions[..|actions| - 1], t) && ReadsBy(actions[|actions| - 1], t)
  {
  }

  lemma LostIsInside(actions: seq<Action>, key: string, t: int)
    ensures forall i: nat :: LostForGood(actions, i, key, t) ==> i < |actions|
  {
  }

  lemma EvictionWritesNothing(w: World, a: Action, key: string, t: int)
    requires Enabled(w, a)
    ensures EvictsLive(w, a, key, t) ==> !WritesTo(a, key)
  {
  }

  /** So without such a race, whatever was stored and has not expired is there. */
  lemma NothingIsLostWithoutARace(actions: seq<Action>, t: int)
    requires After(actions).Some? && AllReadBy(actions, t)
    requires forall i: nat, key :: !LosesAt(actions, i, key, t)
    ensures Complete(After(actions).value, t)
  {
    forall key ensures !Missing(After(actions).value, key, t) {
      EntriesAreLostExactly(actions, key, t);
    }
  }

  lemma OneMore(actions: seq<Action>, a: Action)
    requires After(actions).Some? && Enabled(After(actions).value, a)
    ensures After(actions + [a]) == Some(Next(After(actions).value, a))
  {
    assert (actions + [a])[..|actions|] == actions;
  }

  /**
   * The race is real: one caller sees an expired row, another stores a fresh one, and
   * the first caller's DELETE takes the fresh row away.
   */
  lemma AFreshEntryCanBeLost()
    ensures exists actions :: After(actions).Some? && !Complete(After(actions).value, 10)
  {
    hide After;
    var stale, newer := Row("stale", 5), Row("newer", 100);
    var w1 := Next(START, Upsert(0, "k", stale));
    var w2 := Next(w1, Select(1, "k"));
    var w3 := Next(w2, CheckExpiry(1, 10));
    var w4 := Next(w3, Upsert(0, "k", newer));
    var w5 := Next(w4, EvictKey(1, true));
    var h1, h2 := [Upsert(0, "k", stale)], [Select(1, "k")];
    NothingYet();
    OneMore([], Upsert(0, "k", stale));
    assert [] + h1 == h1;
    OneMore(h1, Select(1, "k"));
    OneMore(h1 + h2, CheckExpiry(1, 10));
    OneMore(h1 + h2 + [CheckExpiry(1, 10)], Upsert(0, "k", newer));
    OneMore(h1 + h2 + [CheckExpiry(1, 10)] + [Upsert(0, "k", newer)], EvictKey(1, true));
    LatestAfter(w3.log, Wrote("k", newer));
    assert Missing(w5, "k", 10);
  }

  lemma NothingYet()
    ensures After([]) == Some(START)
  {
  }
}
