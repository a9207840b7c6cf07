/**
 * The SQL cache driver: a table with expiry times, a sweep that runs at most once
 * per interval, and lazy eviction. Every call takes the clock readings it makes and
 * the faults it meets as inputs.
 */
module CacheStore {
  import opened Outcomes

  datatype Row = Row(json: string, expiresAt: int)
  type Table = map<string, Row>

  const SWEEP_INTERVAL_SECS := 300
  const TWO_63 := 0x8000_0000_0000_0000
  const TWO_64 := 0x1_0000_0000_0000_0000

  /** Two's-complement 64-bit wrap-around. */
  function Wrap64(x: int): int {
    (x + TWO_63) % TWO_64 - TWO_63
  }

  const NANOS_PER_SEC := 1_000_000_000

  /** A span of time: whole seconds and the nanoseconds beyond them. */
  datatype Duration = Duration(secs: nat, nanos: nat) {
    predicate Valid() {
      secs < TWO_64 && nanos < NANOS_PER_SEC
    }
  }

  const LONGEST := Duration(TWO_64 - 1, NANOS_PER_SEC - 1)

  /**
   * `now + ttl.as_secs() as i64`: the fraction is dropped, the cast wraps, and so does the
   * sum in a release build.
   */
  function ExpiresAt(now: int, ttl: Duration): int {
    Wrap64(now + Wrap64(ttl.secs))
  }

  /** JSON conversion for one value type; either direction may fail. */
  datatype Codec<!V> = Codec(encode: V -> Option<string>, decode: string -> Option<V>)

  /**
   * What one `put` or `get` runs into: the clock at its sweep and at its own
   * statement, whether pool and table are ready, and which statements succeed.
   */
  datatype Call = Call(sweepAt: int, at: int, ready: bool, sweepOk: bool, statementOk: bool, evictOk: bool)

  datatype Reply<+V> = Done | Miss | Hit(value: V) | Failed

  datatype Op<!V> =
    | Put(key: string, value: V, ttl: Duration, codec: Codec<V>, call: Call)
    | Get(key: string, codec: Codec<V>, call: Call)
    | Forget(key: string, call: Call)
    | Remember(key: string, fetched: Option<V>, ttl: Duration, codec: Codec<V>, reading: Call, writing: Call)

  // ----- the driver, as functions of its state -----

  datatype State = State(rows: Table, lastSweep: int)

  function Unexpired(rows: Table, now: int): Table {
    map key | key in rows && rows[key].expiresAt > now :: rows[key]
  }

  function SweepIfDue(s: State, now: int, ok: bool): State {
    if now - s.lastSweep < SWEEP_INTERVAL_SECS then s
    else State(if ok then Unexpired(s.rows, now) else s.rows, now)
  }

  function DoPut<V>(s: State, key: string, value: V, ttl: Duration, codec: Codec<V>, call: Call): (State, Reply<V>) {
    if !call.ready then (s, Failed)
    else
      var s1 := SweepIfDue(s, call.sweepAt, call.sweepOk);
      var json := codec.encode(value);
      if json.None? || !call.statementOk then (s1, Failed)
      else (s1.(rows := s1.rows[key := Row(json.value, ExpiresAt(call.at, ttl))]), Done)
  }

  function Decoded<V>(json: string, codec: Codec<V>): Reply<V> {
    match codec.decode(json)
    case Some(value) => Hit(value)
    case None => Failed
  }

  function DoGet<V>(s: State, key: string, codec: Codec<V>, call: Call): (State, Reply<V>) {
    if !call.ready then (s, Failed)
    else
      var s1 := SweepIfDue(s, call.sweepAt, call.sweepOk);
      if !call.statementOk then (s1, Failed)
      else if key !in s1.rows then (s1, Miss)
      else if s1.rows[key].expiresAt <= call.at then
        (if call.evictOk then s1.(rows := s1.rows - {key}) else s1, Miss)
      else (s1, Decoded(s1.rows[key].json, codec))
  }

  function DoForget<V>(s: State, key: string, call: Call): (State, Reply<V>) {
    if !call.ready || !call.statementOk then (s, Failed)
    else (s.(rows := s.rows - {key}), Done)
  }

  /** A failing read fails the call; a failing write after a successful fetch does not. */
  function DoRemember<V>(s: State, key: string, fetched: Option<V>, ttl: Duration, codec: Codec<V>,
                         reading: Call, writing: Call): (State, Reply<V>) {
    var (s1, reply) := DoGet(s, key, codec, reading);
    if reply != Miss then (s1, reply)
    else if fetched.None? then (s1, Failed)
    else (DoPut(s1, key, fetched.value, ttl, codec, writing).0, Hit(fetched.value))
  }

  function DoStep<V>(s: State, op: Op<V>): (State, Reply<V>) {
    match op
    case Put(key, value, ttl, codec, call) => DoPut(s, key, value, ttl, codec, call)
    case Get(key, codec, call) => DoGet(s, key, codec, call)
    case Forget(key, call) => DoForget(s, key, call)
    case Remember(key, fetched, ttl, codec, reading, writing) =>
      DoRemember(s, key, fetched, ttl, codec, reading, writing)
  }

  // ----- what each operation does to the table and to the sweep clock -----

  /**
   * Less than 300 seconds after the last sweep nothing changes. Otherwise the clock is `now`
   * and, unless the DELETE fails, exactly the rows that expire after `now` are left.
   */
  ghost predicate Swept(s: State, s': State, now: int, ok: bool) {
    if now - s.lastSweep < 300 then s' == s
    else
      s'.lastSweep == now &&
      (forall key :: key in s'.rows <==> key in s.rows && (ok ==> s.rows[key].expiresAt > now)) &&
      forall key :: key in s'.rows ==> s'.rows[key] == s.rows[key]
  }

  lemma SweepIsExact(s: State, now: int, ok: bool)
    ensures Swept(s, SweepIfDue(s, now, ok), now, ok)
  {
  }

  /** What a `put` does to the swept table. */
  ghost predicate Writes<V>(swept: State, key: string, value: V, ttl: Duration, codec: Codec<V>, call: Call,
                            s': State, reply: Reply<V>) {
    s'.lastSweep == swept.lastSweep &&
    match codec.encode(value)
    case Some(json) =>
      if call.statementOk then reply == Done && s'.rows == swept.rows[key := Row(json, ExpiresAt(call.at, ttl))]
      else reply == Failed && s'.rows == swept.rows
    case None => reply == Failed && s'.rows == swept.rows
  }

  /** A `put` sweeps first, if the store is ready at all, and then writes its row or nothing. */
  lemma PutIsExact<V>(s: State, key: string, value: V, ttl: Duration, codec: Codec<V>, call: Call)
    ensures var (s', reply) := DoPut(s, key, value, ttl, codec, call);
            if !call.ready then s' == s && reply == Failed
            else exists swept :: Swept(s, swept, call.sweepAt, call.sweepOk) &&
                                 Writes(swept, key, value, ttl, codec, call, s', reply)
  {
    if call.ready {
      SweepIsExact(s, call.sweepAt, call.sweepOk);
      var (s', reply) := DoPut(s, key, value, ttl, codec, call);
      assert Writes(SweepIfDue(s, call.sweepAt, call.sweepOk), key, value, ttl, codec, call, s', reply);
    }
  }

  /** What a `get` does to the swept table and answers: it deletes the row if that has expired. */
  ghost predicate Reads<V>(swept: State, key: string, codec: Codec<V>, call: Call, s': State, reply: Reply<V>) {
    if !call.statementOk then s' == swept && reply == Failed
    else if key !in swept.rows then s' == swept && reply == Miss
    else if swept.rows[key].expiresAt <= call.at then
      reply == Miss && s'.lastSweep == swept.lastSweep &&
      s'.rows == if call.evictOk then swept.rows - {key} else swept.rows
    else
      s' == swept &&
      match codec.decode(swept.rows[key].json)
      case Some(value) => reply == Hit(value)
      case None => reply == Failed
  }

  /** A `get` sweeps first, if the store is ready at all, and then reads. */
  lemma GetIsExact<V>(s: State, key: string, codec: Codec<V>, call: Call)
    ensures var (s', reply) := DoGet(s, key, codec, call);
            if !call.ready then s' == s && reply == Failed
            else exists swept :: Swept(s, swept, call.sweepAt, call.sweepOk) &&
                                 Reads(swept, key, codec, call, s', reply)
  {
    if call.ready {
      SweepIsExact(s, call.sweepAt, call.sweepOk);
      var (s', reply) := DoGet(s, key, codec, call);
      assert Reads(SweepIfDue(s, call.sweepAt, call.sweepOk), key, codec, call, s', reply);
    }
  }

  /** A `forget` removes the key and nothing else, and never sweeps. */
  lemma ForgetIsExact<V>(s: State, key: string, call: Call)
    ensures var (s', reply) := DoForget<V>(s, key, call);
            s'.lastSweep == s.lastSweep &&
            if call.ready && call.statementOk then reply == Done && s'.rows == s.rows - {key}
            else reply == Failed && s' == s
  {
  }

  /** A `remember` that misses stores what it fetched, if that write succeeds, and answers with it either way. */
  lemma RememberIsExact<V>(s: State, key: string, fetched: Option<V>, ttl: Duration, codec: Codec<V>,
                           reading: Call, writing: Call)
    ensures var (read, found) := DoGet(s, key, codec, reading);
            var (s', reply) := DoRemember(s, key, fetched, ttl, codec, reading, writing);
            match (found, fetched)
            case (Miss, Some(value)) =>
              reply == Hit(value) && s' == DoPut(read, key, value, ttl, codec, writing).0
            case (Miss, None) => reply == Failed && s' == read
            case _ => reply == found && s' == read
  {
  }

  /** So an expired row is gone after any operation that sweeps once 300 seconds have passed. */
  lemma DueSweepsRemoveWhatExpired<V>(s: State, key: string, codec: Codec<V>, call: Call, stale: string)
    requires call.ready && call.sweepOk && call.sweepAt - s.lastSweep >= 300
    requires stale in s.rows && s.rows[stale].expiresAt <= call.sweepAt
    ensures stale !in DoGet(s, key, codec, call).0.rows
  {
  }

  // ----- the driver as it runs -----

  class SqlStore {
    var rows: Table
    var lastSweep: int

    function Snapshot(): State
      reads this
    {
      State(rows, lastSweep)
    }

    constructor ()
      ensures Snapshot() == State(map[], 0)
    {
      rows, lastSweep := map[], 0;
    }

    /** The atomic compare-and-swap on the sweep clock. */
    method CompareExchange(expected: int, next: int) returns (ok: bool)
      modifies this`lastSweep
      ensures ok <==> old(lastSweep) == expected
      ensures lastSweep == if ok then next else old(lastSweep)
    {
      ok := lastSweep == expected;
      if ok {
        lastSweep := next;
      }
    }

    method SweepExpiredIfDue(now: int, deleteOk: bool)
      modifies this
      ensures Snapshot() == SweepIfDue(old(Snapshot()), now, deleteOk)
      ensures Swept(old(Snapshot()), Snapshot(), now, deleteOk)
    {
      var previous := lastSweep;
      if now - previous < SWEEP_INTERVAL_SECS { return; }
      var won := CompareExchange(previous, now);
      if !won { return; }
      if deleteOk {
        rows := map key | key in rows && !(rows[key].expiresAt <= now) :: rows[key];
      }
    }

    method Put<V>(key: string, value: V, ttl: Duration, codec: Codec<V>, call: Call) returns (reply: Reply<V>)
      modifies this
      ensures (Snapshot(), reply) == DoPut(old(Snapshot()), key, value, ttl, codec, call)
    {
      if !call.ready { return Failed; }
      SweepExpiredIfDue(call.sweepAt, call.sweepOk);
      var json := codec.encode(value);
      if json.None? { return Failed; }
      var expiresAt := ExpiresAt(call.at, ttl);
      if !call.statementOk { return Failed; }
      rows := rows[key := Row(json.value, expiresAt)];
      reply := Done;
    }

    method Get<V>(key: string, codec: Codec<V>, call: Call) returns (reply: Reply<V>)
      modifies this
      ensures (Snapshot(), reply) == DoGet(old(Snapshot()), key, codec, call)
    {
      if !call.ready { return Failed; }
      SweepExpiredIfDue(call.sweepAt, call.sweepOk);
      if !call.statementOk { return Failed; }
      if key !in rows { return Miss; }
      var row := rows[key];
      if row.expiresAt <= call.at {
        if call.evictOk {
          rows := rows - {key};
        }
        return Miss;
      }
      var decoded := codec.decode(row.json);
      reply := if decoded.Some? then Hit(decoded.value) else Failed;
    }

    method Forget<V>(key: string, call: Call) returns (reply: Reply<V>)
      modifies this
      ensures (Snapshot(), reply) == DoForget(old(Snapshot()), key, call)
    {
      if !call.ready || !call.statementOk { return Failed; }
      rows := rows - {key};
      reply := Done;
    }

    /** `fetched` is what the caller's closure would produce if it is run. */
    method Remember<V>(key: string, fetched: Option<V>, ttl: Duration, codec: Codec<V>, reading: Call, writing: Call)
      returns (reply: Reply<V>)
      modifies this
      ensures (Snapshot(), reply) == DoRemember(old(Snapshot()), key, fetched, ttl, codec, reading, writing)
    {
      reply := Get(key, codec, reading);
      if !reply.Miss? { return; }
      if fetched.None? { return Failed; }
      var _ := Put(key, fetched.value, ttl, codec, writing);
      reply := Hit(fetched.value);
    }
  }

  // ----- the reference: a map with expiry that never deletes an expired entry -----

  function RefPut<V>(table: Table, key: string, value: V, ttl: Duration, codec: Codec<V>, call: Call)
    : (Table, Reply<V>) {
    var json := codec.encode(value);
    if !call.ready || json.None? || !call.statementOk then (table, Failed)
    else (table[key := Row(json.value, ExpiresAt(call.at, ttl))], Done)
  }

  function RefGet<V>(table: Table, key: string, codec: Codec<V>, call: Call): Reply<V> {
    if !call.ready || !call.statementOk then Failed
    else if key in table && table[key].expiresAt > call.at then Decoded(table[key].json, codec)
    else Miss
  }

  function RefStep<V>(table: Table, op: Op<V>): (Table, Reply<V>) {
    match op
    case Put(key, value, ttl, codec, call) => RefPut(table, key, value, ttl, codec, call)
    case Get(key, codec, call) => (table, RefGet(table, key, codec, call))
    case Forget(key, call) =>
      if !call.ready || !call.statementOk then (table, Failed) else (table - {key}, Done)
    case Remember(key, fetched, ttl, codec, reading, writing) =>
      var reply := RefGet(table, key, codec, reading);
      if reply != Miss then (table, reply)
      else if fetched.None? then (table, Failed)
      else (RefPut(table, key, fetched.value, ttl, codec, writing).0, Hit(fetched.value))
  }

  // ----- histories -----

  function Replies<V>(s: State, ops: seq<Op<V>>): seq<Reply<V>>
    decreases |ops|
  {
    if ops == [] then [] else [DoStep(s, ops[0]).1] + Replies(DoStep(s, ops[0]).0, ops[1..])
  }

  function RefReplies<V>(table: Table, ops: seq<Op<V>>): seq<Reply<V>>
    decreases |ops|
  {
    if ops == [] then [] else [RefStep(table, ops[0]).1] + RefReplies(RefStep(table, ops[0]).0, ops[1..])
  }

  function FirstReading<V>(op: Op<V>): int {
    match op
    case Remember(_, _, _, _, reading, _) => reading.sweepAt
    case _ => op.call.sweepAt
  }

  function LastReading<V>(op: Op<V>): int {
    match op
    case Remember(_, _, _, _, _, writing) => writing.at
    case _ => op.call.at
  }

  /** The clock does not run backwards within the call. */
  predicate Ordered<V>(op: Op<V>) {
    match op
    case Remember(_, _, _, _, reading, writing) =>
      reading.sweepAt <= reading.at <= writing.sweepAt <= writing.at
    case _ => op.call.sweepAt <= op.call.at
  }

  /** Nor from one call of the history to the next, starting at `t`. */
  predicate NonDecreasing<V>(ops: seq<Op<V>>, t: int)
    decreases |ops|
  {
    ops == [] || (t <= FirstReading(ops[0]) && Ordered(ops[0]) && NonDecreasing(ops[1..], LastReading(ops[0])))
  }

  /** The driver's rows are the reference's, less some that have expired by `t`. */
  ghost predicate Agree(rows: Table, table: Table, t: int) {
    (forall key :: key in rows ==> key in table && rows[key] == table[key]) &&
    (forall key :: key in table && table[key].expiresAt > t ==> key in rows)
  }

  lemma GetAgrees<V>(s: State, table: Table, t: int, key: string, codec: Codec<V>, call: Call)
    requires Agree(s.rows, table, t) && t <= call.sweepAt <= call.at
    ensures DoGet(s, key, codec, call).1 == RefGet(table, key, codec, call)
    ensures Agree(DoGet(s, key, codec, call).0.rows, table, call.at)
  {
  }

  lemma PutAgrees<V>(s: State, table: Table, t: int, key: string, value: V, ttl: Duration, codec: Codec<V>, call: Call)
    requires Agree(s.rows, table, t) && t <= call.sweepAt <= call.at
    ensures DoPut(s, key, value, ttl, codec, call).1 == RefPut(table, key, value, ttl, codec, call).1
    ensures Agree(DoPut(s, key, value, ttl, codec, call).0.rows,
                  RefPut(table, key, value, ttl, codec, call).0, call.at)
  {
  }

  lemma StepAgrees<V>(s: State, table: Table, t: int, op: Op<V>)
    requires Agree(s.rows, table, t) && t <= FirstReading(op) && Ordered(op)
    ensures DoStep(s, op).1 == RefStep(table, op).1
    ensures Agree(DoStep(s, op).0.rows, RefStep(table, op).0, LastReading(op))
  {
    match op
    case Put(key, value, ttl, codec, call) => PutAgrees(s, table, t, key, value, ttl, codec, call);
    case Get(key, codec, call) => GetAgrees(s, table, t, key, codec, call);
    case Forget(_, _) =>
    case Remember(key, fetched, ttl, codec, reading, writing) =>
      GetAgrees(s, table, t, key, codec, reading);
      if fetched.Some? {
        PutAgrees(DoGet(s, key, codec, reading).0, table, reading.at, key, fetched.value, ttl, codec, writing);
      }
  }

  /**
   * Over every history with a clock that does not run backwards, and under every
   * pattern of faults, the driver answers as the map that never deletes: sweeps and
   * evictions, successful or not, cannot be observed.
   */
  lemma {:induction false} CacheRefinesMapWithExpiry<V>(s: State, table: Table, t: int, ops: seq<Op<V>>)
    requires Agree(s.rows, table, t) && NonDecreasing(ops, t)
    ensures Replies(s, ops) == RefReplies(table, ops)
    decreases |ops|
  {
    if ops != [] {
      StepAgrees(s, table, t, ops[0]);
      CacheRefinesMapWithExpiry(DoStep(s, ops[0]).0, RefStep(table, ops[0]).0, LastReading(ops[0]), ops[1..]);
    }
  }

  // ----- what a time-to-live means -----

  /**
   * The stored expiry is `now + ttl` exactly when the sum of the seconds fits a signed
   * 64-bit integer and the duration has no fraction, which is dropped otherwise.
   */
  lemma TtlIsHonouredExactly(now: int, ttl: Duration)
    requires 0 <= now < TWO_63 && ttl.Valid()
    ensures ExpiresAt(now, ttl) == now + ttl.secs <==> now + ttl.secs < TWO_63
    ensures ExpiresAt(now, ttl) * NANOS_PER_SEC == now * NANOS_PER_SEC + ttl.secs * NANOS_PER_SEC + ttl.nanos <==>
            now + ttl.secs < TWO_63 && ttl.nanos == 0
  {
  }

  /** The entry is written already expired exactly when there is no whole second or the sum does not fit. */
  lemma ExpiredWhenWrittenExactly(now: int, ttl: Duration)
    requires 0 <= now < TWO_63 && ttl.Valid()
    ensures ExpiresAt(now, ttl) <= now <==> ttl.secs == 0 || now + ttl.secs >= TWO_63
  {
  }

  /** A later `get` that nothing disturbs. */
  predicate Follows(writing: Call, reading: Call) {
    writing.at <= reading.sweepAt <= reading.at && reading.ready && reading.statementOk
  }

  /** Every undisturbed `get` after the `put` misses. */
  ghost predicate NeverRead<V>(s: State, key: string, value: V, ttl: Duration, codec: Codec<V>, writing: Call) {
    forall reading :: Follows(writing, reading) ==>
      DoGet(DoPut(s, key, value, ttl, codec, writing).0, key, codec, reading).1 == Miss
  }

  /** So that is exactly when what was stored is dead on arrival: no `get` ever finds it. */
  lemma DeadOnArrivalExactly<V>(s: State, key: string, value: V, ttl: Duration, codec: Codec<V>, writing: Call)
    requires 0 <= writing.at < TWO_63 && ttl.Valid() && DoPut(s, key, value, ttl, codec, writing).1 == Done
    ensures NeverRead(s, key, value, ttl, codec, writing) <==> ttl.secs == 0 || writing.at + ttl.secs >= TWO_63
  {
    ExpiredWhenWrittenExactly(writing.at, ttl);
    var atOnce := Call(writing.at, writing.at, true, true, true, true);
    assert Follows(writing, atOnce);
    PutThenGet(s, key, value, ttl, codec, writing, atOnce);
    forall reading | Follows(writing, reading) && ExpiresAt(writing.at, ttl) <= writing.at
      ensures DoGet(DoPut(s, key, value, ttl, codec, writing).0, key, codec, reading).1 == Miss
    {
      PutThenGet(s, key, value, ttl, codec, writing, reading);
    }
  }

  /** Half a second shows the one case: its whole seconds are none. */
  lemma HalfASecondIsDeadOnArrival<V>(s: State, key: string, value: V, codec: Codec<V>, writing: Call)
    requires 0 <= writing.at < TWO_63
    requires DoPut(s, key, value, Duration(0, 500_000_000), codec, writing).1 == Done
    ensures NeverRead(s, key, value, Duration(0, 500_000_000), codec, writing)
  {
    DeadOnArrivalExactly(s, key, value, Duration(0, 500_000_000), codec, writing);
  }

  /** The longest duration shows the other: its seconds wrap to minus one. */
  lemma LongestTtlIsDeadOnArrival<V>(s: State, key: string, value: V, codec: Codec<V>, writing: Call)
    requires 0 < writing.at < TWO_63 && DoPut(s, key, value, LONGEST, codec, writing).1 == Done
    ensures ExpiresAt(writing.at, LONGEST) == writing.at - 1
    ensures NeverRead(s, key, value, LONGEST, codec, writing)
  {
    DeadOnArrivalExactly(s, key, value, LONGEST, codec, writing);
  }

  /**
   * A stored value is read back by every later undisturbed `get` at time `at`
   * exactly while the stored expiry is still ahead.
   */
  lemma PutThenGet<V>(s: State, key: string, value: V, ttl: Duration, codec: Codec<V>, writing: Call, reading: Call)
    requires Follows(writing, reading) && DoPut(s, key, value, ttl, codec, writing).1 == Done
    ensures DoGet(DoPut(s, key, value, ttl, codec, writing).0, key, codec, reading).1 ==
            if ExpiresAt(writing.at, ttl) > reading.at then Decoded(codec.encode(value).value, codec) else Miss
  {
  }

  /**
   * `remember` runs the fetch at most once per lifetime of what it stored: a second
   * call before the expiry answers with the first call's value, whatever it would
   * have fetched itself.
   */
  lemma RememberIsStable<V>(s: State, key: string, first: V, second: Option<V>, ttl: Duration, codec: Codec<V>,
                            r1: Call, w1: Call, r2: Call, w2: Call)
    requires Ordered(Remember(key, Some(first), ttl, codec, r1, w1)) && w1.at <= r2.sweepAt <= r2.at
    requires DoGet(s, key, codec, r1).1 == Miss
    requires w1.ready && w1.statementOk && r2.ready && r2.statementOk
    requires codec.encode(first).Some? && codec.decode(codec.encode(first).value) == Some(first)
    requires 0 <= w1.at && ttl.Valid() && w1.at + ttl.secs < TWO_63 && r2.at < w1.at + ttl.secs
    ensures var s1 := DoRemember(s, key, Some(first), ttl, codec, r1, w1).0;
            DoRemember(s1, key, second, ttl, codec, r2, w2).1 == Hit(first)
  {
  }
}
