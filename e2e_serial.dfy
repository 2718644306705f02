/** The datecounter end-to-end test: the expectation queue that
    `datecounter_serial_common` builds for a month of signing, and a replay
    of that queue against the serial policy showing that every serial it
    expects is the one the policy publishes. */
module E2eSerial {
  import opened Wrappers
  import opened CString
  import opened SerialArith
  import opened SerialPolicy

  /** assert_uint32_ptr_equal: passes when both pointers are NULL, fails
      when exactly one is, and otherwise compares the pointed-to values. */
  function AssertUint32PtrEqual(actual: Option<Uint32>, expected: Option<Uint32>): (passes: bool)
    ensures passes <==> actual == expected
  {
    if actual.None? && expected.None? then true
    else if (actual.None? && expected.Some?) || (actual.Some? && expected.None?) then false
    else actual.value == expected.value
  }

  /** The cmocka `fail()` that ends a test. */
  datatype TestFailure = TestFailure

  /** safe_get_outbound_serial: a zone without an outbound serial fails the
      test; otherwise the serial is returned. */
  function SafeGetOutboundSerial(outbound: Option<Uint32>): (r: Result<Uint32, TestFailure>)
    ensures r.Err? <==> outbound.None?
    ensures r.Ok? ==> r.value == outbound.value
  {
    match outbound
    case None => Err(TestFailure)
    case Some(serial) => Ok(serial)
  }

  const Year: nat := 2019
  const Month: nat := 1
  const LastDay: nat := 31
  /** The serial of the input zone before the first sign: a past date,
      `"20180101"`. */
  const InitialZoneSerial: string := ['2', '0', '1', '8', '0', '1', '0', '1']

  lemma InitialZoneSerialValue()
    ensures AllDigits(InitialZoneSerial) && DecimalValue(InitialZoneSerial) == 20180101
  {
    var t := InitialZoneSerial;
    assert DecimalValue(t[..0]) == 0;
    assert t[..1][..0] == t[..0];
    assert DecimalValue(t[..1]) == 2;
    assert t[..2][..1] == t[..1];
    assert DecimalValue(t[..2]) == 20;
    assert t[..3][..2] == t[..2];
    assert DecimalValue(t[..3]) == 201;
    assert t[..4][..3] == t[..3];
    assert DecimalValue(t[..4]) == 2018;
    assert t[..5][..4] == t[..4];
    assert DecimalValue(t[..5]) == 20180;
    assert t[..6][..5] == t[..5];
    assert DecimalValue(t[..6]) == 201801;
    assert t[..7][..6] == t[..6];
    assert DecimalValue(t[..7]) == 2018010;
    assert t[..8][..7] == t[..7];
    assert t[..8] == t;
  }

  /** The datecounter serial `YYYYMMDDNN` as a number. */
  function Ymdn(y: nat, m: nat, d: nat, n: nat): nat
  {
    y * 1000000 + m * 10000 + d * 100 + n
  }

  predicate ValidYmdn(y: nat, m: nat, d: nat, n: nat)
  {
    1000 <= y < 10000 && m < 100 && d < 100 && n < 100
  }

  /** YMDN_TO_DATECOUNTER: `"%4d%2.2d%2.2d%2.2d"` of a four-digit year and
      two-digit month, day and counter, written here as the ten-digit
      zero-padded `YYYYMMDDNN`; YmdnStringFields shows it is the same text. */
  function YmdnString(y: nat, m: nat, d: nat, n: nat): (r: string)
    requires ValidYmdn(y, m, d, n)
    ensures |r| == 10 && AllDigits(r)
  {
    assert Pow10(10) == 10000000000;
    PadDecimal(Ymdn(y, m, d, n), 10)
  }

  /** Reading a datecounter string back with atol gives `YYYYMMDDNN`. */
  lemma YmdnStringValue(y: nat, m: nat, d: nat, n: nat)
    requires ValidYmdn(y, m, d, n)
    ensures DecimalValue(YmdnString(y, m, d, n)) == Ymdn(y, m, d, n)
  {
    assert Pow10(10) == 10000000000;
    DecimalValuePad(Ymdn(y, m, d, n), 10);
  }

  /** YMDN_TO_DATECOUNTER prints the four fields one after another, the year
      in four digits and the others in two: the same text. */
  lemma YmdnStringFields(y: nat, m: nat, d: nat, n: nat)
    requires ValidYmdn(y, m, d, n)
    ensures Pow10(4) == 10000 && Pow10(2) == 100
    ensures YmdnString(y, m, d, n) == PadDecimal(y, 4) + PadDecimal(m, 2) + PadDecimal(d, 2) + PadDecimal(n, 2)
  {
    assert Pow10(2) == 100 && Pow10(4) == 10000 && Pow10(6) == 1000000;
    var ys, ms, ds, ns := PadDecimal(y, 4), PadDecimal(m, 2), PadDecimal(d, 2), PadDecimal(n, 2);
    DecimalValuePad(y, 4);
    DecimalValuePad(m, 2);
    DecimalValuePad(d, 2);
    DecimalValuePad(n, 2);
    DecimalValueConcat(ys, ms);
    DecimalValueConcat(ys + ms, ds);
    DecimalValueConcat(ys + ms + ds, ns);
    var fields := ys + ms + ds + ns;
    assert |fields| == 10 && DecimalValue(fields) == Ymdn(y, m, d, n);
    PadDecimalOfValue(fields);
  }

  /** The worker tasks the test expects, by `task->type`. */
  datatype TaskId = TaskRead | TaskForceRead | TaskSign | TaskWrite

  /** One entry of the test's expectation queue. */
  datatype Expectation =
    | Leap(year: nat, month: nat, day: nat, hour: nat)  // WILL_LEAP: set the mocked clock
    | ZoneInstalled(serial: string)                     // WILL_INVOKE_CB of the force-read callback
    | ExpectTask(task: TaskId)                          // EXPECT_TASK
    | ExpectSerial(serial: string)                      // EXPECT_SERIAL

  /** How many signs a day sees when the clock advances by `hInc` hours:
      the hours 0, hInc, 2 * hInc, ... below 24. */
  function NumCycles(hInc: nat): (r: nat)
    requires hInc > 0
    ensures 1 <= r <= 24
  {
    CyclesFrom(hInc, 0)
  }

  /** How many of the hours h, h + hInc, h + 2 * hInc, ... are below 24. */
  function CyclesFrom(hInc: nat, h: nat): (r: nat)
    requires hInc > 0
    ensures h < 24 ==> 1 <= r <= 24 - h
    ensures h >= 24 ==> r == 0
    decreases 24 - h
  {
    if h >= 24 then 0 else 1 + CyclesFrom(hInc, h + hInc)
  }

  /** The inner loop's guard `h < 24` with `h == n * hInc` holds for exactly
      the first NumCycles(hInc) values of `n`. */
  lemma CycleGuard(hInc: nat, n: nat)
    requires hInc > 0
    ensures Hour(hInc, n) < 24 <==> n < NumCycles(hInc)
  {
    CycleGuardFrom(hInc, 0, n);
  }

  /** The guard counted from the hour `h` on. */
  lemma {:induction false} CycleGuardFrom(hInc: nat, h: nat, n: nat)
    requires hInc > 0
    ensures h + Hour(hInc, n) < 24 <==> n < CyclesFrom(hInc, h)
    decreases n
  {
    if n > 0 && h < 24 {
      CycleGuardFrom(hInc, h + hInc, n - 1);
      assert Hour(hInc, n) == Hour(hInc, n - 1) + hInc;
      assert CyclesFrom(hInc, h) == 1 + CyclesFrom(hInc, h + hInc);
    }
  }

  /** The serial written by the last sign before day `d`. */
  function LastSerialText(hInc: nat, d: nat): (r: string)
    requires hInc > 0 && 2 <= d <= LastDay + 1
    ensures |r| == 10 && AllDigits(r)
    decreases d, 0
  {
    if d == 2 then YmdnString(Year, Month, 1, 0)
    else InboundSerialText(hInc, d - 1, NumCycles(hInc))
  }

  /** The serial of the zone the `n`-th re-read of day `d` installs: the
      serial written just before. */
  function InboundSerialText(hInc: nat, d: nat, n: nat): (r: string)
    requires hInc > 0 && 2 <= d <= LastDay && n <= NumCycles(hInc)
    ensures |r| == 10 && AllDigits(r)
    decreases d, 1
  {
    if n == 0 then LastSerialText(hInc, d) else YmdnString(Year, Month, d, n - 1)
  }

  /** The hour of the `n`-th cycle of a day. */
  function Hour(hInc: nat, n: nat): (h: nat)
    ensures n > 0 ==> h >= hInc
  {
    if n == 0 then 0 else Hour(hInc, n - 1) + hInc
  }

  /** The first cycle, on 2019-01-01 at midnight: READ, SIGN, WRITE and the
      serial 2019010100. */
  function FirstCycle(): seq<Expectation>
  {
    [Leap(Year, Month, 1, 0), ExpectTask(TaskRead), ExpectTask(TaskSign), ExpectTask(TaskWrite),
     ExpectSerial(YmdnString(Year, Month, 1, 0))]
  }

  /** The `n`-th cycle of day `d`: advance the clock, install the zone with
      the previous serial, FORCEREAD, SIGN, WRITE, and expect `YYYYMMDDNN`. */
  function Cycle(hInc: nat, d: nat, n: nat): seq<Expectation>
    requires hInc > 0 && 2 <= d <= LastDay && n < NumCycles(hInc)
  {
    [Leap(Year, Month, d, Hour(hInc, n)), ZoneInstalled(InboundSerialText(hInc, d, n)),
     ExpectTask(TaskForceRead), ExpectTask(TaskSign), ExpectTask(TaskWrite),
     ExpectSerial(YmdnString(Year, Month, d, n))]
  }

  /** The first `k` cycles of day `d`. */
  function DayCycles(hInc: nat, d: nat, k: nat): seq<Expectation>
    requires hInc > 0 && 2 <= d <= LastDay && k <= NumCycles(hInc)
  {
    if k == 0 then [] else DayCycles(hInc, d, k - 1) + Cycle(hInc, d, k - 1)
  }

  /** All cycles of the days 2 up to, not including, `d`. */
  function Days(hInc: nat, d: nat): seq<Expectation>
    requires hInc > 0 && 2 <= d <= LastDay + 1
  {
    if d == 2 then [] else Days(hInc, d - 1) + DayCycles(hInc, d - 1, NumCycles(hInc))
  }

  /** The whole expectation queue of the test. */
  function Plan(hInc: nat): seq<Expectation>
    requires hInc > 0
  {
    FirstCycle() + Days(hInc, LastDay + 1)
  }

  lemma CycleDisplay(hInc: nat, d: nat, n: nat, inbound: string)
    requires hInc > 0 && 2 <= d <= LastDay && n < NumCycles(hInc)
    requires inbound == InboundSerialText(hInc, d, n)
    ensures [Leap(Year, Month, d, Hour(hInc, n)), ZoneInstalled(inbound),
             ExpectTask(TaskForceRead), ExpectTask(TaskSign), ExpectTask(TaskWrite),
             ExpectSerial(YmdnString(Year, Month, d, n))] == Cycle(hInc, d, n)
  {
  }

  lemma NextHour(hInc: nat, n: nat, h: nat)
    requires h == Hour(hInc, n)
    ensures h + hInc == Hour(hInc, n + 1)
  {
  }

  /** The queue of the days up to `d + 1` is that of the days up to `d`
      followed by the cycles of day `d`. */
  lemma QueueDay(hInc: nat, d: nat, queue: seq<Expectation>, day: seq<Expectation>)
    requires hInc > 0 && 2 <= d <= LastDay
    requires queue == FirstCycle() + Days(hInc, d) && day == DayCycles(hInc, d, NumCycles(hInc))
    ensures queue + day == FirstCycle() + Days(hInc, d + 1)
  {
    AppendAssoc(FirstCycle(), Days(hInc, d), day);
  }

  lemma AppendAssoc<T>(a: seq<T>, b: seq<T>, c: seq<T>)
    ensures (a + b) + c == a + (b + c)
  {
  }

  /** The queue after the first cycle, before day 2. */
  lemma QueueStart(hInc: nat, y: nat, m: nat, d: nat, h: nat, n: nat, outbound: string, queue: seq<Expectation>)
    requires hInc > 0 && y == Year && m == Month && d == 1 && h == 0 && n == 0
    requires outbound == YmdnString(y, m, d, n)
    requires queue == [Leap(y, m, d, h), ExpectTask(TaskRead), ExpectTask(TaskSign), ExpectTask(TaskWrite),
                       ExpectSerial(outbound)]
    ensures queue == FirstCycle() + Days(hInc, 2) && outbound == LastSerialText(hInc, 2)
  {
  }

  /** The start of datecounter_serial_common: the clock at 2019-01-01
      midnight, READ, SIGN, WRITE and the first serial, which the first
      re-read of day 2 installs. */
  method FirstSign(hInc: nat) returns (queue: seq<Expectation>, outboundSerialStr: string)
    requires hInc > 0
    ensures queue == FirstCycle() + Days(hInc, 2) && outboundSerialStr == LastSerialText(hInc, 2)
  {
    var y, m, d, h, n := Year, Month, 1, 0, 0;
    outboundSerialStr := YmdnString(y, m, d, n);
    queue := [Leap(y, m, d, h), ExpectTask(TaskRead), ExpectTask(TaskSign), ExpectTask(TaskWrite),
              ExpectSerial(outboundSerialStr)];
    QueueStart(hInc, y, m, d, h, n, outboundSerialStr, queue);
  }

  /** datecounter_serial_common: the nested loops over the days of January
      and the hours of each day queue exactly Plan(hInc). */
  method DatecounterSerialCommon(hInc: nat) returns (queue: seq<Expectation>)
    requires hInc > 0
    ensures queue == Plan(hInc)
  {
    var y, m := Year, Month;
    var outboundSerialStr;
    queue, outboundSerialStr := FirstSign(hInc);
    var d := 2;
    while d <= LastDay
      invariant 2 <= d <= LastDay + 1
      invariant queue == FirstCycle() + Days(hInc, d)
      invariant outboundSerialStr == LastSerialText(hInc, d)
    {
      var day;
      day, outboundSerialStr := DayLoop(hInc, y, m, d, outboundSerialStr);
      QueueDay(hInc, d, queue, day);
      queue := queue + day;
      d := d + 1;
    }
    assert d == LastDay + 1;
  }

  /** The inner loop of datecounter_serial_common for day `d`: one cycle
      per hour `h = n * hInc` below 24, queued in `day`. */
  method DayLoop(hInc: nat, y: nat, m: nat, d: nat, outbound0: string)
    returns (day: seq<Expectation>, outboundSerialStr: string)
    requires hInc > 0 && 2 <= d <= LastDay && y == Year && m == Month
    requires outbound0 == LastSerialText(hInc, d)
    ensures day == DayCycles(hInc, d, NumCycles(hInc))
    ensures outboundSerialStr == LastSerialText(hInc, d + 1)
  {
    day, outboundSerialStr := [], outbound0;
    var h, n := 0, 0;
    while h < 24
      invariant 0 <= n <= NumCycles(hInc) && h == Hour(hInc, n)
      invariant day == DayCycles(hInc, d, n)
      invariant outboundSerialStr == InboundSerialText(hInc, d, n)
    {
      DayLoopStep(hInc, d, n, h, day, outboundSerialStr);
      var inboundSerialStr := outboundSerialStr;
      var newSerialStr := YmdnString(y, m, d, n);
      day := day + [Leap(y, m, d, h), ZoneInstalled(inboundSerialStr),
                    ExpectTask(TaskForceRead), ExpectTask(TaskSign), ExpectTask(TaskWrite),
                    ExpectSerial(newSerialStr)];
      outboundSerialStr := newSerialStr;
      h, n := h + hInc, n + 1;
    }
    DayLoopExit(hInc, d, n, h);
  }

  /** One pass of the hour loop of day `d` queues the `n`-th cycle and
      leaves its serial for the next re-read. */
  lemma DayLoopStep(hInc: nat, d: nat, n: nat, h: nat, day: seq<Expectation>, outbound: string)
    requires hInc > 0 && 2 <= d <= LastDay && n <= NumCycles(hInc) && h == Hour(hInc, n) && h < 24
    requires day == DayCycles(hInc, d, n) && outbound == InboundSerialText(hInc, d, n)
    ensures n < NumCycles(hInc) && ValidYmdn(Year, Month, d, n) && h + hInc == Hour(hInc, n + 1)
    ensures day + [Leap(Year, Month, d, h), ZoneInstalled(outbound),
                   ExpectTask(TaskForceRead), ExpectTask(TaskSign), ExpectTask(TaskWrite),
                   ExpectSerial(YmdnString(Year, Month, d, n))] == DayCycles(hInc, d, n + 1)
    ensures YmdnString(Year, Month, d, n) == InboundSerialText(hInc, d, n + 1)
  {
    CycleGuard(hInc, n);
    CycleDisplay(hInc, d, n, outbound);
    NextHour(hInc, n, h);
  }

  /** The hour loop stops after the day's last cycle, holding that cycle's
      serial. */
  lemma DayLoopExit(hInc: nat, d: nat, n: nat, h: nat)
    requires hInc > 0 && 2 <= d <= LastDay && n <= NumCycles(hInc) && h == Hour(hInc, n) && h >= 24
    ensures n == NumCycles(hInc) && InboundSerialText(hInc, d, n) == LastSerialText(hInc, d + 1)
  {
    CycleGuard(hInc, n);
    LastOfDay(hInc, d, n);
  }

  /** The serial of the re-read after the day's last cycle is the last
      serial before the next day. */
  lemma LastOfDay(hInc: nat, d: nat, k: nat)
    requires hInc > 0 && 2 <= d <= LastDay && k == NumCycles(hInc)
    ensures InboundSerialText(hInc, d, k) == LastSerialText(hInc, d + 1)
  {
    assert d + 1 != 2;
  }

  /** What the mocked worker, zone and adapters hold while the queue is
      played: the zone's serial database, the serial of the input zone, the
      date `YYYYMMDD` the clock is at, the serial last written out, and
      whether the test has failed. */
  datatype Harness = Harness(db: NameDb, zoneSerial: string, today: nat, outbound: Option<Uint32>, failed: bool)

  function Start(): Harness
  {
    Harness(FreshDb, InitialZoneSerial, 0, None, false)
  }

  /** READ or FORCEREAD: the serial of the input zone becomes the inbound
      serial. */
  function ReadZone(s: Harness): Harness
  {
    if AllDigits(s.zoneSerial) then s.(db := s.db.(inbSerial := ToUint32(DecimalValue(s.zoneSerial))))
    else s.(failed := true)
  }

  /** SIGN: the datecounter policy picks the new internal serial. */
  function SignZone(s: Harness): Harness
  {
    var r := NextSerial(s.db, Datecounter, s.db.inbSerial, 0, s.today);
    if r.status == ConflictErr then s.(failed := true) else s.(db := r.db)
  }

  /** WRITE: the internal serial is written out. */
  function WriteZone(s: Harness): Harness
  {
    s.(db := s.db.(outSerial := s.db.intSerial, haveSerial := true), outbound := Some(s.db.intSerial))
  }

  /** EXPECT_SERIAL: the written serial must equal the expected text read
      with atol. */
  function CheckSerial(s: Harness, text: string): Harness
  {
    match SafeGetOutboundSerial(s.outbound)
    case Err(_) => s.(failed := true)
    case Ok(serial) =>
      if AllDigits(text) && AssertUint32PtrEqual(Some(serial), Some(ToUint32(DecimalValue(text)))) then s
      else s.(failed := true)
  }

  /** One expectation, played; a failed test stays failed. */
  function Step(s: Harness, e: Expectation): Harness
  {
    if s.failed then s
    else match e
      case Leap(y, m, d, _) => s.(today := y * 10000 + m * 100 + d)
      case ZoneInstalled(text) => s.(zoneSerial := text)
      case ExpectTask(TaskRead) => ReadZone(s)
      case ExpectTask(TaskForceRead) => ReadZone(s)
      case ExpectTask(TaskSign) => SignZone(s)
      case ExpectTask(TaskWrite) => WriteZone(s)
      case ExpectSerial(text) => CheckSerial(s, text)
  }

  /** The queue played in order. */
  function Replay(s: Harness, plan: seq<Expectation>): Harness
    decreases |plan|
  {
    if plan == [] then s else Replay(Step(s, plan[0]), plan[1..])
  }

  lemma {:induction false} ReplayConcat(s: Harness, a: seq<Expectation>, b: seq<Expectation>)
    ensures Replay(s, a + b) == Replay(Replay(s, a), b)
    decreases |a|
  {
    if a == [] {
      assert a + b == b;
    } else {
      assert (a + b)[0] == a[0];
      assert (a + b)[1..] == a[1..] + b;
      ReplayConcat(Step(s, a[0]), a[1..], b);
    }
  }

  /** Playing a queue is playing its first entry, then the rest. */
  lemma ReplayCons(s: Harness, e: Expectation, rest: seq<Expectation>)
    ensures Replay(s, [e] + rest) == Replay(Step(s, e), rest)
  {
    assert ([e] + rest)[1..] == rest;
  }

  /** Playing a five-entry queue is five steps. */
  lemma Replay5(s: Harness, e0: Expectation, e1: Expectation, e2: Expectation, e3: Expectation, e4: Expectation)
    ensures Replay(s, [e0, e1, e2, e3, e4]) == Step(Step(Step(Step(Step(s, e0), e1), e2), e3), e4)
  {
    var s1 := Step(s, e0);
    var s2 := Step(s1, e1);
    var s3 := Step(s2, e2);
    var s4 := Step(s3, e3);
    assert [e4][1..] == [];
    ReplayCons(s3, e3, [e4]);
    ReplayCons(s2, e2, [e3, e4]);
    ReplayCons(s1, e1, [e2, e3, e4]);
    ReplayCons(s, e0, [e1, e2, e3, e4]);
    assert [e0] + [e1, e2, e3, e4] == [e0, e1, e2, e3, e4];
    assert [e1] + [e2, e3, e4] == [e1, e2, e3, e4];
    assert [e2] + [e3, e4] == [e2, e3, e4];
    assert [e3] + [e4] == [e3, e4];
  }

  /** Playing a six-entry queue is six steps. */
  lemma Replay6(s: Harness, e0: Expectation, e1: Expectation, e2: Expectation, e3: Expectation, e4: Expectation,
                e5: Expectation)
    ensures Replay(s, [e0, e1, e2, e3, e4, e5]) == Step(Step(Step(Step(Step(Step(s, e0), e1), e2), e3), e4), e5)
  {
    ReplayCons(s, e0, [e1, e2, e3, e4, e5]);
    assert [e0] + [e1, e2, e3, e4, e5] == [e0, e1, e2, e3, e4, e5];
    Replay5(Step(s, e0), e1, e2, e3, e4, e5);
  }

  /** The zone has published `serial`, which is also its internal serial,
      with no force pending and the test still passing. */
  predicate Published(s: Harness, serial: int)
  {
    !s.failed && s.db.haveSerial && !s.db.forceSerial &&
    s.db.intSerial == serial && s.db.outSerial == serial && s.outbound == Some(serial)
  }

  /** A datecounter sign on day `d` whose inbound and outbound serial is
      `prev`: the day's `00` serial when `prev` is from an earlier day. */
  lemma NewDaySerial(db: NameDb, d: nat, prev: Uint32)
    requires 2 <= d <= LastDay && db.haveSerial && !db.forceSerial && db.outSerial == prev
    requires Ymdn(Year, Month, d - 1, 0) <= prev < Ymdn(Year, Month, d, 0)
    ensures var r := NextSerial(db, Datecounter, prev, 0, Year * 10000 + Month * 100 + d);
            r.status == StatusOk && r.db == db.(intSerial := Ymdn(Year, Month, d, 0))
  {
    var today := Year * 10000 + Month * 100 + d;
    assert Prev(db, Datecounter, prev) == prev;
    assert DatecounterCandidate(today) == Ymdn(Year, Month, d, 0);
    UtilSerialGtWindow(Ymdn(Year, Month, d, 0), prev);
    ClockModes(db, Datecounter, prev, 0, today);
  }

  /** A datecounter sign later on day `d`, after the serial `YYYYMMDD(n-1)`:
      the clock's candidate does not follow it, so the counter goes up. */
  lemma SameDaySerial(db: NameDb, d: nat, n: nat)
    requires 2 <= d <= LastDay && 0 < n < 100 && db.haveSerial && !db.forceSerial
    requires db.outSerial == Ymdn(Year, Month, d, n - 1)
    ensures var r := NextSerial(db, Datecounter, Ymdn(Year, Month, d, n - 1), 0, Year * 10000 + Month * 100 + d);
            r.status == StatusOk && r.db == db.(intSerial := Ymdn(Year, Month, d, n))
  {
    var today := Year * 10000 + Month * 100 + d;
    var prev: Uint32 := Ymdn(Year, Month, d, n - 1);
    assert Prev(db, Datecounter, prev) == prev;
    assert DatecounterCandidate(today) == Ymdn(Year, Month, d, 0);
    UtilSerialGtWindow(Ymdn(Year, Month, d, 0), prev);
    if n > 1 {
      assert (Ymdn(Year, Month, d, 0) - prev) % TwoPow32 == TwoPow32 - (n - 1);
    }
    ClockModes(db, Datecounter, prev, 0, today);
  }

  /** The numeric serial written by the last sign before day `d`. */
  function LastSerial(hInc: nat, d: nat): nat
    requires hInc > 0 && 2 <= d <= LastDay + 1
  {
    if d == 2 then Ymdn(Year, Month, 1, 0) else Ymdn(Year, Month, d - 1, NumCycles(hInc) - 1)
  }

  lemma LastSerialTextValue(hInc: nat, d: nat)
    requires hInc > 0 && 2 <= d <= LastDay + 1
    ensures DecimalValue(LastSerialText(hInc, d)) == LastSerial(hInc, d)
  {
    if d == 2 {
      YmdnStringValue(Year, Month, 1, 0);
    } else {
      YmdnStringValue(Year, Month, d - 1, NumCycles(hInc) - 1);
    }
  }

  /** The first cycle signs the 2018 input zone on 2019-01-01 and publishes
      2019010100, which the test expects. */
  lemma FirstCyclePublishes()
    ensures Published(Replay(Start(), FirstCycle()), Ymdn(Year, Month, 1, 0))
  {
    FirstCycleFrom(Start());
  }

  /** The first cycle played from the start state. */
  lemma FirstCycleFrom(s0: Harness)
    requires s0 == Start()
    ensures Published(Replay(s0, FirstCycle()), Ymdn(Year, Month, 1, 0))
  {
    InitialZoneSerialValue();
    var s2 := s0.(today := 20190101, db := FreshDb.(inbSerial := 20180101));
    assert Step(Step(s0, Leap(Year, Month, 1, 0)), ExpectTask(TaskRead)) == s2;
    FirstCycleTail(s2);
    Replay5(s0, Leap(Year, Month, 1, 0), ExpectTask(TaskRead), ExpectTask(TaskSign), ExpectTask(TaskWrite),
            ExpectSerial(YmdnString(Year, Month, 1, 0)));
  }

  /** SIGN, WRITE and EXPECT_SERIAL of the first cycle, with 20180101 read
      on 2019-01-01, publish 2019010100. */
  lemma FirstCycleTail(s2: Harness)
    requires !s2.failed && s2.today == 20190101 && s2.db == FreshDb.(inbSerial := 20180101)
    ensures Published(Step(Step(Step(s2, ExpectTask(TaskSign)), ExpectTask(TaskWrite)),
                           ExpectSerial(YmdnString(Year, Month, 1, 0))), Ymdn(Year, Month, 1, 0))
  {
    UtilSerialGtWindow(2019010100, 20180101);
    ClockModes(s2.db, Datecounter, 20180101, 0, 20190101);
    var s3 := Step(s2, ExpectTask(TaskSign));
    assert !s3.failed && !s3.db.forceSerial && s3.db.intSerial == 2019010100;
    YmdnStringValue(Year, Month, 1, 0);
    CycleWrite(s3, 2019010100, YmdnString(Year, Month, 1, 0));
  }

  /** SIGN in the `n`-th cycle of day `d`, from the serial `prev` that was
      both read and last written, yields `YYYYMMDDNN`. */
  lemma CycleSign(s: Harness, d: nat, n: nat, prev: Uint32)
    requires 2 <= d <= LastDay && n < 100
    requires !s.failed && s.db.haveSerial && !s.db.forceSerial
    requires s.db.outSerial == prev && s.db.inbSerial == prev && s.today == Year * 10000 + Month * 100 + d
    requires n == 0 ==> Ymdn(Year, Month, d - 1, 0) <= prev < Ymdn(Year, Month, d, 0)
    requires n > 0 ==> prev == Ymdn(Year, Month, d, n - 1)
    ensures Step(s, ExpectTask(TaskSign)) == s.(db := s.db.(intSerial := Ymdn(Year, Month, d, n)))
  {
    if n == 0 {
      NewDaySerial(s.db, d, prev);
    } else {
      SameDaySerial(s.db, d, n);
    }
  }

  /** The clock leap, the zone install and FORCEREAD leave the zone with
      the installed serial as inbound serial on the leap's date. */
  lemma CycleRead(s: Harness, d: nat, h: nat, text: string)
    requires !s.failed && AllDigits(text) && DecimalValue(text) < TwoPow32
    ensures Step(Step(Step(s, Leap(Year, Month, d, h)), ZoneInstalled(text)), ExpectTask(TaskForceRead)) ==
            s.(today := Year * 10000 + Month * 100 + d, zoneSerial := text,
               db := s.db.(inbSerial := DecimalValue(text)))
  {
  }

  /** WRITE then EXPECT_SERIAL of the serial just signed publishes it and
      passes. */
  lemma CycleWrite(s: Harness, serial: Uint32, text: string)
    requires !s.failed && !s.db.forceSerial && s.db.intSerial == serial
    requires AllDigits(text) && DecimalValue(text) == serial
    ensures Published(Step(Step(s, ExpectTask(TaskWrite)), ExpectSerial(text)), serial)
  {
  }

  /** One cycle of day `d`, started from the serial the previous cycle
      published, publishes `YYYYMMDDNN` and meets the test's expectation. */
  lemma CyclePublishes(hInc: nat, d: nat, n: nat, s: Harness)
    requires hInc > 0 && 2 <= d <= LastDay && n < NumCycles(hInc)
    requires Published(s, if n == 0 then LastSerial(hInc, d) else Ymdn(Year, Month, d, n - 1))
    ensures Published(Replay(s, Cycle(hInc, d, n)), Ymdn(Year, Month, d, n))
  {
    var prev := CycleInbound(hInc, d, n);
    CycleDisplay(hInc, d, n, InboundSerialText(hInc, d, n));
    CycleFrom(s, Cycle(hInc, d, n), d, Hour(hInc, n), n, InboundSerialText(hInc, d, n), prev);
  }

  /** The serial the `n`-th cycle of day `d` re-reads: its text reads as
      the serial published just before, which lies in the previous day when
      `n` is 0 and is the day's `n - 1` serial otherwise. */
  lemma CycleInbound(hInc: nat, d: nat, n: nat) returns (prev: Uint32)
    requires hInc > 0 && 2 <= d <= LastDay && n < NumCycles(hInc)
    ensures prev == if n == 0 then LastSerial(hInc, d) else Ymdn(Year, Month, d, n - 1)
    ensures n < 100 && AllDigits(InboundSerialText(hInc, d, n)) && DecimalValue(InboundSerialText(hInc, d, n)) == prev
    ensures n == 0 ==> Ymdn(Year, Month, d - 1, 0) <= prev < Ymdn(Year, Month, d, 0)
    ensures n > 0 ==> prev == Ymdn(Year, Month, d, n - 1)
  {
    prev := if n == 0 then LastSerial(hInc, d) else Ymdn(Year, Month, d, n - 1);
    if n == 0 {
      LastSerialTextValue(hInc, d);
    } else {
      YmdnStringValue(Year, Month, d, n - 1);
    }
  }

  /** One cycle played from a state that published `prev`, re-reading a
      zone whose serial text reads as `prev`. */
  lemma CycleFrom(s: Harness, plan: seq<Expectation>, d: nat, h: nat, n: nat, text: string, prev: Uint32)
    requires 2 <= d <= LastDay && n < 100 && Published(s, prev)
    requires plan == [Leap(Year, Month, d, h), ZoneInstalled(text),
                      ExpectTask(TaskForceRead), ExpectTask(TaskSign), ExpectTask(TaskWrite),
                      ExpectSerial(YmdnString(Year, Month, d, n))]
    requires AllDigits(text) && DecimalValue(text) == prev
    requires n == 0 ==> Ymdn(Year, Month, d - 1, 0) <= prev < Ymdn(Year, Month, d, 0)
    requires n > 0 ==> prev == Ymdn(Year, Month, d, n - 1)
    ensures Published(Replay(s, plan), Ymdn(Year, Month, d, n))
  {
    CycleRead(s, d, h, text);
    var s3 := s.(today := Year * 10000 + Month * 100 + d, zoneSerial := text,
                 db := s.db.(inbSerial := DecimalValue(text)));
    CycleTail(s3, d, n, prev);
    Replay6(s, Leap(Year, Month, d, h), ZoneInstalled(text), ExpectTask(TaskForceRead), ExpectTask(TaskSign),
            ExpectTask(TaskWrite), ExpectSerial(YmdnString(Year, Month, d, n)));
  }

  /** SIGN, WRITE and EXPECT_SERIAL of the `n`-th cycle of day `d` publish
      `YYYYMMDDNN`. */
  lemma CycleTail(s3: Harness, d: nat, n: nat, prev: Uint32)
    requires 2 <= d <= LastDay && n < 100
    requires !s3.failed && s3.db.haveSerial && !s3.db.forceSerial
    requires s3.db.outSerial == prev && s3.db.inbSerial == prev && s3.today == Year * 10000 + Month * 100 + d
    requires n == 0 ==> Ymdn(Year, Month, d - 1, 0) <= prev < Ymdn(Year, Month, d, 0)
    requires n > 0 ==> prev == Ymdn(Year, Month, d, n - 1)
    ensures Published(Step(Step(Step(s3, ExpectTask(TaskSign)), ExpectTask(TaskWrite)),
                           ExpectSerial(YmdnString(Year, Month, d, n))), Ymdn(Year, Month, d, n))
  {
    CycleSign(s3, d, n, prev);
    YmdnStringValue(Year, Month, d, n);
    CycleWrite(Step(s3, ExpectTask(TaskSign)), Ymdn(Year, Month, d, n), YmdnString(Year, Month, d, n));
  }

  /** The first `k` cycles of day `d` publish `YYYYMMDD(k-1)`. */
  lemma {:induction false} DayCyclesPublish(hInc: nat, d: nat, k: nat, s: Harness)
    requires hInc > 0 && 2 <= d <= LastDay && 0 < k <= NumCycles(hInc)
    requires Published(s, LastSerial(hInc, d))
    ensures Published(Replay(s, DayCycles(hInc, d, k)), Ymdn(Year, Month, d, k - 1))
  {
    var mid := Replay(s, DayCycles(hInc, d, k - 1));
    if k == 1 {
      assert DayCycles(hInc, d, 0) == [];
    } else {
      DayCyclesPublish(hInc, d, k - 1, s);
    }
    assert Published(mid, if k - 1 == 0 then LastSerial(hInc, d) else Ymdn(Year, Month, d, k - 2));
    CyclePublishes(hInc, d, k - 1, mid);
    ReplayConcat(s, DayCycles(hInc, d, k - 1), Cycle(hInc, d, k - 1));
  }

  /** From a state that has published the first cycle's serial, playing the
      cycles of the days before `d` publishes the serial of the last cycle
      before that day. */
  lemma {:induction false} DaysPublish(hInc: nat, d: nat, s: Harness)
    requires hInc > 0 && 2 <= d <= LastDay + 1
    requires Published(s, Ymdn(Year, Month, 1, 0))
    ensures Published(Replay(s, Days(hInc, d)), LastSerial(hInc, d))
  {
    if d > 2 {
      DaysPublish(hInc, d - 1, s);
      DayAfterDays(hInc, d, s, Days(hInc, d - 1), DayCycles(hInc, d - 1, NumCycles(hInc)));
    }
  }

  /** The day before `d`, played after the days before it. */
  lemma DayAfterDays(hInc: nat, d: nat, s: Harness, before: seq<Expectation>, day: seq<Expectation>)
    requires hInc > 0 && 3 <= d <= LastDay + 1
    requires before == Days(hInc, d - 1) && day == DayCycles(hInc, d - 1, NumCycles(hInc))
    requires Published(Replay(s, before), LastSerial(hInc, d - 1))
    ensures Published(Replay(s, Days(hInc, d)), LastSerial(hInc, d))
  {
    DayPublishes(hInc, d - 1, Replay(s, before));
    ReplayConcat(s, before, day);
  }

  /** All cycles of day `d` publish the serial of that day's last cycle. */
  lemma DayPublishes(hInc: nat, d: nat, s: Harness)
    requires hInc > 0 && 2 <= d <= LastDay
    requires Published(s, LastSerial(hInc, d))
    ensures Published(Replay(s, DayCycles(hInc, d, NumCycles(hInc))), LastSerial(hInc, d + 1))
  {
    DayCyclesPublish(hInc, d, NumCycles(hInc), s);
  }

  /** The whole test passes: every serial the queue expects is the one the
      datecounter policy publishes, and the month ends on the last counter
      value of 31 January. */
  lemma DatecounterPlanPasses(hInc: nat)
    requires hInc > 0
    ensures Published(Replay(Start(), Plan(hInc)), Ymdn(Year, Month, LastDay, NumCycles(hInc) - 1))
  {
    FirstCyclePublishes();
    DaysPublish(hInc, LastDay + 1, Replay(Start(), FirstCycle()));
    ReplayConcat(Start(), FirstCycle(), Days(hInc, LastDay + 1));
  }

  /** The two tests: a daily step of 24 hours ends on 2019013100, the
      intra-day step of 12 hours on 2019013101. */
  lemma DatecounterTests(hInc: nat)
    requires hInc == 24 || hInc == 12
    ensures Published(Replay(Start(), Plan(hInc)), if hInc == 24 then 2019013100 else 2019013101)
  {
    DatecounterPlanPasses(hInc);
    CycleGuard(hInc, 1);
    CycleGuard(hInc, 2);
    assert NumCycles(hInc) == if hInc == 24 then 1 else 2;
  }

  /** The task type an expectation names, if any. */
  function TaskOf(e: Expectation): seq<TaskId>
  {
    if e.ExpectTask? then [e.task] else []
  }

  /** The task types of a queue, in order. */
  function Tasks(plan: seq<Expectation>): seq<TaskId>
    decreases |plan|
  {
    if plan == [] then [] else TaskOf(plan[0]) + Tasks(plan[1..])
  }

  /** `k` copies of `unit`, one after another. */
  function Repeat(unit: seq<TaskId>, k: nat): seq<TaskId>
  {
    if k == 0 then [] else Repeat(unit, k - 1) + unit
  }

  lemma TasksCons(e: Expectation, rest: seq<Expectation>)
    ensures Tasks([e] + rest) == TaskOf(e) + Tasks(rest)
  {
    assert ([e] + rest)[1..] == rest;
  }

  lemma {:induction false} TasksConcat(a: seq<Expectation>, b: seq<Expectation>)
    ensures Tasks(a + b) == Tasks(a) + Tasks(b)
    decreases |a|
  {
    if a == [] {
      assert a + b == b;
    } else {
      assert (a + b)[1..] == a[1..] + b;
      TasksConcat(a[1..], b);
    }
  }

  const ReSign: seq<TaskId> := [TaskForceRead, TaskSign, TaskWrite]

  /** The task types of a five-entry queue, entry by entry. */
  lemma Tasks5(e0: Expectation, e1: Expectation, e2: Expectation, e3: Expectation, e4: Expectation)
    ensures Tasks([e0, e1, e2, e3, e4]) == TaskOf(e0) + (TaskOf(e1) + (TaskOf(e2) + (TaskOf(e3) + TaskOf(e4))))
  {
    var s := [e0, e1, e2, e3, e4];
    TasksStep(s[4..]);
    assert s[4..][1..] == [];
    TasksStep(s[3..]);
    assert s[3..][1..] == s[4..];
    TasksStep(s[2..]);
    assert s[2..][1..] == s[3..];
    TasksStep(s[1..]);
    assert s[1..][1..] == s[2..];
    TasksStep(s);
  }

  /** One entry off the front of a queue. */
  lemma TasksStep(s: seq<Expectation>)
    requires s != []
    ensures Tasks(s) == TaskOf(s[0]) + Tasks(s[1..])
  {
  }

  /** The task types of a six-entry queue, entry by entry. */
  lemma Tasks6(e0: Expectation, e1: Expectation, e2: Expectation, e3: Expectation, e4: Expectation,
               e5: Expectation)
    ensures Tasks([e0, e1, e2, e3, e4, e5]) ==
            TaskOf(e0) + (TaskOf(e1) + (TaskOf(e2) + (TaskOf(e3) + (TaskOf(e4) + TaskOf(e5)))))
  {
    TasksCons(e0, [e1, e2, e3, e4, e5]);
    assert [e0] + [e1, e2, e3, e4, e5] == [e0, e1, e2, e3, e4, e5];
    Tasks5(e1, e2, e3, e4, e5);
  }

  /** Each later cycle expects FORCEREAD, SIGN, WRITE. */
  lemma CycleTasks(hInc: nat, d: nat, n: nat)
    requires hInc > 0 && 2 <= d <= LastDay && n < NumCycles(hInc)
    ensures Tasks(Cycle(hInc, d, n)) == ReSign
  {
    Tasks6(Leap(Year, Month, d, Hour(hInc, n)), ZoneInstalled(InboundSerialText(hInc, d, n)),
           ExpectTask(TaskForceRead), ExpectTask(TaskSign), ExpectTask(TaskWrite),
           ExpectSerial(YmdnString(Year, Month, d, n)));
  }

  /** The first cycle expects READ, SIGN, WRITE. */
  lemma FirstCycleTasks()
    ensures Tasks(FirstCycle()) == [TaskRead, TaskSign, TaskWrite]
  {
    Tasks5(Leap(Year, Month, 1, 0), ExpectTask(TaskRead), ExpectTask(TaskSign), ExpectTask(TaskWrite),
           ExpectSerial(YmdnString(Year, Month, 1, 0)));
  }

  lemma {:induction false} DayCyclesTasks(hInc: nat, d: nat, k: nat)
    requires hInc > 0 && 2 <= d <= LastDay && k <= NumCycles(hInc)
    ensures Tasks(DayCycles(hInc, d, k)) == Repeat(ReSign, k)
  {
    if k > 0 {
      TasksConcat(DayCycles(hInc, d, k - 1), Cycle(hInc, d, k - 1));
      DayCyclesTasks(hInc, d, k - 1);
      CycleTasks(hInc, d, k - 1);
    }
  }

  lemma {:induction false} DaysTasks(hInc: nat, d: nat)
    requires hInc > 0 && 2 <= d <= LastDay + 1
    ensures Tasks(Days(hInc, d)) == Repeat(Repeat(ReSign, NumCycles(hInc)), d - 2)
  {
    if d > 2 {
      var k := NumCycles(hInc);
      DaysTasks(hInc, d - 1);
      DayCyclesTasks(hInc, d - 1, k);
      TasksAfterDays(hInc, d, Days(hInc, d - 1), DayCycles(hInc, d - 1, k));
    }
  }

  /** The tasks of the day before `d`, after those of the days before it. */
  lemma TasksAfterDays(hInc: nat, d: nat, before: seq<Expectation>, day: seq<Expectation>)
    requires hInc > 0 && 3 <= d <= LastDay + 1
    requires before == Days(hInc, d - 1) && day == DayCycles(hInc, d - 1, NumCycles(hInc))
    requires Tasks(before) == Repeat(Repeat(ReSign, NumCycles(hInc)), d - 3)
    requires Tasks(day) == Repeat(ReSign, NumCycles(hInc))
    ensures Tasks(Days(hInc, d)) == Repeat(Repeat(ReSign, NumCycles(hInc)), d - 2)
  {
    TasksConcat(before, day);
  }

  /** Task order: READ, SIGN, WRITE for the first cycle, then, on each of
      the 30 remaining days, FORCEREAD, SIGN, WRITE once per sign of that
      day. */
  lemma PlanTaskOrder(hInc: nat)
    requires hInc > 0
    ensures Tasks(Plan(hInc)) == [TaskRead, TaskSign, TaskWrite] + Repeat(Repeat(ReSign, NumCycles(hInc)), 30)
  {
    TasksConcat(FirstCycle(), Days(hInc, LastDay + 1));
    DaysTasks(hInc, LastDay + 1);
    FirstCycleTasks();
  }
}
