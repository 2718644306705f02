/** The SOA serial policy of `namedb_update_serial` as the namedb serial
    tests pin it down, completed for the cases no test decides: choose a
    previous serial, then a candidate by force-serial or by the zone's
    `soa_serial` mode, then commit the candidate as `intserial`. The clock
    (`time_now`) and the date stamp are parameters. */
module SerialPolicy {
  import opened Wrappers
  import opened SerialArith

  /** The `<SOA><Serial>` setting of a zone's signer configuration. */
  datatype SerialMode = Counter | Keep | Unixtime | Datecounter

  /** The serial fields of a zone's `namedb_type`. */
  datatype NameDb = NameDb(
    haveSerial: bool,
    inbSerial: Uint32,
    intSerial: Uint32,
    outSerial: Uint32,
    altSerial: Uint32,
    forceSerial: bool)

  /** The `ods_status` results the tests observe. */
  datatype Status = StatusOk | ConflictErr

  /** One call of the logger: its level name and its format string. */
  datatype LogLine = LogLine(level: string, format: string)

  /** What one update produces: its status, the new database and the lines
      it logs. */
  datatype Update = Update(status: Status, db: NameDb, logs: seq<LogLine>)

  /** The outcome of the candidate step: a candidate serial with the warnings
      that choosing it logs, or a conflict. */
  datatype Choice = Chosen(candidate: Uint32, warnings: seq<LogLine>) | Conflict

  const KeepConflictMessage: string := "cannot keep SOA SERIAL from input zone"
  const ForceWarning: string := "unable to enforce serial: %u does not  increase %u"
  const UnixtimeWarning: string := "unable to use unixtime as serial: %u does not increase %u."
  const DatecounterWarning: string := "unable to use datecounter as serial: %u does not increase %u."

  /** The largest increment section 3.1 of RFC 1982 allows, to which the
      step from `prev` is clamped. */
  const MaxDelta: Uint32 := 0x7FFF_FFFF

  /** The empty database of a freshly registered zone. */
  const FreshDb: NameDb := NameDb(false, 0, 0, 0, 0, false)

  /** Step 1: the serial the new one has to follow. */
  function Prev(db: NameDb, mode: SerialMode, inbound: Uint32): Uint32
  {
    if mode == Keep then db.outSerial
    else if db.haveSerial && UtilSerialGt(db.outSerial, inbound) then db.outSerial
    else inbound
  }

  /** `prev + 1` in serial arithmetic. */
  function Succ(s: Uint32): Uint32
  {
    Rfc1982Increment(s, 1).value
  }

  /** The unixtime candidate: `time_now()` cast to 32 bits. */
  function UnixtimeCandidate(now: int): Uint32
  {
    ToUint32(now)
  }

  /** The datecounter candidate: today's `YYYYMMDD` times 100, cast to 32
      bits, so the first serial of a day ends in `00`. */
  function DatecounterCandidate(today: nat): Uint32
  {
    ToUint32(today * 100)
  }

  /** A clock-driven candidate: taken when it follows `prev`, otherwise
      `prev + 1`, with a warning only on a zone's first serial. */
  function ClockChoice(db: NameDb, clock: Uint32, prev: Uint32, warning: string): Choice
  {
    if UtilSerialGt(clock, prev) then Chosen(clock, [])
    else Chosen(Succ(prev), if db.haveSerial then [] else [LogLine("warning", warning)])
  }

  /** Steps 2 and 3: the candidate serial. */
  function Choose(db: NameDb, mode: SerialMode, inbound: Uint32, now: int, today: nat, prev: Uint32): Choice
  {
    if db.forceSerial then
      if UtilSerialGt(db.altSerial, prev) then Chosen(db.altSerial, [])
      else Chosen(Succ(prev), [LogLine("warning", ForceWarning)])
    else
      match mode
      case Unixtime => ClockChoice(db, UnixtimeCandidate(now), prev, UnixtimeWarning)
      case Datecounter => ClockChoice(db, DatecounterCandidate(today), prev, DatecounterWarning)
      case Counter =>
        if UtilSerialGt(Succ(inbound), prev) then Chosen(Succ(inbound), [])
        else if db.haveSerial then Chosen(Succ(prev), [])
        else Conflict
      case Keep =>
        if UtilSerialGt(inbound, db.outSerial) then Chosen(inbound, [])
        else Conflict
  }

  /** Step 4: the unsigned step from `prev` to the candidate, clamped to
      `MaxDelta`. */
  function Delta(candidate: Uint32, prev: Uint32): Uint32
  {
    var d := ToUint32(candidate - prev);
    if d > MaxDelta then MaxDelta else d
  }

  /** namedb_update_serial as a pure function: on a conflict the database is
      untouched and the error is logged; otherwise only `intserial` (the new
      serial) and `force_serial` (cleared) change. */
  function NextSerial(db: NameDb, mode: SerialMode, inbound: Uint32, now: int, today: nat): (r: Update)
    ensures r.status == ConflictErr ==> r.db == db && r.logs == [LogLine("error", KeepConflictMessage)]
    ensures r.status == StatusOk ==> r.db == db.(intSerial := r.db.intSerial, forceSerial := false)
    ensures r.status == StatusOk ==> |r.logs| <= 1 && forall l | l in r.logs :: l.level == "warning"
  {
    var prev := Prev(db, mode, inbound);
    match Choose(db, mode, inbound, now, today, prev)
    case Conflict => Update(ConflictErr, db, [LogLine("error", KeepConflictMessage)])
    case Chosen(candidate, warnings) =>
      var serial := if db.haveSerial then ToUint32(prev + Delta(candidate, prev)) else candidate;
      Update(StatusOk, db.(intSerial := serial, forceSerial := false), warnings)
  }

  /** Every candidate follows `prev` in serial order. */
  lemma ChoiceFollowsPrev(db: NameDb, mode: SerialMode, inbound: Uint32, now: int, today: nat, prev: Uint32)
    requires prev == Prev(db, mode, inbound)
    ensures Choose(db, mode, inbound, now, today, prev).Chosen? ==>
      UtilSerialGt(Choose(db, mode, inbound, now, today, prev).candidate, prev)
  {
    IncrementIsGreater(prev, 1);
  }

  /** Adding the unsigned step to `prev` lands on the candidate whenever the
      candidate follows `prev`: the clamp never fires. */
  lemma DeltaReachesCandidate(candidate: Uint32, prev: Uint32)
    requires UtilSerialGt(candidate, prev)
    ensures 0 < Delta(candidate, prev) <= MaxDelta
    ensures ToUint32(prev + Delta(candidate, prev)) == candidate
  {
    UtilSerialGtWindow(candidate, prev);
    if candidate >= prev {
      assert ToUint32(candidate - prev) == candidate - prev;
    } else {
      assert ToUint32(candidate - prev) == candidate - prev + TwoPow32;
      assert prev + Delta(candidate, prev) == candidate + TwoPow32;
    }
  }

  /** The committed serial is the candidate, with or without a previous
      serial, and it follows `prev` both by util_serial_gt and by the RFC 1982
      reference comparison. */
  lemma CommitsCandidate(db: NameDb, mode: SerialMode, inbound: Uint32, now: int, today: nat)
    ensures var prev := Prev(db, mode, inbound);
            var c := Choose(db, mode, inbound, now, today, prev);
            var r := NextSerial(db, mode, inbound, now, today);
            (r.status == StatusOk <==> c.Chosen?) &&
            (c.Chosen? ==> r.db.intSerial == c.candidate && r.logs == c.warnings &&
                           UtilSerialGt(r.db.intSerial, prev) &&
                           Rfc1982Gt(r.db.intSerial, prev) == Some(true))
  {
    var prev := Prev(db, mode, inbound);
    var c := Choose(db, mode, inbound, now, today, prev);
    ChoiceFollowsPrev(db, mode, inbound, now, today, prev);
    if c.Chosen? {
      CandidateCommits(c.candidate, prev);
    }
  }

  /** A candidate that follows `prev` is what `prev` plus the step gives,
      and the RFC 1982 reference comparison agrees that it follows. */
  lemma CandidateCommits(candidate: Uint32, prev: Uint32)
    requires UtilSerialGt(candidate, prev)
    ensures ToUint32(prev + Delta(candidate, prev)) == candidate
    ensures Rfc1982Gt(candidate, prev) == Some(true)
  {
    DeltaReachesCandidate(candidate, prev);
    if HalfRangeApart(candidate, prev) {
      UtilSerialGtHalfRange(candidate, prev);
    }
    UtilSerialGtAgreesWithReference(candidate, prev);
  }

  /** The update fails exactly in `keep` mode without a forced serial when
      the inbound serial does not follow the outbound one; in particular the
      `counter` mode never fails. */
  lemma ConflictExactly(db: NameDb, mode: SerialMode, inbound: Uint32, now: int, today: nat)
    ensures NextSerial(db, mode, inbound, now, today).status == ConflictErr <==>
            mode == Keep && !db.forceSerial && !UtilSerialGt(inbound, db.outSerial)
  {
    var prev := Prev(db, mode, inbound);
    CommitsCandidate(db, mode, inbound, now, today);
    if mode == Counter && !db.forceSerial && !db.haveSerial {
      assert prev == inbound;
      IncrementIsGreater(inbound, 1);
    }
  }

  /** `keep` mode publishes the inbound serial unchanged whenever it follows
      the outbound serial. */
  lemma KeepKeepsInbound(db: NameDb, inbound: Uint32, now: int, today: nat)
    requires !db.forceSerial && UtilSerialGt(inbound, db.outSerial)
    ensures var r := NextSerial(db, Keep, inbound, now, today);
            r.status == StatusOk && r.db.intSerial == inbound && r.logs == []
  {
    CommitsCandidate(db, Keep, inbound, now, today);
  }

  /** A forced serial overrides the mode: the operator's `altserial` is
      used when it follows `prev`, otherwise `prev + 1` with the "unable to
      enforce serial" warning; the force flag is cleared either way. */
  lemma ForcedSerial(db: NameDb, mode: SerialMode, inbound: Uint32, now: int, today: nat)
    requires db.forceSerial
    ensures var prev := Prev(db, mode, inbound);
            var r := NextSerial(db, mode, inbound, now, today);
            r.status == StatusOk && !r.db.forceSerial &&
            (UtilSerialGt(db.altSerial, prev) ==> r.db.intSerial == db.altSerial && r.logs == []) &&
            (!UtilSerialGt(db.altSerial, prev) ==>
               r.db.intSerial == Succ(prev) && r.logs == [LogLine("warning", ForceWarning)])
  {
    CommitsCandidate(db, mode, inbound, now, today);
  }

  /** The clock-driven modes take the clock's serial when it follows `prev`
      and fall back to `prev + 1` otherwise; the fallback warns only on a
      zone's first serial. */
  lemma ClockModes(db: NameDb, mode: SerialMode, inbound: Uint32, now: int, today: nat)
    requires !db.forceSerial && (mode == Unixtime || mode == Datecounter)
    ensures var prev := Prev(db, mode, inbound);
            var clock := if mode == Unixtime then UnixtimeCandidate(now) else DatecounterCandidate(today);
            var warning := if mode == Unixtime then UnixtimeWarning else DatecounterWarning;
            var r := NextSerial(db, mode, inbound, now, today);
            r.status == StatusOk &&
            (UtilSerialGt(clock, prev) ==> r.db.intSerial == clock && r.logs == []) &&
            (!UtilSerialGt(clock, prev) ==>
               r.db.intSerial == Succ(prev) &&
               r.logs == (if db.haveSerial then [] else [LogLine("warning", warning)]))
  {
    CommitsCandidate(db, mode, inbound, now, today);
  }

  /** The database the unit tests start from: zeroed, with `have_serial`
      set. */
  const SeenDb: NameDb := NameDb(true, 0, 0, 0, 0, false)

  /** The `counter` and `keep` unit tests. */
  lemma CounterAndKeepScenarios()
    ensures NextSerial(SeenDb, Counter, 0, 0, 0) == Update(StatusOk, SeenDb.(intSerial := 1), [])
    ensures NextSerial(SeenDb, Keep, 1, 0, 0) == Update(StatusOk, SeenDb.(intSerial := 1), [])
    ensures NextSerial(SeenDb, Keep, 0, 0, 0) == Update(ConflictErr, SeenDb, [LogLine("error", KeepConflictMessage)])
  {
    CommitsCandidate(SeenDb, Counter, 0, 0, 0);
    CommitsCandidate(SeenDb, Keep, 1, 0, 0);
    ConflictExactly(SeenDb, Keep, 0, 0, 0);
  }

  /** The `unixtime` unit tests, with the clock at 1234: an inbound serial
      ahead of the clock or equal to it is bumped by one, one behind it gives
      the clock's value. */
  lemma UnixtimeScenarios()
    ensures NextSerial(SeenDb, Unixtime, 1235, 1234, 0).db.intSerial == 1236
    ensures NextSerial(SeenDb, Unixtime, 1234, 1234, 0).db.intSerial == 1235
    ensures NextSerial(SeenDb, Unixtime, 1233, 1234, 0).db.intSerial == 1234
  {
    ClockModes(SeenDb, Unixtime, 1235, 1234, 0);
    ClockModes(SeenDb, Unixtime, 1234, 1234, 0);
    ClockModes(SeenDb, Unixtime, 1233, 1234, 0);
  }

  /** The end-to-end fallback tests on a fresh zone with inbound serial 2: a
      clock behind the inbound serial warns, a forced serial of 4 is taken
      silently, a forced serial of 1 warns. */
  lemma FreshZoneFallbackScenarios()
    ensures NextSerial(FreshDb, Unixtime, 2, 1, 0).logs == [LogLine("warning", UnixtimeWarning)]
    ensures var r := NextSerial(FreshDb.(altSerial := 4, forceSerial := true), Unixtime, 2, 3, 0);
            r.status == StatusOk && r.db.intSerial == 4 && r.logs == []
    ensures NextSerial(FreshDb.(altSerial := 1, forceSerial := true), Unixtime, 2, 3, 0).logs ==
            [LogLine("warning", ForceWarning)]
  {
    ClockModes(FreshDb, Unixtime, 2, 1, 0);
    ForcedSerial(FreshDb.(altSerial := 4, forceSerial := true), Unixtime, 2, 3, 0);
    ForcedSerial(FreshDb.(altSerial := 1, forceSerial := true), Unixtime, 2, 3, 0);
  }

  /** A zone's `namedb_type`, whose serial fields namedb_update_serial
      updates in place. */
  class ZoneDb {
    var haveSerial: bool
    var inbSerial: Uint32
    var intSerial: Uint32
    var outSerial: Uint32
    var altSerial: Uint32
    var forceSerial: bool

    /** The fields as a value. */
    function State(): NameDb
      reads this
    {
      NameDb(haveSerial, inbSerial, intSerial, outSerial, altSerial, forceSerial)
    }

    constructor (db: NameDb)
      ensures State() == db
    {
      haveSerial := db.haveSerial;
      inbSerial := db.inbSerial;
      intSerial := db.intSerial;
      outSerial := db.outSerial;
      altSerial := db.altSerial;
      forceSerial := db.forceSerial;
    }

    /** namedb_update_serial: the five steps on the fields, committing
        only on success. */
    method UpdateSerial(mode: SerialMode, inbound: Uint32, now: int, today: nat)
        returns (status: Status, logs: seq<LogLine>)
      modifies this
      ensures var r := NextSerial(old(State()), mode, inbound, now, today);
              status == r.status && logs == r.logs && State() == r.db
    {
      ghost var db := State();
      ghost var r := NextSerial(db, mode, inbound, now, today);
      var prev := Prev(State(), mode, inbound);
      var choice := Choose(State(), mode, inbound, now, today, prev);
      assert prev == Prev(db, mode, inbound) && choice == Choose(db, mode, inbound, now, today, prev);
      if choice.Conflict? {
        assert r == Update(ConflictErr, db, [LogLine("error", KeepConflictMessage)]);
        return ConflictErr, [LogLine("error", KeepConflictMessage)];
      }
      var delta := ToUint32(choice.candidate - prev);
      if delta > MaxDelta {
        delta := MaxDelta;
      }
      assert delta == Delta(choice.candidate, prev);
      if haveSerial {
        intSerial := ToUint32(prev + delta);
      } else {
        intSerial := choice.candidate;
      }
      forceSerial := false;
      assert r == Update(StatusOk, db.(intSerial := intSerial, forceSerial := false), choice.warnings);
      return StatusOk, choice.warnings;
    }
  }
}
