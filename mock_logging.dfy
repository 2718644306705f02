/** The logging mocks of the cmocka harness (both copies of
    mock_logging.c): a log filter holding the enabled level names, chosen
    from an ordered list of levels; the run/skip test filter; the level
    mapping of the ODS 2.2 logger callback; and the `check_contains`
    expectation checker. The two copies agree on everything modelled here
    and are modelled once; only the framework copy has the logger callback. */
module MockLogging {
  import opened Wrappers
  import opened CString

  const DefaultLogLevel: string := "warning"
  /** The ordered level list, written in two parts at the default level. */
  const LogLevelsLowToHigh: string := "mock,deeebug,debug,verbose,info," + "warning,error,crit,fatal"
  /** The filter before any level is set. */
  const InitialLogFilter: string := "all"

  /** The level names of `LogLevelsLowToHigh`, lowest first. */
  const Levels: seq<string> := LowLevels + HighLevels
  const LowLevels: seq<string> := ["mock", "deeebug", "debug", "verbose", "info"]
  const HighLevels: seq<string> := ["warning", "error", "crit", "fatal"]

  /** get_ge_log_levels: the whole list for `all`, otherwise the tail of the
      list from the first occurrence of `level`, or empty when it does not
      occur. */
  function GetGeLogLevels(level: string): (r: string)
    ensures level == "all" ==> r == LogLevelsLowToHigh
    ensures level != "all" && !IsSubstring(level, LogLevelsLowToHigh) ==> r == []
    ensures level != "all" && IsSubstring(level, LogLevelsLowToHigh) ==>
      exists i :: 0 <= i <= |LogLevelsLowToHigh| && r == LogLevelsLowToHigh[i..] && OccursAt(LogLevelsLowToHigh, level, i) &&
        forall j :: 0 <= j < i ==> !OccursAt(LogLevelsLowToHigh, level, j)
  {
    if level == "all" then LogLevelsLowToHigh
    else match StrStr(LogLevelsLowToHigh, level)
      case Some(i) => LogLevelsLowToHigh[i..]
      case None => []
  }

  /** `names` one after another, separated by commas. */
  function Joined(names: seq<string>): string
    requires |names| > 0
  {
    if |names| == 1 then names[0] else names[0] + "," + Joined(names[1..])
  }

  /** The index at which `names[p]` starts in Joined(names). */
  function JoinedOffset(names: seq<string>, p: nat): (r: nat)
    requires p < |names|
    ensures p > 0 ==> r > |names[0]|
  {
    if p == 0 then 0 else |names[0]| + 1 + JoinedOffset(names[1..], p - 1)
  }

  /** LOG_LEVELS_LOW_TO_HIGH is the level names, lowest first, joined by
      commas. */
  lemma LevelsJoined()
    ensures LogLevelsLowToHigh == Joined(Levels)
  {
    JoinedSplit(Levels, |LowLevels|);
    assert Levels[..|LowLevels|] == LowLevels && Levels[|LowLevels|..] == HighLevels;
    LowLevelsJoined();
    HighLevelsJoined();
  }

  /** No level name is empty, holds a comma or is `all`. */
  lemma LevelsPlain()
    ensures forall q :: 0 <= q < |Levels| ==> |Levels[q]| > 0 && ',' !in Levels[q] && Levels[q] != "all"
  {
  }

  /** No level name occurs inside another, nor anywhere but at the start of
      its own. */
  lemma LevelsDistinct()
    ensures forall j: nat, p: nat, o: nat :: j < |Levels| && p < |Levels| && OccursAt(Levels[p], Levels[j], o) ==> p == j && o == 0
  {
    forall j: nat, p: nat, o: nat | j < |Levels| && p < |Levels| && OccursAt(Levels[p], Levels[j], o)
      ensures p == j && o == 0
    {
      LevelInLevel(j, p, o);
    }
  }

  lemma LowLevelsJoined()
    ensures Joined(LowLevels) == "mock,deeebug,debug,verbose,info"
  {
  }

  lemma HighLevelsJoined()
    ensures Joined(HighLevels) == "warning,error,crit,fatal"
  {
  }

  /** Joined(names) cut after its `k`-th name. */
  lemma {:induction false} JoinedSplit(names: seq<string>, k: nat)
    requires 0 < k < |names|
    ensures Joined(names) == Joined(names[..k]) + "," + Joined(names[k..])
  {
    var a := names[0];
    if k == 1 {
      assert names[..1] == [a];
    } else {
      var rest := names[1..];
      JoinedSplit(rest, k - 1);
      assert rest[..k - 1] == names[..k][1..] && rest[k - 1..] == names[k..];
      var x, y := Joined(names[..k][1..]), Joined(names[k..]);
      assert Joined(names) == a + "," + (x + "," + y);
      assert Joined(names[..k]) == a + "," + x;
      assert a + "," + (x + "," + y) == (a + "," + x) + "," + y;
    }
  }

  /** `names[p]` occurs in Joined(names) at JoinedOffset(names, p). */
  lemma {:induction false} JoinedAt(names: seq<string>, p: nat)
    requires p < |names|
    ensures OccursAt(Joined(names), names[p], JoinedOffset(names, p))
  {
    var j := Joined(names);
    if p == 0 {
      if |names| > 1 {
        assert j[..|names[0]|] == names[0];
      }
    } else {
      var rest := names[1..];
      JoinedAt(rest, p - 1);
      var k := JoinedOffset(rest, p - 1);
      var a := names[0];
      assert j == (a + ",") + Joined(rest);
      assert j[|a| + 1 + k..|a| + 1 + k + |names[p]|] == Joined(rest)[k..k + |names[p]|];
    }
  }

  /** A text without commas that occurs in Joined(names) occurs inside one
      of the names. */
  lemma {:induction false} JoinedOccurrence(names: seq<string>, n: string, i: nat) returns (p: nat, o: nat)
    requires |names| > 0 && |n| > 0 && ',' !in n && OccursAt(Joined(names), n, i)
    ensures p < |names| && i == JoinedOffset(names, p) + o && OccursAt(names[p], n, o)
  {
    if |names| == 1 {
      p, o := 0, i;
    } else {
      var a, rest := names[0], names[1..];
      var j := Joined(names);
      assert j == (a + ",") + Joined(rest);
      if i + |n| <= |a| {
        assert a[i..i + |n|] == j[i..i + |n|];
        p, o := 0, i;
      } else if i <= |a| {
        OccursAtChar(j, n, i, |a|);
        assert false;
      } else {
        assert Joined(rest)[i - |a| - 1..i - |a| - 1 + |n|] == j[i..i + |n|];
        p, o := JoinedOccurrence(rest, n, i - |a| - 1);
        p := p + 1;
      }
    }
  }

  /** Later names start later. */
  lemma {:induction false} JoinedOffsetIncreasing(names: seq<string>, p: nat, q: nat)
    requires p < q < |names|
    ensures JoinedOffset(names, p) < JoinedOffset(names, q)
  {
    if p > 0 {
      JoinedOffsetIncreasing(names[1..], p - 1, q - 1);
    }
  }

  /** Names that are not empty, hold no comma, and occur inside no other
      name nor anywhere in their own but at the start. */
  ghost predicate SeparateNames(names: seq<string>)
  {
    (forall q :: 0 <= q < |names| ==> |names[q]| > 0 && ',' !in names[q]) &&
    forall j: nat, p: nat, o: nat :: j < |names| && p < |names| && OccursAt(names[p], names[j], o) ==> p == j && o == 0
  }

  /** An occurrence in a suffix is an occurrence in the whole text. */
  lemma SuffixOccurrence(hay: string, n: string, s: nat, i: nat)
    requires s <= |hay| && OccursAt(hay[s..], n, i)
    ensures OccursAt(hay, n, s + i)
  {
    assert hay[s + i..s + i + |n|] == hay[s..][i..i + |n|];
  }

  /** Names without commas, none inside another: each occurs in
      Joined(names) only at its own place. */
  lemma JoinedOccursOnce(names: seq<string>, j: nat, i: nat)
    requires j < |names|
    requires SeparateNames(names)
    ensures OccursAt(Joined(names), names[j], i) <==> i == JoinedOffset(names, j)
  {
    JoinedAt(names, j);
    if OccursAt(Joined(names), names[j], i) {
      var p, o := JoinedOccurrence(names, names[j], i);
    }
  }

  /** Over such names, strstr finds the `k`-th name at its place. */
  lemma JoinedFind(names: seq<string>, k: nat)
    requires k < |names|
    requires SeparateNames(names)
    ensures JoinedOffset(names, k) <= |Joined(names)|
    ensures StrStr(Joined(names), names[k]) == Some(JoinedOffset(names, k))
  {
    JoinedOccursOnce(names, k, JoinedOffset(names, k));
    var r := StrStr(Joined(names), names[k]);
    JoinedOccursOnce(names, k, r.value);
  }

  /** Over such names, the list from the `k`-th name on holds the `k`-th
      and every later name. */
  lemma JoinedFilterIncludes(names: seq<string>, k: nat, j: nat)
    requires k <= j < |names|
    requires SeparateNames(names)
    requires JoinedOffset(names, k) <= |Joined(names)|
    ensures Enabled(Joined(names)[JoinedOffset(names, k)..], names[j])
  {
    var l, offK, offJ := Joined(names), JoinedOffset(names, k), JoinedOffset(names, j);
    var f, n := l[offK..], names[j];
    if k < j {
      JoinedOffsetIncreasing(names, k, j);
    }
    JoinedOccursOnce(names, j, offJ);
    assert f[offJ - offK..offJ - offK + |n|] == l[offJ..offJ + |n|];
    assert OccursAt(f, n, offJ - offK);
  }

  /** Over such names, the list from the `k`-th name on holds no earlier
      name. */
  lemma JoinedFilterExcludes(names: seq<string>, k: nat, j: nat)
    requires j < k < |names|
    requires SeparateNames(names)
    requires JoinedOffset(names, k) <= |Joined(names)|
    ensures !Enabled(Joined(names)[JoinedOffset(names, k)..], names[j])
  {
    var l, offK := Joined(names), JoinedOffset(names, k);
    var f, n := l[offK..], names[j];
    JoinedOffsetIncreasing(names, j, k);
    if Enabled(f, n) {
      var i := StrStr(f, n).value;
      SuffixOccurrence(l, n, offK, i);
      JoinedOccursOnce(names, j, offK + i);
    }
  }

  /** A character inside an occurrence is the needle's. */
  lemma OccursAtChar(hay: string, n: string, i: nat, k: nat)
    requires OccursAt(hay, n, i) && i <= k < i + |n|
    ensures n[k - i] == hay[k]
  {
    assert n[k - i] == hay[i..i + |n|][k - i];
  }

  /** No level name occurs inside another, nor anywhere but at the start of
      its own. */
  lemma LevelInLevel(j: nat, p: nat, o: nat)
    requires j < |Levels| && p < |Levels| && OccursAt(Levels[p], Levels[j], o)
    ensures p == j && o == 0
  {
    var n, s := Levels[j], Levels[p];
    assert s[o] == n[0] && s[o + 1] == n[1] && s[o + 2] == n[2];
  }

  /** The filter a level selects enables exactly that level and the levels
      above it. */
  lemma LevelFilterOrder(k: nat, j: nat)
    requires k < |Levels| && j < |Levels|
    ensures Enabled(GetGeLogLevels(Levels[k]), Levels[j]) <==> k <= j
  {
    LevelsJoined();
    LevelsPlain();
    LevelsDistinct();
    assert SeparateNames(Levels);
    JoinedFind(Levels, k);
    if k <= j {
      JoinedFilterIncludes(Levels, k, j);
    } else {
      JoinedFilterExcludes(Levels, k, j);
    }
  }

  /** log_level_enabled against a given filter: `level` occurs somewhere in
      the filter. */
  predicate Enabled(filter: string, level: string): (r: bool)
    ensures r <==> IsSubstring(level, filter)
  {
    StrStr(filter, level).Some?
  }

  /** strstr finds `needle` at `i` when it occurs there and its first
      character occurs nowhere before. */
  lemma FirstOccurrence(hay: string, needle: string, i: nat)
    requires |needle| > 0 && i <= |hay| && |needle| <= |hay[i..]| && hay[i..][..|needle|] == needle
    requires needle[0] !in hay[..i]
    ensures StrStr(hay, needle) == Some(i)
  {
    assert hay[i..i + |needle|] == hay[i..][..|needle|];
    assert forall j :: 0 <= j < i ==> hay[j] == hay[..i][j];
    assert OccursAt(hay, needle, i);
  }

  /** A level whose first letter is nowhere in the filter is not enabled. */
  lemma NotInFilter(filter: string, level: string)
    requires |level| > 0 && level[0] !in filter
    ensures !Enabled(filter, level)
  {
  }

  /** A level found at `i` of the filter is enabled. */
  lemma InFilter(filter: string, level: string, i: nat)
    requires i <= |filter| && |level| <= |filter[i..]| && filter[i..][..|level|] == level
    ensures Enabled(filter, level)
  {
    assert filter[i..i + |level|] == filter[i..][..|level|];
    assert OccursAt(filter, level, i);
  }

  /** The default level selects itself and the levels after it:
      `warning,error,crit,fatal`. */
  lemma DefaultGeLogLevels()
    ensures GetGeLogLevels(DefaultLogLevel) == "warning,error,crit,fatal"
  {
    var l := LogLevelsLowToHigh;
    var below, suffix := "mock,deeebug,debug,verbose,info,", "warning,error,crit,fatal";
    assert |below| == 32 && l[..32] == below && l[32..] == suffix;
    assert 'w' !in below;
    assert suffix[..7] == "warning";
    FirstOccurrence(l, "warning", 32);
  }

  /** Under the default level the levels below `warning` are disabled. */
  lemma DefaultLevelFilterBelow(f: string)
    requires f == "warning,error,crit,fatal"
    ensures !Enabled(f, "mock") && !Enabled(f, "deeebug") && !Enabled(f, "debug")
    ensures !Enabled(f, "verbose") && !Enabled(f, "info")
  {
    assert 'm' !in f && 'd' !in f && 'v' !in f;
    NotInFilter(f, "mock");
    NotInFilter(f, "deeebug");
    NotInFilter(f, "debug");
    NotInFilter(f, "verbose");
    NotEnabledInfo(f);
  }

  /** Under the default level `warning` and the levels above it are
      enabled. */
  lemma DefaultLevelFilterAbove(f: string)
    requires f == "warning,error,crit,fatal"
    ensures Enabled(f, "warning") && Enabled(f, "error") && Enabled(f, "crit") && Enabled(f, "fatal")
  {
    assert f[0..][..7] == "warning";
    InFilter(f, "warning", 0);
    assert f[8..] == "error,crit,fatal" && f[8..][..5] == "error";
    InFilter(f, "error", 8);
    assert f[14..] == "crit,fatal" && f[14..][..4] == "crit";
    InFilter(f, "crit", 14);
    assert f[19..] == "fatal" && f[19..][..5] == "fatal";
    InFilter(f, "fatal", 19);
  }

  /** `info` is not in the default filter: of its two `i`s, one is followed
      by `ng` and the other by `t`. */
  lemma NotEnabledInfo(f: string)
    requires f == "warning,error,crit,fatal"
    ensures !Enabled(f, "info")
  {
    forall i: nat | i <= |f|
      ensures !OccursAt(f, "info", i)
    {
      InfoNotAt(f, i);
    }
  }

  /** `info` does not start at any one position of the default filter. */
  lemma InfoNotAt(f: string, i: nat)
    requires f == "warning,error,crit,fatal" && i <= |f|
    ensures !OccursAt(f, "info", i)
  {
    if i + 4 <= |f| && f[i] == 'i' {
      LetterIPositions(f, i);
      if i == 4 {
        assert f[i..i + 4][2] == f[6] == 'g';
      } else {
        assert f[i..i + 4][1] == f[17] == 't';
      }
    } else if i + 4 <= |f| {
      assert f[i..i + 4][0] != 'i';
    }
  }

  /** The default filter holds `i` only at indices 4 and 16. */
  lemma LetterIPositions(f: string, i: nat)
    requires f == "warning,error,crit,fatal" && i < |f| && f[i] == 'i'
    ensures i == 4 || i == 16
  {
    var tail := "ng,error,crit,fatal";
    assert f[..4] == "warn" && f[5..] == tail && f[17..] == "t,fatal";
    assert tail[..11] == "ng,error,cr";
    assert 'i' !in f[..4] && 'i' !in tail[..11] && 'i' !in f[17..];
  }

  /** The initial filter `all` is not a level list: before a level is set,
      no named level is enabled. */
  lemma InitialFilterEnablesNoLevel()
    ensures forall k :: 0 <= k < |Levels| ==> !Enabled(InitialLogFilter, Levels[k])
  {
    var a := InitialLogFilter;
    assert 'm' !in a && 'd' !in a && 'v' !in a && 'i' !in a;
    assert 'w' !in a && 'e' !in a && 'c' !in a && 'f' !in a;
    NotInFilter(a, "mock");
    NotInFilter(a, "deeebug");
    NotInFilter(a, "debug");
    NotInFilter(a, "verbose");
    NotInFilter(a, "info");
    NotInFilter(a, "warning");
    NotInFilter(a, "error");
    NotInFilter(a, "crit");
    NotInFilter(a, "fatal");
  }

  /** The levels of the ODS 2.2 logger. */
  datatype LoggerLevel = LoggerFatal | LoggerError | LoggerWarn | LoggerInfo | LoggerDebug | LoggerDiag

  datatype LoggerResult = LoggerCont

  /** The level name mock_logger_proc logs a logger level under. */
  function LevelName(lvl: LoggerLevel): (name: string)
    ensures name in Levels
  {
    match lvl
    case LoggerFatal => "fatal"
    case LoggerError => "error"
    case LoggerWarn => "warning"
    case LoggerInfo => "info"
    case LoggerDebug => "debug"
    case LoggerDiag => "deeebug"
  }

  /** The levels whose messages are checked against expectations. */
  predicate IsChecked(lvl: LoggerLevel)
  {
    lvl == LoggerFatal || lvl == LoggerError || lvl == LoggerWarn
  }

  /** Under the default level, mock_logger_proc prints exactly the messages
      it also checks. */
  lemma DefaultLevelPrintsCheckedLevels(lvl: LoggerLevel)
    ensures Enabled(GetGeLogLevels(DefaultLogLevel), LevelName(lvl)) <==> IsChecked(lvl)
  {
    DefaultGeLogLevels();
    DefaultLevelFilterBelow(GetGeLogLevels(DefaultLogLevel));
    DefaultLevelFilterAbove(GetGeLogLevels(DefaultLogLevel));
  }

  /** check_contains: 1 exactly when the expected fragment occurs in the
      logged format, else 0. */
  function CheckContains(value: string, checkValueData: string): (r: int)
    ensures r == 1 <==> IsSubstring(checkValueData, value)
    ensures r == 0 <==> !IsSubstring(checkValueData, value)
  {
    if StrStr(value, checkValueData).Some? then 1 else 0
  }

  /** The mutable state of the logging mocks: the global `log_filter` and the
      run and skip test filters handed to cmocka. */
  class MockLogger {
    var logFilter: string
    var testFilter: Option<string>
    var skipFilter: Option<string>

    /** The static initial state. */
    constructor ()
      ensures logFilter == InitialLogFilter && testFilter.None? && skipFilter.None?
    {
      logFilter := InitialLogFilter;
      testFilter := None;
      skipFilter := None;
    }

    /** log_level_enabled: `level` occurs in the current filter. */
    predicate LogLevelEnabled(level: string): (r: bool)
      reads this
      ensures r <==> IsSubstring(level, logFilter)
    {
      Enabled(logFilter, level)
    }

    /** set_logging_level: the argument if given, else the environment
        variable TESTING_LOG_LEVEL if set, else `warning`, selects the new
        filter; the test filters are untouched. */
    method SetLoggingLevel(logLevel: Option<string>, envLogLevel: Option<string>)
      modifies this
      ensures logFilter == GetGeLogLevels(if logLevel.Some? then logLevel.value
                                          else if envLogLevel.Some? then envLogLevel.value
                                          else DefaultLogLevel)
      ensures testFilter == old(testFilter) && skipFilter == old(skipFilter)
    {
      var level := if logLevel.Some? then logLevel else envLogLevel;
      level := if level.Some? then level else Some(DefaultLogLevel);
      if level.Some? {
        logFilter := GetGeLogLevels(level.value);
      }
    }

    /** set_filtered_tests: a filter beginning with `-` skips the tests
        matching the rest of it, any other filter runs the tests matching
        it, and no filter changes nothing. */
    method SetFilteredTests(filter: Option<string>)
      modifies this
      ensures filter.None? ==> testFilter == old(testFilter) && skipFilter == old(skipFilter)
      ensures filter.Some? && |filter.value| > 0 && filter.value[0] == '-' ==>
        skipFilter == Some(filter.value[1..]) && testFilter == old(testFilter)
      ensures filter.Some? && !(|filter.value| > 0 && filter.value[0] == '-') ==>
        testFilter == filter && skipFilter == old(skipFilter)
      ensures logFilter == old(logFilter)
    {
      if filter.Some? {
        var dash := StrChr(filter.value, '-');
        if dash == Some(0) {
          skipFilter := Some(filter.value[1..]);
        } else {
          testFilter := filter;
        }
      }
    }

    /** mock_logger_proc: the message is printed when its level name is
        enabled, its format is handed to the expectation check for the
        fatal, error and warning levels only, and the answer is always to
        continue. */
    method MockLoggerProc(lvl: LoggerLevel, format: string)
        returns (result: LoggerResult, printed: bool, checkedFormat: Option<string>)
      ensures result == LoggerCont
      ensures printed <==> LogLevelEnabled(LevelName(lvl))
      ensures checkedFormat.Some? <==> IsChecked(lvl)
      ensures checkedFormat.Some? ==> checkedFormat.value == format
    {
      var name := LevelName(lvl);
      printed := LogLevelEnabled(name);
      checkedFormat := if lvl.LoggerFatal? || lvl.LoggerError? || lvl.LoggerWarn? then Some(format) else None;
      result := LoggerCont;
    }
  }
}
