/** Command-line helpers of the two cmocka test mains: `get_cmdlinearg`, the
    `is_cmdlineflag_set` macro, and `register_test`, by which each test
    appends itself to the table the main runs. Both mains carry the same
    `get_cmdlinearg`; it is modelled once. A NULL `char*` is None. */
module Cmdline {
  import opened Wrappers
  import opened CString

  /** `strncmp(a, b, n) == 0` on NUL-free strings: the first `n` characters
      agree, where the end of a string reads as its terminating NUL. */
  function StrNCmpSame(a: string, b: string, n: nat): bool
    decreases n
  {
    if n == 0 then true
    else if |a| == 0 || |b| == 0 then |a| == |b|
    else a[0] == b[0] && StrNCmpSame(a[1..], b[1..], n - 1)
  }

  /** When `a` has at least `n` characters, strncmp over `n` finds them equal
      exactly when they are the first `n` characters of `b`. */
  lemma {:induction false} StrNCmpSamePrefix(a: string, b: string, n: nat)
    requires n <= |a|
    ensures StrNCmpSame(a, b, n) <==> n <= |b| && a[..n] == b[..n]
    decreases n
  {
    if n > 0 && |b| > 0 {
      StrNCmpSamePrefix(a[1..], b[1..], n - 1);
      if n <= |b| {
        assert a[..n] == [a[0]] + a[1..][..n - 1];
        assert b[..n] == [b[0]] + b[1..][..n - 1];
      }
    }
  }

  /** Whether `entry` answers the lookup of `needle`: in value mode an
      entry with a `=` whose text before the first `=` strncmp-matches the
      needle over that length; in flag mode an entry equal to the needle. */
  predicate EntryMatches(entry: string, needle: string, wantValue: bool)
  {
    if wantValue then StrChr(entry, '=').Some? && StrNCmpSame(entry, needle, StrChr(entry, '=').value)
    else entry == needle
  }

  /** What a matching entry yields: the text after its first `=` in value
      mode, the needle itself in flag mode. */
  function EntryAnswer(entry: string, needle: string, wantValue: bool): string
  {
    if wantValue && StrChr(entry, '=').Some? then entry[StrChr(entry, '=').value + 1..] else needle
  }

  /** The index of the first entry of `haystack` that matches. */
  function FirstMatch(haystack: seq<string>, needle: string, wantValue: bool): (r: Option<nat>)
    ensures r.Some? ==> r.value < |haystack| && EntryMatches(haystack[r.value], needle, wantValue)
    ensures forall i :: 0 <= i < |haystack| && (r.None? || i < r.value) ==> !EntryMatches(haystack[i], needle, wantValue)
  {
    if |haystack| == 0 then None
    else if EntryMatches(haystack[0], needle, wantValue) then Some(0)
    else match FirstMatch(haystack[1..], needle, wantValue)
      case None => None
      case Some(i) => Some(i + 1)
  }

  /** get_cmdlinearg: the answer of the first matching entry of `haystack`
      (argv, program name included), or `defValue` when none matches. */
  method GetCmdlineArg(haystack: seq<string>, needle: string, wantValue: bool, defValue: Option<string>)
      returns (r: Option<string>)
    ensures FirstMatch(haystack, needle, wantValue).None? ==> r == defValue
    ensures FirstMatch(haystack, needle, wantValue).Some? ==>
      r == Some(EntryAnswer(haystack[FirstMatch(haystack, needle, wantValue).value], needle, wantValue))
  {
    var i := 0;
    while i < |haystack|
      invariant 0 <= i <= |haystack|
      invariant forall j :: 0 <= j < i ==> !EntryMatches(haystack[j], needle, wantValue)
    {
      if wantValue {
        var equalsPtr := StrChr(haystack[i], '=');
        if equalsPtr.Some? {
          var equalsIdx := equalsPtr.value;
          if StrNCmpSame(haystack[i], needle, equalsIdx) {
            FirstMatchAt(haystack, needle, wantValue, i);
            return Some(haystack[i][equalsIdx + 1..]);
          }
        }
      } else if haystack[i] == needle {
        FirstMatchAt(haystack, needle, wantValue, i);
        return Some(needle);
      }
      i := i + 1;
    }
    return defValue;
  }

  /** An entry that matches after a run of entries that do not is the
      first match. */
  lemma FirstMatchAt(haystack: seq<string>, needle: string, wantValue: bool, i: nat)
    requires i < |haystack| && EntryMatches(haystack[i], needle, wantValue)
    requires forall j :: 0 <= j < i ==> !EntryMatches(haystack[j], needle, wantValue)
    ensures FirstMatch(haystack, needle, wantValue) == Some(i)
  {
    var r := FirstMatch(haystack, needle, wantValue);
    assert r.Some?;
    assert !(r.value < i) && !(i < r.value);
  }

  /** In value mode an entry matches exactly when it has a `=` and its key
      (the text before the first `=`) is a prefix of the needle: the exact
      key, but also a shorter one such as `--lo` for `--log`, or the empty
      key of `=x`. */
  lemma ValueEntryMatchesKeyPrefix(entry: string, needle: string)
    ensures EntryMatches(entry, needle, true) <==>
      StrChr(entry, '=').Some? &&
      StrChr(entry, '=').value <= |needle| && entry[..StrChr(entry, '=').value] == needle[..StrChr(entry, '=').value]
  {
    if StrChr(entry, '=').Some? {
      StrNCmpSamePrefix(entry, needle, StrChr(entry, '=').value);
    }
  }

  /** An entry `key=value` whose key holds no `=` matches the needle `key`
      and yields `value`. */
  lemma KeyValueEntry(key: string, value: string)
    requires '=' !in key
    ensures EntryMatches(key + "=" + value, key, true)
    ensures EntryAnswer(key + "=" + value, key, true) == value
  {
    var entry := key + "=" + value;
    assert entry[|key|] == '=';
    assert forall j :: 0 <= j < |key| ==> entry[j] == key[j];
    var eq := StrChr(entry, '=');
    assert eq == Some(|key|) by {
      assert eq.Some?;
      assert !(eq.value < |key|);
    }
    assert entry[..|key|] == key[..|key|];
    ValueEntryMatchesKeyPrefix(entry, key);
    assert entry[|key| + 1..] == value;
  }

  /** The loose key comparison in action: `--lo=x` and `=x` both answer a
      lookup of `--log`, and entries without `=` are passed over. */
  lemma ValueLookupQuirks()
    ensures FirstMatch(["prog", "--lo=x"], "--log", true) == Some(1)
    ensures EntryAnswer("--lo=x", "--log", true) == "x"
    ensures FirstMatch(["=x"], "--log", true) == Some(0) && EntryAnswer("=x", "--log", true) == "x"
    ensures FirstMatch(["--log"], "--log", true).None?
  {
    var e1 := "--lo=x";
    assert e1[0] == '-' && e1[1] == '-' && e1[2] == 'l' && e1[3] == 'o' && e1[4] == '=';
    assert StrChr(e1, '=') == Some(4);
    assert e1[..4] == "--log"[..4];
    ValueEntryMatchesKeyPrefix(e1, "--log");
    var prog := "prog";
    assert StrChr(prog, '=').None?;
    FirstMatchAt(["prog", "--lo=x"], "--log", true, 1);
    var e2 := "=x";
    assert StrChr(e2, '=') == Some(0);
    assert e2[1..] == "x";
    var flag := "--log";
    assert StrChr(flag, '=').None?;
  }

  /** In flag mode with no default the lookup answers exactly when the
      needle is one of the entries, and then answers with the needle. */
  lemma FlagLookupIffPresent(haystack: seq<string>, needle: string)
    ensures FirstMatch(haystack, needle, false).Some? <==> needle in haystack
    ensures FirstMatch(haystack, needle, false).Some? ==>
      EntryAnswer(haystack[FirstMatch(haystack, needle, false).value], needle, false) == needle
  {
    if needle in haystack {
      var i :| 0 <= i < |haystack| && haystack[i] == needle;
      assert EntryMatches(haystack[i], needle, false);
    }
  }

  /** The is_cmdlineflag_set macro: a flag lookup of the long and then of the
      short spelling; set exactly when either spelling is an entry. */
  method IsCmdlineFlagSet(haystack: seq<string>, longNeedle: string, shortNeedle: string) returns (isSet: bool)
    ensures isSet <==> longNeedle in haystack || shortNeedle in haystack
  {
    FlagLookupIffPresent(haystack, longNeedle);
    FlagLookupIffPresent(haystack, shortNeedle);
    var longHit := GetCmdlineArg(haystack, longNeedle, false, None);
    var shortHit := GetCmdlineArg(haystack, shortNeedle, false, None);
    isSet := longHit.Some? || shortHit.Some?;
  }

  /** A cmocka unit test entry: its name and the names of its setup and
      teardown functions (empty when it has none). */
  datatype UnitTest = UnitTest(name: string, setup: string, teardown: string)

  /** The table of tests the framework main runs, grown by register_test. */
  class TestRegistry {
    var tests: seq<UnitTest>
    var numTests: nat

    predicate Valid()
      reads this
    {
      numTests == |tests|
    }

    /** The static initial state: no tests. */
    constructor ()
      ensures Valid() && tests == []
    {
      tests := [];
      numTests := 0;
    }

    /** register_test: one more slot, holding a copy of `test`; the earlier
        entries stay as they were. */
    method RegisterTest(test: UnitTest)
      requires Valid()
      modifies this
      ensures Valid()
      ensures numTests == old(numTests) + 1
      ensures tests == old(tests) + [test]
    {
      numTests := numTests + 1;
      tests := tests + [test];
    }
  }
}
