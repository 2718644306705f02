/** Template substitution of the cmocka framework (strings.c): `with_splits`
    walks a string from delimiter to delimiter, `from_template` uses it
    twice, once to size the result and once to fill a zeroed buffer, with
    each `<placeholder>` replaced by the next string of `replacements`.
    The yield callback of `with_splits` is modelled as the trace of its
    calls, which the two passes then consume in order; the callbacks do not
    influence the scan, so the order of effects is the same. */
module Template {
  import opened Wrappers
  import opened CString

  const Delimiters: set<char> := {'<', '>'}
  const Nul: char := '\0'

  /** No `<` or `>` in `s[from..to]`. */
  predicate PlainBetween(s: string, from: nat, to: nat)
    requires from <= to <= |s|
  {
    forall i :: from <= i < to ==> s[i] !in Delimiters
  }

  /** The number of delimiters in `s[from..]`. */
  function CountDelimiters(s: string, from: nat): nat
    requires from <= |s|
    decreases |s| - from
  {
    if from == |s| then 0
    else (if s[from] in Delimiters then 1 else 0) + CountDelimiters(s, from + 1)
  }

  lemma {:induction false} CountAcrossPlain(s: string, from: nat, to: nat)
    requires from <= to <= |s| && PlainBetween(s, from, to)
    ensures CountDelimiters(s, from) == CountDelimiters(s, to)
    decreases (to as int) - (from as int)
  {
    if from < to {
      CountAcrossPlain(s, from + 1, to);
    }
  }

  /** One call of the yield function: the number of matches before it, the
      start of the fragment it is given, and the matched delimiter (None for
      the final call at the end of the string). */
  datatype YieldCall = YieldCall(n: nat, start: nat, matchAt: Option<nat>)

  /** Where a call's fragment ends: at its delimiter, or at the end. */
  function FragmentEnd(s: string, c: YieldCall): nat
  {
    if c.matchAt.Some? then c.matchAt.value else |s|
  }

  /** The fragment of a call lies in `s`, holds no delimiter, and ends at a
      delimiter or at the end of `s`. */
  predicate ValidCall(s: string, c: YieldCall)
  {
    c.start <= FragmentEnd(s, c) <= |s| &&
    (c.matchAt.Some? ==> c.matchAt.value < |s| && s[c.matchAt.value] in Delimiters) &&
    PlainBetween(s, c.start, FragmentEnd(s, c))
  }

  /** `calls` is what with_splits yields on `s` when the scan starts at
      `origin`: calls numbered 0, 1, 2, ..., the first fragment starting at
      `origin`, each later one just after the previous delimiter, and a last
      call without a delimiter. */
  predicate SplitTrace(s: string, origin: nat, calls: seq<YieldCall>)
  {
    |calls| >= 1 && calls[0].start == origin &&
    (forall k :: 0 <= k < |calls| ==> calls[k].n == k && ValidCall(s, calls[k])) &&
    (forall k :: 0 <= k < |calls| - 1 ==>
       calls[k].matchAt.Some? && calls[k + 1].start == calls[k].matchAt.value + 1) &&
    calls[|calls| - 1].matchAt.None?
  }

  /** with_splits with accept `"<>"`, scanning from `origin`; the source
      scans from `origin == 1` (`start = match_ptr + 1` with `match_ptr`
      first at the string itself). */
  method WithSplits(s: string, origin: nat) returns (calls: seq<YieldCall>)
    requires origin <= |s|
    ensures SplitTrace(s, origin, calls)
    ensures |calls| == CountDelimiters(s, origin) + 1
  {
    var n := 0;
    var start := origin;
    var matchAt := StrPbrk(s, start, Delimiters);
    calls := [];
    while matchAt.Some?
      invariant origin <= start <= |s|
      invariant matchAt == StrPbrk(s, start, Delimiters)
      invariant n == |calls| && ScannedSoFar(s, origin, calls)
      invariant n == 0 ==> start == origin
      invariant n > 0 ==> calls[n - 1].matchAt == Some(start - 1)
      invariant CountDelimiters(s, origin) == n + CountDelimiters(s, start)
      decreases |s| - start
    {
      var m := matchAt.value;
      CountAcrossPlain(s, start, m);
      ScannedCall(s, origin, calls, start, matchAt);
      calls := calls + [YieldCall(n, start, matchAt)];
      n := n + 1;
      start := m + 1;
      matchAt := StrPbrk(s, start, Delimiters);
    }
    CountAcrossPlain(s, start, |s|);
    ScannedCall(s, origin, calls, start, None);
    calls := calls + [YieldCall(n, start, None)];
  }

  /** The calls with_splits has yielded so far, all at a delimiter. */
  predicate ScannedSoFar(s: string, origin: nat, calls: seq<YieldCall>)
  {
    (|calls| > 0 ==> calls[0].start == origin) &&
    (forall k :: 0 <= k < |calls| ==> calls[k].n == k && ValidCall(s, calls[k]) && calls[k].matchAt.Some?) &&
    (forall k :: 0 <= k < |calls| - 1 ==> calls[k + 1].start == calls[k].matchAt.value + 1)
  }

  /** The call yielded for the fragment starting at `start` extends the
      calls so far; a call without a match completes the trace. */
  lemma ScannedCall(s: string, origin: nat, calls: seq<YieldCall>, start: nat, matchAt: Option<nat>)
    requires start <= |s| && matchAt == StrPbrk(s, start, Delimiters)
    requires ScannedSoFar(s, origin, calls)
    requires |calls| == 0 ==> start == origin
    requires |calls| > 0 ==> calls[|calls| - 1].matchAt == Some(start - 1)
    ensures matchAt.Some? ==> ScannedSoFar(s, origin, calls + [YieldCall(|calls|, start, matchAt)])
    ensures matchAt.None? ==> SplitTrace(s, origin, calls + [YieldCall(|calls|, start, matchAt)])
  {
    var c := YieldCall(|calls|, start, matchAt);
    assert ValidCall(s, c);
    var calls' := calls + [c];
    assert forall k :: 0 <= k < |calls| ==> calls'[k] == calls[k];
  }

  /** `prefix` in front of an expansion that did not fail. */
  function Prepend(prefix: string, r: Option<string>): Option<string>
  {
    if r.None? then None else Some(prefix + r.value)
  }

  /** The substitution the template format describes, read character by
      character from index `i`: text outside placeholders is copied, the
      `k`-th `<name>` is replaced by `reps[k]`, and a stray `>`, a nested
      `<`, an unclosed placeholder or a missing replacement gives None. */
  function ExpandFrom(t: string, reps: seq<string>, i: nat, k: nat, inside: bool): Option<string>
    requires i <= |t|
    decreases |t| - i
  {
    if i == |t| then (if inside then None else Some([]))
    else if t[i] == '<' then
      (if inside || k >= |reps| then None else Prepend(reps[k], ExpandFrom(t, reps, i + 1, k + 1, true)))
    else if t[i] == '>' then
      (if inside then ExpandFrom(t, reps, i + 1, k, false) else None)
    else if inside then ExpandFrom(t, reps, i + 1, k, true)
    else Prepend([t[i]], ExpandFrom(t, reps, i + 1, k, false))
  }

  /** The intended result of from_template for the whole template. */
  function Expand(t: string, reps: seq<string>): Option<string>
  {
    ExpandFrom(t, reps, 0, 0, false)
  }

  /** Plain text is copied outside a placeholder and skipped inside one. */
  lemma {:induction false} ExpandAcrossPlain(t: string, reps: seq<string>, i: nat, e: nat, k: nat, inside: bool)
    requires i <= e <= |t| && PlainBetween(t, i, e)
    ensures ExpandFrom(t, reps, i, k, inside) ==
            if inside then ExpandFrom(t, reps, e, k, true) else Prepend(t[i..e], ExpandFrom(t, reps, e, k, false))
    decreases (e as int) - (i as int)
  {
    if i == e {
      assert t[i..e] == [];
      if !inside && ExpandFrom(t, reps, e, k, false).Some? {
        assert [] + ExpandFrom(t, reps, e, k, false).value == ExpandFrom(t, reps, e, k, false).value;
      }
    } else {
      ExpandAcrossPlain(t, reps, i + 1, e, k, inside);
      assert t[i] !in Delimiters;
      if !inside && ExpandFrom(t, reps, e, k, false).Some? {
        var v := ExpandFrom(t, reps, e, k, false).value;
        assert [t[i]] + (t[i + 1..e] + v) == t[i..e] + v;
      }
    }
  }

  /** A template without delimiters expands to itself. */
  lemma ExpandPlainText(t: string, reps: seq<string>)
    requires PlainBetween(t, 0, |t|)
    ensures Expand(t, reps) == Some(t)
  {
    ExpandAcrossPlain(t, reps, 0, |t|, 0, false);
    assert t[0..|t|] + [] == t;
  }

  /** A template with one placeholder expands to the text before it, the
      first replacement and the text after it. */
  lemma ExpandOnePlaceholder(a: string, name: string, b: string, reps: seq<string>)
    requires |reps| >= 1
    requires forall i :: 0 <= i < |a| ==> a[i] !in Delimiters
    requires forall i :: 0 <= i < |name| ==> name[i] !in Delimiters
    requires forall i :: 0 <= i < |b| ==> b[i] !in Delimiters
    ensures Expand(a + ['<'] + name + ['>'] + b, reps) == Some(a + reps[0] + b)
  {
    var t := a + ['<'] + name + ['>'] + b;
    var open, close := |a|, |a| + 1 + |name|;
    assert t[open] == '<' && t[close] == '>';
    PlainSegment(t, 0, a);
    PlainSegment(t, open + 1, name);
    PlainSegment(t, close + 1, b);
    assert t[..open] == a && t[close + 1..] == b;
    calc {
      Expand(t, reps);
    == { ExpandAcrossPlain(t, reps, 0, open, 0, false); }
      Prepend(t[0..open], ExpandFrom(t, reps, open, 0, false));
    ==
      Prepend(a, Prepend(reps[0], ExpandFrom(t, reps, open + 1, 1, true)));
    == { ExpandAcrossPlain(t, reps, open + 1, close, 1, true); }
      Prepend(a, Prepend(reps[0], ExpandFrom(t, reps, close, 1, true)));
    ==
      Prepend(a, Prepend(reps[0], ExpandFrom(t, reps, close + 1, 1, false)));
    == { ExpandAcrossPlain(t, reps, close + 1, |t|, 1, false); }
      Prepend(a, Prepend(reps[0], Some(b + [])));
    }
    assert a + (reps[0] + (b + [])) == a + reps[0] + b;
  }

  /** A delimiter-free `x` found at `off` in `t` is plain text there. */
  lemma PlainSegment(t: string, off: nat, x: string)
    requires off + |x| <= |t| && t[off..off + |x|] == x
    requires forall i :: 0 <= i < |x| ==> x[i] !in Delimiters
    ensures PlainBetween(t, off, off + |x|)
  {
    forall i | off <= i < off + |x| ensures t[i] !in Delimiters {
      assert t[i] == x[i - off];
    }
  }

  /** The state of the expansion when call `c` begins: outside a placeholder
      after an even number of delimiters, inside after an odd one, with
      `(n + 1) / 2` placeholders opened. */
  function ExpandAtCall(t: string, reps: seq<string>, c: YieldCall): Option<string>
    requires c.start <= |t|
  {
    ExpandFrom(t, reps, c.start, (c.n + 1) / 2, c.n % 2 == 1)
  }

  /** One call's fragment, in terms of the expansion after its delimiter. */
  lemma ExpandOverCall(t: string, reps: seq<string>, c: YieldCall)
    requires ValidCall(t, c)
    ensures c.matchAt.None? ==>
      ExpandAtCall(t, reps, c) == if c.n % 2 == 1 then None else Some(t[c.start..])
    ensures c.matchAt.Some? && t[c.matchAt.value] == '<' ==>
      ExpandAtCall(t, reps, c) ==
        if c.n % 2 == 1 || c.n / 2 >= |reps| then None
        else Prepend(t[c.start..c.matchAt.value] + reps[c.n / 2],
                     ExpandAtCall(t, reps, YieldCall(c.n + 1, c.matchAt.value + 1, None)))
    ensures c.matchAt.Some? && t[c.matchAt.value] == '>' ==>
      ExpandAtCall(t, reps, c) ==
        if c.n % 2 == 0 then None
        else ExpandAtCall(t, reps, YieldCall(c.n + 1, c.matchAt.value + 1, None))
  {
    var e := FragmentEnd(t, c);
    var k := (c.n + 1) / 2;
    var inside := c.n % 2 == 1;
    ExpandAcrossPlain(t, reps, c.start, e, k, inside);
    if c.matchAt.None? {
      if !inside {
        assert t[c.start..e] + [] == t[c.start..];
      }
    } else if t[e] == '<' && !inside && k < |reps| {
      var rest := ExpandFrom(t, reps, e + 1, k + 1, true);
      assert (c.n + 1 + 1) / 2 == k + 1;
      if rest.Some? {
        assert t[c.start..e] + (reps[k] + rest.value) == t[c.start..e] + reps[k] + rest.value;
      }
    } else if t[e] == '>' && inside {
      assert (c.n + 1 + 1) / 2 == k;
    }
  }

  /** cb_accumulate_required_size: the bytes needed so far after one call,
      or None where one of its assertions fails (a `<` after an odd number
      of delimiters, a `>` after an even one, or an unclosed placeholder at
      the end). */
  function RequiredSizeStep(t: string, reps: seq<string>, c: YieldCall, acc: nat): (r: Option<nat>)
    requires ValidCall(t, c)
    requires c.matchAt.Some? && t[c.matchAt.value] == '>' && c.n % 2 == 1 ==> c.n / 2 < |reps|
  {
    match c.matchAt
    case None => if c.n % 2 == 0 then Some(acc + (|t| - c.start)) else None
    case Some(m) =>
      if t[m] == '<' then (if c.n % 2 == 0 then Some(acc + (m - c.start)) else None)
      else if c.n % 2 == 1 then Some(acc + |reps[c.n / 2]|)
      else None
  }

  /** Length of an expansion that did not fail. */
  function LengthOf(r: Option<string>): Option<nat>
  {
    if r.None? then None else Some(|r.value|)
  }

  /** The first pass of from_template: the yield calls fold
      cb_accumulate_required_size over `bytes_needed`; the result is the
      length of the expansion, and None exactly when it fails. */
  method RequiredSize(t: string, reps: seq<string>, calls: seq<YieldCall>, ghost origin: nat)
      returns (bytesNeeded: Option<nat>)
    requires origin <= |t| && SplitTrace(t, origin, calls)
    requires |calls| - 1 <= 2 * |reps|
    ensures bytesNeeded == LengthOf(ExpandFrom(t, reps, origin, 0, false))
  {
    ghost var out := ExpandFrom(t, reps, origin, 0, false);
    var acc: nat := 0;
    var k := 0;
    while k < |calls|
      invariant 0 <= k <= |calls|
      invariant k < |calls| ==> calls[k].start <= |t|
      invariant k < |calls| ==> ExpandAtCall(t, reps, calls[k]).Some? == out.Some?
      invariant k < |calls| && out.Some? ==>
        acc + (if k % 2 == 1 then |reps[k / 2]| else 0) + |ExpandAtCall(t, reps, calls[k]).value| == |out.value|
      invariant k < |calls| && k % 2 == 1 ==> k / 2 < |reps|
      invariant k == |calls| ==> out.Some? && acc == |out.value|
    {
      var c := calls[k];
      ExpandOverCall(t, reps, c);
      var step := RequiredSizeStep(t, reps, c, acc);
      if step.None? {
        return None;
      }
      acc := step.value;
      if k + 1 < |calls| {
        assert calls[k + 1] == YieldCall(k + 1, c.matchAt.value + 1, None).(matchAt := calls[k + 1].matchAt);
      }
      k := k + 1;
    }
    return Some(acc);
  }

  /** `a` with `w` written over it from index `at`. */
  function Overwrite(a: seq<char>, at: nat, w: seq<char>): (r: seq<char>)
    requires at + |w| <= |a|
    ensures |r| == |a|
  {
    a[..at] + w + a[at + |w|..]
  }

  /** strncpy of the first `len` characters of a NUL-free `src`: exactly
      those characters, without a terminator. */
  method StrNCpy(buf: array<char>, at: nat, src: string, len: nat)
    requires len <= |src| && at + len <= buf.Length
    modifies buf
    ensures buf[..] == Overwrite(old(buf[..]), at, src[..len])
  {
    var i := 0;
    while i < len
      invariant 0 <= i <= len
      invariant forall j :: 0 <= j < buf.Length ==>
        buf[j] == if at <= j < at + i then src[j - at] else old(buf[j])
    {
      buf[at + i] := src[i];
      i := i + 1;
    }
    assert buf[..] == Overwrite(old(buf[..]), at, src[..len]);
  }

  /** strcpy of a NUL-free `src`: its characters and a terminating NUL. */
  method StrCpy(buf: array<char>, at: nat, src: string)
    requires at + |src| < buf.Length
    modifies buf
    ensures buf[..] == Overwrite(old(buf[..]), at, src + [Nul])
  {
    var i := 0;
    while i < |src|
      invariant 0 <= i <= |src|
      invariant forall j :: 0 <= j < buf.Length ==>
        buf[j] == if at <= j < at + i then src[j - at] else old(buf[j])
    {
      buf[at + i] := src[i];
      i := i + 1;
    }
    buf[at + |src|] := Nul;
    assert buf[..] == Overwrite(old(buf[..]), at, src + [Nul]);
  }

  /** Writing `x` at `at` and then `y` just after it writes `x + y`. */
  lemma OverwriteAdjacent(a: seq<char>, b: seq<char>, c: seq<char>, at: nat, x: seq<char>, y: seq<char>)
    requires at + |x| + |y| <= |a|
    requires b == Overwrite(a, at, x) && c == Overwrite(b, at + |x|, y)
    ensures c == Overwrite(a, at, x + y)
  {
    assert c == a[..at] + x + y + a[at + |x| + |y|..];
  }

  /** cb_replace_placeholders: at a `<`, the text up to it and then the
      next replacement are appended at `dst`; at the end the rest of the
      template and a NUL; a `>` writes nothing. */
  method ReplacePlaceholdersStep(buf: array<char>, dst: nat, t: string, reps: seq<string>, c: YieldCall)
      returns (next: nat)
    requires ValidCall(t, c)
    requires c.matchAt.Some? && t[c.matchAt.value] == '<' ==>
      c.n / 2 < |reps| && dst + (c.matchAt.value - c.start) + |reps[c.n / 2]| < buf.Length
    requires c.matchAt.None? ==> dst + (|t| - c.start) < buf.Length
    modifies buf
    ensures c.matchAt.None? ==> next == dst && buf[..] == Overwrite(old(buf[..]), dst, t[c.start..] + [Nul])
    ensures c.matchAt.Some? && t[c.matchAt.value] == '<' ==>
      next == dst + (c.matchAt.value - c.start) + |reps[c.n / 2]| &&
      buf[..] == Overwrite(old(buf[..]), dst, t[c.start..c.matchAt.value] + reps[c.n / 2] + [Nul])
    ensures c.matchAt.Some? && t[c.matchAt.value] != '<' ==> next == dst && buf[..] == old(buf[..])
  {
    if c.matchAt.None? {
      StrCpy(buf, dst, t[c.start..]);
      return dst;
    }
    var m := c.matchAt.value;
    if t[m] == '<' {
      var fragmentLen := m - c.start;
      ghost var before := buf[..];
      StrNCpy(buf, dst, t[c.start..], fragmentLen);
      ghost var mid := buf[..];
      StrCpy(buf, dst + fragmentLen, reps[c.n / 2]);
      assert t[c.start..][..fragmentLen] == t[c.start..m];
      OverwriteAdjacent(before, mid, buf[..], dst, t[c.start..m], reps[c.n / 2] + [Nul]);
      assert t[c.start..m] + reps[c.n / 2] + [Nul] == t[c.start..m] + (reps[c.n / 2] + [Nul]);
      return dst + fragmentLen + |reps[c.n / 2]|;
    }
    return dst;
  }

  /** The second pass of from_template: the yield calls fold
      cb_replace_placeholders over the write position; the buffer ends up
      holding the expansion and its NUL. */
  method ReplacePlaceholders(buf: array<char>, t: string, reps: seq<string>, calls: seq<YieldCall>,
                             ghost origin: nat, ghost out: string)
    requires origin <= |t| && SplitTrace(t, origin, calls)
    requires |calls| - 1 <= 2 * |reps|
    requires ExpandFrom(t, reps, origin, 0, false) == Some(out) && buf.Length == |out| + 1
    modifies buf
    ensures buf[..] == out + [Nul]
  {
    var dst: nat := 0;
    var k := 0;
    assert out[dst..] == out;
    while k < |calls|
      invariant Filled(t, reps, calls, out, k, dst, buf[..])
      decreases |calls| - k
    {
      var c := calls[k];
      FillReady(t, reps, calls, origin, out, k, dst, buf[..]);
      ghost var before := buf[..];
      var next := ReplacePlaceholdersStep(buf, dst, t, reps, c);
      FillDone(t, reps, calls, origin, out, k, dst, before, buf[..], next);
      dst := next;
      k := k + 1;
    }
  }

  /** The fill loop before call `k`: the rest of the output is what call
      `k` expands to, and the buffer holds the output before `dst` (all of
      it and its NUL once the calls are done). */
  predicate Filled(t: string, reps: seq<string>, calls: seq<YieldCall>, out: string, k: nat, dst: nat,
                   b: seq<char>)
  {
    k <= |calls| && dst <= |out| && |b| == |out| + 1 &&
    (k < |calls| ==> calls[k].start <= |t| && ExpandAtCall(t, reps, calls[k]) == Some(out[dst..])) &&
    (k < |calls| && k % 2 == 1 ==> k / 2 < |reps|) &&
    b[..dst] == out[..dst] &&
    (k == |calls| ==> b == out + [Nul])
  }

  /** Call `k` of the fill loop is valid and its write fits the buffer. */
  lemma FillReady(t: string, reps: seq<string>, calls: seq<YieldCall>, origin: nat, out: string, k: nat,
                  dst: nat, b: seq<char>)
    requires origin <= |t| && SplitTrace(t, origin, calls) && |calls| - 1 <= 2 * |reps|
    requires Filled(t, reps, calls, out, k, dst, b) && k < |calls|
    ensures ValidCall(t, calls[k])
    ensures calls[k].matchAt.Some? && t[calls[k].matchAt.value] == '<' ==>
      calls[k].n / 2 < |reps| &&
      dst + (calls[k].matchAt.value - calls[k].start) + |reps[calls[k].n / 2]| < |b|
    ensures calls[k].matchAt.None? ==> dst + (|t| - calls[k].start) < |b|
  {
    var c := calls[k];
    assert c.n == k && ValidCall(t, c);
    ExpandOverCall(t, reps, c);
    if c.matchAt.Some? {
      assert k + 1 < |calls| && calls[k + 1].start == c.matchAt.value + 1 && calls[k + 1].n == k + 1;
      if t[c.matchAt.value] == '<' {
        OpenCallSplits(t, reps, c, calls[k + 1], out[dst..]);
      }
    } else {
      assert dst <= |out| && |b| == |out| + 1 && c.start <= |t|;
      assert out[dst..] == t[c.start..];
      assert |out[dst..]| == |t[c.start..]|;
    }
  }

  /** What call `k` writes keeps the fill loop's state for call `k + 1`. */
  lemma FillDone(t: string, reps: seq<string>, calls: seq<YieldCall>, origin: nat, out: string, k: nat,
                 dst: nat, before: seq<char>, after: seq<char>, next: nat)
    requires origin <= |t| && SplitTrace(t, origin, calls) && |calls| - 1 <= 2 * |reps|
    requires Filled(t, reps, calls, out, k, dst, before) && k < |calls|
    requires calls[k].matchAt.None? ==>
      dst + (|t| - calls[k].start) < |before| && next == dst &&
      after == Overwrite(before, dst, t[calls[k].start..] + [Nul])
    requires calls[k].matchAt.Some? && t[calls[k].matchAt.value] == '<' ==>
      calls[k].n / 2 < |reps| &&
      dst + (calls[k].matchAt.value - calls[k].start) + |reps[calls[k].n / 2]| < |before| &&
      next == dst + (calls[k].matchAt.value - calls[k].start) + |reps[calls[k].n / 2]| &&
      after == Overwrite(before, dst, t[calls[k].start..calls[k].matchAt.value] + reps[calls[k].n / 2] + [Nul])
    requires calls[k].matchAt.Some? && t[calls[k].matchAt.value] != '<' ==> next == dst && after == before
    ensures Filled(t, reps, calls, out, k + 1, next, after)
  {
    var c := calls[k];
    assert c.n == k && ValidCall(t, c);
    if c.matchAt.None? {
      assert k + 1 == |calls|;
      FillLast(t, reps, c, out, dst, before, after);
    } else {
      assert k + 1 < |calls| && calls[k + 1].start == c.matchAt.value + 1 && calls[k + 1].n == k + 1;
      if t[c.matchAt.value] == '<' {
        FillOpen(t, reps, c, calls[k + 1], out, dst, before, after);
      } else {
        FillClose(t, reps, c, calls[k + 1], out[dst..]);
      }
    }
  }

  /** The last call writes the rest of the output and the NUL. */
  lemma FillLast(t: string, reps: seq<string>, c: YieldCall, out: string, dst: nat, before: seq<char>,
                 after: seq<char>)
    requires ValidCall(t, c) && c.matchAt.None?
    requires dst <= |out| && ExpandAtCall(t, reps, c) == Some(out[dst..])
    requires |before| == |out| + 1 && before[..dst] == out[..dst]
    requires dst + (|t| - c.start) < |before| && after == Overwrite(before, dst, t[c.start..] + [Nul])
    ensures after == out + [Nul]
  {
    ExpandOverCall(t, reps, c);
    OverwriteFinishes(before, after, out, dst, t[c.start..]);
  }

  /** A call ending at '>' writes nothing; the next call expands to the
      same rest. */
  lemma FillClose(t: string, reps: seq<string>, c: YieldCall, c2: YieldCall, rest: string)
    requires ValidCall(t, c) && c.matchAt.Some? && t[c.matchAt.value] != '<'
    requires c2.start == c.matchAt.value + 1 && c2.n == c.n + 1
    requires ExpandAtCall(t, reps, c) == Some(rest)
    ensures ExpandAtCall(t, reps, c2) == Some(rest)
  {
    ExpandOverCall(t, reps, c);
    assert ExpandAtCall(t, reps, c2) == ExpandAtCall(t, reps, YieldCall(c.n + 1, c.matchAt.value + 1, None));
  }

  /** A call ending at '<' writes its fragment and its replacement; the
      buffer then agrees with the output up to the next call's part. */
  lemma FillOpen(t: string, reps: seq<string>, c: YieldCall, c2: YieldCall, out: string, dst: nat,
                 before: seq<char>, after: seq<char>)
    requires ValidCall(t, c) && c.matchAt.Some? && t[c.matchAt.value] == '<'
    requires c2.start == c.matchAt.value + 1 && c2.n == c.n + 1
    requires dst <= |out| && ExpandAtCall(t, reps, c) == Some(out[dst..])
    requires |before| == |out| + 1 && before[..dst] == out[..dst]
    requires c.n / 2 < |reps| && dst + (c.matchAt.value - c.start) + |reps[c.n / 2]| < |before|
    requires after == Overwrite(before, dst, t[c.start..c.matchAt.value] + reps[c.n / 2] + [Nul])
    ensures ExpandAtCall(t, reps, c2).Some?
    ensures var next := dst + (c.matchAt.value - c.start) + |reps[c.n / 2]|;
      next <= |out| && ExpandAtCall(t, reps, c2) == Some(out[next..]) && after[..next] == out[..next]
  {
    OpenCallSplits(t, reps, c, c2, out[dst..]);
    OverwriteExtends(before, after, out, dst, t[c.start..c.matchAt.value] + reps[c.n / 2],
                     ExpandAtCall(t, reps, c2).value);
  }

  /** A call ending at '<' that expands to `s`: it is an even call with a
      replacement, and `s` is its fragment, the replacement and what the
      next call expands to. */
  lemma OpenCallSplits(t: string, reps: seq<string>, c: YieldCall, c2: YieldCall, s: string)
    requires ValidCall(t, c) && c.matchAt.Some? && t[c.matchAt.value] == '<'
    requires c2.start == c.matchAt.value + 1 && c2.n == c.n + 1
    requires ExpandAtCall(t, reps, c) == Some(s)
    ensures c.n % 2 == 0 && c.n / 2 < |reps|
    ensures ExpandAtCall(t, reps, c2).Some?
    ensures s == t[c.start..c.matchAt.value] + reps[c.n / 2] + ExpandAtCall(t, reps, c2).value
  {
    ExpandOverCall(t, reps, c);
    assert ExpandAtCall(t, reps, c2) == ExpandAtCall(t, reps, YieldCall(c.n + 1, c.matchAt.value + 1, None));
  }

  /** Writing `w` and a NUL at `dst` over a buffer that agrees with `out`
      before `dst`, where `out` continues with `w`: the buffer then agrees
      with `out` up to `dst + |w|`. */
  lemma OverwriteExtends(before: seq<char>, after: seq<char>, out: string, dst: nat, w: string, rest: string)
    requires dst <= |out| && out[dst..] == w + rest
    requires |before| == |out| + 1 && before[..dst] == out[..dst]
    requires after == Overwrite(before, dst, w + [Nul])
    ensures dst + |w| <= |out| && out[dst + |w|..] == rest
    ensures after[..dst + |w|] == out[..dst + |w|]
  {
    assert out[dst + |w|..] == (w + rest)[|w|..];
    assert out[..dst + |w|] == out[..dst] + w;
    assert after[..dst + |w|] == before[..dst] + w;
  }

  /** Writing the rest of `out` and a NUL at `dst` over a buffer that agrees
      with `out` before `dst` leaves `out` and its NUL. */
  lemma OverwriteFinishes(before: seq<char>, after: seq<char>, out: string, dst: nat, w: string)
    requires dst <= |out| && out[dst..] == w
    requires |before| == |out| + 1 && before[..dst] == out[..dst]
    requires after == Overwrite(before, dst, w + [Nul])
    ensures after == out + [Nul]
  {
    assert out == out[..dst] + w;
  }

  /** from_template with the scan starting at `origin`: size the result,
      allocate a zeroed buffer one longer, fill it. None stands for an
      assertion failure of the first pass. */
  method FromTemplateAt(t: string, reps: seq<string>, origin: nat) returns (r: Option<array<char>>)
    requires origin <= |t|
    requires CountDelimiters(t, origin) <= 2 * |reps|
    ensures r.None? <==> ExpandFrom(t, reps, origin, 0, false).None?
    ensures r.Some? ==> fresh(r.value) && r.value[..] == ExpandFrom(t, reps, origin, 0, false).value + [Nul]
  {
    var calls := WithSplits(t, origin);
    var bytesNeeded := RequiredSize(t, reps, calls, origin);
    if bytesNeeded.None? {
      return None;
    }
    var dst := new char[bytesNeeded.value + 1](_ => Nul);
    calls := WithSplits(t, origin);
    ReplacePlaceholders(dst, t, reps, calls, origin, ExpandFrom(t, reps, origin, 0, false).value);
    return Some(dst);
  }

  /** from_template as written: both passes scan from the second character
      of the template, so a template needs at least one character and its
      first one never reaches the result. */
  method FromTemplate(t: string, reps: seq<string>) returns (r: Option<array<char>>)
    requires |t| >= 1
    requires CountDelimiters(t, 1) <= 2 * |reps|
    ensures r.None? <==> ExpandFrom(t, reps, 1, 0, false).None?
    ensures r.Some? ==> fresh(r.value) && r.value[..] == ExpandFrom(t, reps, 1, 0, false).value + [Nul]
  {
    r := FromTemplateAt(t, reps, 1);
  }

  /** from_template scanning from the first character, as its description
      intends: the result is the expansion of the whole template. */
  method FromTemplateCorrected(t: string, reps: seq<string>) returns (r: Option<array<char>>)
    requires CountDelimiters(t, 0) <= 2 * |reps|
    ensures r.None? <==> Expand(t, reps).None?
    ensures r.Some? ==> fresh(r.value) && r.value[..] == Expand(t, reps).value + [Nul]
  {
    r := FromTemplateAt(t, reps, 0);
  }

  /** As written, the result differs from the intended one exactly by the
      dropped first character: for a plain first character the intended
      result is that character followed by the as-written one, and a template
      opening with `<` is rejected as written whatever follows. */
  lemma FirstCharacterDropped(t: string, reps: seq<string>)
    requires |t| >= 1
    ensures t[0] !in Delimiters ==> Expand(t, reps) == Prepend([t[0]], ExpandFrom(t, reps, 1, 0, false))
    ensures t[0] == '<' && |reps| >= 1 && Expand(t, reps).Some? ==> ExpandFrom(t, reps, 1, 0, false).None?
  {
    if t[0] == '<' && |reps| >= 1 && Expand(t, reps).Some? {
      AbortsAfterOpen(t, reps, 1, 1);
    }
  }

  /** An expansion that succeeds inside a placeholder with `k` opened
      fails from the same point outside one with one fewer opened: the
      closing `>` comes first and is stray there. */
  lemma {:induction false} AbortsAfterOpen(t: string, reps: seq<string>, i: nat, k: nat)
    requires 1 <= k && i <= |t| && ExpandFrom(t, reps, i, k, true).Some?
    ensures ExpandFrom(t, reps, i, k - 1, false).None?
    decreases |t| - i
  {
    if i < |t| && t[i] != '<' && t[i] != '>' {
      AbortsAfterOpen(t, reps, i + 1, k);
    }
  }

  /** The two inputs that show the dropped character: `"ab"` comes out as
      `"b"`, and `"<A>"` with one replacement aborts instead of giving it. */
  lemma FirstCharacterDroppedExamples()
    ensures ExpandFrom("ab", [], 1, 0, false) == Some("b") && Expand("ab", []) == Some("ab")
    ensures ExpandFrom("<A>", ["x"], 1, 0, false).None? && Expand("<A>", ["x"]) == Some("x")
  {
    var ab := "ab";
    assert ab[0] == 'a' && ab[1] == 'b';
    assert ExpandFrom(ab, [], 2, 0, false) == Some([]);
    assert ['b'] + [] == ['b'] && ['a'] + ['b'] == ['a', 'b'];
    assert ExpandFrom(ab, [], 1, 0, false) == Some(['b']);
    assert ExpandFrom(ab, [], 0, 0, false) == Some(['a', 'b']);
    var tag := "<A>";
    assert tag[0] == '<' && tag[1] == 'A' && tag[2] == '>';
    assert ExpandFrom(tag, ["x"], 3, 1, false) == Some([]);
    assert ExpandFrom(tag, ["x"], 2, 1, true) == Some([]);
    assert ExpandFrom(tag, ["x"], 1, 1, true) == Some([]);
    assert "x" + [] == "x";
    assert ExpandFrom(tag, ["x"], 0, 0, false) == Some("x");
    assert ExpandFrom(tag, ["x"], 2, 0, false).None?;
    assert ExpandFrom(tag, ["x"], 1, 0, false) == None;
  }
}
