/**
 * The JavaScript string built-ins that chat-attachments.ts relies on:
 * the `\s` character class, `trim`, `replace(/\s/g, "")`,
 * `replace(/\s+/g, "_")`, `toLowerCase` (ASCII letters only),
 * `split(sep)[0]`, `startsWith`, `Array.prototype.join` and the decimal
 * rendering of a natural number in a template literal.
 */
module Strings {

  /**
   * JavaScript's `\s`: the WhiteSpace and LineTerminator code points, which
   * are also exactly the characters that `String.prototype.trim` removes.
   */
  predicate IsSpace(c: char) {
    var n := c as int;
    (0x09 <= n <= 0x0D) || n == 0x20 || n == 0xA0 || n == 0x1680
    || (0x2000 <= n <= 0x200A) || n == 0x2028 || n == 0x2029
    || n == 0x202F || n == 0x205F || n == 0x3000 || n == 0xFEFF
  }

  predicate NoSpace(s: string) {
    forall i :: 0 <= i < |s| ==> !IsSpace(s[i])
  }

  predicate AllSpace(s: string) {
    forall i :: 0 <= i < |s| ==> IsSpace(s[i])
  }

  /** Neither end of `s` is whitespace. */
  predicate IsTrimmed(s: string) {
    s == [] || (!IsSpace(s[0]) && !IsSpace(s[|s| - 1]))
  }

  predicate StartsWith(s: string, prefix: string) {
    |prefix| <= |s| && s[..|prefix|] == prefix
  }

  // ---------------------------------------------------------------------
  // trim
  // ---------------------------------------------------------------------

  /** `s` without its leading whitespace: the suffix that starts at the first non-space. */
  function TrimStart(s: string): (r: string)
    ensures |r| <= |s| && r == s[|s| - |r|..]
    ensures AllSpace(s[..|s| - |r|])
    ensures r == [] || !IsSpace(r[0])
  {
    if |s| > 0 && IsSpace(s[0]) then
      var r := TrimStart(s[1..]);
      assert s[..|s| - |r|] == [s[0]] + s[1..][..|s| - 1 - |r|];
      assert s[|s| - |r|..] == s[1..][|s| - 1 - |r|..];
      AllSpacePrepend(s[0], s[1..][..|s| - 1 - |r|]);
      r
    else s
  }

  lemma AllSpacePrepend(c: char, t: string)
    requires IsSpace(c) && AllSpace(t)
    ensures AllSpace([c] + t)
  {
    assert forall i :: 0 < i <= |t| ==> ([c] + t)[i] == t[i - 1];
  }

  /** `s` without its trailing whitespace: the prefix that ends at the last non-space. */
  function TrimEnd(s: string): (r: string)
    ensures |r| <= |s| && r == s[..|r|]
    ensures AllSpace(s[|r|..])
    ensures r == [] || !IsSpace(r[|r| - 1])
  {
    if |s| > 0 && IsSpace(s[|s| - 1]) then
      var r := TrimEnd(s[..|s| - 1]);
      assert s[|r|..] == s[..|s| - 1][|r|..] + [s[|s| - 1]];
      r
    else s
  }

  /** `String.prototype.trim`. */
  function Trim(s: string): (r: string)
    ensures |r| <= |s| && IsTrimmed(r)
  {
    var t := TrimStart(s);
    var r := TrimEnd(t);
    assert r == [] || r[0] == t[0];
    r
  }

  /** Trimming removes a whitespace run at each end and nothing in between. */
  lemma TrimOnlyEnds(s: string)
    ensures FramedBySpace(s, Trim(s))
  {
    var t := TrimStart(s);
    SpaceFramed(s, t, Trim(s), |s| - |t|);
  }

  /** `r` is a slice of `s` with only whitespace before and after it. */
  predicate FramedBySpace(s: string, r: string) {
    exists i :: (0 <= i && i + |r| <= |s| && r == s[i..i + |r|]
      && AllSpace(s[..i]) && AllSpace(s[i + |r|..]))
  }

  lemma SpaceFramed(s: string, t: string, r: string, i: nat)
    requires i <= |s| && t == s[i..] && AllSpace(s[..i])
    requires |r| <= |t| && r == t[..|r|] && AllSpace(t[|r|..])
    ensures FramedBySpace(s, r)
  {
    SliceOfSuffix(s, i, |r|);
    assert r == s[i..i + |r|] && AllSpace(s[i + |r|..]);
  }

  lemma SliceOfSuffix<T>(s: seq<T>, i: nat, n: nat)
    requires i + n <= |s|
    ensures s[i..][..n] == s[i..i + n] && s[i..][n..] == s[i + n..]
  {
  }

  /** Trimming removes whitespace only. */
  lemma TrimKeepsNonSpace(s: string)
    ensures StripSpaces(Trim(s)) == StripSpaces(s)
  {
    TrimStartKeepsNonSpace(s);
    TrimEndKeepsNonSpace(TrimStart(s));
  }

  /** Trimming the start removes whitespace only. */
  lemma TrimStartKeepsNonSpace(s: string)
    ensures StripSpaces(TrimStart(s)) == StripSpaces(s)
  {
    var t := TrimStart(s);
    assert s[|s| - |t|..|s| - |t| + |t|] == t;
    StripSpacesAroundSlice(s, |s| - |t|, |t|);
  }

  /** Every character of the trimmed string comes from `s`. */
  lemma TrimSubset(s: string, c: char)
    requires c in Trim(s)
    ensures c in s
  {
    var t := TrimStart(s);
    var r := TrimEnd(t);
    var k :| 0 <= k < |r| && r[k] == c;
    assert t[k] == c;
    assert s[|s| - |t| + k] == c;
  }

  /** Trimming introduces no character that `s` lacks. */
  lemma TrimKeepsAbsent(s: string, c: char)
    requires c !in s
    ensures c !in Trim(s)
  {
    if c in Trim(s) {
      TrimSubset(s, c);
    }
  }

  /** Trimming a string that opens with a fixed non-space prefix only trims its end. */
  lemma TrimAfterPrefix(a: string, b: string)
    requires a != [] && !IsSpace(a[0]) && !IsSpace(a[|a| - 1])
    ensures Trim(a + b) == a + TrimEnd(b)
  {
    assert (a + b)[0] == a[0];
    TrimEndAfterPrefix(a, b);
  }

  lemma {:induction false} TrimEndAfterPrefix(a: string, b: string)
    requires a != [] && !IsSpace(a[|a| - 1])
    ensures TrimEnd(a + b) == a + TrimEnd(b)
    decreases |b|
  {
    if b == [] {
      assert a + b == a;
    } else if IsSpace(b[|b| - 1]) {
      assert (a + b)[..|a + b| - 1] == a + b[..|b| - 1];
      TrimEndAfterPrefix(a, b[..|b| - 1]);
    } else {
      assert (a + b)[|a + b| - 1] == b[|b| - 1];
    }
  }

  /** Trimming the end removes whitespace only. */
  lemma TrimEndKeepsNonSpace(s: string)
    ensures StripSpaces(TrimEnd(s)) == StripSpaces(s)
  {
    var r := TrimEnd(s);
    assert s[0..|r|] == r;
    StripSpacesAroundSlice(s, 0, |r|);
  }

  /** Removing an all-space prefix and suffix leaves the non-space characters unchanged. */
  lemma StripSpacesAroundSlice(s: string, i: nat, n: nat)
    requires i + n <= |s|
    requires AllSpace(s[..i]) && AllSpace(s[i + n..])
    ensures StripSpaces(s[i..i + n]) == StripSpaces(s)
  {
    assert s == s[..i] + s[i..i + n] + s[i + n..];
    StripSpacesConcat(s[..i] + s[i..i + n], s[i + n..]);
    StripSpacesConcat(s[..i], s[i..i + n]);
    StripSpacesOfAllSpace(s[..i]);
    StripSpacesOfAllSpace(s[i + n..]);
  }

  // ---------------------------------------------------------------------
  // replace(/\s/g, "")
  // ---------------------------------------------------------------------

  /** `s.replace(/\s/g, "")`: the characters of `s` that are not whitespace, in order. */
  function StripSpaces(s: string): (r: string)
    ensures NoSpace(r) && |r| <= |s|
  {
    if s == [] then []
    else if IsSpace(s[0]) then StripSpaces(s[1..])
    else [s[0]] + StripSpaces(s[1..])
  }

  lemma {:induction false} StripSpacesConcat(a: string, b: string)
    ensures StripSpaces(a + b) == StripSpaces(a) + StripSpaces(b)
  {
    if a != [] {
      assert (a + b)[0] == a[0];
      assert (a + b)[1..] == a[1..] + b;
      StripSpacesConcat(a[1..], b);
    } else {
      assert a + b == b;
    }
  }

  lemma {:induction false} StripSpacesOfNoSpace(s: string)
    requires NoSpace(s)
    ensures StripSpaces(s) == s
  {
    if s != [] {
      StripSpacesOfNoSpace(s[1..]);
    }
  }

  lemma {:induction false} StripSpacesOfAllSpace(s: string)
    requires AllSpace(s)
    ensures StripSpaces(s) == []
  {
    if s != [] {
      StripSpacesOfAllSpace(s[1..]);
    }
  }

  /** Stripping twice is stripping once. */
  lemma StripSpacesIdempotent(s: string)
    ensures StripSpaces(StripSpaces(s)) == StripSpaces(s)
  {
    StripSpacesOfNoSpace(StripSpaces(s));
  }

  /** Inserting one whitespace character anywhere does not change what is left after stripping. */
  lemma StripSpacesIgnoresInsertedSpace(a: string, w: char, b: string)
    requires IsSpace(w)
    ensures StripSpaces(a + [w] + b) == StripSpaces(a + b)
  {
    StripSpacesConcat(a + [w], b);
    StripSpacesConcat(a, [w]);
    StripSpacesConcat(a, b);
  }

  // ---------------------------------------------------------------------
  // toLowerCase (ASCII letters) and split(sep)[0]
  // ---------------------------------------------------------------------

  predicate IsUpperAscii(c: char) {
    'A' <= c <= 'Z'
  }

  predicate NoUpper(s: string) {
    forall i :: 0 <= i < |s| ==> !IsUpperAscii(s[i])
  }

  function LowerChar(c: char): char {
    if IsUpperAscii(c) then (c as int + 32) as char else c
  }

  /** `toLowerCase`, restricted to the ASCII letters. */
  function ToLowerAscii(s: string): (r: string)
    ensures |r| == |s| && NoUpper(r)
    ensures forall i :: 0 <= i < |s| && IsUpperAscii(s[i]) ==> r[i] as int == s[i] as int + 32
    ensures forall i :: 0 <= i < |s| && !IsUpperAscii(s[i]) ==> r[i] == s[i]
  {
    seq(|s|, i requires 0 <= i < |s| => LowerChar(s[i]))
  }

  /** A string with no upper-case letter is its own lower-case form. */
  lemma ToLowerAsciiOfLower(s: string)
    requires NoUpper(s)
    ensures ToLowerAscii(s) == s
  {
  }

  /** `s.split(sep)[0]`: the longest prefix of `s` that does not contain `sep`. */
  function BeforeFirst(s: string, sep: char): (r: string)
    ensures |r| <= |s| && r == s[..|r|]
    ensures sep !in r
    ensures |r| < |s| ==> s[|r|] == sep
  {
    if s == [] || s[0] == sep then [] else [s[0]] + BeforeFirst(s[1..], sep)
  }

  // ---------------------------------------------------------------------
  // replace(/\s+/g, "_")
  // ---------------------------------------------------------------------

  /** `s.replace(/\s+/g, "_")`: every maximal run of whitespace becomes one `_`. */
  function ReplaceSpaceRuns(s: string): (r: string)
    ensures |r| <= |s|
  {
    ReplaceRunsFrom(s, false)
  }

  /**
   * The left-to-right scan behind ReplaceSpaceRuns; `inRun` says the
   * character before `s` was whitespace, whose run already produced its `_`.
   */
  function ReplaceRunsFrom(s: string, inRun: bool): (r: string)
    ensures |r| <= |s|
  {
    if s == [] then []
    else if IsSpace(s[0]) then (if inRun then "" else "_") + ReplaceRunsFrom(s[1..], true)
    else [s[0]] + ReplaceRunsFrom(s[1..], false)
  }

  /** The rewritten label contains no whitespace. */
  lemma ReplaceSpaceRunsHasNoSpace(s: string)
    ensures NoSpace(ReplaceSpaceRuns(s))
  {
    RunsHaveNoSpace(s, false);
  }

  lemma {:induction false} RunsHaveNoSpace(s: string, inRun: bool)
    ensures NoSpace(ReplaceRunsFrom(s, inRun))
    decreases |s|
  {
    if s != [] {
      RunsHaveNoSpace(s[1..], IsSpace(s[0]));
    }
  }

  /** A label without whitespace is left exactly as it is. */
  lemma ReplaceSpaceRunsOfNoSpace(s: string)
    requires NoSpace(s)
    ensures ReplaceSpaceRuns(s) == s
  {
    RunsOfNoSpace(s, false);
  }

  lemma {:induction false} RunsOfNoSpace(s: string, inRun: bool)
    requires NoSpace(s)
    ensures ReplaceRunsFrom(s, inRun) == s
    decreases |s|
  {
    if s != [] {
      RunsOfNoSpace(s[1..], false);
    }
  }

  /**
   * One whitespace run between two parts that do not touch it with
   * whitespace becomes exactly one `_`, and the parts are rewritten on their own.
   */
  lemma ReplaceSpaceRunsSplits(a: string, w: string, b: string)
    requires a == [] || !IsSpace(a[|a| - 1])
    requires w != [] && AllSpace(w)
    requires b == [] || !IsSpace(b[0])
    ensures ReplaceSpaceRuns(a + w + b) == ReplaceSpaceRuns(a) + "_" + ReplaceSpaceRuns(b)
  {
    assert (w + b)[0] == w[0] && (w + b)[1..] == w[1..] + b;
    RunsSkipSpaces(w[1..], b);
    RunsAfterKept(b);
    if a == [] {
      assert a + w + b == w + b;
    } else {
      assert a + w + b == a + (w + b);
      RunsOfConcat(a, w + b, false);
    }
  }

  /** After a part that ends in a kept character, the scan starts afresh. */
  lemma {:induction false} RunsOfConcat(a: string, x: string, inRun: bool)
    requires a != [] && !IsSpace(a[|a| - 1])
    ensures ReplaceRunsFrom(a + x, inRun) == ReplaceRunsFrom(a, inRun) + ReplaceRunsFrom(x, false)
    decreases |a|
  {
    assert (a + x)[0] == a[0] && (a + x)[1..] == a[1..] + x;
    if |a| == 1 {
      assert a[1..] + x == x;
    } else {
      RunsOfConcat(a[1..], x, IsSpace(a[0]));
    }
  }

  /** Inside a run, further whitespace produces nothing. */
  lemma {:induction false} RunsSkipSpaces(w: string, b: string)
    requires AllSpace(w)
    ensures ReplaceRunsFrom(w + b, true) == ReplaceRunsFrom(b, true)
    decreases |w|
  {
    if w == [] {
      assert w + b == b;
    } else {
      assert (w + b)[0] == w[0] && (w + b)[1..] == w[1..] + b;
      RunsSkipSpaces(w[1..], b);
    }
  }

  /** A part that does not start with whitespace is rewritten alike in or out of a run. */
  lemma RunsAfterKept(b: string)
    requires b == [] || !IsSpace(b[0])
    ensures ReplaceRunsFrom(b, true) == ReplaceRunsFrom(b, false)
  {
  }

  /** A concatenation starts with its first part. */
  lemma PrefixOfConcat(a: string, b: string, c: string)
    ensures StartsWith(a + b + c, a)
  {
    assert (a + b + c)[..|a|] == a;
  }

  // ---------------------------------------------------------------------
  // Array.prototype.join
  // ---------------------------------------------------------------------

  /** `xs.join(sep)`. */
  function Join(xs: seq<string>, sep: string): (r: string)
    ensures |xs| > 0 ==> StartsWith(r, xs[0])
    ensures |xs| > 0 ==> var last := xs[|xs| - 1]; |last| <= |r| && r[|r| - |last|..] == last
  {
    if |xs| == 0 then ""
    else if |xs| == 1 then xs[0]
    else Join(xs[..|xs| - 1], sep) + sep + xs[|xs| - 1]
  }

  lemma InitOfConcat<T>(xs: seq<T>, ys: seq<T>)
    requires ys != []
    ensures (xs + ys)[..|xs + ys| - 1] == xs + ys[..|ys| - 1]
    ensures (xs + ys)[|xs + ys| - 1] == ys[|ys| - 1]
  {
  }

  lemma Regroup<T>(a: seq<T>, sep: seq<T>, b: seq<T>, c: seq<T>)
    ensures (a + sep + b) + sep + c == a + sep + (b + sep + c)
  {
  }

  lemma JoinStep(xs: seq<string>, sep: string)
    requires |xs| > 1
    ensures Join(xs, sep) == Join(xs[..|xs| - 1], sep) + sep + xs[|xs| - 1]
  {
  }

  /** Joining a single element gives that element, with no separator. */
  lemma JoinSingle(x: string, sep: string)
    ensures Join([x], sep) == x
  {
  }

  /** Joining two non-empty lists is joining each and putting one separator between them. */
  lemma {:induction false} JoinConcat(xs: seq<string>, ys: seq<string>, sep: string)
    requires xs != [] && ys != []
    ensures Join(xs + ys, sep) == Join(xs, sep) + sep + Join(ys, sep)
    decreases |ys|
  {
    var zs := xs + ys;
    var init, last := ys[..|ys| - 1], ys[|ys| - 1];
    InitOfConcat(xs, ys);
    JoinStep(zs, sep);
    if |ys| == 1 {
      assert init == [];
      assert xs + init == xs;
    } else {
      JoinStep(ys, sep);
      JoinConcat(xs, init, sep);
      Regroup(Join(xs, sep), sep, Join(init, sep), last);
    }
  }

  // ---------------------------------------------------------------------
  // decimal rendering of a natural number
  // ---------------------------------------------------------------------

  predicate IsDigit(c: char) {
    '0' <= c <= '9'
  }

  predicate AllDigits(s: string) {
    forall i :: 0 <= i < |s| ==> IsDigit(s[i])
  }

  function DigitChar(d: nat): (c: char)
    requires d < 10
  {
    ('0' as int + d) as char
  }

  /** The decimal digits of `n` as `${n}` renders them, most significant first. */
  function DecimalString(n: nat): (r: string)
    ensures r != [] && AllDigits(r)
    ensures r[0] == '0' ==> n == 0
    decreases n
  {
    if n < 10 then [DigitChar(n)] else DecimalString(n / 10) + [DigitChar(n % 10)]
  }

  /** The number a string of decimal digits denotes. */
  function DecimalValue(s: string): (r: nat)
    requires AllDigits(s)
  {
    if s == [] then 0
    else DecimalValue(s[..|s| - 1]) * 10 + (s[|s| - 1] as int - '0' as int)
  }

  lemma {:induction false} DecimalRoundTrip(n: nat)
    ensures DecimalValue(DecimalString(n)) == n
    decreases n
  {
    if n >= 10 {
      var s := DecimalString(n);
      assert s[..|s| - 1] == DecimalString(n / 10);
      DecimalRoundTrip(n / 10);
    }
  }
}
