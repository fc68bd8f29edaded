// Text primitives with the semantics of the Python string operations the
// package manager relies on: ASCII lower-casing, substring search that answers
// -1 when absent, split on one character, left-to-right non-overlapping
// replacement, whitespace stripping, slicing with negative indices and the
// integer parser behind int().
module Strings {

  datatype Option<T> = None | Some(value: T)

  // ---------------------------------------------------------------- case

  predicate IsUpper(c: char) { 'A' <= c <= 'Z' }

  function LowerChar(c: char): (r: char)
    ensures !IsUpper(r)
    ensures IsUpper(c) ==> r as int == c as int + 32
    ensures !IsUpper(c) ==> r == c
  {
    if IsUpper(c) then (c as int + 32) as char else c
  }

  /** str.lower() restricted to ASCII letters. */
  function Lower(s: string): (r: string)
    ensures |r| == |s|
    ensures forall i :: 0 <= i < |s| ==> r[i] == LowerChar(s[i])
  {
    if s == [] then [] else [LowerChar(s[0])] + Lower(s[1..])
  }

  lemma LowerIdempotent(s: string)
    ensures Lower(Lower(s)) == Lower(s)
  {
  }

  /** A string without upper-case letters is its own lower case. */
  lemma LowerFixed(s: string)
    requires forall i :: 0 <= i < |s| ==> !IsUpper(s[i])
    ensures Lower(s) == s
  {
  }

  lemma LowerConcat(a: string, b: string)
    ensures Lower(a + b) == Lower(a) + Lower(b)
  {
  }

  // ------------------------------------------------------------- digits

  predicate IsDigit(c: char) { '0' <= c <= '9' }

  /** str.isdecimal() on ASCII: non-empty and only digits. */
  predicate IsDecimal(s: string)
  {
    |s| > 0 && forall i :: 0 <= i < |s| ==> IsDigit(s[i])
  }

  function DigitValue(c: char): nat
    requires IsDigit(c)
  {
    c as int - '0' as int
  }

  /** The number a run of decimal digits denotes (most significant first). */
  function DigitsValue(s: string): nat
    requires forall i :: 0 <= i < |s| ==> IsDigit(s[i])
  {
    if s == [] then 0 else DigitsValue(s[..|s| - 1]) * 10 + DigitValue(s[|s| - 1])
  }

  function DigitChar(d: nat): (c: char)
    requires d < 10
    ensures IsDigit(c) && DigitValue(c) == d
  {
    ('0' as int + d) as char
  }

  /** str(n) for a natural number. */
  function NatToString(n: nat): (r: string)
    ensures IsDecimal(r)
    decreases n
  {
    if n < 10 then [DigitChar(n)] else NatToString(n / 10) + [DigitChar(n % 10)]
  }

  /** str(n) for any integer. */
  function IntToString(n: int): string
  {
    if n < 0 then "-" + NatToString(-n) else NatToString(n)
  }

  lemma {:induction false} NatToStringValue(n: nat)
    ensures DigitsValue(NatToString(n)) == n
    decreases n
  {
    if n >= 10 {
      var s := NatToString(n);
      assert s[..|s| - 1] == NatToString(n / 10);
      NatToStringValue(n / 10);
    }
  }

  // --------------------------------------------------------- whitespace

  /** The characters str.strip() and int() treat as whitespace (ASCII part). */
  predicate IsSpace(c: char)
  {
    c == ' ' || (9 <= c as int <= 13) || (28 <= c as int <= 31)
  }

  /** The index of the first non-whitespace character at or after i. */
  function SkipFront(s: string, i: nat): (r: nat)
    requires i <= |s|
    ensures i <= r <= |s|
    decreases |s| - i
  {
    if i < |s| && IsSpace(s[i]) then SkipFront(s, i + 1) else i
  }

  /** The end of s[lo..j] once its trailing whitespace is dropped. */
  function SkipBack(s: string, lo: nat, j: nat): (r: nat)
    requires lo <= j <= |s|
    ensures lo <= r <= j
    decreases j
  {
    if j > lo && IsSpace(s[j - 1]) then SkipBack(s, lo, j - 1) else j
  }

  /** str.strip(): the text between the leading and the trailing whitespace. */
  function Strip(s: string): (r: string)
  {
    var a := SkipFront(s, 0);
    s[a..SkipBack(s, a, |s|)]
  }

  lemma {:induction false} SkipFrontSpec(s: string, i: nat)
    requires i <= |s|
    ensures var r := SkipFront(s, i);
      (r == |s| || !IsSpace(s[r])) && forall k :: i <= k < r ==> IsSpace(s[k])
    decreases |s| - i
  {
    if i < |s| && IsSpace(s[i]) {
      SkipFrontSpec(s, i + 1);
    }
  }

  lemma {:induction false} SkipBackSpec(s: string, lo: nat, j: nat)
    requires lo <= j <= |s|
    ensures var r := SkipBack(s, lo, j);
      (r == lo || !IsSpace(s[r - 1])) && forall k :: r <= k < j ==> IsSpace(s[k])
    decreases j
  {
    if j > lo && IsSpace(s[j - 1]) {
      SkipBackSpec(s, lo, j - 1);
    }
  }

  /** strip() removes exactly the surrounding whitespace. */
  lemma StripSpec(s: string)
    ensures exists a, b :: (0 <= a <= b <= |s| && Strip(s) == s[a..b]
      && (forall k :: 0 <= k < a ==> IsSpace(s[k]))
      && (forall k :: b <= k < |s| ==> IsSpace(s[k]))
      && (a == b || (!IsSpace(s[a]) && !IsSpace(s[b - 1]))))
  {
    var a := SkipFront(s, 0);
    SkipFrontSpec(s, 0);
    var b := SkipBack(s, a, |s|);
    SkipBackSpec(s, a, |s|);
    assert Strip(s) == s[a..b];
  }

  lemma StripNoSpace(s: string)
    requires s == [] || (!IsSpace(s[0]) && !IsSpace(s[|s| - 1]))
    ensures Strip(s) == s
  {
  }

  // ------------------------------------------------------------ parsing

  /**
   * int(s) for a str argument: surrounding whitespace, an optional sign and
   * one or more ASCII digits; None where Python raises ValueError.
   */
  function ParseInt(s: string): (r: Option<int>)
  {
    ParseSigned(Strip(s))
  }

  /** int() once the whitespace is gone: an optional sign, then digits. */
  function ParseSigned(t: string): (r: Option<int>)
  {
    if |t| > 0 && (t[0] == '-' || t[0] == '+') then
      if IsDecimal(t[1..]) then
        var v: int := DigitsValue(t[1..]);
        Some(if t[0] == '-' then -v else v)
      else None
    else if IsDecimal(t) then Some(DigitsValue(t))
    else None
  }

  /** A parse whose failure counts as 0 (the `try: int(..) except: 0` idiom). */
  function IntOrZero(s: string): int
  {
    match ParseInt(s)
    case Some(n) => n
    case None => 0
  }

  /** int() reads an all-digit string as its value. */
  lemma ParseDecimal(s: string)
    requires IsDecimal(s)
    ensures ParseInt(s) == Some(DigitsValue(s))
  {
    StripNoSpace(s);
  }

  lemma ParseNegative(d: string)
    requires IsDecimal(d)
    ensures ParseInt("-" + d) == Some(-(DigitsValue(d) as int))
  {
    var s := "-" + d;
    assert s[|s| - 1] == d[|d| - 1];
    StripNoSpace(s);
    assert s[1..] == d;
  }

  /** Round trip: int(str(n)) == n. */
  lemma ParseIntToString(n: int)
    ensures ParseInt(IntToString(n)) == Some(n)
  {
    if n < 0 {
      NatToStringValue(-n);
      ParseNegative(NatToString(-n));
    } else {
      NatToStringValue(n);
      ParseDecimal(NatToString(n));
    }
  }

  /** int() rejects the empty text and any text that starts with a letter. */
  lemma ParseIntRejectsBadHead(u: string)
    requires u == [] || (!IsSpace(u[0]) && !IsDigit(u[0]) && u[0] != '-' && u[0] != '+')
    ensures ParseInt(u) == None
  {
    if u != [] {
      assert SkipFront(u, 0) == 0;
      var t := Strip(u);
      assert t == [] || t[0] == u[0];
    }
  }

  // ---------------------------------------------------------- searching

  predicate OccursAt(s: string, t: string, i: int)
  {
    0 <= i && i + |t| <= |s| && s[i..i + |t|] == t
  }

  /** No occurrence starts at a character other than the pattern's first. */
  lemma MissesHead(s: string, t: string, i: int)
    requires 0 <= i < |s| && |t| > 0 && s[i] != t[0]
    ensures !OccursAt(s, t, i)
  {
  }

  function FindFrom(s: string, t: string, k: nat): (r: int)
    requires k <= |s|
    ensures r == -1 || (k <= r && r + |t| <= |s|)
    decreases |s| - k
  {
    if k + |t| > |s| then -1
    else if s[k..k + |t|] == t then k
    else if k == |s| then -1
    else FindFrom(s, t, k + 1)
  }

  lemma {:induction false} FindFromSpec(s: string, t: string, k: nat)
    requires k <= |s|
    ensures var r := FindFrom(s, t, k);
      (r == -1 || OccursAt(s, t, r))
      && forall i :: k <= i && (r == -1 || i < r) ==> !OccursAt(s, t, i)
    decreases |s| - k
  {
    if k + |t| <= |s| && s[k..k + |t|] != t && k < |s| {
      FindFromSpec(s, t, k + 1);
    }
  }

  /** str.find(t): the first index where t occurs, or -1. */
  function Find(s: string, t: string): (r: int)
    ensures r == -1 || (0 <= r && r + |t| <= |s|)
  {
    FindFrom(s, t, 0)
  }

  lemma FindSpec(s: string, t: string)
    ensures Find(s, t) == -1 || OccursAt(s, t, Find(s, t))
    ensures forall i :: 0 <= i && (Find(s, t) == -1 || i < Find(s, t)) ==> !OccursAt(s, t, i)
  {
    FindFromSpec(s, t, 0);
  }

  function RFindBelow(s: string, t: string, k: int): (r: int)
    ensures r == -1 || (0 <= r <= k && r + |t| <= |s|)
    decreases k + 1
  {
    if k < 0 then -1
    else if OccursAt(s, t, k) then k
    else RFindBelow(s, t, k - 1)
  }

  lemma {:induction false} RFindBelowSpec(s: string, t: string, k: int)
    ensures var r := RFindBelow(s, t, k);
      (r == -1 || OccursAt(s, t, r)) && forall i :: r < i <= k ==> !OccursAt(s, t, i)
    decreases k + 1
  {
    if k >= 0 && !OccursAt(s, t, k) {
      RFindBelowSpec(s, t, k - 1);
    }
  }

  /** str.rfind(t): the last index where t occurs, or -1. */
  function RFind(s: string, t: string): (r: int)
    ensures r == -1 || (0 <= r && r + |t| <= |s|)
  {
    RFindBelow(s, t, |s| - |t|)
  }

  lemma RFindSpec(s: string, t: string)
    ensures RFind(s, t) == -1 || OccursAt(s, t, RFind(s, t))
    ensures forall i :: RFind(s, t) < i ==> !OccursAt(s, t, i)
  {
    RFindBelowSpec(s, t, |s| - |t|);
  }

  /** The `t in s` operator on strings. */
  predicate Contains(s: string, t: string)
  {
    Find(s, t) != -1
  }

  lemma OccursAtChar(s: string, c: char, i: int)
    ensures OccursAt(s, [c], i) <==> 0 <= i < |s| && s[i] == c
  {
    if 0 <= i < |s| {
      assert s[i..i + 1] == [s[i]];
    }
  }

  lemma FindChar(s: string, c: char)
    ensures Find(s, [c]) == -1 <==> c !in s
    ensures Find(s, [c]) != -1 ==> 0 <= Find(s, [c]) < |s| && s[Find(s, [c])] == c
    ensures forall i :: 0 <= i < Find(s, [c]) ==> s[i] != c
  {
    var r := Find(s, [c]);
    FindSpec(s, [c]);
    forall i | 0 <= i < |s|
      ensures OccursAt(s, [c], i) <==> s[i] == c
    {
      OccursAtChar(s, c, i);
    }
    OccursAtChar(s, c, r);
  }

  /** The first c of s is at k exactly when s[k] is c and no c precedes it. */
  lemma FindCharAt(s: string, c: char, k: int)
    requires 0 <= k < |s| && s[k] == c && forall i :: 0 <= i < k ==> s[i] != c
    ensures Find(s, [c]) == k
  {
    FindChar(s, c);
  }

  lemma RFindChar(s: string, c: char)
    ensures RFind(s, [c]) == -1 <==> c !in s
    ensures RFind(s, [c]) != -1 ==> 0 <= RFind(s, [c]) < |s| && s[RFind(s, [c])] == c
    ensures forall i :: RFind(s, [c]) < i < |s| ==> s[i] != c
  {
    var r := RFind(s, [c]);
    RFindSpec(s, [c]);
    forall i | 0 <= i < |s|
      ensures OccursAt(s, [c], i) <==> s[i] == c
    {
      OccursAtChar(s, c, i);
    }
    OccursAtChar(s, c, r);
  }

  predicate StartsWith(s: string, p: string) { p <= s }

  predicate EndsWith(s: string, p: string)
  {
    |p| <= |s| && s[|s| - |p|..] == p
  }

  // ------------------------------------------------------------ slicing

  /** A Python slice bound: negative counts from the end, then clamped. */
  function PyBound(i: int, n: nat): (r: nat)
    ensures r <= n
  {
    if i < 0 then (if n + i < 0 then 0 else n + i) else if i > n then n else i
  }

  /** s[a:b] with Python's reading of negative and out-of-range bounds. */
  function Slice<T>(s: seq<T>, a: int, b: int): (r: seq<T>)
    ensures 0 <= a <= b <= |s| ==> r == s[a..b]
  {
    var x, y := PyBound(a, |s|), PyBound(b, |s|);
    if x <= y then s[x..y] else []
  }

  // ------------------------------------------------- splitting, joining

  /** str.split(c) for a one-character separator. */
  function Split(s: string, c: char): (r: seq<string>)
    ensures |r| >= 1
  {
    if s == [] then [""]
    else
      var rest := Split(s[1..], c);
      if s[0] == c then [""] + rest else [[s[0]] + rest[0]] + rest[1..]
  }

  lemma {:induction false} SplitParts(s: string, c: char)
    ensures forall k :: 0 <= k < |Split(s, c)| ==> c !in Split(s, c)[k]
  {
    if s != [] {
      SplitParts(s[1..], c);
    }
  }

  /** sep.join(parts). */
  function Join(parts: seq<string>, sep: string): string
  {
    if parts == [] then ""
    else if |parts| == 1 then parts[0]
    else parts[0] + sep + Join(parts[1..], sep)
  }

  lemma {:induction false} SplitJoin(s: string, c: char)
    ensures Join(Split(s, c), [c]) == s
  {
    if s != [] {
      SplitJoin(s[1..], c);
      var rest := Split(s[1..], c);
      if s[0] != c {
        if |rest| > 1 {
          assert Join(rest, [c]) == rest[0] + [c] + Join(rest[1..], [c]);
        }
      }
    }
  }

  lemma {:induction false} JoinSplit(parts: seq<string>, c: char)
    requires |parts| >= 1
    requires forall k :: 0 <= k < |parts| ==> c !in parts[k]
    ensures Split(Join(parts, [c]), c) == parts
    decreases |parts|, |parts[0]|
  {
    if |parts| == 1 {
      SplitNoSep(parts[0], c);
    } else if parts[0] == [] {
      var tail := Join(parts[1..], [c]);
      assert Join(parts, [c]) == [c] + tail;
      assert ([c] + tail)[1..] == tail;
      JoinSplit(parts[1..], c);
      assert Split(Join(parts, [c]), c) == [""] + parts[1..];
    } else {
      var p0 := parts[0];
      var shorter := [p0[1..]] + parts[1..];
      JoinSplit(shorter, c);
      assert Join(shorter, [c]) == p0[1..] + [c] + Join(parts[1..], [c]);
      var j := Join(parts, [c]);
      assert j == [p0[0]] + Join(shorter, [c]);
      assert j[1..] == Join(shorter, [c]);
      assert [p0[0]] + p0[1..] == p0;
    }
  }

  lemma {:induction false} SplitNoSep(s: string, c: char)
    requires c !in s
    ensures Split(s, c) == [s]
  {
    if s != [] {
      SplitNoSep(s[1..], c);
      assert [s[0]] + s[1..] == s;
    }
  }

  // -------------------------------------------------------- replacement

  /** str.replace(o, n): every occurrence of o, left to right, without overlap. */
  function ReplaceAll(s: string, o: string, n: string): (r: string)
    requires |o| > 0
    decreases |s|
  {
    if |s| < |o| then s
    else if s[..|o|] == o then n + ReplaceAll(s[|o|..], o, n)
    else [s[0]] + ReplaceAll(s[1..], o, n)
  }

  /** Replacing one character by another is the character-wise map. */
  lemma {:induction false} ReplaceCharPointwise(s: string, a: char, b: char)
    ensures |ReplaceAll(s, [a], [b])| == |s|
    ensures forall i :: 0 <= i < |s| ==>
      ReplaceAll(s, [a], [b])[i] == (if s[i] == a then b else s[i])
  {
    if |s| > 0 {
      ReplaceCharPointwise(s[1..], a, b);
      if s[..1] == [a] {
        assert s[0] == a;
      } else {
        assert s[0] != a;
      }
    }
  }

  lemma ReplaceCharGone(s: string, a: char, b: char)
    requires a != b
    ensures a !in ReplaceAll(s, [a], [b])
  {
    ReplaceCharPointwise(s, a, b);
  }

  lemma {:induction false} ReplaceAbsent(s: string, o: string, n: string)
    requires |o| > 0
    requires forall i :: 0 <= i ==> !OccursAt(s, o, i)
    ensures ReplaceAll(s, o, n) == s
    decreases |s|
  {
    if |s| >= |o| {
      assert !OccursAt(s, o, 0);
      forall i | 0 <= i
        ensures !OccursAt(s[1..], o, i)
      {
        assert !OccursAt(s, o, i + 1);
        if i + |o| <= |s| - 1 {
          assert s[1..][i..i + |o|] == s[i + 1..i + 1 + |o|];
        }
      }
      ReplaceAbsent(s[1..], o, n);
    }
  }

  /** str.count(c) for one character. */
  function CountChar(s: string, c: char): nat
  {
    multiset(s)[c]
  }

  lemma CountSnoc(s: string, x: char, c: char)
    ensures CountChar(s + [x], c) == CountChar(s, c) + if x == c then 1 else 0
  {
    assert multiset(s + [x]) == multiset(s) + multiset{x};
  }

  /** `n * "s"` for n <= 0 is the empty string. */
  function Repeat(s: string, n: int): (r: string)
    ensures n <= 0 ==> r == ""
    ensures n > 0 ==> |r| == n * |s|
    decreases n
  {
    if n <= 0 then "" else s + Repeat(s, n - 1)
  }
}
