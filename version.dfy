// Version strings of blocks: the tolerant normaliser, the parser into three
// integers, the validity test, the comparison that favours its right argument,
// the merge sort from highest to lowest, the search for the highest tag and the
// extraction of versions from the repository's tag list.
module Version {
  import opened Strings
  import Apparatus

  /** A parsed version: the (major, minor, patch) tuple of the source. */
  datatype Ver = Ver(major: int, minor: int, patch: int)

  /** The version an untagged block reports. */
  const NULL_VER: string := "v0.0.0"

  /** Lexicographic order on (major, minor, patch), as Python orders tuples. */
  predicate VerLe(a: Ver, b: Ver)
  {
    a.major < b.major
    || (a.major == b.major && (a.minor < b.minor || (a.minor == b.minor && a.patch <= b.patch)))
  }

  predicate VerLt(a: Ver, b: Ver) { VerLe(a, b) && a != b }

  lemma VerLeTotal(a: Ver, b: Ver)
    ensures VerLe(a, b) || VerLe(b, a)
    ensures VerLe(a, b) && VerLe(b, a) ==> a == b
  {
  }

  lemma VerLeTrans(a: Ver, b: Ver, c: Ver)
    requires VerLe(a, b) && VerLe(b, c)
    ensures VerLe(a, c)
  {
  }

  /** "v" + str(major) + "." + str(minor) + "." + str(patch). */
  function Format(v: Ver): string
  {
    "v" + IntToString(v.major) + "." + IntToString(v.minor) + "." + IntToString(v.patch)
  }

  // ------------------------------------------------------------- stdVer

  /**
   * Block.stdVer: '_' becomes '.', then an optional leading 'v' is removed
   * (rmV) and/or added (addV), one trailing '.' is dropped and, with zExt, the
   * version is padded with ".0" up to three parts.
   */
  function StdVer(ver: string, addV: bool, rmV: bool, zExt: bool): string
  {
    var d := StdTrim(ReplaceAll(ver, "_", "."), addV, rmV);
    if zExt then PadThree(d) else d
  }

  /** The 'v' handling and the removal of one trailing '.'. */
  function StdTrim(a: string, addV: bool, rmV: bool): string
  {
    var b := if rmV && |a| > 0 && a[0] == 'v' then a[1..] else a;
    var c := if addV && |b| > 0 && b[0] != 'v' then "v" + b else b;
    if |c| > 0 && c[|c| - 1] == '.' then c[..|c| - 1] else c
  }

  /** The zExt padding: ".0" for every part missing from three. */
  function PadThree(d: string): string
  {
    d + Repeat(".0", 3 - |Split(d, '.')|)
  }

  /**
   * Without padding no '_' survives, and with addV alone a non-empty version
   * starts with 'v'.
   */
  lemma StdVerShape(ver: string, addV: bool, rmV: bool)
    ensures '_' !in StdVer(ver, addV, rmV, false)
    ensures addV && !rmV && ver != "" ==> var r := StdVer(ver, addV, rmV, false); |r| > 0 && r[0] == 'v'
  {
    ReplaceCharGone(ver, '_', '.');
    ReplaceCharPointwise(ver, '_', '.');
  }

  /** A version without '_' and without a trailing '.' is already standard. */
  lemma StdVerFixed(ver: string)
    requires '_' !in ver
    requires ver == "" || ver[|ver| - 1] != '.'
    ensures StdVer(ver, false, false, false) == ver
  {
    ReplaceCharPointwise(ver, '_', '.');
  }

  // ------------------------------------------------------------- sepVer

  /**
   * Block.sepVer: after stdVer and removal of a leading lower-case 'v', the
   * text before the first '.', between the first and the last '.', and after
   * the last '.' are read as integers; a part that int() rejects is 0. With no
   * '.' at all both indices are -1, so the slices are ver[:-1], ver[0:-1] and
   * ver[0:].
   */
  function SepVer(ver: string): Ver
  {
    SepStd(StdVer(ver, false, false, false))
  }

  /** The part of sepVer that follows stdVer. */
  function SepStd(s: string): Ver
  {
    if s == "" then Ver(0, 0, 0)
    else ReadParts(if s[0] == 'v' then s[1..] else s)
  }

  /** The three integers read around the first and the last '.' of t. */
  function ReadParts(t: string): Ver
  {
    var first := Find(t, ".");
    var last := RFind(t, ".");
    Ver(IntOrZero(Slice(t, 0, first)),
        IntOrZero(Slice(t, first + 1, last)),
        IntOrZero(Slice(t, last + 1, |t|)))
  }

  /** Splitting a three-part string at its first and its last '.'. */
  lemma FirstLastDot(t: string, a: string, b: string, c: string)
    requires t == a + "." + b + "." + c
    requires '.' !in a && '.' !in b && '.' !in c
    ensures Find(t, ".") == |a| && RFind(t, ".") == |a| + 1 + |b|
    ensures Slice(t, 0, Find(t, ".")) == a
    ensures Slice(t, Find(t, ".") + 1, RFind(t, ".")) == b
    ensures Slice(t, RFind(t, ".") + 1, |t|) == c
  {
    DotsAt(t, a, b, c);
    DotSlices(t, a, b, c);
  }

  lemma DotsAt(t: string, a: string, b: string, c: string)
    requires t == a + "." + b + "." + c
    requires '.' !in a && '.' !in b && '.' !in c
    ensures Find(t, ".") == |a| && RFind(t, ".") == |a| + 1 + |b|
  {
    FindChar(t, '.');
    RFindChar(t, '.');
    assert t[|a|] == '.';
    assert t[|a| + 1 + |b|] == '.';
    assert forall i :: 0 <= i < |a| ==> t[i] == a[i];
    assert forall i :: |a| + 1 + |b| < i < |t| ==> t[i] == c[i - |a| - 2 - |b|];
  }

  lemma DotSlices(t: string, a: string, b: string, c: string)
    requires t == a + "." + b + "." + c
    ensures t[..|a|] == a && t[|a| + 1..|a| + 1 + |b|] == b && t[|a| + 2 + |b|..] == c
  {
    var p := a + "." + b;
    assert t == p + ("." + c);
    assert t[..|a|] == p[..|a|];
    assert p[|a| + 1..] == b;
    assert t[|a| + 1..|a| + 1 + |b|] == p[|a| + 1..];
    assert t[|p| + 1..] == c;
  }

  /** Reading a string of three dot-free parts reads each part. */
  lemma ReadThree(t: string, a: string, b: string, c: string)
    requires t == a + "." + b + "." + c
    requires '.' !in a && '.' !in b && '.' !in c
    ensures ReadParts(t) == Ver(IntOrZero(a), IntOrZero(b), IntOrZero(c))
  {
    FirstLastDot(t, a, b, c);
  }

  lemma NoDotInInt(n: int)
    ensures '.' !in IntToString(n)
    ensures '_' !in IntToString(n)
    ensures |IntToString(n)| > 0 && IntToString(n)[|IntToString(n)| - 1] != '.'
  {
    var d := NatToString(if n < 0 then -n else n);
    assert forall i :: 0 <= i < |d| ==> IsDigit(d[i]);
  }

  /** Round trip: parsing a formatted version gives the version back. */
  lemma SepVerFormat(v: Ver)
    ensures SepVer(Format(v)) == v
  {
    var a, b, c := IntToString(v.major), IntToString(v.minor), IntToString(v.patch);
    NoDotInInt(v.major);
    NoDotInInt(v.minor);
    NoDotInInt(v.patch);
    var f := Format(v);
    assert f == "v" + (a + "." + b + "." + c);
    StdVerFixed(f);
    var t := a + "." + b + "." + c;
    assert f[1..] == t;
    ReadThree(t, a, b, c);
    ParseIntToString(v.major);
    ParseIntToString(v.minor);
    ParseIntToString(v.patch);
  }

  lemma SepVerEmpty()
    ensures SepVer("") == Ver(0, 0, 0)
  {
  }

  lemma SepVerNull()
    ensures SepVer(NULL_VER) == Ver(0, 0, 0)
  {
    assert Format(Ver(0, 0, 0)) == NULL_VER;
    SepVerFormat(Ver(0, 0, 0));
  }

  // ------------------------------------------------------------- cmpVer

  /**
   * Block.cmpVer: the higher of two versions; on equal versions the right
   * argument wins.
   */
  function CmpVer(lver: string, rver: string): (w: string)
    ensures w == (if VerLe(SepVer(lver), SepVer(rver)) then rver else lver)
  {
    var l, r := SepVer(lver), SepVer(rver);
    if l.major < r.major then rver
    else if l.major == r.major && l.minor < r.minor then rver
    else if l.major == r.major && l.minor == r.minor && l.patch <= r.patch then rver
    else lver
  }

  /** The reading every caller uses: `cmpVer(l, r) == r` holds iff l <= r. */
  lemma CmpVerRight(lver: string, rver: string)
    ensures CmpVer(lver, rver) == rver <==> VerLe(SepVer(lver), SepVer(rver))
  {
  }

  /** `cmpVer(l, r) == l` holds iff l > r or the two strings are the same. */
  lemma CmpVerLeft(lver: string, rver: string)
    ensures CmpVer(lver, rver) == lver <==> (VerLt(SepVer(rver), SepVer(lver)) || lver == rver)
  {
    if lver != rver && VerLe(SepVer(lver), SepVer(rver)) {
      VerLeTotal(SepVer(lver), SepVer(rver));
    }
  }

  // ------------------------------------------------------------ validVer

  /** The first part with one leading 'v' or 'V' removed. */
  function StripV(p: string): string
  {
    if |p| > 0 && LowerChar(p[0]) == 'v' then p[1..] else p
  }

  /**
   * Block.validVer: after stdVer the number of '.'-parts is one of places,
   * and every part, the first without its leading 'v'/'V', is decimal.
   */
  predicate ValidVer(ver: string, places: seq<int>)
  {
    var parts := Split(StdVer(ver, false, false, false), '.');
    |parts| in places
    && IsDecimal(StripV(parts[0]))
    && forall k :: 1 <= k < |parts| ==> IsDecimal(parts[k])
  }

  lemma {:induction false} JoinThree(a: string, b: string, c: string)
    ensures Join([a, b, c], ".") == a + "." + b + "." + c
  {
    assert [a, b, c][1..] == [b, c];
    assert [b, c][1..] == [c];
    assert Join([b, c], ".") == b + "." + c;
    assert a + "." + (b + "." + c) == a + "." + b + "." + c;
  }

  /** A formatted version of natural numbers is valid with three places. */
  lemma ValidVerFormat(v: Ver)
    requires v.major >= 0 && v.minor >= 0 && v.patch >= 0
    ensures ValidVer(Format(v), [3])
  {
    var a, b, c := IntToString(v.major), IntToString(v.minor), IntToString(v.patch);
    NoDotInInt(v.major);
    NoDotInInt(v.minor);
    NoDotInInt(v.patch);
    var f := Format(v);
    assert '_' !in f && f[|f| - 1] == c[|c| - 1];
    StdVerFixed(f);
    JoinThree("v" + a, b, c);
    assert f == Join(["v" + a, b, c], ".");
    assert '.' !in "v" + a;
    var parts := ["v" + a, b, c];
    JoinSplit(parts, '.');
    assert Split(StdVer(f, false, false, false), '.') == parts;
    assert StripV("v" + a) == a;
    assert IsDecimal(a) && IsDecimal(b) && IsDecimal(c);
  }

  /**
   * sepVer on a standard version of three dot-free parts: the first part,
   * without a leading lower-case 'v', and the other two are read as integers.
   */
  lemma SepStdThree(s: string, p0: string, p1: string, p2: string)
    requires s == p0 + "." + p1 + "." + p2
    requires '.' !in p0 && '.' !in p1 && '.' !in p2
    requires IsDecimal(StripV(p0)) && IsDecimal(p1) && IsDecimal(p2)
    requires p0 == "" || p0[0] != 'V'
    ensures SepStd(s) == Ver(DigitsValue(StripV(p0)), DigitsValue(p1), DigitsValue(p2))
  {
    var q := StripV(p0);
    if |p0| > 0 && p0[0] == 'v' {
      assert s[1..] == q + "." + p1 + "." + p2;
      ReadThree(s[1..], q, p1, p2);
    } else {
      assert q == p0;
      assert s[0] == p0[0];
      ReadThree(s, q, p1, p2);
    }
    ParseDecimal(q);
    ParseDecimal(p1);
    ParseDecimal(p2);
  }

  /** The three '.'-parts of a version valid with three places. */
  lemma ValidVerParts(ver: string)
    requires ValidVer(ver, [3])
    ensures var parts := Split(StdVer(ver, false, false, false), '.');
      |parts| == 3 && StdVer(ver, false, false, false) == parts[0] + "." + parts[1] + "." + parts[2]
      && '.' !in parts[0] && '.' !in parts[1] && '.' !in parts[2]
  {
    var s := StdVer(ver, false, false, false);
    var parts := Split(s, '.');
    SplitJoin(s, '.');
    SplitParts(s, '.');
    assert parts == [parts[0], parts[1], parts[2]];
    JoinThree(parts[0], parts[1], parts[2]);
  }

  /**
   * A valid three-part version that does not start with an upper-case 'V'
   * parses into the values of its three decimal parts.
   */
  lemma ValidVerSepVer(ver: string)
    requires ValidVer(ver, [3])
    requires ver == "" || ver[0] != 'V'
    ensures var parts := Split(StdVer(ver, false, false, false), '.');
      SepVer(ver) == Ver(DigitsValue(StripV(parts[0])), DigitsValue(parts[1]), DigitsValue(parts[2]))
  {
    var s := StdVer(ver, false, false, false);
    var parts := Split(s, '.');
    ValidVerParts(ver);
    ReplaceCharPointwise(ver, '_', '.');
    if |parts[0]| > 0 {
      assert s[0] == parts[0][0];
    }
    SepStdThree(s, parts[0], parts[1], parts[2]);
  }

  /**
   * validVer accepts a leading upper-case 'V' that sepVer does not remove, so
   * such a version always reads with major part 0.
   */
  lemma ValidVerUpperV(ver: string)
    requires ValidVer(ver, [3])
    requires |ver| > 0 && ver[0] == 'V'
    ensures SepVer(ver).major == 0
  {
    var s := StdVer(ver, false, false, false);
    ReplaceCharPointwise(ver, '_', '.');
    assert s[0] == 'V';
    FindSpec(s, ".");
    var f := Find(s, ".");
    if f >= 0 {
      assert f != 0;
    }
    var u := Slice(s, 0, f);
    assert u == [] || u[0] == 'V';
    ParseIntRejectsBadHead(u);
  }

  // -------------------------------------------------------- sortVersions
  //
  // The sorting facts are proved for any key function and then used with
  // SepVer, which keeps the version parser out of the sorting proofs.

  /** Highest first under key, as sortVersions promises with key SepVer. */
  predicate SortedDesc(s: seq<string>, key: string -> Ver)
  {
    forall i, j :: 0 <= i < j < |s| ==> VerLe(key(s[j]), key(s[i]))
  }

  /**
   * The inner merge of sortVersions. The source takes the right head when
   * `cmpVer(l[0], r[0]) == r[0]`, which CmpVerRight shows is the test
   * VerLe(SepVer(l[0]), SepVer(r[0])): the right head wins ties.
   */
  function Merge(l: seq<string>, r: seq<string>, key: string -> Ver): seq<string>
    decreases |l| + |r|
  {
    if l == [] then r
    else if r == [] then l
    else if VerLe(key(l[0]), key(r[0])) then [r[0]] + Merge(l, r[1..], key)
    else [l[0]] + Merge(l[1..], r, key)
  }

  /** Block.sortVersions: split at len/2, sort both halves, merge. */
  function MergeSort(s: seq<string>, key: string -> Ver): seq<string>
    decreases |s|
  {
    if |s| > 1 then Merge(MergeSort(s[..|s| / 2], key), MergeSort(s[|s| / 2..], key), key) else s
  }

  lemma SortedCons(x: string, s: seq<string>, key: string -> Ver)
    requires SortedDesc(s, key)
    requires forall y :: y in s ==> VerLe(key(y), key(x))
    ensures SortedDesc([x] + s, key)
  {
    var t := [x] + s;
    forall i, j | 0 <= i < j < |t|
      ensures VerLe(key(t[j]), key(t[i]))
    {
      if i > 0 {
        assert t[i] == s[i - 1] && t[j] == s[j - 1];
      } else {
        assert t[j] == s[j - 1];
        assert t[j] in s;
      }
    }
  }

  lemma {:induction false} MergePerm(l: seq<string>, r: seq<string>, key: string -> Ver)
    ensures multiset(Merge(l, r, key)) == multiset(l) + multiset(r)
    decreases |l| + |r|
  {
    if l != [] && r != [] {
      assert l == [l[0]] + l[1..];
      assert r == [r[0]] + r[1..];
      if VerLe(key(l[0]), key(r[0])) {
        MergePerm(l, r[1..], key);
      } else {
        MergePerm(l[1..], r, key);
      }
    }
  }

  /** The head of a list sorted highest first bounds every element. */
  lemma SortedHead(s: seq<string>, key: string -> Ver)
    requires SortedDesc(s, key) && |s| > 0
    ensures forall y :: y in s ==> VerLe(key(y), key(s[0]))
  {
    forall y | y in s
      ensures VerLe(key(y), key(s[0]))
    {
      var i :| 0 <= i < |s| && s[i] == y;
      if i > 0 {
        assert VerLe(key(s[i]), key(s[0]));
      }
    }
  }

  lemma {:induction false} MergeProps(l: seq<string>, r: seq<string>, key: string -> Ver)
    requires SortedDesc(l, key) && SortedDesc(r, key)
    ensures multiset(Merge(l, r, key)) == multiset(l) + multiset(r)
    ensures SortedDesc(Merge(l, r, key), key)
    decreases |l| + |r|
  {
    MergePerm(l, r, key);
    if l != [] && r != [] {
      SortedHead(l, key);
      SortedHead(r, key);
      if VerLe(key(l[0]), key(r[0])) {
        var rest := Merge(l, r[1..], key);
        MergeProps(l, r[1..], key);
        assert forall y :: y in rest ==> y in multiset(l) + multiset(r[1..]);
        assert forall y :: y in r[1..] ==> y in r;
        forall y | y in rest
          ensures VerLe(key(y), key(r[0]))
        {
          if y in l {
            VerLeTrans(key(y), key(l[0]), key(r[0]));
          }
        }
        SortedCons(r[0], rest, key);
      } else {
        var rest := Merge(l[1..], r, key);
        MergeProps(l[1..], r, key);
        VerLeTotal(key(l[0]), key(r[0]));
        assert forall y :: y in rest ==> y in multiset(l[1..]) + multiset(r);
        assert forall y :: y in l[1..] ==> y in l;
        forall y | y in rest
          ensures VerLe(key(y), key(l[0]))
        {
          if y in r {
            VerLeTrans(key(y), key(r[0]), key(l[0]));
          }
        }
        SortedCons(l[0], rest, key);
      }
    }
  }

  /** sortVersions returns a permutation of its input, highest first. */
  lemma MergeSortSorted(s: seq<string>, key: string -> Ver)
    ensures multiset(MergeSort(s, key)) == multiset(s)
    ensures SortedDesc(MergeSort(s, key), key)
  {
    MergeSortPerm(s, key);
    MergeSortOrder(s, key);
  }

  lemma {:induction false} MergeSortPerm(s: seq<string>, key: string -> Ver)
    ensures multiset(MergeSort(s, key)) == multiset(s)
    decreases |s|
  {
    if |s| > 1 {
      var a, b := s[..|s| / 2], s[|s| / 2..];
      MergeSortPerm(a, key);
      MergeSortPerm(b, key);
      MergePerm(MergeSort(a, key), MergeSort(b, key), key);
      assert s == a + b;
    }
  }

  lemma {:induction false} MergeSortOrder(s: seq<string>, key: string -> Ver)
    ensures SortedDesc(MergeSort(s, key), key)
    decreases |s|
  {
    if |s| > 1 {
      var a, b := s[..|s| / 2], s[|s| / 2..];
      MergeSortOrder(a, key);
      MergeSortOrder(b, key);
      MergeProps(MergeSort(a, key), MergeSort(b, key), key);
    }
  }

  /** The merge loop's invariant: what is output plus the rest's merge is the whole merge. */
  ghost predicate MergedSoFar(sorting: seq<string>, l: seq<string>, r: seq<string>,
                              l0: seq<string>, r0: seq<string>, key: string -> Ver)
  {
    sorting + Merge(l, r, key) == Merge(l0, r0, key)
  }

  /** One step of the merge keeps the invariant, whichever head is taken. */
  lemma MergeStepBy(sorting: seq<string>, l: seq<string>, r: seq<string>,
                    l0: seq<string>, r0: seq<string>, key: string -> Ver, takeRight: bool)
    requires |l| > 0 && |r| > 0 && MergedSoFar(sorting, l, r, l0, r0, key)
    requires takeRight == VerLe(key(l[0]), key(r[0]))
    ensures takeRight ==> MergedSoFar(sorting + [r[0]], l, r[1..], l0, r0, key)
    ensures !takeRight ==> MergedSoFar(sorting + [l[0]], l[1..], r, l0, r0, key)
  {
    if takeRight {
      assert Merge(l, r, key) == [r[0]] + Merge(l, r[1..], key);
      assert sorting + [r[0]] + Merge(l, r[1..], key) == sorting + Merge(l, r, key);
    } else {
      assert Merge(l, r, key) == [l[0]] + Merge(l[1..], r, key);
      assert sorting + [l[0]] + Merge(l[1..], r, key) == sorting + Merge(l, r, key);
    }
  }

  lemma MergeStep(sorting: seq<string>, l: seq<string>, r: seq<string>, l0: seq<string>, r0: seq<string>)
    requires |l| > 0 && |r| > 0 && MergedSoFar(sorting, l, r, l0, r0, SepVer)
    ensures CmpVer(l[0], r[0]) == r[0] ==> MergedSoFar(sorting + [r[0]], l, r[1..], l0, r0, SepVer)
    ensures CmpVer(l[0], r[0]) != r[0] ==> MergedSoFar(sorting + [l[0]], l[1..], r, l0, r0, SepVer)
  {
    CmpVerRight(l[0], r[0]);
    MergeStepBy(sorting, l, r, l0, r0, SepVer, CmpVer(l[0], r[0]) == r[0]);
  }

  /** Once one side is empty the rest of the merge is the other side. */
  lemma MergeDone(sorting: seq<string>, l: seq<string>, r: seq<string>,
                  l0: seq<string>, r0: seq<string>, key: string -> Ver)
    requires |l| == 0 || |r| == 0
    requires MergedSoFar(sorting, l, r, l0, r0, key)
    ensures sorting + l + r == Merge(l0, r0, key)
  {
    if |l| == 0 {
      assert Merge(l, r, key) == r;
    } else {
      assert Merge(l, r, key) == l;
    }
  }

  /** The merge loop of sortVersions, popping the heads of both lists. */
  method MergeLists(l0: seq<string>, r0: seq<string>) returns (sorting: seq<string>)
    ensures sorting == Merge(l0, r0, SepVer)
  {
    var l1, r1 := l0, r0;
    sorting := [];
    while |l1| > 0 && |r1| > 0
      invariant MergedSoFar(sorting, l1, r1, l0, r0, SepVer)
      decreases |l1| + |r1|
    {
      MergeStep(sorting, l1, r1, l0, r0);
      if CmpVer(l1[0], r1[0]) == r1[0] {
        sorting, r1 := sorting + [r1[0]], r1[1..];
      } else {
        sorting, l1 := sorting + [l1[0]], l1[1..];
      }
    }
    MergeDone(sorting, l1, r1, l0, r0, SepVer);
    if |l1| > 0 {
      sorting := sorting + l1;
    }
    if |r1| > 0 {
      sorting := sorting + r1;
    }
  }

  /** Block.sortVersions. */
  method SortVersions(unsorted: seq<string>) returns (sorted: seq<string>)
    ensures sorted == MergeSort(unsorted, SepVer)
    ensures SortedDesc(sorted, SepVer) && multiset(sorted) == multiset(unsorted)
    decreases |unsorted|
  {
    MergeSortSorted(unsorted, SepVer);
    var midpoint := |unsorted| / 2;
    if |unsorted| > 1 {
      var l := SortVersions(unsorted[..midpoint]);
      var r := SortVersions(unsorted[midpoint..]);
      sorted := MergeLists(l, r);
    } else {
      sorted := unsorted;
    }
  }

  // ---------------------------------------------- getHighestTaggedVersion

  /**
   * Block.getHighestTaggedVersion over an already-computed tag list: the
   * last of the maximal versions, or NULL_VER when every tag is below it.
   */
  method HighestTaggedVersion(tags: seq<string>) returns (highest: string)
    ensures highest == NULL_VER || highest in tags
    ensures VerLe(Ver(0, 0, 0), SepVer(highest))
    ensures forall j :: 0 <= j < |tags| ==> VerLe(SepVer(tags[j]), SepVer(highest))
    ensures highest in tags ==> exists i :: LastMaxAt(tags, i, highest, SepVer)
    ensures highest !in tags ==>
      highest == NULL_VER && forall j :: 0 <= j < |tags| ==> VerLt(SepVer(tags[j]), Ver(0, 0, 0))
  {
    SepVerNull();
    highest := NULL_VER;
    ghost var at := -1;
    var k := 0;
    while k < |tags|
      invariant 0 <= k <= |tags|
      invariant HighestSoFar(tags, k, highest, at, SepVer)
    {
      HighestStep(tags, k, highest, at);
      if CmpVer(highest, tags[k]) == tags[k] {
        highest, at := tags[k], k;
      }
      k := k + 1;
    }
    if highest in tags {
      var i :| 0 <= i < |tags| && tags[i] == highest;
      assert at != -1 by {
        if at == -1 {
          assert false;
        }
      }
      assert LastMaxAt(tags, at, highest, SepVer);
    }
  }

  /**
   * The loop state after the first k tags: highest bounds them and NULL_VER,
   * and it is tags[at] with every later tag strictly lower (at == -1 means
   * highest is still NULL_VER and every tag so far is below it).
   */
  ghost predicate HighestSoFar(tags: seq<string>, k: nat, highest: string, at: int, key: string -> Ver)
    requires k <= |tags|
  {
    -1 <= at < k
    && (at == -1 ==> highest == NULL_VER)
    && (at >= 0 ==> tags[at] == highest)
    && VerLe(Ver(0, 0, 0), key(highest))
    && (forall j :: 0 <= j < k ==> VerLe(key(tags[j]), key(highest)))
    && (forall j :: at < j < k ==> VerLt(key(tags[j]), key(highest)))
  }

  lemma HighestStepBy(tags: seq<string>, k: nat, highest: string, at: int, key: string -> Ver, take: bool)
    requires k < |tags| && HighestSoFar(tags, k, highest, at, key)
    requires take <==> VerLe(key(highest), key(tags[k]))
    ensures take ==> HighestSoFar(tags, k + 1, tags[k], k, key)
    ensures !take ==> HighestSoFar(tags, k + 1, highest, at, key)
  {
    var hk, tk := key(highest), key(tags[k]);
    VerLeTotal(hk, tk);
    if take {
      VerLeTrans(Ver(0, 0, 0), hk, tk);
      forall j | 0 <= j < k
        ensures VerLe(key(tags[j]), tk)
      {
        VerLeTrans(key(tags[j]), hk, tk);
      }
    }
  }

  lemma HighestStep(tags: seq<string>, k: nat, highest: string, at: int)
    requires k < |tags| && HighestSoFar(tags, k, highest, at, SepVer)
    ensures CmpVer(highest, tags[k]) == tags[k] ==> HighestSoFar(tags, k + 1, tags[k], k, SepVer)
    ensures CmpVer(highest, tags[k]) != tags[k] ==> HighestSoFar(tags, k + 1, highest, at, SepVer)
  {
    CmpVerRight(highest, tags[k]);
    HighestStepBy(tags, k, highest, at, SepVer, CmpVer(highest, tags[k]) == tags[k]);
  }

  /** tags[i] is the version h, and every later tag is strictly lower. */
  ghost predicate LastMaxAt(tags: seq<string>, i: int, h: string, key: string -> Ver)
  {
    0 <= i < |tags| && tags[i] == h && forall j :: i < j < |tags| ==> VerLt(key(tags[j]), key(h))
  }

  // ---------------------------------------------------- getTaggedVersions

  /** The version a single git tag stands for, if it is a release tag. */
  function TagVersion(t: string): Option<string>
  {
    if EndsWith(t, Apparatus.TAG_ID) then
      var v := Slice(t, 0, Find(t, Apparatus.TAG_ID));
      if ValidVer(v, [3]) then Some(v) else None
    else None
  }

  /** The release tags among the lines of `git tag -l`, in order. */
  function ReleaseVersions(lines: seq<string>): seq<string>
  {
    if lines == [] then []
    else match TagVersion(lines[0])
      case Some(v) => [v] + ReleaseVersions(lines[1..])
      case None => ReleaseVersions(lines[1..])
  }

  lemma {:induction false} ReleaseVersionsSound(lines: seq<string>)
    ensures forall v :: v in ReleaseVersions(lines) ==>
      ValidVer(v, [3]) && exists t :: t in lines && TagVersion(t) == Some(v)
  {
    if lines != [] {
      ReleaseVersionsSound(lines[1..]);
      forall v | v in ReleaseVersions(lines)
        ensures ValidVer(v, [3]) && exists t :: t in lines && TagVersion(t) == Some(v)
      {
        if TagVersion(lines[0]) == Some(v) {
          assert lines[0] in lines;
        } else {
          assert v in ReleaseVersions(lines[1..]);
          var t :| t in lines[1..] && TagVersion(t) == Some(v);
          assert t in lines;
        }
      }
    }
  }

  lemma {:induction false} ReleaseVersionsComplete(lines: seq<string>)
    ensures forall t :: t in lines && TagVersion(t).Some? ==> TagVersion(t).value in ReleaseVersions(lines)
  {
    if lines != [] {
      ReleaseVersionsComplete(lines[1..]);
    }
  }

  /** A release tag is its version followed by the tag suffix. */
  lemma TagOfVersion(v: string)
    requires ValidVer(v, [3])
    requires '-' !in v
    ensures TagVersion(v + Apparatus.TAG_ID) == Some(v)
  {
    var t := v + Apparatus.TAG_ID;
    var n := |Apparatus.TAG_ID|;
    assert t[|v|..|v| + n] == Apparatus.TAG_ID;
    assert OccursAt(t, Apparatus.TAG_ID, |v|);
    assert EndsWith(t, Apparatus.TAG_ID);
    forall i | 0 <= i < |v|
      ensures !OccursAt(t, Apparatus.TAG_ID, i)
    {
      assert t[i] == v[i] && v[i] != '-';
      MissesHead(t, Apparatus.TAG_ID, i);
    }
    FindSpec(t, Apparatus.TAG_ID);
    var f := Find(t, Apparatus.TAG_ID);
    assert f == |v|;
    assert Slice(t, 0, f) == v;
  }

  /**
   * Block.getTaggedVersions once the repository exists: split the tag list
   * on newlines and keep the valid versions of the tags ending in TAG_ID.
   */
  method TaggedVersions(allTags: string) returns (tags: seq<string>)
    ensures tags == ReleaseVersions(Split(allTags, '\n'))
    ensures forall v :: v in tags ==> ValidVer(v, [3])
  {
    var lines := Split(allTags, '\n');
    tags := [];
    var k := 0;
    while k < |lines|
      invariant 0 <= k <= |lines|
      invariant tags + ReleaseVersions(lines[k..]) == ReleaseVersions(lines)
    {
      assert lines[k..][1..] == lines[k + 1..];
      var t := lines[k];
      if EndsWith(t, Apparatus.TAG_ID) {
        t := Slice(t, 0, Find(t, Apparatus.TAG_ID));
        if ValidVer(t, [3]) {
          tags := tags + [t];
        }
      }
      k := k + 1;
    }
    ReleaseVersionsSound(lines);
  }
}
