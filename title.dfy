// Block titles: the vendor.library.name(version) identifiers that
// Block.snapTitle splits, Block.validTitle checks, Block.getFull builds and
// Block.getTitle slices, and the partial-version strip applied to
// requirement identifiers before they become graph vertices.
module Title {
  import opened Strings
  import opened Version

  /** The separator between a block name and an entity name. */
  const ENTITY_DELIM: char := ':'

  /** snapTitle's result: vendor, library, name, version and entity, '' where missing. */
  datatype Parts = Parts(m: string, l: string, n: string, v: string, e: string)

  /** The position a Python index between -3 and 2 names in a three-element list. */
  function Wrap(k: int): (p: int)
    requires -3 <= k <= 2
    ensures 0 <= p < 3 && (k >= 0 ==> p == k) && (k < 0 ==> p == k + 3)
  {
    if k < 0 then k + 3 else k
  }

  /**
   * The for loop of snapTitle, from pieces[i] down to pieces[0]: each piece
   * is written to sects[3 - |pieces| + i]. An index below -3 is the
   * IndexError a title of seven or more pieces raises: None.
   */
  function Place(sects: seq<string>, pieces: seq<string>, i: int): (r: Option<seq<string>>)
    requires |sects| == 3 && -1 <= i < |pieces|
    ensures r.Some? ==> |r.value| == 3
    decreases i + 1
  {
    if i < 0 then Some(sects)
    else
      var k := 3 - |pieces| + i;
      if k < -3 then None else Place(sects[Wrap(k) := pieces[i]], pieces, i - 1)
  }

  /** The three title sections snapTitle fills from the pieces of a title. */
  function Sects(pieces: seq<string>): (r: Option<seq<string>>)
    ensures r.Some? ==> |r.value| == 3
  {
    Place(["", "", ""], pieces, |pieces| - 1)
  }

  /**
   * Block.snapTitle. A version label is the text between the last '(' and
   * the final character, standardised; the rest is split on delim and the
   * pieces are right-aligned into vendor, library and name; an entity is
   * cut from the name at the first ENTITY_DELIM, or, with incEnt and no
   * delimiter, the whole name is taken for the entity. None is the
   * IndexError of a title with seven or more pieces.
   */
  function SnapTitle(title: Option<string>, incEnt: bool, delim: char): Option<Parts>
  {
    if title.None? then Some(Parts("", "", "", "", ""))
    else
      match Sects(Split(Unlabelled(title.value), delim))
      case None => None
      case Some(s) => Some(Cut(s, Label(title.value), incEnt))
  }

  /** The standardised text between the last '(' and the final character; '' without a '('. */
  function Label(t: string): string
  {
    var vi := RFind(t, "(");
    if vi > -1 then StdVer(Slice(t, vi + 1, -1), false, false, false) else ""
  }

  /** The title before its last '('. */
  function Unlabelled(t: string): (r: string)
    ensures |r| <= |t|
  {
    var vi := RFind(t, "(");
    if vi > -1 then t[..vi] else t
  }

  /** The entity cut of snapTitle applied to the three sections. */
  function Cut(s: seq<string>, v: string, incEnt: bool): Parts
    requires |s| == 3
  {
    if CountChar(s[2], ENTITY_DELIM) > 0 then
      var i := Find(s[2], [ENTITY_DELIM]);
      Parts(s[0], s[1], Slice(s[2], 0, i), v, if incEnt then Slice(s[2], i + 1, |s[2]|) else "")
    else if incEnt then Parts(s[0], s[1], "", v, s[2])
    else Parts(s[0], s[1], s[2], v, "")
  }

  /** Block.validTitle: a library and a name are present; None when snapTitle raises. */
  function ValidTitle(title: string): Option<bool>
  {
    match SnapTitle(Some(title), false, '.')
    case None => None
    case Some(p) => Some(p.n != "" && p.l != "")
  }

  /** The version chain of getFull: each version is put in front of the chain with a '-'. */
  function Chain(vers: seq<string>, acc: string): string
    decreases |vers|
  {
    if vers == [] then acc else Chain(vers[1..], vers[0] + "-" + acc)
  }

  /** M.L.N, with the vendor and its dot left out when the vendor is empty. */
  function Base(m: string, l: string, n: string): string
  {
    (if m != "" then m + "." else "") + l + "." + n
  }

  /**
   * Block.getFull for a block whose vendor, library, name and version
   * (with its 'v') are m, l, n and v: with incVer the title is followed by
   * "(" + chain + ")", the chain being the versions sorted highest first,
   * each put in front of "@" + v.
   */
  function GetFull(m: string, l: string, n: string, v: string, incVer: bool, vers: seq<string>): string
  {
    if incVer then Base(m, l, n) + "(" + Chain(MergeSort(vers, SepVer), "@" + v) + ")"
    else Base(m, l, n)
  }

  /** Block.getTitle: the tuple slice (M, L, N)[index - dist : index + 1]. */
  function GetTitle(m: string, l: string, n: string, index: int, dist: int): seq<string>
  {
    Slice([m, l, n], index - dist, index + 1)
  }

  /**
   * The identifier of a requirement with its partial versions removed, as
   * addToInventory writes it before adding the edge:
   * `d[:d.rfind('(') + 1] + d[d.rfind('@'):]`.
   */
  function StripChain(d: string): string
  {
    Slice(d, 0, RFind(d, "(") + 1) + Slice(d, RFind(d, "@"), |d|)
  }

  // ------------------------------------------------------------ lemmas

  /** One to three pieces are right-aligned into the three sections. */
  lemma SectsFew(pieces: seq<string>)
    requires 1 <= |pieces| <= 3
    ensures |pieces| == 1 ==> Sects(pieces) == Some(["", "", pieces[0]])
    ensures |pieces| == 2 ==> Sects(pieces) == Some(["", pieces[0], pieces[1]])
    ensures |pieces| == 3 ==> Sects(pieces) == Some(pieces)
  {
    var e := ["", "", ""];
    if |pieces| == 1 {
      assert Place(e, pieces, 0) == Place(e[2 := pieces[0]], pieces, -1);
      assert e[2 := pieces[0]] == ["", "", pieces[0]];
    } else if |pieces| == 2 {
      var s1 := e[2 := pieces[1]];
      assert Place(e, pieces, 1) == Place(s1, pieces, 0);
      assert Place(s1, pieces, 0) == Place(s1[1 := pieces[0]], pieces, -1);
      assert s1[1 := pieces[0]] == ["", pieces[0], pieces[1]];
    } else {
      var s1 := e[2 := pieces[2]];
      var s2 := s1[1 := pieces[1]];
      assert Place(e, pieces, 2) == Place(s1, pieces, 1);
      assert Place(s1, pieces, 1) == Place(s2, pieces, 0);
      assert Place(s2, pieces, 0) == Place(s2[0 := pieces[0]], pieces, -1);
      assert s2[0 := pieces[0]] == pieces;
    }
  }

  /**
   * Four to six pieces wrap around the three sections through Python's
   * negative indices, so the leading pieces overwrite later sections.
   */
  lemma SectsWrap(pieces: seq<string>)
    requires 4 <= |pieces| <= 6
    ensures |pieces| == 4 ==> Sects(pieces) == Some([pieces[1], pieces[2], pieces[0]])
    ensures |pieces| == 5 ==> Sects(pieces) == Some([pieces[2], pieces[0], pieces[1]])
    ensures |pieces| == 6 ==> Sects(pieces) == Some([pieces[0], pieces[1], pieces[2]])
  {
    var e := ["", "", ""];
    if |pieces| == 4 {
      var s1 := e[2 := pieces[3]];
      var s2 := s1[1 := pieces[2]];
      var s3 := s2[0 := pieces[1]];
      assert Place(e, pieces, 3) == Place(s1, pieces, 2);
      assert Place(s1, pieces, 2) == Place(s2, pieces, 1);
      assert Place(s2, pieces, 1) == Place(s3, pieces, 0);
      assert Place(s3, pieces, 0) == Place(s3[2 := pieces[0]], pieces, -1);
      assert s3[2 := pieces[0]] == [pieces[1], pieces[2], pieces[0]];
    } else if |pieces| == 5 {
      var s1 := e[2 := pieces[4]];
      var s2 := s1[1 := pieces[3]];
      var s3 := s2[0 := pieces[2]];
      var s4 := s3[2 := pieces[1]];
      assert Place(e, pieces, 4) == Place(s1, pieces, 3);
      assert Place(s1, pieces, 3) == Place(s2, pieces, 2);
      assert Place(s2, pieces, 2) == Place(s3, pieces, 1);
      assert Place(s3, pieces, 1) == Place(s4, pieces, 0);
      assert Place(s4, pieces, 0) == Place(s4[1 := pieces[0]], pieces, -1);
      assert s4[1 := pieces[0]] == [pieces[2], pieces[0], pieces[1]];
    } else {
      var s1 := e[2 := pieces[5]];
      var s2 := s1[1 := pieces[4]];
      var s3 := s2[0 := pieces[3]];
      var s4 := s3[2 := pieces[2]];
      var s5 := s4[1 := pieces[1]];
      assert Place(e, pieces, 5) == Place(s1, pieces, 4);
      assert Place(s1, pieces, 4) == Place(s2, pieces, 3);
      assert Place(s2, pieces, 3) == Place(s3, pieces, 2);
      assert Place(s3, pieces, 2) == Place(s4, pieces, 1);
      assert Place(s4, pieces, 1) == Place(s5, pieces, 0);
      assert Place(s5, pieces, 0) == Place(s5[0 := pieces[0]], pieces, -1);
      assert s5[0 := pieces[0]] == [pieces[0], pieces[1], pieces[2]];
    }
  }

  /** Seven or more pieces reach sects[3 - |pieces|], below -3: snapTitle raises. */
  lemma {:induction false} PlaceMany(sects: seq<string>, pieces: seq<string>, i: int)
    requires |sects| == 3 && 0 <= i < |pieces| && |pieces| >= 7
    ensures Place(sects, pieces, i) == None
    decreases i
  {
    var k := 3 - |pieces| + i;
    if k >= -3 {
      PlaceMany(sects[Wrap(k) := pieces[i]], pieces, i - 1);
    }
  }

  lemma SnapTitleMany(title: string, incEnt: bool, delim: char)
    requires '(' !in title && |Split(title, delim)| >= 7
    ensures SnapTitle(Some(title), incEnt, delim) == None
  {
    NoLabel(title);
    var pieces := Split(Unlabelled(title), delim);
    PlaceMany(["", "", ""], pieces, |pieces| - 1);
    assert Sects(pieces) == None;
  }

  /** The title pieces of Base are its non-empty components. */
  lemma SplitBase(m: string, l: string, n: string)
    requires '.' !in m && '.' !in l && '.' !in n
    ensures Split(Base(m, l, n), '.') == if m != "" then [m, l, n] else [l, n]
  {
    assert [l, n][1..] == [n];
    assert Join([n], ".") == n;
    assert Join([l, n], ".") == l + "." + n;
    if m != "" {
      assert [m, l, n][1..] == [l, n];
      assert Join([m, l, n], ".") == m + "." + (l + "." + n);
      assert Base(m, l, n) == m + "." + (l + "." + n);
      JoinSplit([m, l, n], '.');
    } else {
      assert Base(m, l, n) == l + "." + n;
      JoinSplit([l, n], '.');
    }
  }

  /** The sections snapTitle reads from a Base title are its components. */
  lemma SectsBase(m: string, l: string, n: string)
    requires '.' !in m && '.' !in l && '.' !in n
    ensures Sects(Split(Base(m, l, n), '.')) == Some([m, l, n])
  {
    SplitBase(m, l, n);
    if m != "" {
      SectsFew([m, l, n]);
    } else {
      SectsFew([l, n]);
    }
  }

  /** Components free of separators survive getFull followed by snapTitle. */
  lemma SnapFull(m: string, l: string, n: string)
    requires '.' !in m && '.' !in l && '.' !in n
    requires '(' !in Base(m, l, n) && ENTITY_DELIM !in n
    ensures SnapTitle(Some(GetFull(m, l, n, "", false, [])), false, '.') == Some(Parts(m, l, n, "", ""))
  {
    NoLabel(Base(m, l, n));
    SectsBase(m, l, n);
  }

  /** No character absent from the versions and the accumulator appears in the chain. */
  lemma {:induction false} ChainFree(vers: seq<string>, acc: string, c: char)
    requires c != '-' && c !in acc && forall x :: x in vers ==> c !in x
    ensures c !in Chain(vers, acc)
    decreases |vers|
  {
    if vers != [] {
      ChainFree(vers[1..], vers[0] + "-" + acc, c);
    }
  }

  /** The last '(' of a title with a version label is the one getFull put there. */
  lemma LabelAt(base: string, chain: string)
    requires '(' !in chain
    ensures RFind(base + "(" + chain + ")", "(") == |base|
  {
    var t := base + "(" + chain + ")";
    RFindChar(t, '(');
    assert t[|base|] == '(';
    assert forall i :: |base| < i < |t| ==> t[i] != '(' by {
      assert forall i :: |base| < i < |t| - 1 ==> t[i] == chain[i - |base| - 1];
    }
  }

  /**
   * snapTitle reads back a versioned getFull title: the components, and the
   * standardised version chain for the version.
   */
  lemma SnapFullVersion(m: string, l: string, n: string, v: string, vers: seq<string>)
    requires '.' !in m && '.' !in l && '.' !in n
    requires '(' !in Base(m, l, n) && ENTITY_DELIM !in n
    requires '(' !in v && forall x :: x in vers ==> '(' !in x
    ensures SnapTitle(Some(GetFull(m, l, n, v, true, vers)), false, '.')
         == Some(Parts(m, l, n, StdVer(Chain(MergeSort(vers, SepVer), "@" + v), false, false, false), ""))
  {
    var sorted := MergeSort(vers, SepVer);
    MergeSortSorted(vers, SepVer);
    assert forall x :: x in sorted ==> x in multiset(vers);
    var chain := Chain(sorted, "@" + v);
    ChainFree(sorted, "@" + v, '(');
    Labelled(Base(m, l, n), chain);
    SectsBase(m, l, n);
  }

  /** A title followed by "(" + chain + ")", with no '(' in the chain, has the chain as its label. */
  lemma Labelled(base: string, chain: string)
    requires '(' !in chain
    ensures var t := base + "(" + chain + ")";
      Unlabelled(t) == base && Label(t) == StdVer(chain, false, false, false)
  {
    var t := base + "(" + chain + ")";
    LabelAt(base, chain);
    assert t[..|base|] == base;
    assert t == (base + "(") + chain + ")";
    assert t[|base| + 1..|t| - 1] == chain;
    assert Slice(t, |base| + 1, -1) == chain;
  }

  /** validTitle of a getFull title is exactly: library and name are present. */
  lemma ValidTitleFull(m: string, l: string, n: string)
    requires '.' !in m && '.' !in l && '.' !in n
    requires '(' !in Base(m, l, n) && ENTITY_DELIM !in n
    ensures ValidTitle(GetFull(m, l, n, "", false, [])) == Some(l != "" && n != "")
  {
    SnapFull(m, l, n);
  }

  /** A title without '(' has no version label. */
  lemma NoLabel(t: string)
    requires '(' !in t
    ensures Label(t) == "" && Unlabelled(t) == t
  {
    RFindChar(t, '(');
  }

  /** A name with an entity attached is cut at the first delimiter. */
  lemma SnapEntity(m: string, l: string, n: string, e: string)
    requires '.' !in m && '.' !in l && '.' !in n && '.' !in e
    requires '(' !in m && '(' !in l && '(' !in n && '(' !in e
    requires ENTITY_DELIM !in n
    ensures SnapTitle(Some(Base(m, l, n) + [ENTITY_DELIM] + e), true, '.') == Some(Parts(m, l, n, "", e))
  {
    var u := n + [ENTITY_DELIM] + e;
    var t := Base(m, l, u);
    assert t == Base(m, l, n) + [ENTITY_DELIM] + e;
    assert '.' !in u && '(' !in u;
    assert '(' !in t;
    NoLabel(t);
    SectsBase(m, l, u);
    CutEntity(m, l, n, e);
  }

  /** The cut of a name with an entity attached. */
  lemma CutEntity(m: string, l: string, n: string, e: string)
    requires ENTITY_DELIM !in n
    ensures Cut([m, l, n + [ENTITY_DELIM] + e], "", true) == Parts(m, l, n, "", e)
  {
    var u := n + [ENTITY_DELIM] + e;
    DelimAt(n, e);
    DelimCounted(n, e);
    assert u == (n + [ENTITY_DELIM]) + e;
    assert u[..|n|] == n;
    assert u[|n + [ENTITY_DELIM]|..] == e;
  }

  lemma DelimCounted(n: string, e: string)
    ensures CountChar(n + [ENTITY_DELIM] + e, ENTITY_DELIM) > 0
  {
    var u := n + [ENTITY_DELIM] + e;
    assert u[|n|] == ENTITY_DELIM;
    assert u[|n|] in multiset(u);
  }

  lemma DelimAt(n: string, e: string)
    requires ENTITY_DELIM !in n
    ensures Find(n + [ENTITY_DELIM] + e, [ENTITY_DELIM]) == |n|
  {
    var u := n + [ENTITY_DELIM] + e;
    assert forall i :: 0 <= i < |n| ==> u[i] == n[i];
    FindCharAt(u, ENTITY_DELIM, |n|);
  }

  /** getTitle with 0 <= dist <= index <= 2 gives the dist + 1 sections ending at index. */
  lemma GetTitleSpec(m: string, l: string, n: string, index: int, dist: int)
    requires 0 <= dist <= index <= 2
    ensures var r := GetTitle(m, l, n, index, dist);
      |r| == dist + 1 && r[dist] == [m, l, n][index]
      && forall k :: 0 <= k <= dist ==> r[k] == [m, l, n][index - dist + k]
  {
  }

  /**
   * getTitle with dist above index: the negative start counts back from the
   * end of the tuple, so the slice runs from position 3 + index - dist (or
   * from 0 when that is negative) and is empty when that lies past index.
   */
  lemma GetTitleWraps(m: string, l: string, n: string, index: int, dist: int)
    requires 0 <= index <= 2 && index < dist
    ensures var t, s := [m, l, n], 3 + index - dist;
      GetTitle(m, l, n, index, dist)
        == if s <= 0 then t[..index + 1] else if s <= index + 1 then t[s..index + 1] else []
    ensures GetTitle(m, l, n, 0, 1) == [] && GetTitle(m, l, n, 1, 2) == []
    ensures GetTitle(m, l, n, 2, 3) == [n] && GetTitle(m, l, n, 2, 4) == [l, n]
  {
  }

  /** Stripping the partial versions of a versioned getFull title leaves the plain versioned title. */
  lemma StripChainFull(m: string, l: string, n: string, v: string, vers: seq<string>)
    requires '(' !in v && '@' !in v && forall x :: x in vers ==> '(' !in x && '@' !in x
    ensures StripChain(GetFull(m, l, n, v, true, vers)) == GetFull(m, l, n, v, true, [])
  {
    SortedFree(vers);
    var pre := ChainPrefix(MergeSort(vers, SepVer), "@" + v);
    var base := Base(m, l, n);
    assert GetFull(m, l, n, v, true, vers) == base + "(" + (pre + ("@" + v)) + ")";
    StripShape(base, pre, v);
    assert MergeSort([], SepVer) == [];
    assert GetFull(m, l, n, v, true, []) == base + "(" + ("@" + v) + ")";
  }

  /** Sorting brings in no new versions. */
  lemma SortedFree(vers: seq<string>)
    requires forall x :: x in vers ==> '(' !in x && '@' !in x
    ensures forall x :: x in MergeSort(vers, SepVer) ==> '(' !in x && '@' !in x
  {
    MergeSortSorted(vers, SepVer);
    assert forall x :: x in MergeSort(vers, SepVer) ==> x in multiset(vers);
  }

  /** The strip keeps what precedes the last '(' and what follows the last '@'. */
  lemma StripShape(base: string, pre: string, v: string)
    requires '(' !in pre && '@' !in pre && '(' !in v && '@' !in v
    ensures StripChain(base + "(" + (pre + ("@" + v)) + ")") == base + "(" + ("@" + v) + ")"
  {
    var t := base + "(" + (pre + ("@" + v)) + ")";
    var c := pre + "@" + v;
    assert '(' !in c;
    assert t == base + "(" + c + ")";
    LabelAt(base, c);
    var head, tail := base + "(" + pre, ("@" + v) + ")";
    assert t == head + "@" + (v + ")") == head + tail;
    LastAt(head, v + ")");
    StripAt(t, |base|, |head|);
    assert t[|head|..] == tail;
    assert t == (base + "(") + (pre + tail);
    assert t[..|base| + 1] == base + "(";
  }

  /** With the last '(' at i and the last '@' at j, the strip is t[..i + 1] + t[j..]. */
  lemma StripAt(t: string, i: int, j: int)
    requires 0 <= i < |t| && 0 <= j
    requires RFind(t, "(") == i && RFind(t, "@") == j
    ensures StripChain(t) == t[..i + 1] + t[j..]
  {
  }

  /** The chain is a free prefix followed by the accumulator. */
  lemma {:induction false} ChainPrefix(vers: seq<string>, acc: string) returns (pre: string)
    requires forall x :: x in vers ==> '(' !in x && '@' !in x
    ensures Chain(vers, acc) == pre + acc && '(' !in pre && '@' !in pre
    decreases |vers|
  {
    if vers == [] {
      pre := "";
    } else {
      var p := ChainPrefix(vers[1..], vers[0] + "-" + acc);
      pre := p + vers[0] + "-";
      assert '(' !in pre && '@' !in pre by {
        assert forall i :: 0 <= i < |pre| ==> pre[i] in p || pre[i] in vers[0] || pre[i] == '-';
        assert vers[0] in vers;
      }
    }
  }

  /** The last '@' of a + "@" + b, with b free of '@', is the one between them. */
  lemma LastAt(a: string, b: string)
    requires '@' !in b
    ensures RFind(a + "@" + b, "@") == |a|
  {
    var t := a + "@" + b;
    RFindChar(t, '@');
    assert t[|a|] == '@';
    assert forall i :: |a| < i < |t| ==> t[i] == b[i - |a| - 1];
  }
}
