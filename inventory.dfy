// The block cache rules of Block: the three-slot level inventory that
// addToInventory fills, getLvlBlock reads and delete clears, the requirement
// edges addToInventory adds to the hierarchy graph, how a block was used
// (getRequiresCode), whether a release point is corrupt (isCorrupt), the pin
// decision and file filter of installPartialVersion, and the versions an
// uninstall selects.
module Inventory {
  import opened Strings
  import opened Version
  import opened Title
  import opened Lists
  import Apparatus
  import G = Graph

  /** Block.Level. */
  datatype Level = DNLD | INSTL | AVAIL | VER | TMP

  /** Block.Level(...).value. */
  function LevelValue(lvl: Level): nat
  {
    match lvl
    case DNLD => 0
    case INSTL => 1
    case AVAIL => 2
    case VER => 3
    case TMP => 9
  }

  /**
   * What these rules read of a block: vendor, library and name, the
   * metadata version (without its 'v'), the level, the 'requires' list
   * (None when the field is missing) and the path, which ends in '/'.
   */
  datatype Block = Block(m: string, l: string, n: string, version: string, lvl: Level,
                         reqs: Option<seq<string>>, path: string)

  /** The case-blind place of a block in the nested vendor/library/name map. */
  datatype Key = Key(m: string, l: string, n: string)

  function KeyOf(b: Block): Key
  {
    Key(Lower(b.m), Lower(b.l), Lower(b.n))
  }

  /** Block.V: the version with its 'v'. */
  function V(b: Block): string
  {
    "v" + b.version
  }

  /** getFull(inc_ver=True): the vertex a block is in the hierarchy. */
  function Vertex(b: Block): string
  {
    GetFull(b.m, b.l, b.n, V(b), true, [])
  }

  /** The slots a new vendor/library/name gets. */
  const NO_SLOTS: seq<Option<Block>> := [None, None, None]

  /** addToInventory accepts b: its level has no slot, or that slot is free. */
  predicate Admits(s: seq<Option<Block>>, b: Block)
    requires |s| == 3
  {
    LevelValue(b.lvl) >= 3 || s[LevelValue(b.lvl)].None?
  }

  /** The slots after addToInventory of b. */
  function Stored(s: seq<Option<Block>>, b: Block): (r: seq<Option<Block>>)
    requires |s| == 3
    ensures |r| == 3
  {
    if LevelValue(b.lvl) < 3 && s[LevelValue(b.lvl)].None? then s[LevelValue(b.lvl) := Some(b)] else s
  }

  /** The slots after delete of b. */
  function Cleared(s: seq<Option<Block>>, b: Block): (r: seq<Option<Block>>)
    requires |s| == 3
    ensures |r| == 3
  {
    if LevelValue(b.lvl) < 3 then s[LevelValue(b.lvl) := None] else s
  }

  /** The number of empty slots: `lvls.count(None)`. */
  function Empties(s: seq<Option<Block>>): nat
  {
    multiset(s)[None]
  }

  /**
   * delete asks before removing a block that is at no other level (one slot
   * taken), or a download when prompt is set.
   */
  predicate AsksConfirmation(s: seq<Option<Block>>, b: Block, prompt: bool)
  {
    Empties(s) == |s| - 1 || (b.lvl == DNLD && prompt)
  }

  /** One addEdge(a, d) for each d of ds, in order. */
  function Edges<V(!new)>(g: G.Adj<V>, a: V, ds: seq<V>): G.Adj<V>
  {
    if ds == [] then g else G.AddEdgeTo(Edges(g, a, ds[..|ds| - 1]), a, ds[|ds| - 1])
  }

  /** The vertices a 'requires' list names, partial versions stripped. */
  function Targets(reqs: seq<string>): (r: seq<string>)
    ensures |r| == |reqs| && forall i :: 0 <= i < |reqs| ==> r[i] == StripChain(reqs[i])
  {
    MapSeq(reqs, StripChain)
  }

  /** The hierarchy after an accepted addToInventory of b. */
  function Wired(g: G.Adj<string>, b: Block): G.Adj<string>
  {
    if b.reqs.None? then g
    else Edges(G.AddVertexTo(g, Vertex(b)), Vertex(b), Targets(b.reqs.value))
  }

  /**
   * The class-level Inventory map and Hierarchy graph of Block. The nested
   * case-blind vendor/library/name map is one map on lower-cased keys.
   */
  class Store {
    var slots: map<Key, seq<Option<Block>>>
    const hierarchy: G.Graph<string>

    ghost predicate Valid()
      reads this, hierarchy
    {
      (forall k :: k in slots ==> |slots[k]| == 3) && hierarchy.Valid()
    }

    constructor (h: G.Graph<string>)
      requires h.Valid()
      ensures Valid() && slots == map[] && hierarchy == h
    {
      slots := map[];
      hierarchy := h;
    }

    /** The slots of k; a new key starts with three empty slots. */
    function SlotsOf(k: Key): seq<Option<Block>>
      reads this
    {
      if k in slots then slots[k] else NO_SLOTS
    }

    /**
     * Block.addToInventory: the key is created with three empty slots; a
     * taken slot at b's level rejects b and leaves the graph alone; otherwise
     * b is stored (levels without a slot are not) and, when b lists its
     * requirements, its vertex and one edge per requirement are added.
     */
    method AddToInventory(b: Block) returns (ok: bool)
      requires Valid()
      modifies this, hierarchy
      ensures Valid()
      ensures ok == Admits(old(SlotsOf(KeyOf(b))), b)
      ensures slots == old(slots)[KeyOf(b) := Stored(old(SlotsOf(KeyOf(b))), b)]
      ensures hierarchy.Value() == if ok then Wired(old(hierarchy.Value()), b) else old(hierarchy.Value())
      ensures ok && LevelValue(b.lvl) < 3 ==> LvlBlock(KeyOf(b), b.lvl) == Some(b)
    {
      var k := KeyOf(b);
      if k !in slots {
        slots := slots[k := NO_SLOTS];
      }
      var s := slots[k];
      assert s == old(SlotsOf(KeyOf(b)));
      var lvl := LevelValue(b.lvl);
      if lvl < |s| {
        if s[lvl] != None {
          return false;
        }
        slots := slots[k := s[lvl := Some(b)]];
      }
      Wire(b);
      ok := true;
    }

    /** The graph half of addToInventory: b's vertex and its edges, when b lists its requirements. */
    method Wire(b: Block)
      requires hierarchy.Valid()
      modifies hierarchy
      ensures hierarchy.Valid() && hierarchy.Value() == Wired(old(hierarchy.Value()), b)
    {
      if b.reqs.Some? {
        var full := Vertex(b);
        hierarchy.AddVertex(full);
        Require(full, b.reqs.value);
      }
    }

    /** The loop of addToInventory over the requirements of the vertex full. */
    method Require(full: string, reqs: seq<string>)
      requires hierarchy.Valid() && full in hierarchy.adj
      modifies hierarchy
      ensures hierarchy.Valid() && hierarchy.Value() == Edges(old(hierarchy.Value()), full, Targets(reqs))
    {
      ghost var g := hierarchy.Value();
      var i := 0;
      while i < |reqs|
        invariant 0 <= i <= |reqs|
        invariant hierarchy.Valid() && hierarchy.Value() == Edges(g, full, Targets(reqs[..i]))
      {
        var d := reqs[i];
        var atI := RFind(d, "@");
        var vI := RFind(d, "(");
        d := Slice(d, 0, vI + 1) + Slice(d, atI, |d|);
        TargetsAppend(reqs, i);
        hierarchy.AddEdge(full, d);
        i := i + 1;
      }
      assert reqs[..i] == reqs;
    }

    /** Block.getLvlBlock: the block of the same title at a level that has a slot. */
    function LvlBlock(k: Key, lvl: Level): Option<Block>
      reads this
      requires k in slots && |slots[k]| == 3 && LevelValue(lvl) < 3
    {
      slots[k][LevelValue(lvl)]
    }

    /**
     * Block.delete: a block at no other level, or a download with prompt
     * set, is removed only when confirmed; a removed block's slot becomes
     * empty. The graph is not touched.
     */
    method Delete(b: Block, prompt: bool, confirmed: bool) returns (deleted: bool)
      requires Valid() && KeyOf(b) in slots
      modifies this
      ensures Valid()
      ensures deleted == (!AsksConfirmation(old(slots[KeyOf(b)]), b, prompt) || confirmed)
      ensures slots == if deleted then old(slots)[KeyOf(b) := Cleared(old(slots[KeyOf(b)]), b)] else old(slots)
    {
      var k := KeyOf(b);
      var lvls := slots[k];
      var yes := true;
      if Empties(lvls) == |lvls| - 1 {
        yes := confirmed;
      } else if b.lvl == DNLD && prompt {
        yes := confirmed;
      }
      if !yes {
        return false;
      }
      if LevelValue(b.lvl) < |lvls| {
        slots := slots[k := slots[k][LevelValue(b.lvl) := None]];
      }
      deleted := true;
    }
  }

  lemma TargetsAppend(reqs: seq<string>, i: int)
    requires 0 <= i < |reqs|
    ensures Targets(reqs[..i + 1]) == Targets(reqs[..i]) + [StripChain(reqs[i])]
  {
    MapSeqStep(reqs, StripChain, i);
  }

  // ------------------------------------------------------------ slot lemmas

  /**
   * An accepted block takes its level's slot; every other slot, and every
   * slot of a rejected block, stays as it was.
   */
  lemma StoredSpec(s: seq<Option<Block>>, b: Block)
    requires |s| == 3
    ensures Admits(s, b) && LevelValue(b.lvl) < 3 ==> Stored(s, b)[LevelValue(b.lvl)] == Some(b)
    ensures forall j :: 0 <= j < 3 && j != LevelValue(b.lvl) ==> Stored(s, b)[j] == s[j]
    ensures !Admits(s, b) || LevelValue(b.lvl) >= 3 ==> Stored(s, b) == s
  {
  }

  /** A second block of the same title and level is rejected. */
  lemma StoredRejectsSecond(s: seq<Option<Block>>, b: Block, c: Block)
    requires |s| == 3 && LevelValue(b.lvl) < 3 && c.lvl == b.lvl
    ensures !Admits(Stored(s, b), c)
  {
  }

  /** After delete the slot is free again and the block can be added back. */
  lemma ClearedReadmits(s: seq<Option<Block>>, b: Block)
    requires |s| == 3
    ensures Admits(Cleared(s, b), b)
    ensures LevelValue(b.lvl) < 3 ==> Stored(Cleared(s, b), b)[LevelValue(b.lvl)] == Some(b)
  {
  }

  /** A block that holds the only taken slot is removed only after confirmation: deleted == confirmed. */
  lemma SoleCopyAsks(b: Block, prompt: bool)
    requires LevelValue(b.lvl) < 3
    ensures AsksConfirmation(NO_SLOTS[LevelValue(b.lvl) := Some(b)], b, prompt)
  {
    var s := NO_SLOTS[LevelValue(b.lvl) := Some(b)];
    assert multiset(s)[None] == 2 by {
      if LevelValue(b.lvl) == 0 {
        assert s == [Some(b), None, None];
      } else if LevelValue(b.lvl) == 1 {
        assert s == [None, Some(b), None];
      } else {
        assert s == [None, None, Some(b)];
      }
    }
  }

  /** A block of a level with a slot sharing its title with blocks at both other levels is removed without asking, unless it is a prompted download. */
  lemma FullSlotsDoNotAsk(s: seq<Option<Block>>, b: Block, prompt: bool)
    requires |s| == 3 && s[0].Some? && s[1].Some? && s[2].Some?
    requires b.lvl != DNLD || !prompt
    ensures !AsksConfirmation(s, b, prompt)
  {
    assert s == [s[0], s[1], s[2]];
  }

  // ----------------------------------------------------------- graph lemmas

  /** The requirement edges keep the graph well formed. */
  lemma {:induction false} EdgesWellFormed<V(!new)>(g: G.Adj<V>, a: V, ds: seq<V>)
    requires G.WellFormed(g)
    ensures G.WellFormed(Edges(g, a, ds))
  {
    if ds != [] {
      var p := ds[..|ds| - 1];
      EdgesWellFormed(g, a, p);
      G.AddEdgeSpec(Edges(g, a, p), a, ds[|ds| - 1]);
    }
  }

  /** The requirement vertices: the old ones and the targets. */
  lemma {:induction false} EdgesVertices<V(!new)>(g: G.Adj<V>, a: V, ds: seq<V>)
    requires a in g.fwd
    ensures forall v :: v in Edges(g, a, ds).fwd <==> v in g.fwd || v in ds
  {
    if ds != [] {
      var p := ds[..|ds| - 1];
      var d := ds[|ds| - 1];
      EdgesVertices(g, a, p);
      G.AddEdgeExact(Edges(g, a, p), a, d);
      assert forall x :: x in ds <==> x in p || x == d by {
        assert ds == p + [d];
      }
    }
  }

  /** The list of a after the requirement edges: its old list and the targets. */
  lemma {:induction false} EdgesExact<V(!new)>(g: G.Adj<V>, a: V, ds: seq<V>)
    requires a in g.fwd
    ensures a in Edges(g, a, ds).fwd
    ensures forall w :: w in Edges(g, a, ds).fwd[a] <==> w in g.fwd[a] || w in ds
  {
    if ds != [] {
      var p := ds[..|ds| - 1];
      var d := ds[|ds| - 1];
      var h0 := Edges(g, a, p);
      EdgesExact(g, a, p);
      AddEdgeFrom(h0, a, d);
      assert forall x :: x in ds <==> x in p || x == d by {
        assert ds == p + [d];
      }
    }
  }

  /** addEdge from a vertex that is there already appends to its list only. */
  lemma AddEdgeFrom<V(!new)>(h: G.Adj<V>, a: V, d: V)
    requires a in h.fwd
    ensures a in G.AddEdgeTo(h, a, d).fwd
    ensures forall w :: w in G.AddEdgeTo(h, a, d).fwd[a] <==> w in h.fwd[a] || w == d
  {
    var h2 := G.AddVertexTo(G.AddVertexTo(h, a), d);
    assert h2.fwd[a] == h.fwd[a];
    G.LinkLists(h2, a, d);
  }

  /** A vertex other than a keeps its list. */
  lemma {:induction false} EdgesOthers<V(!new)>(g: G.Adj<V>, a: V, ds: seq<V>, v: V)
    requires v in g.fwd && v != a
    ensures v in Edges(g, a, ds).fwd && Edges(g, a, ds).fwd[v] == g.fwd[v]
  {
    if ds != [] {
      var p := ds[..|ds| - 1];
      EdgesOthers(g, a, p, v);
      var h0 := Edges(g, a, p);
      var h2 := G.AddVertexTo(G.AddVertexTo(h0, a), ds[|ds| - 1]);
      assert h2.fwd[v] == h0.fwd[v];
    }
  }

  /**
   * After an accepted addToInventory of a block that lists requirements, its
   * vertex points at exactly its old neighbours and the stripped
   * requirements, and every other vertex keeps its list; without a
   * 'requires' field the graph is unchanged.
   */
  lemma WiredSpec(g: G.Adj<string>, b: Block)
    requires G.WellFormed(g)
    ensures G.WellFormed(Wired(g, b))
    ensures b.reqs.None? ==> Wired(g, b) == g
    ensures b.reqs.Some? ==> Vertex(b) in Wired(g, b).fwd
    ensures b.reqs.Some? ==> forall w :: w in G.Neighbors(Wired(g, b), Vertex(b), false) <==>
      w in G.Neighbors(g, Vertex(b), false) || w in Targets(b.reqs.value)
    ensures b.reqs.Some? ==> forall v :: v in g.fwd && v != Vertex(b) ==>
      G.Neighbors(Wired(g, b), v, false) == G.Neighbors(g, v, false)
  {
    if b.reqs.Some? {
      var full := Vertex(b);
      var ds := Targets(b.reqs.value);
      var g1 := G.AddVertexTo(g, full);
      G.AddVertexSpec(g, full);
      WiredEdges(g, g1, full, ds);
      forall v | v in g.fwd && v != full
        ensures G.Neighbors(Edges(g1, full, ds), v, false) == G.Neighbors(g, v, false)
      {
        EdgesOthers(g1, full, ds, v);
      }
    }
  }

  /** The list of the block's own vertex after the requirement edges. */
  lemma WiredEdges(g: G.Adj<string>, g1: G.Adj<string>, full: string, ds: seq<string>)
    requires G.WellFormed(g) && g1 == G.AddVertexTo(g, full)
    ensures G.WellFormed(Edges(g1, full, ds)) && full in Edges(g1, full, ds).fwd
    ensures forall w :: w in G.Neighbors(Edges(g1, full, ds), full, false) <==>
      w in G.Neighbors(g, full, false) || w in ds
  {
    G.AddVertexSpec(g, full);
    assert forall w :: w in g1.fwd[full] <==> w in G.Neighbors(g, full, false);
    EdgesWellFormed(g1, full, ds);
    EdgesVertices(g1, full, ds);
    EdgesExact(g1, full, ds);
  }

  // ------------------------------------------------------ getRequiresCode

  /** The last component of a path: the tail of `os.path.split`. */
  function Tail(p: string): string
  {
    p[RFind(p, "/") + 1..]
  }

  /**
   * Block.getRequiresCode: 'unstable' for a download, 'latest' for the
   * main installation, the folder name for a partial version, 'v' + the
   * version otherwise.
   */
  function RequiresCode(b: Block): string
  {
    match b.lvl
    case DNLD => "unstable"
    case INSTL => "latest"
    case VER => Tail(Slice(b.path, 0, |b.path| - 1))
    case _ => V(b)
  }

  /**
   * A partial version installed at base + sub + "/" (the cache path
   * installPartialVersion creates) reports sub as its code.
   */
  lemma PartialCode(b: Block, base: string, sub: string)
    requires b.lvl == VER && b.path == base + sub + "/" && '/' !in sub
    requires base == "" || base[|base| - 1] == '/'
    ensures RequiresCode(b) == sub
  {
    var p := base + sub;
    assert Slice(b.path, 0, |b.path| - 1) == p;
    RFindChar(p, '/');
    if base == "" {
      assert p == sub;
    } else {
      assert p[|base| - 1] == '/';
      assert forall i :: |base| <= i < |p| ==> p[i] == sub[i - |base|];
    }
  }

  /** The codes of the three cached levels are never version tags. */
  lemma CodesDiffer(b: Block)
    requires b.lvl == DNLD || b.lvl == INSTL || b.lvl == AVAIL
    ensures RequiresCode(b) == "unstable" <==> b.lvl == DNLD
    ensures RequiresCode(b) == "latest" <==> b.lvl == INSTL
    ensures b.lvl == AVAIL ==> RequiresCode(b)[0] == 'v'
  {
    assert "unstable"[0] == 'u' && "latest"[0] == 'l' && V(b)[0] == 'v';
  }

  // ------------------------------------------------------------ isCorrupt

  /** Block.REQ_KEYS. */
  const REQ_KEYS: seq<string> := ["name", "library", "version", "remote", "vendor", "requires"]

  /** A metadata field isCorrupt rejects: missing, or an empty name or library. */
  predicate BadField(meta: map<string, string>, f: string)
  {
    f !in meta || ((f == "name" || f == "library") && meta[f] == "")
  }

  /**
   * A release point is corrupt when the marker file is missing, a required
   * field is bad, or the tag without its first character is not the
   * metadata version.
   */
  predicate Corrupt(valid: bool, meta: map<string, string>, ver: string)
  {
    !valid
    || (exists i :: 0 <= i < |REQ_KEYS| && BadField(meta, REQ_KEYS[i]))
    || ("version" in meta && Slice(ver, 1, |ver|) != meta["version"])
  }

  /**
   * Block.isCorrupt: `valid` is whether the marker file exists, `meta` the
   * 'block' section of the metadata.
   */
  method IsCorrupt(valid: bool, meta: map<string, string>, ver: string) returns (corrupt: bool)
    ensures corrupt <==> Corrupt(valid, meta, ver)
  {
    corrupt := false;
    if !valid {
      corrupt := true;
    } else {
      var i := 0;
      while i < |REQ_KEYS|
        invariant 0 <= i <= |REQ_KEYS|
        invariant corrupt <==> exists j :: 0 <= j < i && BadField(meta, REQ_KEYS[j])
        invariant corrupt ==> i == |REQ_KEYS|
      {
        var f := REQ_KEYS[i];
        if f !in meta {
          corrupt := true;
          i := |REQ_KEYS|;
        } else if (f == "name" || f == "library") && meta[f] == "" {
          corrupt := true;
          i := |REQ_KEYS|;
        } else {
          i := i + 1;
        }
      }
    }
    assert !corrupt ==> !BadField(meta, REQ_KEYS[2]);
    if !corrupt && Slice(ver, 1, |ver|) != meta["version"] {
      corrupt := true;
    }
  }

  /** A complete metadata section, tagged with 'v' + its own version, is not corrupt. */
  lemma TaggedNotCorrupt(meta: map<string, string>)
    requires forall f :: f in REQ_KEYS ==> f in meta
    requires meta["name"] != "" && meta["library"] != ""
    ensures !Corrupt(true, meta, "v" + meta["version"])
    ensures forall ver :: Slice(ver, 1, |ver|) != meta["version"] ==> Corrupt(true, meta, ver)
  {
    var ver := "v" + meta["version"];
    assert Slice(ver, 1, |ver|) == meta["version"];
    assert forall i :: 0 <= i < |REQ_KEYS| ==> REQ_KEYS[i] in REQ_KEYS;
  }

  // ------------------------------------------------- installPartialVersion

  /** The pin key: the first `places` dot-separated parts of ver. */
  function SubVer(ver: string, places: int): string
  {
    Join(Slice(Split(ver, '.'), 0, places), ".")
  }

  /** What installPartialVersion does with the pin of a version. */
  datatype PinAction = Keep | Replace | Create

  /**
   * The pin decision: `installs` maps each installed version folder to the
   * metadata version standing there. A standing version at least as high
   * as ver is kept; a lower one is replaced; a missing pin is created.
   */
  function Pin(ver: string, places: int, installs: map<string, string>): PinAction
  {
    var sub := SubVer(ver, places);
    if sub in installs then
      if CmpVer(ver, installs[sub]) == installs[sub] then Keep else Replace
    else Create
  }

  /** A standing pin is kept exactly when ver does not exceed it. */
  lemma PinKeeps(ver: string, places: int, installs: map<string, string>)
    ensures Pin(ver, places, installs) == Keep <==>
      SubVer(ver, places) in installs && VerLe(SepVer(ver), SepVer(installs[SubVer(ver, places)]))
    ensures Pin(ver, places, installs) == Replace <==>
      SubVer(ver, places) in installs && VerLt(SepVer(installs[SubVer(ver, places)]), SepVer(ver))
    ensures Pin(ver, places, installs) == Create <==> SubVer(ver, places) !in installs
  {
    var sub := SubVer(ver, places);
    if sub in installs {
      CmpVerRight(ver, installs[sub]);
      VerLeTotal(SepVer(ver), SepVer(installs[sub]));
    }
  }

  /** The pins of a formatted version vA.B.C are vA, vA.B and vA.B.C. */
  lemma SubVerFormat(v: Ver)
    ensures var a, b, c := IntToString(v.major), IntToString(v.minor), IntToString(v.patch);
      SubVer(Format(v), 1) == "v" + a
      && SubVer(Format(v), 2) == "v" + a + "." + b
      && SubVer(Format(v), 3) == Format(v)
  {
    var a, b, c := IntToString(v.major), IntToString(v.minor), IntToString(v.patch);
    NoDotInInt(v.major);
    NoDotInInt(v.minor);
    NoDotInInt(v.patch);
    var parts := ["v" + a, b, c];
    assert '.' !in "v" + a;
    JoinThree("v" + a, b, c);
    assert Format(v) == Join(parts, ".");
    JoinSplit(parts, '.');
    assert Slice(parts, 0, 1) == ["v" + a];
    assert Slice(parts, 0, 2) == ["v" + a, b];
    assert [b][..] == [b];
    assert Join(["v" + a, b], ".") == "v" + a + "." + Join([b], ".");
    assert Slice(parts, 0, 3) == parts;
  }

  /**
   * The extension `os.path.splitext` takes off a file name: from the last
   * '.', unless only dots precede it.
   */
  function Ext(f: string): string
  {
    var i := RFind(f, ".");
    if i > 0 && exists j :: 0 <= j < i && f[j] != '.' then f[i..] else ""
  }

  /**
   * A name the recursive `glob.glob` over the block folder does not match, so the
   * partial-version filter never sees it: one that starts with '.'.
   */
  predicate Hidden(fname: string)
  {
    fname != [] && fname[0] == '.'
  }

  /** A file kept in a partial version, as written: unseen, 'Block.cfg' or an HDL source. */
  predicate KeepFileAsWritten(fname: string)
  {
    Hidden(fname) || fname == "Block.cfg" || ("*" + Lower(Ext(fname))) in Apparatus.SRC_CODE
  }

  /** A file kept in a partial version: unseen, the marker file or an HDL source. */
  predicate KeepFile(fname: string)
  {
    Hidden(fname) || fname == Apparatus.MARKER || ("*" + Lower(Ext(fname))) in Apparatus.SRC_CODE
  }

  /**
   * A hidden file such as ".gitignore" stays in a partial version under both
   * filters, although its extension is not an HDL source.
   */
  lemma HiddenKept(fname: string)
    requires Hidden(fname)
    ensures KeepFile(fname) && KeepFileAsWritten(fname)
  {
  }

  /** The extension of a name with a non-dot first character is everything from its last '.'. */
  lemma ExtOf(stem: string, ext: string)
    requires stem != [] && stem[0] != '.' && '.' !in ext
    ensures Ext(stem + "." + ext) == "." + ext
  {
    var f := stem + "." + ext;
    RFindChar(f, '.');
    assert f[|stem|] == '.';
    assert forall i :: |stem| < i < |f| ==> f[i] == ext[i - |stem| - 1];
    assert RFind(f, ".") == |stem|;
    assert f[0] != '.';
    assert f[|stem|..] == "." + ext;
  }

  /** The marker's extension is ".lock". */
  lemma MarkerExt()
    ensures Lower(Ext(Apparatus.MARKER)) == ".lock"
  {
    assert Apparatus.MARKER == "Block" + "." + "lock";
    ExtOf("Block", "lock");
    LowerFixed(".lock");
  }

  /** ".lock" is not an HDL extension. */
  lemma LockNotSource()
    ensures "*.lock" !in Apparatus.SRC_CODE
  {
    var s := Apparatus.SRC_CODE;
    assert s == ["*.vhd", "*.vhdl", "*.v", "*.sv"];
    forall i | 0 <= i < |s| ensures s[i] != "*.lock" {
      assert |s[i]| != 6 || s[i][2] == 'v';
    }
  }

  /**
   * As written, the filter deletes the marker file, after which the new
   * partial version is not a valid block and is rejected as corrupt.
   */
  lemma PartialDropsMarker(meta: map<string, string>, ver: string)
    ensures !KeepFileAsWritten(Apparatus.MARKER)
    ensures Corrupt(KeepFileAsWritten(Apparatus.MARKER), meta, ver)
    ensures KeepFile(Apparatus.MARKER)
  {
    MarkerExt();
    LockNotSource();
    assert "*" + Lower(Ext(Apparatus.MARKER)) == "*.lock";
    assert Apparatus.MARKER != "Block.cfg" by {
      assert Apparatus.MARKER[6] == 'l';
    }
  }

  /** HDL sources are kept whatever the case of their extension. */
  lemma KeepSource(stem: string, ext: string)
    requires stem != [] && stem[0] != '.' && '.' !in ext
    requires "*." + Lower(ext) in Apparatus.SRC_CODE
    ensures KeepFile(stem + "." + ext) && KeepFileAsWritten(stem + "." + ext)
  {
    SourceExt(stem, ext);
  }

  /** The lowered extension of a name is "." and the lowered suffix. */
  lemma SourceExt(stem: string, ext: string)
    requires stem != [] && stem[0] != '.' && '.' !in ext
    ensures "*" + Lower(Ext(stem + "." + ext)) == "*." + Lower(ext)
  {
    ExtOf(stem, ext);
    LowerConcat(".", ext);
    assert Lower(".") == "." by { LowerFixed("."); }
  }

  // -------------------------------------------------------------- uninstall

  /** The uninstall rule: v has at least the parts of ver and agrees with each of them. */
  predicate Matches(parts: seq<string>, v: string)
  {
    var vp := Split(v, '.');
    |vp| >= |parts| && vp[..|parts|] == parts
  }

  /** The installations uninstall(ver) selects, in order. */
  function Selection(installs: seq<string>, parts: seq<string>): (r: seq<string>)
  {
    if installs == [] then []
    else
      var v := installs[|installs| - 1];
      Selection(installs[..|installs| - 1], parts) + (if Matches(parts, v) then [v] else [])
  }

  /** The selection keeps the order of the installations and holds exactly the matching ones. */
  lemma {:induction false} SelectionSpec(installs: seq<string>, parts: seq<string>)
    ensures forall v :: v in Selection(installs, parts) <==> v in installs && Matches(parts, v)
    ensures |Selection(installs, parts)| <= |installs|
  {
    if installs != [] {
      var p := installs[..|installs| - 1];
      SelectionSpec(p, parts);
      assert installs == p + [installs[|installs| - 1]];
    }
  }

  /** Every installed version of a major version is selected by that major version. */
  lemma MatchesLonger(parts: seq<string>, more: seq<string>)
    requires |parts| >= 1 && forall k :: 0 <= k < |parts + more| ==> '.' !in (parts + more)[k]
    ensures Matches(parts, Join(parts + more, "."))
  {
    JoinSplit(parts + more, '.');
    assert (parts + more)[..|parts|] == parts;
  }

  /**
   * The skip test of uninstall's inner loop for one installation: it
   * stops at the first part v lacks or disagrees on.
   */
  method Skips(parts: seq<string>, v: string) returns (skip: bool)
    ensures skip <==> !Matches(parts, v)
  {
    var vParts := Split(v, '.');
    skip := false;
    var i := 0;
    while i < |parts|
      invariant 0 <= i <= |parts|
      invariant !skip ==> i <= |vParts| && vParts[..i] == parts[..i]
      invariant skip ==> !Matches(parts, v)
    {
      if i >= |vParts| || vParts[i] != parts[i] {
        skip := true;
        assert !Matches(parts, v) by {
          if |vParts| >= |parts| {
            assert vParts[..|parts|][i] != parts[i];
          }
        }
        return;
      }
      i := i + 1;
    }
  }

  /**
   * Block.uninstall up to the deletions: `installed` is whether the main
   * installation exists, `installs` its version folders in order. A version
   * (standardised with its 'v') selects the matching folders; None selects
   * every folder and 'latest'. The call fails when nothing is installed,
   * nothing matches, or the user declines.
   */
  method Uninstall(installed: bool, installs: seq<string>, ver: Option<string>, confirmed: bool)
    returns (ok: bool, selected: seq<string>)
    ensures !installed ==> !ok && selected == []
    ensures installed && ver.None? ==> selected == installs + ["latest"] && ok == confirmed
    ensures installed && ver.Some? ==>
      selected == Selection(installs, Split(StdVer(ver.value, true, false, false), '.'))
      && ok == (selected != [] && confirmed)
  {
    if !installed {
      return false, [];
    }
    if ver.Some? {
      var std := StdVer(ver.value, true, false, false);
      var parts := Split(std, '.');
      selected := [];
      var k := 0;
      while k < |installs|
        invariant 0 <= k <= |installs|
        invariant selected == Selection(installs[..k], parts)
      {
        var skip := Skips(parts, installs[k]);
        assert installs[..k + 1][..k] == installs[..k];
        if !skip {
          selected := selected + [installs[k]];
        }
        k := k + 1;
      }
      assert installs[..k] == installs;
      if selected == [] {
        return false, selected;
      }
    } else {
      selected := installs + ["latest"];
    }
    ok := confirmed;
  }
}
