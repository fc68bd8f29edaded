// Block.checkStability: a release may not depend, directly or through the
// requirements of its requirements, on a block used at its 'unstable'
// (downloaded, in-development) level. The walk reads the hierarchy graph for
// the next requirements and the cache for the requirement list each one was
// installed with.
module Stability {
  import opened Strings
  import opened Title
  import G = Graph
  import Inventory
  import Lists

  // ------------------------------------------------------------ the cache

  /**
   * What the cache holds for one block: the requirement list of its
   * installation at the 'latest' slot and, for each installed version (keyed
   * lower-case, as the case-insensitive Map stores it), the requirement list
   * of that version.
   */
  datatype Installed = Installed(latest: seq<string>, installs: map<string, seq<string>>)

  /** The cache keyed by (vendor, library, name); None is an empty INSTL slot. */
  type Cache = map<Inventory.Key, Option<Installed>>

  /** A title snapTitle splits without raising (fewer than seven pieces). */
  predicate Titled(r: string)
  {
    SnapTitle(Some(r), false, '.').Some?
  }

  predicate AllTitled(s: seq<string>)
  {
    forall i :: 0 <= i < |s| ==> Titled(s[i])
  }

  /** Every requirement list in the cache is made of splittable titles. */
  ghost predicate CacheTitled(cache: Cache)
  {
    forall k :: k in cache && cache[k].Some? ==>
      AllTitled(cache[k].value.latest)
      && forall v :: v in cache[k].value.installs ==> AllTitled(cache[k].value.installs[v])
  }

  /** Every vertex a list of the hierarchy names is a splittable title. */
  ghost predicate GraphTitled(g: G.Adj<string>)
  {
    forall v, w :: v in g.fwd && w in g.fwd[v] ==> Titled(w)
  }

  // ---------------------------------------------------- one requirement

  /** The version label snapTitle gives a requirement, such as "@v1.0.0" or "@latest". */
  function VerOf(r: string): string
    requires Titled(r)
  {
    SnapTitle(Some(r), false, '.').value.v
  }

  predicate Unstable(r: string)
    requires Titled(r)
  {
    Contains(Lower(VerOf(r)), "unstable")
  }

  predicate UsesLatest(r: string)
    requires Titled(r)
  {
    Contains(Lower(VerOf(r)), "latest")
  }

  /** The specific-version identifier: `r[:r.rfind('(')+1].lower() + r[r.rfind('@'):].lower()`. */
  function SpecV(r: string): string
  {
    Lower(Slice(r, 0, RFind(r, "(") + 1)) + Lower(Slice(r, RFind(r, "@"), |r|))
  }

  predicate NoUnstable(reqs: seq<string>)
    requires AllTitled(reqs)
  {
    forall i :: 0 <= i < |reqs| ==> !Unstable(reqs[i])
  }

  /** spec_vers: the identifiers of all requirements, in order. */
  function Specs(reqs: seq<string>): seq<string>
  {
    Lists.MapSeq(reqs, SpecV)
  }

  /** use_latest: the identifiers of the requirements used at 'latest', in order. */
  function LatestSpecs(reqs: seq<string>): seq<string>
    requires AllTitled(reqs)
  {
    if reqs == [] then []
    else
      var r := reqs[|reqs| - 1];
      LatestSpecs(reqs[..|reqs| - 1]) + if UsesLatest(r) then [SpecV(r)] else []
  }

  /**
   * The requirement loop checkStability runs on the block's own list and on
   * the list of every block it reaches: it fails on the first unstable
   * requirement and otherwise collects spec_vers and use_latest.
   */
  method ScanReqs(reqs: seq<string>) returns (ok: bool, specs: seq<string>, latest: seq<string>)
    requires AllTitled(reqs)
    ensures ok == NoUnstable(reqs)
    ensures ok ==> specs == Specs(reqs) && latest == LatestSpecs(reqs)
  {
    specs, latest := [], [];
    var i := 0;
    while i < |reqs|
      invariant 0 <= i <= |reqs|
      invariant ScannedSoFar(reqs, i, specs, latest)
    {
      var r := reqs[i];
      var ver := VerOf(r);
      if Contains(Lower(ver), "unstable") {
        ScanFails(reqs, i);
        return false, specs, latest;
      }
      var specV := Lower(Slice(r, 0, RFind(r, "(") + 1)) + Lower(Slice(r, RFind(r, "@"), |r|));
      ScanStep(reqs, i, specs, latest);
      specs := specs + [specV];
      if Contains(Lower(ver), "latest") {
        latest := latest + [specV];
      }
      i := i + 1;
    }
    assert reqs[..i] == reqs;
    return true, specs, latest;
  }

  ghost predicate ScannedSoFar(reqs: seq<string>, i: int, specs: seq<string>, latest: seq<string>)
    requires AllTitled(reqs) && 0 <= i <= |reqs|
  {
    AllTitled(reqs[..i]) && NoUnstable(reqs[..i])
    && specs == Specs(reqs[..i]) && latest == LatestSpecs(reqs[..i])
  }

  lemma ScanStep(reqs: seq<string>, i: int, specs: seq<string>, latest: seq<string>)
    requires AllTitled(reqs) && 0 <= i < |reqs| && ScannedSoFar(reqs, i, specs, latest)
    requires !Unstable(reqs[i])
    ensures ScannedSoFar(reqs, i + 1, specs + [SpecV(reqs[i])],
      if UsesLatest(reqs[i]) then latest + [SpecV(reqs[i])] else latest)
  {
    PrefixStep(reqs, i);
    SpecsStep(reqs, i);
    LatestStep(reqs, i);
  }

  lemma PrefixStep(reqs: seq<string>, i: int)
    requires AllTitled(reqs) && 0 <= i < |reqs| && NoUnstable(reqs[..i]) && !Unstable(reqs[i])
    ensures AllTitled(reqs[..i + 1]) && NoUnstable(reqs[..i + 1])
  {
    assert forall j :: 0 <= j <= i ==> reqs[..i + 1][j] == reqs[j];
  }

  lemma SpecsStep(reqs: seq<string>, i: int)
    requires 0 <= i < |reqs|
    ensures Specs(reqs[..i + 1]) == Specs(reqs[..i]) + [SpecV(reqs[i])]
  {
    Lists.MapSeqStep(reqs, SpecV, i);
  }

  lemma LatestStep(reqs: seq<string>, i: int)
    requires AllTitled(reqs) && 0 <= i < |reqs| && AllTitled(reqs[..i + 1])
    ensures LatestSpecs(reqs[..i + 1]) == LatestSpecs(reqs[..i]) + if UsesLatest(reqs[i]) then [SpecV(reqs[i])] else []
  {
    var p := reqs[..i + 1];
    assert p[..i] == reqs[..i] && p[i] == reqs[i];
  }

  lemma ScanFails(reqs: seq<string>, i: int)
    requires AllTitled(reqs) && 0 <= i < |reqs| && Unstable(reqs[i])
    ensures !NoUnstable(reqs)
  {
  }

  // ------------------------------------------------------------ lookup

  /**
   * The requirement list the walk reads for b_id: its cache entry must exist
   * and have an installation; a block not in use_latest is read at the
   * specific version of its label (without the '@'), which must be installed.
   * None is each of the three error returns. The vendor, library and name are
   * lower-cased before the lookup, where block.py:772 looks them up as given;
   * the inventory is a case-insensitive `Map`, so both find the same entry.
   */
  function Lookup(cache: Cache, b: string, ul: seq<string>): (r: Option<seq<string>>)
    requires Titled(b)
  {
    var p := SnapTitle(Some(b), false, '.').value;
    var k := Inventory.Key(Lower(p.m), Lower(p.l), Lower(p.n));
    if k !in cache || cache[k].None? then None
    else if Lower(b) in ul then Some(cache[k].value.latest)
    else
      var ver := Lower(Slice(p.v, 1, |p.v|));
      if ver in cache[k].value.installs then Some(cache[k].value.installs[ver]) else None
  }

  lemma LookupTitled(cache: Cache, b: string, ul: seq<string>)
    requires CacheTitled(cache) && Titled(b)
    ensures Lookup(cache, b, ul).Some? ==> AllTitled(Lookup(cache, b, ul).value)
  {
  }

  // ------------------------------------------------------------- the walk

  /** The hierarchy neighbours of b kept by the filter: those whose lower case is in specs. */
  function FilterIn(s: seq<string>, specs: seq<string>): (r: seq<string>)
    ensures forall x :: x in r ==> x in s
  {
    if s == [] then []
    else (if Lower(s[0]) in specs then [s[0]] else []) + FilterIn(s[1..], specs)
  }

  /**
   * The filter as written, `a in spec_vers`: the neighbour itself, not its
   * lower case, is looked up among the lower-cased identifiers.
   */
  function FilterInAsWritten(s: seq<string>, specs: seq<string>): (r: seq<string>)
    ensures forall x :: x in r ==> x in s && x in specs
  {
    if s == [] then []
    else (if s[0] in specs then [s[0]] else []) + FilterInAsWritten(s[1..], specs)
  }

  function Next(g: G.Adj<string>, b: string, specs: seq<string>): seq<string>
  {
    FilterIn(G.Neighbors(g, b, false), specs)
  }

  /**
   * What the walk does with one identifier and the use_latest list it came
   * with: None when it fails (not in the cache, no installation, version not
   * installed, an unstable requirement), otherwise the spec_vers and
   * use_latest of its requirement list.
   */
  function StepOf(cache: Cache, b: string, ul: seq<string>): Option<(seq<string>, seq<string>)>
  {
    if !Titled(b) then None
    else match Lookup(cache, b, ul)
      case None => None
      case Some(reqs) =>
        if AllTitled(reqs) && NoUnstable(reqs) then Some((Specs(reqs), LatestSpecs(reqs))) else None
  }

  /** The walk's view of the cache. */
  type Step = (string, seq<string>) -> Option<(seq<string>, seq<string>)>

  function Steps(cache: Cache): Step
  {
    (b, ul) => StepOf(cache, b, ul)
  }

  /** A rank of an acyclic hierarchy; vertices outside it rank 0. */
  function Rank(rank: map<string, nat>, v: string): nat
  {
    if v in rank then rank[v] else 0
  }

  /** The hierarchy is acyclic (ranked) and closed. */
  ghost predicate Acyclic(g: G.Adj<string>, rank: map<string, nat>)
  {
    G.Ranked(g, rank) && G.Closed(g)
  }

  lemma NeighborsBelow(g: G.Adj<string>, rank: map<string, nat>, v: string)
    requires Acyclic(g, rank)
    ensures forall x :: x in G.Neighbors(g, v, false) ==> Rank(rank, x) < Rank(rank, v)
  {
  }

  /**
   * The verdict for one identifier reached by the walk: its step succeeds and
   * every neighbour the filter keeps passes in turn, with this block's
   * use_latest.
   */
  ghost function Visit(g: G.Adj<string>, rank: map<string, nat>, step: Step, b: string, ul: seq<string>): bool
    requires Acyclic(g, rank)
    decreases Rank(rank, b)
  {
    match step(b, ul)
    case None => false
    case Some(sl) =>
      var next := Next(g, b, sl.0);
      NeighborsBelow(g, rank, b);
      forall i :: 0 <= i < |next| ==> Visit(g, rank, step, next[i], sl.1)
  }

  ghost predicate AllVisit(g: G.Adj<string>, rank: map<string, nat>, step: Step, bs: seq<string>, ul: seq<string>)
    requires Acyclic(g, rank)
  {
    forall i :: 0 <= i < |bs| ==> Visit(g, rank, step, bs[i], ul)
  }

  /**
   * What checkStability answers for a block with title `full` and
   * requirement list `reqs`: no direct requirement is unstable and every
   * neighbour of `full` the filter keeps passes.
   */
  ghost predicate Stable(g: G.Adj<string>, rank: map<string, nat>, cache: Cache, full: string, reqs: seq<string>)
    requires Acyclic(g, rank) && AllTitled(reqs)
  {
    NoUnstable(reqs) && AllVisit(g, rank, Steps(cache), Next(g, full, Specs(reqs)), LatestSpecs(reqs))
  }

  // ------------------------------------------------ termination measure

  /**
   * The work below an identifier: itself and, recursively, every neighbour;
   * the filter only drops neighbours, so each step of the walk replaces one
   * identifier by less work than it stood for.
   */
  ghost function Work(g: G.Adj<string>, rank: map<string, nat>, v: string): nat
    requires Acyclic(g, rank)
    decreases Rank(rank, v), 1, 0
  {
    NeighborsBelow(g, rank, v);
    1 + SumWork(g, rank, G.Neighbors(g, v, false), Rank(rank, v))
  }

  ghost function SumWork(g: G.Adj<string>, rank: map<string, nat>, s: seq<string>, bound: nat): nat
    requires Acyclic(g, rank)
    requires forall x :: x in s ==> Rank(rank, x) < bound
    decreases bound, 0, |s|
  {
    if s == [] then 0 else Work(g, rank, s[0]) + SumWork(g, rank, s[1..], bound)
  }

  /** The work of a list of identifiers. */
  ghost function Total(g: G.Adj<string>, rank: map<string, nat>, s: seq<string>): nat
    requires Acyclic(g, rank)
  {
    if s == [] then 0 else Work(g, rank, s[0]) + Total(g, rank, s[1..])
  }

  lemma {:induction false} SumWorkTotal(g: G.Adj<string>, rank: map<string, nat>, s: seq<string>, bound: nat)
    requires Acyclic(g, rank)
    requires forall x :: x in s ==> Rank(rank, x) < bound
    ensures SumWork(g, rank, s, bound) == Total(g, rank, s)
  {
    if s != [] {
      SumWorkTotal(g, rank, s[1..], bound);
    }
  }

  lemma {:induction false} FilterLess(g: G.Adj<string>, rank: map<string, nat>, s: seq<string>, specs: seq<string>)
    requires Acyclic(g, rank)
    ensures Total(g, rank, FilterIn(s, specs)) <= Total(g, rank, s)
  {
    if s != [] {
      FilterLess(g, rank, s[1..], specs);
      var t := FilterIn(s[1..], specs);
      if Lower(s[0]) in specs {
        assert ([s[0]] + t)[1..] == t;
      } else {
        assert FilterIn(s, specs) == t;
      }
    }
  }

  /** An identifier stands for more work than the neighbours the filter keeps. */
  lemma NextLess(g: G.Adj<string>, rank: map<string, nat>, b: string, specs: seq<string>)
    requires Acyclic(g, rank)
    ensures Total(g, rank, Next(g, b, specs)) < Work(g, rank, b)
  {
    NeighborsBelow(g, rank, b);
    SumWorkTotal(g, rank, G.Neighbors(g, b, false), Rank(rank, b));
    FilterLess(g, rank, G.Neighbors(g, b, false), specs);
  }

  // ------------------------------------------------------------ worklist

  /** One entry of the worklist: identifiers to visit and the use_latest list they go with. */
  datatype Pending = Pending(ids: seq<string>, latest: seq<string>)

  ghost function Measure(g: G.Adj<string>, rank: map<string, nat>, wl: seq<Pending>): nat
    requires Acyclic(g, rank)
  {
    if wl == [] then 0 else Total(g, rank, wl[0].ids) + Measure(g, rank, wl[1..])
  }

  lemma {:induction false} MeasureLast(g: G.Adj<string>, rank: map<string, nat>, wl: seq<Pending>)
    requires Acyclic(g, rank) && wl != []
    ensures Measure(g, rank, wl) == Measure(g, rank, wl[..|wl| - 1]) + Total(g, rank, wl[|wl| - 1].ids)
  {
    if |wl| > 1 {
      MeasureLast(g, rank, wl[1..]);
      assert wl[1..][..|wl| - 2] == wl[..|wl| - 1][1..];
    }
  }

  /** Every pending identifier passes. */
  ghost predicate AllPass(g: G.Adj<string>, rank: map<string, nat>, step: Step, wl: seq<Pending>)
    requires Acyclic(g, rank)
  {
    forall j :: 0 <= j < |wl| ==> AllVisit(g, rank, step, wl[j].ids, wl[j].latest)
  }

  /** The loop's knowledge in the middle of one worklist entry. */
  ghost predicate Walking(g: G.Adj<string>, rank: map<string, nat>, step: Step, answer: bool,
                          wl: seq<Pending>, gs: seq<string>, ul: seq<string>, i: int, budget: nat)
    requires Acyclic(g, rank)
  {
    0 <= i <= |gs|
    && (answer <==> AllPass(g, rank, step, wl) && AllVisit(g, rank, step, gs[i..], ul))
    && Measure(g, rank, wl) + Total(g, rank, gs[i..]) + i <= budget
  }

  lemma PopLast(g: G.Adj<string>, rank: map<string, nat>, step: Step, answer: bool, wl: seq<Pending>)
    requires Acyclic(g, rank) && wl != []
    requires answer <==> AllPass(g, rank, step, wl)
    ensures var last := wl[|wl| - 1];
      Walking(g, rank, step, answer, wl[..|wl| - 1], last.ids, last.latest, 0, Measure(g, rank, wl))
  {
    MeasureLast(g, rank, wl);
    AllPassLast(g, rank, step, wl);
    var last := wl[|wl| - 1];
    assert last.ids[0..] == last.ids;
  }

  lemma AllPassLast(g: G.Adj<string>, rank: map<string, nat>, step: Step, wl: seq<Pending>)
    requires Acyclic(g, rank) && wl != []
    ensures var last := wl[|wl| - 1];
      AllPass(g, rank, step, wl) <==> AllPass(g, rank, step, wl[..|wl| - 1]) && AllVisit(g, rank, step, last.ids, last.latest)
  {
    var rest := wl[..|wl| - 1];
    assert forall j :: 0 <= j < |rest| ==> rest[j] == wl[j];
  }

  /**
   * One identifier of the entry: when its step succeeds, its filtered
   * neighbours go to the front of the worklist in its place.
   */
  lemma WalkStep(g: G.Adj<string>, rank: map<string, nat>, step: Step, answer: bool,
                 wl: seq<Pending>, gs: seq<string>, ul: seq<string>, i: int, budget: nat,
                 sl: (seq<string>, seq<string>))
    requires Acyclic(g, rank) && Walking(g, rank, step, answer, wl, gs, ul, i, budget) && i < |gs|
    requires step(gs[i], ul) == Some(sl)
    ensures Walking(g, rank, step, answer, [Pending(Next(g, gs[i], sl.0), sl.1)] + wl, gs, ul, i + 1, budget)
  {
    var b := gs[i];
    var next := Next(g, b, sl.0);
    var wl2 := [Pending(next, sl.1)] + wl;
    assert wl2[1..] == wl;
    assert gs[i..][1..] == gs[i + 1..] && gs[i..][0] == b;
    NextLess(g, rank, b, sl.0);
    assert Visit(g, rank, step, b, ul) == AllVisit(g, rank, step, next, sl.1);
    assert AllVisit(g, rank, step, gs[i..], ul) <==> Visit(g, rank, step, b, ul) && AllVisit(g, rank, step, gs[i + 1..], ul) by {
      assert forall j :: 1 <= j < |gs[i..]| ==> gs[i..][j] == gs[i + 1..][j - 1];
    }
    AllPassCons(g, rank, step, Pending(next, sl.1), wl);
  }

  lemma AllPassCons(g: G.Adj<string>, rank: map<string, nat>, step: Step, p: Pending, wl: seq<Pending>)
    requires Acyclic(g, rank)
    ensures AllPass(g, rank, step, [p] + wl) <==> AllVisit(g, rank, step, p.ids, p.latest) && AllPass(g, rank, step, wl)
  {
    var wl2 := [p] + wl;
    assert wl2[0] == p;
    if AllVisit(g, rank, step, p.ids, p.latest) && AllPass(g, rank, step, wl) {
      forall j | 0 <= j < |wl2|
        ensures AllVisit(g, rank, step, wl2[j].ids, wl2[j].latest)
      {
        if j > 0 {
          assert wl2[j] == wl[j - 1];
        }
      }
    }
    if AllPass(g, rank, step, wl2) {
      forall j | 0 <= j < |wl|
        ensures AllVisit(g, rank, step, wl[j].ids, wl[j].latest)
      {
        assert wl2[j + 1] == wl[j];
      }
    }
  }

  /** An identifier whose step fails makes the whole answer false. */
  lemma WalkFails(g: G.Adj<string>, rank: map<string, nat>, step: Step, answer: bool,
                  wl: seq<Pending>, gs: seq<string>, ul: seq<string>, i: int, budget: nat)
    requires Acyclic(g, rank) && Walking(g, rank, step, answer, wl, gs, ul, i, budget) && i < |gs|
    requires step(gs[i], ul).None?
    ensures !answer
  {
    assert gs[i..][0] == gs[i];
  }

  // ---------------------------------------------------------- the method

  lemma NextTitled(g: G.Adj<string>, b: string, specs: seq<string>)
    requires GraphTitled(g)
    ensures AllTitled(Next(g, b, specs))
  {
  }

  /** The step of the walk on the cache, read off the calls the method makes. */
  lemma StepFound(cache: Cache, b: string, ul: seq<string>)
    requires CacheTitled(cache) && Titled(b)
    ensures Lookup(cache, b, ul).None? ==> Steps(cache)(b, ul).None?
    ensures Lookup(cache, b, ul).Some? ==>
      AllTitled(Lookup(cache, b, ul).value)
      && (NoUnstable(Lookup(cache, b, ul).value) ==>
          Steps(cache)(b, ul) == Some((Specs(Lookup(cache, b, ul).value), LatestSpecs(Lookup(cache, b, ul).value))))
      && (!NoUnstable(Lookup(cache, b, ul).value) ==> Steps(cache)(b, ul).None?)
  {
    LookupTitled(cache, b, ul);
  }

  /** Every identifier on the worklist is a splittable title. */
  ghost predicate WlTitled(wl: seq<Pending>)
  {
    forall j :: 0 <= j < |wl| ==> AllTitled(wl[j].ids)
  }

  lemma WlPop(wl: seq<Pending>)
    requires WlTitled(wl) && wl != []
    ensures WlTitled(wl[..|wl| - 1]) && AllTitled(wl[|wl| - 1].ids)
  {
    assert forall j :: 0 <= j < |wl| - 1 ==> wl[..|wl| - 1][j] == wl[j];
  }

  lemma WlPush(p: Pending, wl: seq<Pending>)
    requires AllTitled(p.ids) && WlTitled(wl)
    ensures WlTitled([p] + wl)
  {
    assert forall j :: 0 < j <= |wl| ==> ([p] + wl)[j] == wl[j - 1];
  }

  /** Once the block's own list is stable, the answer is that of the first worklist entry. */
  lemma StableStart(g: G.Adj<string>, rank: map<string, nat>, cache: Cache, full: string, reqs: seq<string>)
    requires Acyclic(g, rank) && AllTitled(reqs) && NoUnstable(reqs)
    ensures Stable(g, rank, cache, full, reqs) ==
      AllPass(g, rank, Steps(cache), [Pending(Next(g, full, Specs(reqs)), LatestSpecs(reqs))])
  {
    AllPassCons(g, rank, Steps(cache), Pending(Next(g, full, Specs(reqs)), LatestSpecs(reqs)), []);
    assert [Pending(Next(g, full, Specs(reqs)), LatestSpecs(reqs))] + [] == [Pending(Next(g, full, Specs(reqs)), LatestSpecs(reqs))];
  }

  /**
   * Block.checkStability on the block titled `full` (its getFull with the
   * version) with requirement list `reqs`. The hierarchy is the graph's
   * forward lists, the cache what the Inventory holds; the ghost rank
   * witnesses that the hierarchy is acyclic, without which the walk would not
   * end.
   */
  method CheckStability(g: G.Adj<string>, ghost rank: map<string, nat>, cache: Cache, full: string, reqs: seq<string>)
    returns (stable: bool)
    requires Acyclic(g, rank) && GraphTitled(g) && CacheTitled(cache) && AllTitled(reqs)
    ensures stable == Stable(g, rank, cache, full, reqs)
  {
    var ok, specs, latest := ScanReqs(reqs);
    if !ok {
      return false;
    }
    ghost var step := Steps(cache);
    var next := FilterIn(G.Neighbors(g, full, false), specs);
    NextTitled(g, full, specs);
    var wl := [Pending(next, latest)];
    WlPush(Pending(next, latest), []);
    assert [Pending(next, latest)] + [] == wl;
    StableStart(g, rank, cache, full, reqs);
    ghost var answer := Stable(g, rank, cache, full, reqs);
    while |wl| > 0
      invariant answer <==> AllPass(g, rank, step, wl)
      invariant WlTitled(wl)
      decreases Measure(g, rank, wl), |wl|
    {
      ghost var budget, before := Measure(g, rank, wl), |wl|;
      PopLast(g, rank, step, answer, wl);
      WlPop(wl);
      var entry := wl[|wl| - 1];
      wl := wl[..|wl| - 1];
      var gs, ul := entry.ids, entry.latest;
      var i := 0;
      while i < |gs|
        invariant Walking(g, rank, step, answer, wl, gs, ul, i, budget)
        invariant i == 0 ==> |wl| < before
        invariant WlTitled(wl) && AllTitled(gs)
      {
        var b := gs[i];
        StepFound(cache, b, ul);
        var found := Lookup(cache, b, ul);
        if found.None? {
          WalkFails(g, rank, step, answer, wl, gs, ul, i, budget);
          return false;
        }
        var ok2, specs2, latest2 := ScanReqs(found.value);
        if !ok2 {
          WalkFails(g, rank, step, answer, wl, gs, ul, i, budget);
          return false;
        }
        var next2 := FilterIn(G.Neighbors(g, b, false), specs2);
        NextTitled(g, b, specs2);
        WalkStep(g, rank, step, answer, wl, gs, ul, i, budget, (specs2, latest2));
        WlPush(Pending(next2, latest2), wl);
        wl := [Pending(next2, latest2)] + wl;
        i := i + 1;
      }
      assert gs[i..] == [];
    }
    return true;
  }

  // ------------------------------------------------------------ properties

  /** A block without requirements is stable. */
  lemma StableEmpty(g: G.Adj<string>, rank: map<string, nat>, cache: Cache, full: string)
    requires Acyclic(g, rank)
    ensures Stable(g, rank, cache, full, [])
  {
    FilterNothing(G.Neighbors(g, full, false));
  }

  lemma {:induction false} FilterNothing(s: seq<string>)
    ensures FilterIn(s, []) == []
  {
    if s != [] {
      FilterNothing(s[1..]);
    }
  }

  /** An unstable direct requirement makes the block unstable. */
  lemma UnstableDirect(g: G.Adj<string>, rank: map<string, nat>, cache: Cache, full: string, reqs: seq<string>, i: int)
    requires Acyclic(g, rank) && AllTitled(reqs) && 0 <= i < |reqs| && Unstable(reqs[i])
    ensures !Stable(g, rank, cache, full, reqs)
  {
  }

  /**
   * An unstable requirement further down makes the block unstable: when b
   * is reached with ul and the filter keeps its neighbour c, every way c can
   * fail (including an unstable requirement in c's own list) fails b.
   */
  lemma UnstableBelow(g: G.Adj<string>, rank: map<string, nat>, cache: Cache, b: string, ul: seq<string>, c: string)
    requires Acyclic(g, rank)
    requires Steps(cache)(b, ul).Some? && c in Next(g, b, Steps(cache)(b, ul).value.0)
    requires !Visit(g, rank, Steps(cache), c, Steps(cache)(b, ul).value.1)
    ensures !Visit(g, rank, Steps(cache), b, ul)
  {
    var next := Next(g, b, Steps(cache)(b, ul).value.0);
    var k :| 0 <= k < |next| && next[k] == c;
  }

  /** A reached identifier whose own requirement list has an unstable entry fails. */
  lemma UnstableAt(g: G.Adj<string>, rank: map<string, nat>, cache: Cache, c: string, ul: seq<string>, reqs: seq<string>, i: int)
    requires Acyclic(g, rank) && Titled(c) && Lookup(cache, c, ul) == Some(reqs)
    requires AllTitled(reqs) && 0 <= i < |reqs| && Unstable(reqs[i])
    ensures !Visit(g, rank, Steps(cache), c, ul)
  {
    assert !NoUnstable(reqs);
  }

  /** spec_v is the lower case of the identifier addToInventory puts in the hierarchy. */
  lemma SpecVStrip(r: string)
    ensures SpecV(r) == Lower(StripChain(r))
  {
    LowerConcat(Slice(r, 0, RFind(r, "(") + 1), Slice(r, RFind(r, "@"), |r|));
  }

  /** Every identifier in spec_vers is lower case. */
  lemma SpecsLower(reqs: seq<string>)
    ensures forall x :: x in Specs(reqs) ==> Lower(x) == x
  {
    forall x | x in Specs(reqs)
      ensures Lower(x) == x
    {
      var i :| 0 <= i < |Specs(reqs)| && Specs(reqs)[i] == x;
      SpecVStrip(reqs[i]);
      LowerIdempotent(StripChain(reqs[i]));
    }
  }

  /** The filter keeps a neighbour whose lower case is in specs. */
  lemma {:induction false} FilterKeeps(s: seq<string>, specs: seq<string>, w: string)
    requires w in s && Lower(w) in specs
    ensures w in FilterIn(s, specs)
  {
    if s[0] != w {
      FilterKeeps(s[1..], specs, w);
    }
  }

  /**
   * The edge addToInventory adds for the requirement reqs[i] is followed:
   * its target's lower case is that requirement's spec_v.
   */
  lemma RequirementFollowed(s: seq<string>, reqs: seq<string>, i: int)
    requires 0 <= i < |reqs| && StripChain(reqs[i]) in s
    ensures StripChain(reqs[i]) in FilterIn(s, Specs(reqs))
  {
    SpecVStrip(reqs[i]);
    FilterKeeps(s, Specs(reqs), StripChain(reqs[i]));
  }

  /**
   * As written the same edge is dropped whenever the requirement's identifier
   * has an upper-case letter, as in "lab.Adder(@v1.0.0)": its lower-cased
   * spec_v is in spec_vers, the neighbour itself is not.
   */
  lemma MixedCaseDropped(s: seq<string>, reqs: seq<string>, i: int)
    requires 0 <= i < |reqs| && Lower(StripChain(reqs[i])) != StripChain(reqs[i])
    ensures StripChain(reqs[i]) !in FilterInAsWritten(s, Specs(reqs))
  {
    SpecsLower(reqs);
  }

  // ------------------------------------------------- the walk as written

  function NextAsWritten(g: G.Adj<string>, b: string, specs: seq<string>): seq<string>
  {
    FilterInAsWritten(G.Neighbors(g, b, false), specs)
  }

  /** Visit with the filter as written. */
  ghost function VisitAsWritten(g: G.Adj<string>, rank: map<string, nat>, step: Step, b: string, ul: seq<string>): bool
    requires Acyclic(g, rank)
    decreases Rank(rank, b)
  {
    match step(b, ul)
    case None => false
    case Some(sl) =>
      var next := NextAsWritten(g, b, sl.0);
      NeighborsBelow(g, rank, b);
      forall i :: 0 <= i < |next| ==> VisitAsWritten(g, rank, step, next[i], sl.1)
  }

  /** What checkStability as written answers: Stable with the filter as written. */
  ghost predicate StableAsWritten(g: G.Adj<string>, rank: map<string, nat>, cache: Cache, full: string, reqs: seq<string>)
    requires Acyclic(g, rank) && AllTitled(reqs)
  {
    NoUnstable(reqs)
    && var next := NextAsWritten(g, full, Specs(reqs));
    forall i :: 0 <= i < |next| ==> VisitAsWritten(g, rank, Steps(cache), next[i], LatestSpecs(reqs))
  }

  /** As written, no neighbour with an upper-case letter gets past the filter. */
  lemma MixedCaseNone(s: seq<string>, reqs: seq<string>)
    requires forall w :: w in s ==> Lower(w) != w
    ensures FilterInAsWritten(s, Specs(reqs)) == []
  {
    SpecsLower(reqs);
  }

  /**
   * The walk as written misses an unstable transitive requirement: when the
   * block's requirements are all titled with an upper-case letter (as in
   * `lab.Adder(@v1.0.0)`), checkStability as written answers True on the
   * strength of the block's own list alone, although the requirement reqs[i]
   * has an unstable requirement of its own; the corrected walk answers False.
   */
  lemma MixedCaseMissed(g: G.Adj<string>, rank: map<string, nat>, cache: Cache, full: string,
                        reqs: seq<string>, i: int, below: seq<string>, j: int)
    requires Acyclic(g, rank) && AllTitled(reqs) && NoUnstable(reqs)
    requires forall w :: w in G.Neighbors(g, full, false) ==> Lower(w) != w
    requires 0 <= i < |reqs| && StripChain(reqs[i]) in G.Neighbors(g, full, false) && Titled(StripChain(reqs[i]))
    requires Lookup(cache, StripChain(reqs[i]), LatestSpecs(reqs)) == Some(below)
    requires AllTitled(below) && 0 <= j < |below| && Unstable(below[j])
    ensures StableAsWritten(g, rank, cache, full, reqs)
    ensures !Stable(g, rank, cache, full, reqs)
  {
    var c := StripChain(reqs[i]);
    MixedCaseNone(G.Neighbors(g, full, false), reqs);
    UnstableAt(g, rank, cache, c, LatestSpecs(reqs), below, j);
    RequirementFollowed(G.Neighbors(g, full, false), reqs, i);
    var next := Next(g, full, Specs(reqs));
    var k :| 0 <= k < |next| && next[k] == c;
  }
}
