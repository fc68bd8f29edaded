// Block.installReqs: the recursive walk that installs every block the
// 'requires' metadata names, each title once, and installs a specific
// version of a block when one of the partial versions it was required at
// is not installed yet.
module Installs {
  import opened Strings
  import opened Lists
  import Title
  import Version
  import Requires

  // ------------------------------------------------ reading a requirement

  /** The version a requirement installs: what follows its first '@'. */
  function SpecVer(v: string): string
  {
    Slice(v, Find(v, "@") + 1, |v|)
  }

  /** The version references of a requirement: the text before the '-' that precedes its first '@', split on '-'. */
  function Refs(v: string): seq<string>
  {
    Split(Slice(v, 0, Find(v, "@") - 1), '-')
  }

  /** What installReqs reads from one requirement title. */
  datatype Ask = Ask(key: string, spec: string, refs: seq<string>)

  /**
   * The block title M.L.N looked up in the workspace, the version to install
   * and the references to check; None is snapTitle's IndexError.
   */
  function AskOf(t: string): Option<Ask>
  {
    match Title.SnapTitle(Some(t), false, '.')
    case None => None
    case Some(p) => Some(Ask(p.m + "." + p.l + "." + p.n, SpecVer(p.v), Refs(p.v)))
  }

  /** Every reference is 'latest', in any case, or an installed version. */
  predicate AllHere(refs: seq<string>, have: set<string>)
  {
    forall j :: 0 <= j < |refs| ==> Lower(refs[j]) == "latest" || refs[j] in have
  }

  function Reversed<T>(s: seq<T>): (r: seq<T>)
    ensures |r| == |s|
  {
    if s == [] then [] else Reversed(s[1..]) + [s[0]]
  }

  lemma {:induction false} ReversedIn<T>(s: seq<T>, x: T)
    ensures x in Reversed(s) <==> x in s
  {
    if s != [] {
      ReversedIn(s[1..], x);
      assert s == [s[0]] + s[1..];
    }
  }

  lemma {:induction false} JoinSnoc(p: seq<string>, x: string, sep: string)
    requires p != []
    ensures Join(p + [x], sep) == Join(p, sep) + sep + x
  {
    if |p| > 1 {
      JoinSnoc(p[1..], x, sep);
      assert (p + [x])[1..] == p[1..] + [x];
    }
  }

  lemma {:induction false} JoinFree(parts: seq<string>, sep: string, c: char)
    requires c !in sep && forall k :: 0 <= k < |parts| ==> c !in parts[k]
    ensures c !in Join(parts, sep)
  {
    if |parts| > 1 {
      JoinFree(parts[1..], sep, c);
    }
  }

  /** A non-empty version chain is the versions, last first, joined with '-', then '-' and the accumulator. */
  lemma {:induction false} ChainShape(vs: seq<string>, acc: string)
    requires vs != []
    ensures Title.Chain(vs, acc) == Join(Reversed(vs), "-") + "-" + acc
    decreases |vs|
  {
    if |vs| > 1 {
      ChainShape(vs[1..], vs[0] + "-" + acc);
      JoinSnoc(Reversed(vs[1..]), vs[0], "-");
    }
  }

  /**
   * installReqs inverts the chain getFull writes: the version after the '@'
   * is the block's own, and the references are the chained versions, last
   * first.
   */
  lemma ChainRefs(vs: seq<string>, v: string)
    requires vs != [] && '@' !in v
    requires forall x :: x in vs ==> '@' !in x && '-' !in x
    ensures SpecVer(Title.Chain(vs, "@" + v)) == v
    ensures Refs(Title.Chain(vs, "@" + v)) == Reversed(vs)
  {
    var r := Reversed(vs);
    forall k | 0 <= k < |r|
      ensures '@' !in r[k] && '-' !in r[k]
    {
      ReversedIn(vs, r[k]);
    }
    ChainShape(vs, "@" + v);
    JoinFree(r, "-", '@');
    AtSplit(Join(r, "-"), v);
    JoinSplit(r, '-');
  }

  /** The first '@' of j + "-@" + v, with j free of '@', follows j and its '-'. */
  lemma AtSplit(j: string, v: string)
    requires '@' !in j
    ensures SpecVer(j + "-" + ("@" + v)) == v
    ensures Slice(j + "-" + ("@" + v), 0, Find(j + "-" + ("@" + v), "@") - 1) == j
  {
    var c := j + "-" + ("@" + v);
    assert c[|j| + 1] == '@';
    FindCharAt(c, '@', |j| + 1);
    assert c[|j| + 2..] == v;
    assert c[..|j|] == j;
  }

  /**
   * An identifier updateRequires writes reads back in installReqs as its
   * block's title, the block's version and the codes it was required at,
   * highest last.
   */
  lemma ReadBack(g: Requires.Group)
    requires var b := g.first;
      '.' !in b.m && '.' !in b.l && '.' !in b.n && '(' !in Title.Base(b.m, b.l, b.n) && Title.ENTITY_DELIM !in b.n
    requires var v := g.first.v; '(' !in v && '@' !in v && '_' !in v && v != "" && v[|v| - 1] != '.'
    requires g.codes != [] && forall x :: x in g.codes ==> '(' !in x && '@' !in x && '-' !in x && '_' !in x
    ensures var b := g.first;
      AskOf(Requires.Identifier(g)) == Some(Ask(b.m + "." + b.l + "." + b.n, b.v, Reversed(Version.MergeSort(g.codes, Version.SepVer))))
  {
    var b := g.first;
    var vs := Version.MergeSort(g.codes, Version.SepVer);
    Version.MergeSortSorted(g.codes, Version.SepVer);
    assert forall x :: x in vs <==> x in multiset(g.codes);
    assert vs != [] by {
      assert g.codes[0] in multiset(g.codes);
    }
    Title.SnapFullVersion(b.m, b.l, b.n, b.v, g.codes);
    var chain := Title.Chain(vs, "@" + b.v);
    ChainShape(vs, "@" + b.v);
    var r := Reversed(vs);
    forall k | 0 <= k < |r|
      ensures '_' !in r[k]
    {
      ReversedIn(vs, r[k]);
    }
    JoinFree(r, "-", '_');
    assert chain[|chain| - 1] == b.v[|b.v| - 1];
    Version.StdVerFixed(chain);
    ChainRefs(vs, b.v);
  }

  /** The references read back are all present exactly when each code is 'latest' or installed. */
  lemma RefsHere(codes: seq<string>, have: set<string>)
    ensures AllHere(Reversed(Version.MergeSort(codes, Version.SepVer)), have)
        <==> forall x :: x in codes ==> Lower(x) == "latest" || x in have
  {
    var r := Reversed(Version.MergeSort(codes, Version.SepVer));
    Version.MergeSortSorted(codes, Version.SepVer);
    forall x
      ensures x in r <==> x in codes
    {
      ReversedIn(Version.MergeSort(codes, Version.SepVer), x);
      assert x in Version.MergeSort(codes, Version.SepVer) <==> x in multiset(codes);
    }
    if AllHere(r, have) {
      forall x | x in codes
        ensures Lower(x) == "latest" || x in have
      {
        var k :| 0 <= k < |r| && r[k] == x;
      }
    }
  }

  /** The installation a walk asks for. */
  datatype Install = Main(block: string) | Specific(block: string, ver: string)

  /** The versions of a block already installed. */
  function ReadyOf(ready: map<string, set<string>>, k: string): set<string>
  {
    if k in ready then ready[k] else {}
  }

  /** Title t asks for installation i: its block is in the workspace, and a specific version only when a reference is missing. */
  ghost predicate Asks(ws: map<string, seq<string>>, ready: map<string, set<string>>, read: string -> Option<Ask>,
                       t: string, i: Install)
  {
    match read(t)
    case None => false
    case Some(a) =>
      a.key in ws && a.key == i.block
      && (i.Specific? ==> i.ver == a.spec && !AllHere(a.refs, ReadyOf(ready, a.key)))
  }

  /** Every requirement of the block title t names is tracked. */
  ghost predicate ClosedIn(ws: map<string, seq<string>>, read: string -> Option<Ask>, t: string, tracking: seq<string>)
  {
    match read(t)
    case None => true
    case Some(a) => a.key in ws ==> forall r :: r in ws[a.key] ==> Lower(r) in tracking
  }

  /** The block title t names has an installation, and its specific version when a reference is missing. */
  ghost predicate Served(ws: map<string, seq<string>>, ready: map<string, set<string>>, read: string -> Option<Ask>,
                         t: string, mains: set<string>, installs: seq<Install>)
  {
    match read(t)
    case None => true
    case Some(a) =>
      a.key in ws ==>
        a.key in mains
        && (!AllHere(a.refs, ReadyOf(ready, a.key)) ==> Specific(a.key, a.spec) in installs)
  }

  /** The walked titles from e on are closed and served. */
  ghost predicate DoneIn(ws: map<string, seq<string>>, ready: map<string, set<string>>, read: string -> Option<Ask>,
                         walked: seq<string>, e: nat, tracking: seq<string>, mains: set<string>, installs: seq<Install>)
  {
    forall j :: e <= j < |walked| ==>
      ClosedIn(ws, read, walked[j], tracking) && Served(ws, ready, read, walked[j], mains, installs)
  }

  /** What was done stays done as the walk goes on. */
  lemma DoneGrows(ws: map<string, seq<string>>, ready: map<string, set<string>>, read: string -> Option<Ask>,
                  w: seq<string>, e: nat,
                  tr: seq<string>, tr2: seq<string>, ms: set<string>, ms2: set<string>,
                  ins: seq<Install>, ins2: seq<Install>)
    requires DoneIn(ws, ready, read, w, e, tr, ms, ins)
    requires tr <= tr2 && ms <= ms2 && ins <= ins2
    ensures DoneIn(ws, ready, read, w, e, tr2, ms2, ins2)
  {
    forall j | e <= j < |w|
      ensures ClosedIn(ws, read, w[j], tr2) && Served(ws, ready, read, w[j], ms2, ins2)
    {
      assert ClosedIn(ws, read, w[j], tr) && Served(ws, ready, read, w[j], ms, ins);
      match read(w[j])
      case None =>
      case Some(a) =>
        if a.key in ws {
          forall r | r in ws[a.key]
            ensures Lower(r) in tr2
          {
            var i :| 0 <= i < |tr| && tr[i] == Lower(r);
            assert tr2[i] == tr[i];
          }
          if !AllHere(a.refs, ReadyOf(ready, a.key)) {
            var i :| 0 <= i < |ins| && ins[i] == Specific(a.key, a.spec);
            assert ins2[i] == ins[i];
          }
        }
    }
  }

  /** The first walked titles done, then the rest done: all done. */
  lemma DoneJoin(ws: map<string, seq<string>>, ready: map<string, set<string>>, read: string -> Option<Ask>,
                 w: seq<string>, w2: seq<string>, e: nat, tr: seq<string>, ms: set<string>, ins: seq<Install>)
    requires w <= w2 && e <= |w|
    requires DoneIn(ws, ready, read, w, e, tr, ms, ins) && DoneIn(ws, ready, read, w2, |w|, tr, ms, ins)
    ensures DoneIn(ws, ready, read, w2, e, tr, ms, ins)
  {
    forall j | e <= j < |w2|
      ensures ClosedIn(ws, read, w2[j], tr) && Served(ws, ready, read, w2[j], ms, ins)
    {
      if j < |w| {
        assert w2[j] == w[j];
      }
    }
  }

  /** The loop of installReqs over the references: whether all are satisfied. */
  method CheckRefs(refs: seq<string>, have: set<string>) returns (allHere: bool)
    ensures allHere <==> AllHere(refs, have)
  {
    allHere := true;
    for i := 0 to |refs|
      invariant allHere <==> forall j :: 0 <= j < i ==> Lower(refs[j]) == "latest" || refs[j] in have
    {
      if Lower(refs[i]) != "latest" && refs[i] !in have {
        allHere := false;
      }
    }
  }

  // ------------------------------------------------- the walk's invariant

  /** The tracking list holds each lower-cased walked title once, all of them in U. */
  ghost predicate TrackOk(U: seq<string>, tracking: seq<string>, walked: seq<string>)
  {
    Distinct(tracking) && |walked| == |tracking| && |tracking| <= |U|
    && forall j :: 0 <= j < |walked| ==> tracking[j] == Lower(walked[j]) && tracking[j] in U
  }

  /** Every installation asked for was asked for by the walked title why names. */
  ghost predicate SoundIn(ws: map<string, seq<string>>, ready: map<string, set<string>>, read: string -> Option<Ask>,
                          walked: seq<string>, installs: seq<Install>, why: seq<nat>)
  {
    |why| == |installs|
    && forall i :: 0 <= i < |installs| ==> why[i] < |walked| && Asks(ws, ready, read, walked[why[i]], installs[i])
  }

  /** The blocks with an installation are those installed before and those given a main installation, each once. */
  ghost predicate MainsOk(mains0: set<string>, mains: set<string>, installs: seq<Install>)
  {
    mains0 <= mains
    && (forall i :: 0 <= i < |installs| && installs[i].Main? ==> installs[i].block in mains && installs[i].block !in mains0)
    && (forall k :: k in mains ==> k in mains0 || Main(k) in installs)
    && (forall i, i' :: 0 <= i < i' < |installs| && installs[i].Main? && installs[i'].Main? ==>
          installs[i].block != installs[i'].block)
  }

  /** Tracking a new title: it goes at the end, lower-cased. */
  lemma TrackStep(U: seq<string>, tracking: seq<string>, walked: seq<string>, t: string)
    requires TrackOk(U, tracking, walked) && Lower(t) in U && Lower(t) !in tracking
    ensures TrackOk(U, tracking + [Lower(t)], walked + [t])
  {
    DistinctAppend(tracking, Lower(t));
    SubsetLength(tracking + [Lower(t)], U);
  }

  /** A longer walk keeps every reason. */
  lemma SoundWalk(ws: map<string, seq<string>>, ready: map<string, set<string>>, read: string -> Option<Ask>,
                  walked: seq<string>, w2: seq<string>, installs: seq<Install>, why: seq<nat>)
    requires SoundIn(ws, ready, read, walked, installs, why) && walked <= w2
    ensures SoundIn(ws, ready, read, w2, installs, why)
  {
    forall i | 0 <= i < |installs|
      ensures why[i] < |w2| && Asks(ws, ready, read, w2[why[i]], installs[i])
    {
      assert w2[why[i]] == walked[why[i]];
    }
  }

  /** One more installation, asked for by the walked title at. */
  lemma SoundStep(ws: map<string, seq<string>>, ready: map<string, set<string>>, read: string -> Option<Ask>,
                  walked: seq<string>, installs: seq<Install>, why: seq<nat>, x: Install, at: nat)
    requires SoundIn(ws, ready, read, walked, installs, why) && at < |walked| && Asks(ws, ready, read, walked[at], x)
    ensures SoundIn(ws, ready, read, walked, installs + [x], why + [at])
  {
    var ins, w := installs + [x], why + [at];
    forall i | 0 <= i < |ins|
      ensures w[i] < |walked| && Asks(ws, ready, read, walked[w[i]], ins[i])
    {
      if i < |installs| {
        assert ins[i] == installs[i] && w[i] == why[i];
      }
    }
  }

  /** A specific installation leaves the main installations as they are. */
  lemma MainsSpecific(mains0: set<string>, mains: set<string>, installs: seq<Install>, x: Install)
    requires MainsOk(mains0, mains, installs) && x.Specific?
    ensures MainsOk(mains0, mains, installs + [x])
  {
    var ins := installs + [x];
    assert forall i :: 0 <= i < |installs| ==> ins[i] == installs[i];
    forall k | k in mains && k !in mains0
      ensures Main(k) in ins
    {
      var i :| 0 <= i < |installs| && installs[i] == Main(k);
      assert ins[i] == Main(k);
    }
  }

  /** A main installation of a block without one. */
  lemma MainsMain(mains0: set<string>, mains: set<string>, installs: seq<Install>, k: string)
    requires MainsOk(mains0, mains, installs) && k !in mains
    ensures MainsOk(mains0, mains + {k}, installs + [Main(k)])
  {
    var ins := installs + [Main(k)];
    assert forall i :: 0 <= i < |installs| ==> ins[i] == installs[i];
    assert ins[|installs|] == Main(k);
    forall k' | k' in mains + {k} && k' !in mains0
      ensures Main(k') in ins
    {
      if k' != k {
        var i :| 0 <= i < |installs| && installs[i] == Main(k');
        assert ins[i] == Main(k');
      }
    }
  }

  // ---------------------------------------------------------- the walk

  /**
   * The state one installReqs walk threads through its recursive calls:
   * the blocks of the workspace by title (with their requirements), the
   * versions each already has installed, the tracking list of lower-cased
   * titles, the blocks with an installation and the installations asked for.
   */
  class Installer {
    const ws: map<string, seq<string>>
    const ready: map<string, set<string>>
    /** How a requirement title is read; the constructor makes it AskOf. */
    const read: string -> Option<Ask>
    /** The blocks installed before the walk. */
    ghost const mains0: set<string>
    /** Every lower-cased title the walk can meet. */
    ghost const U: seq<string>
    var tracking: seq<string>
    /** The titles, as written, in the order they were tracked. */
    ghost var walked: seq<string>
    var mains: set<string>
    var installs: seq<Install>
    /** For each installation, the walked title that asked for it. */
    ghost var why: seq<nat>

    ghost predicate Valid()
      reads this
    {
      TrackOk(U, tracking, walked)
      && (forall k, r :: k in ws && r in ws[k] ==> Lower(r) in U)
      && SoundIn(ws, ready, read, walked, installs, why)
      && MainsOk(mains0, mains, installs)
    }

    /** A walk over the workspace ws, whose every requirement lower-cased is in U, with mains installed. */
    constructor(ws: map<string, seq<string>>, ready: map<string, set<string>>, mains: set<string>, ghost U: seq<string>)
      requires forall k, r :: k in ws && r in ws[k] ==> Lower(r) in U
      ensures Valid()
      ensures this.ws == ws && this.ready == ready && this.U == U && this.mains0 == mains
      ensures forall t :: read(t) == AskOf(t)
      ensures tracking == [] && walked == [] && this.mains == mains && installs == []
    {
      this.ws := ws;
      this.ready := ready;
      this.read := AskOf;
      this.mains0 := mains;
      this.U := U;
      tracking := [];
      walked := [];
      this.mains := mains;
      installs := [];
      why := [];
    }

    /**
     * Block.installReqs over the requirements reqs: afterwards every one is
     * tracked, nothing tracked before is lost, and every title this call
     * tracked has all its block's requirements tracked, an installation and,
     * when a reference is missing, its specific version asked for. Started
     * with nothing tracked, this is the whole closure of the requirements.
     */
    method InstallReqs(reqs: seq<string>)
      requires Valid() && forall t :: t in reqs ==> Lower(t) in U
      modifies this
      decreases |U| - |tracking|, 2
      ensures Valid()
      ensures old(tracking) <= tracking && old(walked) <= walked && old(mains) <= mains && old(installs) <= installs
      ensures forall t :: t in reqs ==> Lower(t) in tracking
      ensures DoneIn(ws, ready, read, walked, old(|walked|), tracking, mains, installs)
    {
      for i := 0 to |reqs|
        invariant Valid()
        invariant old(tracking) <= tracking && old(walked) <= walked && old(mains) <= mains && old(installs) <= installs
        invariant forall j :: 0 <= j < i ==> Lower(reqs[j]) in tracking
        invariant DoneIn(ws, ready, read, walked, old(|walked|), tracking, mains, installs)
      {
        ghost var (w, tr, ms, ins) := (walked, tracking, mains, installs);
        Take(reqs[i]);
        DoneGrows(ws, ready, read, w, old(|walked|), tr, tracking, ms, mains, ins, installs);
        DoneJoin(ws, ready, read, w, walked, old(|walked|), tracking, mains, installs);
        forall j | 0 <= j < i
          ensures Lower(reqs[j]) in tracking
        {
          var k :| 0 <= k < |tr| && tr[k] == Lower(reqs[j]);
          assert tracking[k] == tr[k];
        }
      }
    }

    /** One title of the loop of installReqs: skipped when tracked, otherwise tracked and visited. */
    method Take(t: string)
      requires Valid() && Lower(t) in U
      modifies this
      decreases |U| - |tracking|, 1
      ensures Valid()
      ensures old(tracking) <= tracking && old(walked) <= walked && old(mains) <= mains && old(installs) <= installs
      ensures Lower(t) in tracking
      ensures Lower(t) in old(tracking) ==> tracking == old(tracking) && mains == old(mains) && installs == old(installs)
      ensures DoneIn(ws, ready, read, walked, old(|walked|), tracking, mains, installs)
    {
      if Lower(t) in tracking {
        return;
      }
      Walk(t);
      Visit(t);
    }

    /**
     * A title just tracked: its block is looked up, its requirements are
     * installed first, then its main installation, then its specific
     * version when a reference is missing. A title snapTitle cannot read
     * and a block missing from the workspace are skipped.
     */
    method Visit(t: string)
      requires Valid() && |walked| > 0 && walked[|walked| - 1] == t
      modifies this
      decreases |U| - |tracking|, 3
      ensures Valid()
      ensures old(tracking) <= tracking && old(walked) <= walked && old(mains) <= mains && old(installs) <= installs
      ensures DoneIn(ws, ready, read, walked, old(|walked|) - 1, tracking, mains, installs)
    {
      ghost var at := |walked| - 1;
      var a := read(t);
      if a.None? {
        return;
      }
      var k := a.value.key;
      if k !in ws {
        return;
      }
      InstallReqs(ws[k]);
      ghost var (ms, ins) := (mains, installs);
      assert walked[at] == t;
      Serve(a.value, at);
      assert ClosedIn(ws, read, walked[at], tracking) && Served(ws, ready, read, walked[at], mains, installs);
      DoneGrows(ws, ready, read, walked, at + 1, tracking, tracking, ms, mains, ins, installs);
    }

    /** The installations of a title whose requirements are installed: the main one when missing, then the specific version when a reference is missing. */
    method Serve(a: Ask, ghost at: nat)
      requires Valid() && at < |walked| && read(walked[at]) == Some(a) && a.key in ws
      modifies this
      ensures Valid()
      ensures tracking == old(tracking) && walked == old(walked) && old(mains) <= mains && old(installs) <= installs
      ensures a.key in mains
      ensures !AllHere(a.refs, ReadyOf(ready, a.key)) ==> Specific(a.key, a.spec) in installs
    {
      if a.key !in mains {
        Record(Main(a.key), at);
      }
      var here := CheckRefs(a.refs, ReadyOf(ready, a.key));
      if !here {
        Record(Specific(a.key, a.spec), at);
        assert installs[|installs| - 1] == Specific(a.key, a.spec);
      }
    }

    /** `tracking += [title.lower()]`. */
    method Walk(t: string)
      requires Valid() && Lower(t) in U && Lower(t) !in tracking
      modifies this
      ensures Valid()
      ensures tracking == old(tracking) + [Lower(t)] && walked == old(walked) + [t]
      ensures mains == old(mains) && installs == old(installs) && why == old(why)
    {
      TrackStep(U, tracking, walked, t);
      SoundWalk(ws, ready, read, walked, walked + [t], installs, why);
      tracking := tracking + [Lower(t)];
      walked := walked + [t];
    }

    /** An installation asked for by the walked title at; a main installation adds its block to those installed. */
    method Record(x: Install, ghost at: nat)
      requires Valid() && at < |walked| && Asks(ws, ready, read, walked[at], x)
      requires x.Main? ==> x.block !in mains
      modifies this
      ensures Valid()
      ensures installs == old(installs) + [x] && why == old(why) + [at]
      ensures mains == old(mains) + (if x.Main? then {x.block} else {})
      ensures tracking == old(tracking) && walked == old(walked)
    {
      SoundStep(ws, ready, read, walked, installs, why, x, at);
      if x.Main? {
        MainsMain(mains0, mains, installs, x.block);
        mains := mains + {x.block};
      } else {
        MainsSpecific(mains0, mains, installs, x);
      }
      installs := installs + [x];
      why := why + [at];
    }
  }
}
