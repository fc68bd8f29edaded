// The dependency graph of units and blocks: forward and reverse adjacency
// lists kept in insertion order, edge insertion without parallel edges,
// neighbour queries, and the counting topological sort that also yields the
// first-seen order of the owners of the sorted vertices.
module Graph {
  import opened Lists

  /**
   * The graph's abstract state: the vertices in the order the adjacency
   * dictionary holds them, the forward lists (a vertex's dependencies) and
   * the reverse lists (who depends on it).
   */
  datatype Adj<V> = Adj(keys: seq<V>, fwd: map<V, seq<V>>, back: map<V, seq<V>>)

  /** The shape every operation keeps: one key order, both maps on the same vertices, no repeated entries. */
  ghost predicate WellFormed<V(!new)>(g: Adj<V>)
  {
    Distinct(g.keys)
    && (forall v :: v in g.keys <==> v in g.fwd)
    && g.fwd.Keys == g.back.Keys
    && (forall v :: v in g.fwd ==> Distinct(g.fwd[v]))
    && (forall v :: v in g.back ==> Distinct(g.back[v]))
  }

  /** Every list entry names a vertex of the graph. */
  ghost predicate Closed<V(!new)>(g: Adj<V>)
  {
    (forall v, w :: v in g.fwd && w in g.fwd[v] ==> w in g.fwd)
    && (forall v, w :: v in g.back && w in g.back[v] ==> w in g.back)
  }

  /** Between vertices of the graph the reverse lists mirror the forward lists. */
  ghost predicate Mirror<V(!new)>(g: Adj<V>)
  {
    forall a, b :: a in g.fwd && b in g.back ==> (b in g.fwd[a] <==> a in g.back[b])
  }

  /** rank decreases along every forward edge: the graph has no cycle. */
  ghost predicate Ranked<V(!new)>(g: Adj<V>, rank: map<V, nat>)
  {
    (forall v :: v in g.fwd ==> v in rank)
    && forall v, w :: v in g.fwd && w in g.fwd[v] && w in rank ==> rank[w] < rank[v]
  }

  function Empty<V>(): Adj<V>
  {
    Adj([], map[], map[])
  }

  /** addVertex: empty lists for a vertex not yet present; otherwise nothing. */
  function AddVertexTo<V(!new)>(g: Adj<V>, u: V): Adj<V>
  {
    Adj(if u in g.fwd then g.keys else g.keys + [u],
        if u in g.fwd then g.fwd else g.fwd[u := []],
        if u in g.back then g.back else g.back[u := []])
  }

  /** addEdge: both vertices are added, then each list gains the other end unless it has it. */
  function AddEdgeTo<V(!new)>(g: Adj<V>, integral: V, derivative: V): Adj<V>
  {
    Link(AddVertexTo(AddVertexTo(g, integral), derivative), integral, derivative)
  }

  /** The list half of addEdge, on a graph that has both vertices. */
  function Link<V(!new)>(h: Adj<V>, integral: V, derivative: V): Adj<V>
    requires integral in h.fwd && derivative in h.back
  {
    Adj(h.keys,
        if derivative in h.fwd[integral] then h.fwd else h.fwd[integral := h.fwd[integral] + [derivative]],
        if integral in h.back[derivative] then h.back
        else h.back[derivative := h.back[derivative] + [integral]])
  }

  /** removeVertex: only the vertex's own entries go. */
  function RemoveVertexFrom<V(!new)>(g: Adj<V>, u: V): Adj<V>
  {
    Adj(RemoveFirst(g.keys, u), g.fwd - {u}, g.back - {u})
  }

  /**
   * removeEdge as the source writes it: derivative leaves integral's forward
   * list, and then integral leaves DERIVATIVE'S FORWARD list; the reverse
   * lists are not touched. A missing integral is a KeyError before any
   * change; a missing derivative is a KeyError after the first removal.
   */
  function RemoveEdgeAsWritten<V(!new)>(g: Adj<V>, integral: V, derivative: V): (Adj<V>, bool)
  {
    if integral !in g.fwd then (g, false)
    else
      var f := if derivative in g.fwd[integral] then g.fwd[integral := RemoveFirst(g.fwd[integral], derivative)] else g.fwd;
      if derivative !in f then (Adj(g.keys, f, g.back), false)
      else
        var f' := if integral in f[derivative] then f[derivative := RemoveFirst(f[derivative], integral)] else f;
        (Adj(g.keys, f', g.back), true)
  }

  /**
   * removeEdge as its comment intends: integral leaves derivative's REVERSE
   * list. The KeyError cases are those of the source.
   */
  function RemoveEdgeFrom<V(!new)>(g: Adj<V>, integral: V, derivative: V): (Adj<V>, bool)
  {
    if integral !in g.fwd then (g, false)
    else
      var f := if derivative in g.fwd[integral] then g.fwd[integral := RemoveFirst(g.fwd[integral], derivative)] else g.fwd;
      if derivative !in g.back then (Adj(g.keys, f, g.back), false)
      else
        var b := if integral in g.back[derivative] then g.back[derivative := RemoveFirst(g.back[derivative], integral)] else g.back;
        (Adj(g.keys, f, b), true)
  }

  /** getNeighbors: a copy of the forward (or, upstream, the reverse) list; [] for an unknown vertex. */
  function Neighbors<V(!new)>(g: Adj<V>, v: V, upstream: bool): seq<V>
  {
    var m := if upstream then g.back else g.fwd;
    if v in m then m[v] else []
  }

  // ------------------------------------------------------------ lemmas

  lemma EmptyWellFormed<V(!new)>()
    ensures WellFormed(Empty<V>()) && Closed(Empty<V>()) && Mirror(Empty<V>())
  {
  }

  /** addVertex is idempotent, adds the vertex, and changes no existing list. */
  lemma AddVertexSpec<V(!new)>(g: Adj<V>, u: V)
    requires WellFormed(g)
    ensures var h := AddVertexTo(g, u);
      WellFormed(h) && AddVertexTo(h, u) == h
      && u in h.fwd && h.fwd.Keys == g.fwd.Keys + {u}
      && (u !in g.fwd ==> h.fwd[u] == [] && h.back[u] == [])
      && (forall v :: v in g.fwd ==> h.fwd[v] == g.fwd[v] && h.back[v] == g.back[v])
      && (u in g.fwd ==> h == g)
  {
    if u !in g.fwd {
      assert u !in g.keys;
      DistinctAppend(g.keys, u);
      var h := AddVertexTo(g, u);
      assert h.fwd == g.fwd[u := []] && h.back == g.back[u := []];
    }
  }

  /** Adding a vertex keeps a closed, mirrored graph closed and mirrored. */
  lemma AddVertexKeeps<V(!new)>(g: Adj<V>, u: V)
    requires WellFormed(g) && Closed(g) && Mirror(g)
    ensures Closed(AddVertexTo(g, u)) && Mirror(AddVertexTo(g, u))
  {
  }

  /**
   * After addEdge both ends are vertices, the edge is in both lists, no list
   * has a repeated entry, and every other list is as before.
   */
  lemma AddEdgeSpec<V(!new)>(g: Adj<V>, integral: V, derivative: V)
    requires WellFormed(g)
    ensures var h := AddEdgeTo(g, integral, derivative);
      WellFormed(h)
      && h.fwd.Keys == g.fwd.Keys + {integral, derivative}
      && derivative in h.fwd[integral] && integral in h.back[derivative]
      && (forall v :: v in g.fwd && v != integral ==> h.fwd[v] == g.fwd[v])
      && (forall v :: v in g.back && v != derivative ==> h.back[v] == g.back[v])
  {
    AddBoth(g, integral, derivative);
    LinkSpec(AddVertexTo(AddVertexTo(g, integral), derivative), integral, derivative);
  }

  /** The vertex half of addEdge: both ends present, no existing list changed. */
  lemma AddBoth<V(!new)>(g: Adj<V>, integral: V, derivative: V)
    requires WellFormed(g)
    ensures var h := AddVertexTo(AddVertexTo(g, integral), derivative);
      WellFormed(h) && h.fwd.Keys == g.fwd.Keys + {integral, derivative}
      && (forall v :: v in g.fwd ==> h.fwd[v] == g.fwd[v])
      && (forall v :: v in g.back ==> h.back[v] == g.back[v])
  {
    var h1 := AddVertexTo(g, integral);
    AddVertexSpec(g, integral);
    AddVertexSpec(h1, derivative);
    KeepsBoth(g, h1, AddVertexTo(h1, derivative), integral, derivative);
  }

  /** Two steps that each keep every existing list keep them all, and add both vertices. */
  lemma KeepsBoth<V>(g: Adj<V>, h1: Adj<V>, h2: Adj<V>, a: V, b: V)
    requires g.back.Keys == g.fwd.Keys && h1.back.Keys == h1.fwd.Keys && h2.back.Keys == h2.fwd.Keys
    requires h1.fwd.Keys == g.fwd.Keys + {a} && h2.fwd.Keys == h1.fwd.Keys + {b}
    requires forall v :: v in g.fwd ==> h1.fwd[v] == g.fwd[v] && h1.back[v] == g.back[v]
    requires forall v :: v in h1.fwd ==> h2.fwd[v] == h1.fwd[v] && h2.back[v] == h1.back[v]
    ensures h2.fwd.Keys == g.fwd.Keys + {a, b}
    ensures forall v :: v in g.fwd ==> h2.fwd[v] == g.fwd[v]
    ensures forall v :: v in g.back ==> h2.back[v] == g.back[v]
  {
  }

  /** addEdge is idempotent. */
  lemma AddEdgeTwice<V(!new)>(g: Adj<V>, integral: V, derivative: V)
    requires WellFormed(g)
    ensures var h := AddEdgeTo(g, integral, derivative);
      AddEdgeTo(h, integral, derivative) == h
  {
    var h1 := AddVertexTo(g, integral);
    AddVertexSpec(g, integral);
    var h2 := AddVertexTo(h1, derivative);
    AddVertexSpec(h1, derivative);
    LinkSpec(h2, integral, derivative);
    var h := Link(h2, integral, derivative);
    assert AddVertexTo(h, integral) == h;
    assert AddVertexTo(h, derivative) == h;
  }

  /** Linking two present vertices adds the edge to both lists and changes no other list. */
  lemma LinkSpec<V(!new)>(h: Adj<V>, integral: V, derivative: V)
    requires WellFormed(h) && integral in h.fwd && derivative in h.fwd
    ensures var k := Link(h, integral, derivative);
      WellFormed(k) && k.fwd.Keys == h.fwd.Keys && k.keys == h.keys
      && derivative in k.fwd[integral] && integral in k.back[derivative]
      && (forall v :: v in h.fwd && v != integral ==> k.fwd[v] == h.fwd[v])
      && (forall v :: v in h.back && v != derivative ==> k.back[v] == h.back[v])
      && (forall w :: w in k.fwd[integral] <==> w in h.fwd[integral] || w == derivative)
      && (forall w :: w in k.back[derivative] <==> w in h.back[derivative] || w == integral)
      && Link(k, integral, derivative) == k
  {
    if derivative !in h.fwd[integral] {
      DistinctAppend(h.fwd[integral], derivative);
    }
    if integral !in h.back[derivative] {
      DistinctAppend(h.back[derivative], integral);
    }
  }

  /** Adding an edge keeps a closed, mirrored graph closed and mirrored. */
  lemma AddEdgeKeeps<V(!new)>(g: Adj<V>, integral: V, derivative: V)
    requires WellFormed(g) && Closed(g) && Mirror(g)
    ensures Closed(AddEdgeTo(g, integral, derivative)) && Mirror(AddEdgeTo(g, integral, derivative))
  {
    var h1 := AddVertexTo(g, integral);
    AddVertexSpec(g, integral);
    AddVertexKeeps(g, integral);
    var h2 := AddVertexTo(h1, derivative);
    AddVertexSpec(h1, derivative);
    AddVertexKeeps(h1, derivative);
    LinkSpec(h2, integral, derivative);
    LinkKeeps(h2, integral, derivative);
  }

  /** Linking two present vertices keeps the graph closed and mirrored. */
  lemma LinkKeeps<V(!new)>(h: Adj<V>, integral: V, derivative: V)
    requires WellFormed(h) && Closed(h) && Mirror(h)
    requires integral in h.fwd && derivative in h.fwd
    ensures Closed(Link(h, integral, derivative)) && Mirror(Link(h, integral, derivative))
  {
    LinkLists(h, integral, derivative);
  }

  /** What Link does to each list: the one new entry on each side, nothing else. */
  lemma LinkLists<V(!new)>(h: Adj<V>, integral: V, derivative: V)
    requires integral in h.fwd && derivative in h.back
    ensures var k := Link(h, integral, derivative);
      k.fwd.Keys == h.fwd.Keys && k.back.Keys == h.back.Keys
      && (forall a, w :: a in k.fwd ==> (w in k.fwd[a] <==> w in h.fwd[a] || (a == integral && w == derivative)))
      && (forall b, w :: b in k.back ==> (w in k.back[b] <==> w in h.back[b] || (b == derivative && w == integral)))
  {
  }

  /**
   * The forward lists after addEdge: the vertices are the old ones and the
   * two ends, the edges the old ones and the new one, nothing else.
   */
  lemma AddEdgeExact<V(!new)>(g: Adj<V>, integral: V, derivative: V)
    ensures var h := AddEdgeTo(g, integral, derivative);
      (forall v :: v in h.fwd <==> v in g.fwd || v == integral || v == derivative)
      && forall a, w :: a in h.fwd ==> (w in h.fwd[a] <==> (a in g.fwd && w in g.fwd[a]) || (a == integral && w == derivative))
  {
    var h2 := AddVertexTo(AddVertexTo(g, integral), derivative);
    assert forall a :: a in h2.fwd ==> h2.fwd[a] == if a in g.fwd then g.fwd[a] else [];
    LinkLists(h2, integral, derivative);
  }

  /** removeVertex drops the vertex's own lists and leaves every other list alone. */
  lemma RemoveVertexSpec<V(!new)>(g: Adj<V>, u: V)
    requires WellFormed(g)
    ensures var h := RemoveVertexFrom(g, u);
      WellFormed(h) && h.fwd.Keys == g.fwd.Keys - {u}
      && (forall v :: v in h.fwd ==> h.fwd[v] == g.fwd[v] && h.back[v] == g.back[v])
      && (Mirror(g) ==> Mirror(h))
  {
    // Mirror only relates two vertices that are both still present, and their
    // lists are untouched, so the mirror clause follows from the filtered maps
    // directly; the one step Dafny needs is that the key list stays distinct.
    // A list that still names u is not dropped by removeVertex either.
    RemoveFirstDistinct(g.keys, u);
  }

  /** Removing an absent vertex changes nothing. */
  lemma RemoveVertexAbsent<V(!new)>(g: Adj<V>, u: V)
    requires forall v :: v in g.keys ==> v in g.fwd
    ensures u !in g.fwd ==> RemoveFirst(g.keys, u) == g.keys && g.fwd - {u} == g.fwd
    ensures u !in g.back ==> g.back - {u} == g.back
  {
    if u !in g.fwd {
      assert u !in g.keys;
      RemoveFirstCount(g.keys, u);
      assert g.fwd - {u} == g.fwd;
    }
    if u !in g.back {
      assert g.back - {u} == g.back;
    }
  }

  /** The corrected removeEdge removes the edge from both lists; ok is false exactly on a KeyError. */
  lemma RemoveEdgeSpec<V(!new)>(g: Adj<V>, integral: V, derivative: V)
    requires WellFormed(g)
    ensures var (h, ok) := RemoveEdgeFrom(g, integral, derivative);
      WellFormed(h) && h.keys == g.keys && h.fwd.Keys == g.fwd.Keys
      && (ok <==> integral in g.fwd && derivative in g.fwd)
      && (ok ==> derivative !in h.fwd[integral] && integral !in h.back[derivative])
  {
    if integral in g.fwd {
      RemoveFirstDistinct(g.fwd[integral], derivative);
      if derivative in g.back {
        RemoveFirstDistinct(g.back[derivative], integral);
      }
    }
  }

  /** A completed removeEdge keeps a closed, mirrored graph closed and mirrored. */
  lemma RemoveEdgeKeeps<V(!new)>(g: Adj<V>, integral: V, derivative: V)
    requires WellFormed(g) && Closed(g) && Mirror(g)
    ensures var (h, ok) := RemoveEdgeFrom(g, integral, derivative);
      ok ==> Closed(h) && Mirror(h)
  {
    if integral in g.fwd && derivative in g.back {
      RemoveFirstDistinct(g.fwd[integral], derivative);
      RemoveFirstDistinct(g.back[derivative], integral);
      UnlinkLists(g, integral, derivative);
    }
  }

  /** What the corrected removeEdge does to each list: it loses the one entry, nothing else. */
  lemma UnlinkLists<V(!new)>(g: Adj<V>, integral: V, derivative: V)
    requires integral in g.fwd && derivative in g.back
    requires forall w :: w in RemoveFirst(g.fwd[integral], derivative) <==> w in g.fwd[integral] && w != derivative
    requires forall w :: w in RemoveFirst(g.back[derivative], integral) <==> w in g.back[derivative] && w != integral
    ensures var h := RemoveEdgeFrom(g, integral, derivative).0;
      h.fwd.Keys == g.fwd.Keys && h.back.Keys == g.back.Keys
      && (forall a, w :: a in h.fwd ==> (w in h.fwd[a] <==> w in g.fwd[a] && !(a == integral && w == derivative)))
      && (forall b, w :: b in h.back ==> (w in h.back[b] <==> w in g.back[b] && !(b == derivative && w == integral)))
  {
  }

  /**
   * The written removeEdge leaves the reverse list stale: after
   * addEdge(a, b) and removeEdge(a, b) the upstream neighbours of b still
   * list a, although a no longer depends on b.
   */
  lemma RemoveEdgeAsWrittenStale<V(!new)>(a: V, b: V)
    requires a != b
    ensures var g := AddEdgeTo(Empty<V>(), a, b);
      var (h, ok) := RemoveEdgeAsWritten(g, a, b);
      Mirror(g) && ok && b !in Neighbors(h, a, false) && a in Neighbors(h, b, true) && !Mirror(h)
  {
    var g := AddEdgeTo(Empty<V>(), a, b);
    assert g.fwd[a] == [b] && g.fwd[b] == [];
    assert g.back[b] == [a] && g.back[a] == [];
    var (h, ok) := RemoveEdgeAsWritten(g, a, b);
    assert h.fwd[a] == [];
    assert h.back[b] == [a];
  }

  /** On a mirrored graph, w is downstream of v exactly when v is upstream of w. */
  lemma NeighborsMirror<V(!new)>(g: Adj<V>, v: V, w: V)
    requires WellFormed(g) && Mirror(g) && v in g.fwd && w in g.fwd
    ensures w in Neighbors(g, v, false) <==> v in Neighbors(g, w, true)
  {
  }

  /** After addEdge(i, d), d is a neighbour of i and i an upstream neighbour of d. */
  lemma NeighborsAfterAddEdge<V(!new)>(g: Adj<V>, integral: V, derivative: V)
    requires WellFormed(g)
    ensures derivative in Neighbors(AddEdgeTo(g, integral, derivative), integral, false)
    ensures integral in Neighbors(AddEdgeTo(g, integral, derivative), derivative, true)
  {
    AddEdgeSpec(g, integral, derivative);
  }

  // --------------------------------------------------- topological sort

  /** The entries of l that are not yet in done: the remaining dependency count. */
  function Pending<V(==, !new)>(l: seq<V>, done: seq<V>): nat
  {
    if l == [] then 0 else (if l[0] in done then 0 else 1) + Pending(l[1..], done)
  }

  lemma {:induction false} PendingNone<V(!new)>(l: seq<V>)
    ensures Pending(l, []) == |l|
  {
    if l != [] {
      PendingNone(l[1..]);
    }
  }

  /** A count of zero means every entry is done. */
  lemma {:induction false} PendingZero<V(!new)>(l: seq<V>, done: seq<V>)
    ensures Pending(l, done) == 0 <==> forall w :: w in l ==> w in done
  {
    if l != [] {
      PendingZero(l[1..], done);
      assert forall w :: w in l <==> w == l[0] || w in l[1..];
    }
  }

  /** Finishing x lowers the count of a list without repeats by one exactly when x is in it. */
  lemma {:induction false} PendingAppend<V(!new)>(l: seq<V>, done: seq<V>, x: V)
    requires x !in done && Distinct(l)
    ensures Pending(l, done + [x]) == Pending(l, done) - (if x in l then 1 else 0)
  {
    if l != [] {
      PendingAppend(l[1..], done, x);
      assert l[0] == x ==> x !in l[1..];
    }
  }

  /** Every dependency of a sorted vertex comes before it. */
  ghost predicate Topo<V(!new)>(g: Adj<V>, order: seq<V>)
  {
    forall i, w :: 0 <= i < |order| && order[i] in g.fwd && w in g.fwd[order[i]] ==> w in order[..i]
  }

  /**
   * The loop state of topologicalSort: order holds distinct vertices, each
   * after its dependencies; a sorted vertex counts -1 and any other the
   * number of its dependencies not yet sorted.
   */
  ghost predicate SortState<V(!new)>(g: Adj<V>, order: seq<V>, cnt: map<V, int>)
  {
    Distinct(order) && (forall v :: v in order ==> v in g.fwd)
    && cnt.Keys == g.fwd.Keys
    && (forall v :: v in g.fwd ==> cnt[v] == if v in order then -1 else Pending(g.fwd[v], order))
    && Topo(g, order)
  }

  /** The counts after unit is sorted: one less for every vertex that depends on unit. */
  function Decremented<V(!new)>(g: Adj<V>, cnt: map<V, int>, unit: V): map<V, int>
  {
    map k | k in cnt :: if k in g.fwd && unit in g.fwd[k] then cnt[k] - 1 else cnt[k]
  }

  /** One vertex of the loop of Decrement: only that vertex's count can change. */
  lemma DecStep<V>(keys: seq<V>, m: nat, adj: map<V, seq<V>>, unit: V, cnt0: map<V, int>, c: map<V, int>, c': map<V, int>)
    requires m < |keys| && Distinct(keys) && c.Keys == adj.Keys && cnt0.Keys == adj.Keys && keys[m] in adj
    requires forall k :: k in c ==>
      c[k] == if k in keys[..m] && unit in adj[k] then cnt0[k] - 1 else cnt0[k]
    requires c' == if unit in adj[keys[m]] then c[keys[m] := c[keys[m]] - 1] else c
    ensures c'.Keys == c.Keys
    ensures forall k :: k in c' ==>
      c'[k] == if k in keys[..m + 1] && unit in adj[k] then cnt0[k] - 1 else cnt0[k]
  {
    assert keys[..m + 1] == keys[..m] + [keys[m]];
    assert keys[m] !in keys[..m];
  }

  /** Sorting a vertex whose count is zero keeps the loop state. */
  lemma ProcessStep<V(!new)>(g: Adj<V>, order: seq<V>, cnt: map<V, int>, unit: V)
    requires WellFormed(g) && SortState(g, order, cnt)
    requires unit in g.fwd && cnt[unit] == 0
    ensures SortState(g, order + [unit], Decremented(g, cnt[unit := -1], unit))
  {
    var o := order + [unit];
    var c := Decremented(g, cnt[unit := -1], unit);
    assert unit !in order;
    PendingZero(g.fwd[unit], order);
    assert unit !in g.fwd[unit];
    forall v | v in g.fwd
      ensures c[v] == if v in o then -1 else Pending(g.fwd[v], o)
    {
      ProcessCount(g, order, cnt, unit, v);
    }
    ProcessTopo(g, order, unit);
    DistinctAppend(order, unit);
  }

  /** A vertex all of whose dependencies are sorted can follow them in the order. */
  lemma ProcessTopo<V(!new)>(g: Adj<V>, order: seq<V>, unit: V)
    requires Topo(g, order) && unit in g.fwd && forall w :: w in g.fwd[unit] ==> w in order
    ensures Topo(g, order + [unit])
  {
    var o := order + [unit];
    forall i, w | 0 <= i < |o| && o[i] in g.fwd && w in g.fwd[o[i]]
      ensures w in o[..i]
    {
      if i < |order| {
        assert o[i] == order[i];
        assert o[..i] == order[..i];
      } else {
        assert o[..i] == order;
      }
    }
  }

  /** The count of one vertex after unit is sorted. */
  lemma ProcessCount<V(!new)>(g: Adj<V>, order: seq<V>, cnt: map<V, int>, unit: V, v: V)
    requires WellFormed(g) && SortState(g, order, cnt)
    requires unit in g.fwd && cnt[unit] == 0 && unit !in order && v in g.fwd
    ensures var c := Decremented(g, cnt[unit := -1], unit);
      c[v] == if v in order + [unit] then -1 else Pending(g.fwd[v], order + [unit])
  {
    PendingAppend(g.fwd[v], order, unit);
    if v in order {
      var i :| 0 <= i < |order| && order[i] == v;
      assert forall w :: w in g.fwd[v] ==> w in order[..i];
      assert unit !in order[..i];
    }
  }

  /** Following unsorted dependencies down the rank reaches an unsorted vertex whose count is zero. */
  lemma {:induction false} ReadyBelow<V(!new)>(g: Adj<V>, order: seq<V>, cnt: map<V, int>, rank: map<V, nat>, v: V)
    requires SortState(g, order, cnt) && Closed(g) && Ranked(g, rank)
    requires v in g.fwd && v !in order
    ensures exists u :: u in g.fwd && u !in order && cnt[u] == 0
    decreases rank[v]
  {
    PendingZero(g.fwd[v], order);
    if cnt[v] != 0 {
      var w :| w in g.fwd[v] && w !in order;
      ReadyBelow(g, order, cnt, rank, w);
    }
  }

  /** A sweep that sorted nothing is impossible while some vertex is unsorted. */
  lemma NoStall<V(!new)>(g: Adj<V>, order: seq<V>, cnt: map<V, int>, rank: map<V, nat>)
    requires WellFormed(g) && SortState(g, order, cnt) && Closed(g) && Ranked(g, rank)
    requires |order| < |g.keys|
    ensures exists u :: u in g.fwd && u !in order && cnt[u] == 0
  {
    if forall v :: v in g.keys ==> v in order {
      SubsetLength(g.keys, order);
      assert false;
    }
    var v :| v in g.keys && v !in order;
    ReadyBelow(g, order, cnt, rank, v);
  }

  /** When as many distinct vertices are sorted as there are vertices, all are. */
  lemma AllSorted<V(!new)>(g: Adj<V>, order: seq<V>)
    requires WellFormed(g) && Distinct(order) && (forall v :: v in order ==> v in g.fwd)
    requires |order| >= |g.keys|
    ensures |order| == |g.keys| && forall v :: v in g.fwd ==> v in order
  {
    SubsetLength(order, g.keys);
    forall v | v in g.fwd
      ensures v in order
    {
      if v !in order {
        RemoveFirstKeeps(g.keys, v);
        RemoveFirstCount(g.keys, v);
        SubsetLength(order, RemoveFirst(g.keys, v));
        assert false;
      }
    }
  }

  /** The block order returned: owners in first-seen order, the last vertex's owner moved to the tail. */
  lemma BlockOrderSpec<V(!new), O>(order: seq<V>, owner: V -> O)
    requires |order| > 0
    ensures var b := MoveToEnd(FirstSeen(MapSeq(order, owner)), owner(order[|order| - 1]));
      Distinct(b) && b[|b| - 1] == owner(order[|order| - 1])
      && forall x :: x in b <==> exists i :: 0 <= i < |order| && owner(order[i]) == x
  {
    var m := MapSeq(order, owner);
    FirstSeenSpec(m);
    assert m[|m| - 1] in m;
    MoveToEndSpec(FirstSeen(m), owner(order[|order| - 1]));
  }

  // -------------------------------------------------------------- class

  /** Graph: the two adjacency dictionaries, updated in place. */
  class Graph<V(==, !new)> {
    var keys: seq<V>
    var adj: map<V, seq<V>>
    var rev: map<V, seq<V>>

    function Value(): Adj<V>
      reads this
    {
      Adj(keys, adj, rev)
    }

    ghost predicate Valid()
      reads this
    {
      WellFormed(Value())
    }

    constructor ()
      ensures Value() == Empty() && Valid()
    {
      keys, adj, rev := [], map[], map[];
    }

    method Clear()
      modifies this
      ensures Value() == Empty() && Valid()
    {
      keys, adj, rev := [], map[], map[];
    }

    method AddVertex(u: V)
      requires Valid()
      modifies this
      ensures Valid() && Value() == AddVertexTo(old(Value()), u)
    {
      AddVertexSpec(Value(), u);
      if u !in adj {
        adj := adj[u := []];
        keys := keys + [u];
      }
      if u !in rev {
        rev := rev[u := []];
      }
    }

    method AddEdge(integral: V, derivative: V)
      requires Valid()
      modifies this
      ensures Valid() && Value() == AddEdgeTo(old(Value()), integral, derivative)
    {
      AddEdgeSpec(Value(), integral, derivative);
      AddVertex(integral);
      AddVertex(derivative);
      Connect(integral, derivative);
    }

    /** The list half of addEdge: each list gains the other end unless it has it. */
    method Connect(integral: V, derivative: V)
      requires integral in adj && derivative in rev
      modifies this
      ensures Value() == Link(old(Value()), integral, derivative)
    {
      if derivative !in adj[integral] {
        adj := adj[integral := adj[integral] + [derivative]];
      }
      if integral !in rev[derivative] {
        rev := rev[derivative := rev[derivative] + [integral]];
      }
    }

    method RemoveVertex(u: V)
      requires Valid()
      modifies this
      ensures Valid() && Value() == RemoveVertexFrom(old(Value()), u)
    {
      ghost var g := Value();
      RemoveVertexSpec(g, u);
      RemoveVertexAbsent(g, u);
      if u in adj {
        adj := adj - {u};
        keys := RemoveFirst(keys, u);
      }
      if u in rev {
        rev := rev - {u};
      }
    }

    /** removeEdge, with integral taken out of derivative's reverse list; ok is false on a KeyError. */
    method RemoveEdge(integral: V, derivative: V) returns (ok: bool)
      requires Valid()
      modifies this
      ensures Valid() && (Value(), ok) == RemoveEdgeFrom(old(Value()), integral, derivative)
    {
      RemoveEdgeSpec(Value(), integral, derivative);
      if integral !in adj {
        return false;
      }
      if derivative in adj[integral] {
        adj := adj[integral := RemoveFirst(adj[integral], derivative)];
      }
      if derivative !in rev {
        return false;
      }
      if integral in rev[derivative] {
        rev := rev[derivative := RemoveFirst(rev[derivative], integral)];
      }
      ok := true;
    }

    /** getNeighbors: the list of v's dependencies (or, upstream, dependants); [] for an unknown vertex. */
    function GetNeighbors(v: V, upstream: bool): (r: seq<V>)
      reads this
      ensures r == Neighbors(Value(), v, upstream)
      ensures v !in (if upstream then rev else adj) ==> r == []
    {
      if upstream then (if v in rev then rev[v] else [])
      else if v in adj then adj[v] else []
    }

    /** getVertices: every vertex once, in insertion order. */
    function GetVertices(): (r: seq<V>)
      reads this
      requires Valid()
      ensures Distinct(r) && forall v :: v in r <==> v in adj
    {
      keys
    }

    /** The first loop of topologicalSort: each vertex's number of dependencies. */
    method InitCounts() returns (cnt: map<V, int>)
      requires Valid()
      ensures cnt.Keys == adj.Keys && forall v :: v in adj ==> cnt[v] == |adj[v]|
    {
      cnt := map[];
      var i := 0;
      while i < |keys|
        invariant 0 <= i <= |keys|
        invariant cnt.Keys == set v | v in keys[..i]
        invariant forall v :: v in cnt ==> v in adj && cnt[v] == |adj[v]|
      {
        cnt := cnt[keys[i] := |adj[keys[i]]|];
        assert keys[..i + 1] == keys[..i] + [keys[i]];
        i := i + 1;
      }
      assert keys[..i] == keys;
    }

    /** The inner loop of topologicalSort: one less for every vertex whose list holds unit. */
    method Decrement(cnt0: map<V, int>, unit: V) returns (cnt: map<V, int>)
      requires Valid() && cnt0.Keys == adj.Keys
      ensures cnt == Decremented(Value(), cnt0, unit)
    {
      cnt := cnt0;
      var m := 0;
      while m < |keys|
        invariant 0 <= m <= |keys|
        invariant cnt.Keys == cnt0.Keys
        invariant forall k :: k in cnt ==>
          cnt[k] == if k in keys[..m] && unit in adj[k] then cnt0[k] - 1 else cnt0[k]
      {
        var k := keys[m];
        ghost var c := cnt;
        if unit in adj[k] {
          cnt := cnt[k := cnt[k] - 1];
        }
        DecStep(keys, m, adj, unit, cnt0, c, cnt);
        m := m + 1;
      }
      assert keys[..m] == keys;
    }

    /** The body of the for loop for a vertex whose count is zero. */
    method Take<O(==)>(owner: V -> O, order0: seq<V>, blockOrder0: seq<O>, cnt0: map<V, int>, unit: V)
      returns (order: seq<V>, blockOrder: seq<O>, cnt: map<V, int>)
      requires Valid() && cnt0.Keys == adj.Keys && unit in adj
      ensures order == order0 + [unit]
      ensures blockOrder == if owner(unit) in blockOrder0 then blockOrder0 else blockOrder0 + [owner(unit)]
      ensures cnt == Decremented(Value(), cnt0[unit := -1], unit)
    {
      order := order0 + [unit];
      blockOrder := blockOrder0;
      if owner(unit) !in blockOrder {
        blockOrder := blockOrder + [owner(unit)];
      }
      cnt := cnt0[unit := -1];
      cnt := Decrement(cnt, unit);
    }

    /** One pass of the for loop over all vertices, sorting every vertex whose count is zero when reached. */
    method Sweep<O(==)>(owner: V -> O, order0: seq<V>, blockOrder0: seq<O>, cnt0: map<V, int>)
      returns (order: seq<V>, blockOrder: seq<O>, cnt: map<V, int>)
      requires Valid() && SortState(Value(), order0, cnt0)
      requires blockOrder0 == FirstSeen(MapSeq(order0, owner))
      ensures Swept(Value(), owner, order0, cnt0, |keys|, order, blockOrder, cnt)
    {
      order, blockOrder, cnt := order0, blockOrder0, cnt0;
      var j := 0;
      while j < |keys|
        invariant 0 <= j <= |keys|
        invariant Swept(Value(), owner, order0, cnt0, j, order, blockOrder, cnt)
      {
        var unit := keys[j];
        if cnt[unit] == 0 {
          SweptTake(Value(), owner, order0, cnt0, j, order, blockOrder, cnt);
          order, blockOrder, cnt := Take(owner, order, blockOrder, cnt, unit);
        } else {
          SweptSkip(Value(), owner, order0, cnt0, j, order, blockOrder, cnt);
        }
        j := j + 1;
      }
    }

    /**
     * topologicalSort on an acyclic graph whose lists name only vertices
     * (the source loops forever otherwise): every vertex once, each after
     * all of its dependencies, and the owners in first-seen order with the
     * last vertex's owner last. ok is false, the source's fatal error, when
     * the graph has no vertex.
     */
    method TopologicalSort<O(==)>(owner: V -> O, ghost rank: map<V, nat>)
      returns (order: seq<V>, blockOrder: seq<O>, ok: bool)
      requires Valid() && Closed(Value()) && Ranked(Value(), rank)
      ensures ok <==> |keys| > 0
      ensures |order| == |keys| && Distinct(order) && forall v :: v in order <==> v in adj
      ensures forall i, w :: 0 <= i < |order| && w in adj[order[i]] ==> w in order[..i]
      ensures ok ==> blockOrder == MoveToEnd(FirstSeen(MapSeq(order, owner)), owner(order[|order| - 1]))
      ensures !ok ==> blockOrder == []
    {
      order, blockOrder := [], [];
      var cnt := InitCounts();
      forall v | v in adj
        ensures cnt[v] == Pending(adj[v], [])
      {
        PendingNone(adj[v]);
      }
      while |order| < |keys|
        invariant SortState(Value(), order, cnt)
        invariant blockOrder == FirstSeen(MapSeq(order, owner))
        decreases |keys| - |order|
      {
        ghost var before, cnt0 := order, cnt;
        NoStall(Value(), order, cnt, rank);
        order, blockOrder, cnt := Sweep(owner, order, blockOrder, cnt);
        SweepProgressed(Value(), owner, before, cnt0, order, blockOrder, cnt);
      }
      AllSorted(Value(), order);
      FirstSeenSpec(MapSeq(order, owner));
      if blockOrder == [] {
        assert order == [];
        ok := false;
        return;
      }
      blockOrder := MoveToEnd(blockOrder, owner(order[|order| - 1]));
      ok := true;
    }
  }

  /**
   * The state of topologicalSort's for loop after the first j vertices:
   * the sort's loop state, the owners in first-seen order, and, while the
   * sweep has sorted nothing, every vertex passed over had a nonzero count.
   */
  ghost predicate Swept<V(!new), O>(g: Adj<V>, owner: V -> O, order0: seq<V>, cnt0: map<V, int>, j: int,
                                    order: seq<V>, blockOrder: seq<O>, cnt: map<V, int>)
  {
    WellFormed(g) && 0 <= j <= |g.keys|
    && SortState(g, order, cnt) && blockOrder == FirstSeen(MapSeq(order, owner))
    && |order| >= |order0|
    && (|order| == |order0| ==>
          order == order0 && cnt == cnt0 && forall i :: 0 <= i < j ==> g.keys[i] in cnt && cnt[g.keys[i]] != 0)
  }

  /** Sorting the j-th vertex, whose count is zero, keeps the sweep's state. */
  lemma SweptTake<V(!new), O>(g: Adj<V>, owner: V -> O, order0: seq<V>, cnt0: map<V, int>, j: int,
                              order: seq<V>, blockOrder: seq<O>, cnt: map<V, int>)
    requires Swept(g, owner, order0, cnt0, j, order, blockOrder, cnt)
    requires j < |g.keys| && g.keys[j] in cnt && cnt[g.keys[j]] == 0
    ensures var unit := g.keys[j];
      Swept(g, owner, order0, cnt0, j + 1, order + [unit],
            if owner(unit) in blockOrder then blockOrder else blockOrder + [owner(unit)],
            Decremented(g, cnt[unit := -1], unit))
  {
    var unit := g.keys[j];
    assert unit in g.fwd;
    ProcessStep(g, order, cnt, unit);
    FirstSeenAppend(MapSeq(order, owner), owner(unit));
    MapSeqAppend(order, unit, owner);
  }

  /** Passing over the j-th vertex, whose count is not zero, keeps the sweep's state. */
  lemma SweptSkip<V(!new), O>(g: Adj<V>, owner: V -> O, order0: seq<V>, cnt0: map<V, int>, j: int,
                              order: seq<V>, blockOrder: seq<O>, cnt: map<V, int>)
    requires Swept(g, owner, order0, cnt0, j, order, blockOrder, cnt)
    requires j < |g.keys| && g.keys[j] in cnt && cnt[g.keys[j]] != 0
    ensures Swept(g, owner, order0, cnt0, j + 1, order, blockOrder, cnt)
  {
  }

  /** A sweep that starts with an unsorted vertex of count zero sorts something. */
  lemma SweepProgressed<V(!new), O>(g: Adj<V>, owner: V -> O, order0: seq<V>, cnt0: map<V, int>,
                                    order: seq<V>, blockOrder: seq<O>, cnt: map<V, int>)
    requires Swept(g, owner, order0, cnt0, |g.keys|, order, blockOrder, cnt)
    requires exists u :: u in g.fwd && u !in order0 && u in cnt0 && cnt0[u] == 0
    ensures |order| > |order0|
  {
  }
}
