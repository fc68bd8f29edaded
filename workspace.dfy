// The workspaces of legoHDL (Workspace): the class-level Jar of workspaces by
// lower-cased name, in the order they were entered; admission of a new
// workspace, renaming, the markets linked to a workspace, and the choice of
// the active workspace. Market objects are identified by their lower-cased
// names, the keys under which the market Jar holds them.
module Workspaces {
  import opened Strings
  import opened Lists
  import opened Dict
  import Apparatus

  // ------------------------------------------------------------ admission

  /**
   * Workspace.__init__ on the Jar: a workspace is entered under its
   * lower-cased name unless the name is taken or its local path could not be
   * set (empty, or a missing path the user declined to create).
   */
  function Admitted<W>(s: Shelf<W>, name: string, path: string, pathReady: bool, w: W): Shelf<W>
  {
    if Lower(name) in s.jar || path == "" || !pathReady then s else Put(s, Lower(name), w)
  }

  /**
   * A workspace is admitted exactly when its name is free and its path set;
   * then it is the last entry, and every other entry is as it was.
   */
  lemma AdmittedSpec<W>(s: Shelf<W>, name: string, path: string, pathReady: bool, w: W)
    requires Ordered(s)
    ensures var t := Admitted(s, name, path, pathReady, w);
      Ordered(t)
      && (t != s <==> Lower(name) !in s.jar && path != "" && pathReady)
      && (t != s ==> t.jar == s.jar[Lower(name) := w] && t.keys == s.keys + [Lower(name)])
  {
    PutOrdered(s, Lower(name), w);
    if Lower(name) !in s.jar && path != "" && pathReady {
      assert Lower(name) in Admitted(s, name, path, pathReady, w).jar;
    }
  }

  /**
   * The local path a new workspace holds once setPath has run on its empty
   * path: fs of the path when setPath accepts it, and '' otherwise.
   */
  function StoredPath(path: string, pathReady: bool, home: string): (r: string)
    ensures r != "" ==> path != "" && pathReady
    ensures path != "" && pathReady ==> r == Apparatus.Fs(Some(path), home).value
  {
    if path != "" && pathReady then Apparatus.Fs(Some(path), home).value else ""
  }

  /** The markets a new workspace links: the known ones among those listed, in order, as market keys. */
  function KnownMarkets(ms: seq<string>, known: set<string>): seq<string>
  {
    if ms == [] then []
    else
      var m := ms[|ms| - 1];
      KnownMarkets(ms[..|ms| - 1], known) + (if Lower(m) in known then [Lower(m)] else [])
  }

  /** A new workspace links a market exactly when it was listed, in any case, and is known. */
  lemma KnownMarketsSpec(ms: seq<string>, known: set<string>, k: string)
    ensures k in KnownMarkets(ms, known) <==> k in known && exists i :: 0 <= i < |ms| && Lower(ms[i]) == k
  {
    if k in KnownMarkets(ms, known) {
      var i := KnownFrom(ms, known, k);
    }
    if k in known && exists i :: 0 <= i < |ms| && Lower(ms[i]) == k {
      var i :| 0 <= i < |ms| && Lower(ms[i]) == k;
      KnownHas(ms, known, i);
    }
  }

  lemma {:induction false} KnownHas(ms: seq<string>, known: set<string>, i: nat)
    requires i < |ms| && Lower(ms[i]) in known
    ensures Lower(ms[i]) in KnownMarkets(ms, known)
  {
    if i < |ms| - 1 {
      var p := ms[..|ms| - 1];
      assert p[i] == ms[i];
      KnownHas(p, known, i);
    }
  }

  lemma {:induction false} KnownFrom(ms: seq<string>, known: set<string>, k: string) returns (i: nat)
    requires k in KnownMarkets(ms, known)
    ensures i < |ms| && Lower(ms[i]) == k && k in known
  {
    var p := ms[..|ms| - 1];
    if k in KnownMarkets(p, known) {
      i := KnownFrom(p, known, k);
      assert p[i] == ms[i];
    } else {
      i := |ms| - 1;
    }
  }

  // ------------------------------------------------------------- renaming

  /**
   * setName as written: the entry under the old name is deleted, whichever
   * workspace it holds, and the workspace is entered under the new name.
   */
  function RenamedAsWritten<W>(s: Shelf<W>, oldName: string, n: string, w: W): Shelf<W>
  {
    Put(if Lower(oldName) in s.jar then Del(s, Lower(oldName)) else s, Lower(n), w)
  }

  /** setName as meant: the old entry goes only when it is this workspace. */
  function Renamed<W(==)>(s: Shelf<W>, oldName: string, n: string, w: W): Shelf<W>
  {
    Put(if Lower(oldName) in s.jar && s.jar[Lower(oldName)] == w then Del(s, Lower(oldName)) else s, Lower(n), w)
  }

  /**
   * A rename to a free name moves the workspace's own entry to the new name,
   * at the end of the order, and keeps every entry of another workspace.
   */
  lemma RenamedSpec<W>(s: Shelf<W>, oldName: string, n: string, w: W)
    requires Ordered(s) && Lower(n) !in s.jar
    ensures var t := Renamed(s, oldName, n, w);
      Ordered(t)
      && t.jar[Lower(n)] == w && t.keys[|t.keys| - 1] == Lower(n)
      && (forall k :: k in s.jar && s.jar[k] != w ==> k in t.jar && t.jar[k] == s.jar[k])
      && (Lower(oldName) in s.jar && s.jar[Lower(oldName)] == w ==> Lower(oldName) !in t.jar)
      && (forall k :: k in t.jar ==> k == Lower(n) || k in s.jar)
  {
    var b := if Lower(oldName) in s.jar && s.jar[Lower(oldName)] == w then Del(s, Lower(oldName)) else s;
    DelOrdered(s, Lower(oldName));
    PutOrdered(b, Lower(n), w);
  }

  /**
   * As written, renaming a workspace that never entered the Jar (its name
   * was taken) deletes the workspace that holds that name: with w0 under
   * "a", renaming w1, also called "a", to "b" leaves only w1. As meant, w0
   * stays.
   */
  lemma RenameDropsOther()
    ensures RenamedAsWritten(Shelf(["a"], map["a" := 0]), "A", "b", 1) == Shelf(["b"], map["b" := 1])
    ensures Renamed(Shelf(["a"], map["a" := 0]), "A", "b", 1) == Shelf(["a", "b"], map["a" := 0, "b" := 1])
  {
    var s := Shelf(["a"], map["a" := 0]);
    assert Lower("A") == "a" && Lower("b") == "b";
    assert RemoveFirst(["a"], "a") == [];
    assert s.jar - {"a"} == map[];
    assert map[]["b" := 1] == map["b" := 1];
  }

  // --------------------------------------------------------------- markets

  /** The markets after linkMarket: a known market not yet linked goes at the end. */
  function Linked(markets: seq<string>, m: string, known: set<string>): seq<string>
  {
    if Lower(m) in known && Lower(m) !in markets then markets + [Lower(m)] else markets
  }

  /** The markets after unlinkMarket: a known, linked market is taken out once. */
  function Unlinked(markets: seq<string>, m: string, known: set<string>): seq<string>
  {
    if Lower(m) in known && Lower(m) in markets then RemoveFirst(markets, Lower(m)) else markets
  }

  /** Linking a market and then unlinking it gives back the markets it started from. */
  lemma LinkUnlink(markets: seq<string>, m: string, known: set<string>)
    requires Lower(m) in known && Lower(m) !in markets
    ensures Unlinked(Linked(markets, m, known), m, known) == markets
  {
    RemoveFirstAppended(markets, Lower(m));
  }

  /** linkMarket never repeats a market, and after it a known market is linked. */
  lemma LinkedSpec(markets: seq<string>, m: string, known: set<string>)
    requires Distinct(markets)
    ensures Distinct(Linked(markets, m, known))
    ensures Lower(m) in known ==> Lower(m) in Linked(markets, m, known)
    ensures forall k :: k in Linked(markets, m, known) <==> k in markets || (k == Lower(m) && k in known)
  {
    if Lower(m) in known && Lower(m) !in markets {
      DistinctAppend(markets, Lower(m));
    }
  }

  /** After unlinkMarket on markets without repeats the market is no longer linked, and the rest are. */
  lemma UnlinkedSpec(markets: seq<string>, m: string, known: set<string>)
    requires Distinct(markets)
    ensures Distinct(Unlinked(markets, m, known))
    ensures Lower(m) in known ==> Lower(m) !in Unlinked(markets, m, known)
    ensures forall k :: k != Lower(m) ==> (k in Unlinked(markets, m, known) <==> k in markets)
  {
    RemoveFirstDistinct(markets, Lower(m));
  }

  // ------------------------------------------------------------- registry

  /** Workspace's class-level state: the Jar and the active workspace. */
  class Registry {
    var shelf: Shelf<Workspace>
    var active: Option<Workspace>

    ghost predicate Valid()
      reads this
    {
      Ordered(shelf)
    }

    constructor ()
      ensures shelf == Shelf([], map[]) && active == None && Valid()
    {
      shelf, active := Shelf([], map[]), None;
    }

    /** Workspace.inWorkspace. */
    predicate InWorkspace()
      reads this
    {
      active.Some?
    }

    /**
     * Workspace.setActiveWorkspace: a known name becomes active; otherwise,
     * with no workspace active yet and a non-empty Jar, the first entry does;
     * otherwise nothing changes and the answer is false.
     */
    method SetActiveWorkspace(ws: Option<string>) returns (ok: bool)
      requires Valid()
      modifies this
      ensures Valid() && shelf == old(shelf)
      ensures ws.Some? && Lower(ws.value) in shelf.jar ==> ok && active == Some(shelf.jar[Lower(ws.value)])
      ensures !(ws.Some? && Lower(ws.value) in shelf.jar) && |shelf.keys| > 0 && old(active).None? ==>
        ok && active == Some(shelf.jar[shelf.keys[0]])
      ensures !(ws.Some? && Lower(ws.value) in shelf.jar) && !(|shelf.keys| > 0 && old(active).None?) ==>
        !ok && active == old(active)
    {
      if ws.Some? && Lower(ws.value) in shelf.jar {
        active := Some(shelf.jar[Lower(ws.value)]);
        return true;
      } else if |shelf.keys| > 0 && active.None? {
        assert shelf.keys[0] in shelf.keys;
        active := Some(shelf.jar[shelf.keys[0]]);
        return true;
      }
      return false;
    }
  }

  /** A workspace: its name, its local path and the markets linked to it. */
  class Workspace {
    var name: string
    var path: string
    var markets: seq<string>
    const reg: Registry

    /**
     * Workspace(name, path, markets): entered in the Jar unless its name is
     * taken or its path cannot be set; pathReady stands for the path
     * existing or the user agreeing to create it, home for the user's home
     * folder that fs expands '~' to.
     */
    constructor (name: string, path: string, ms: seq<string>, known: set<string>, pathReady: bool, home: string, reg: Registry)
      requires reg.Valid()
      modifies reg
      ensures this.name == name && this.reg == reg
      ensures reg.Valid() && reg.active == old(reg.active)
      ensures reg.shelf == Admitted(old(reg.shelf), name, StoredPath(path, pathReady, home), pathReady, this)
      ensures reg.shelf != old(reg.shelf) ==>
        this.path == Apparatus.Fs(Some(path), home).value && markets == KnownMarkets(ms, known)
    {
      this.name := name;
      this.reg := reg;
      var linked := [];
      var stored := StoredPath(path, pathReady, home);
      var admit := Lower(name) !in reg.shelf.jar && stored != "" && pathReady;
      if admit {
        for i := 0 to |ms|
          invariant linked == KnownMarkets(ms[..i], known)
        {
          assert ms[..i + 1][..i] == ms[..i];
          if Lower(ms[i]) in known {
            linked := linked + [Lower(ms[i])];
          }
        }
        assert ms[..|ms|] == ms;
      }
      this.path := if admit then stored else "";
      markets := linked;
      new;
      AdmittedSpec(reg.shelf, name, stored, pathReady, this);
      if admit {
        reg.shelf := Put(reg.shelf, Lower(name), this);
      }
    }

    /**
     * Workspace.setPath: an empty path, or one the user declines to create,
     * is refused; an accepted path is stored as fs normalises it.
     */
    method SetPath(p: string, pathReady: bool, home: string) returns (ok: bool)
      modifies this
      ensures ok <==> p != "" && pathReady
      ensures path == if ok then Apparatus.Fs(Some(p), home).value else old(path)
      ensures name == old(name) && markets == old(markets)
    {
      if p == "" || !pathReady {
        return false;
      }
      path := Apparatus.Fs(Some(p), home).value;
      ok := true;
    }

    /**
     * Workspace.setName: an empty name or one another entry has is refused;
     * otherwise the workspace's old entry goes and it is entered under n.
     */
    method SetName(n: string) returns (ok: bool)
      requires reg.Valid()
      modifies this, reg
      ensures reg.Valid() && reg.active == old(reg.active) && path == old(path) && markets == old(markets)
      ensures ok <==> n != "" && Lower(n) !in old(reg.shelf.jar)
      ensures ok ==> name == n && reg.shelf == Renamed(old(reg.shelf), old(name), n, this)
      ensures !ok ==> name == old(name) && reg.shelf == old(reg.shelf)
    {
      if n == "" || Lower(n) in reg.shelf.jar {
        return false;
      }
      RenamedSpec(reg.shelf, name, n, this);
      if Lower(name) in reg.shelf.jar && reg.shelf.jar[Lower(name)] == this {
        reg.shelf := Del(reg.shelf, Lower(name));
      }
      name := n;
      reg.shelf := Put(reg.shelf, Lower(name), this);
      ok := true;
    }

    /** Workspace.linkMarket: true exactly when the market is known and was not linked. */
    method LinkMarket(m: string, known: set<string>) returns (ok: bool)
      modifies this
      ensures ok <==> Lower(m) in known && Lower(m) !in old(markets)
      ensures markets == Linked(old(markets), m, known)
      ensures name == old(name) && path == old(path)
    {
      if Lower(m) in known {
        if Lower(m) in markets {
          return false;
        }
        markets := markets + [Lower(m)];
        return true;
      }
      return false;
    }

    /** Workspace.unlinkMarket: true exactly when the market is known and was linked. */
    method UnlinkMarket(m: string, known: set<string>) returns (ok: bool)
      modifies this
      ensures ok <==> Lower(m) in known && Lower(m) in old(markets)
      ensures markets == Unlinked(old(markets), m, known)
      ensures name == old(name) && path == old(path)
    {
      if Lower(m) in known {
        if Lower(m) !in markets {
          return false;
        }
        markets := RemoveFirst(markets, Lower(m));
        return true;
      }
      return false;
    }

    /** Workspace.isLinked: the number of linked markets, non-zero exactly when one is linked. */
    function IsLinked(): (r: nat)
      reads this
      ensures r > 0 <==> markets != []
    {
      |markets|
    }
  }
}
