// A block's requirements (Block.updateRequires and Block.installReqs): the
// identifiers written to the 'requires' metadata from the blocks that own the
// units this block's units use, the test for whether they changed, and the
// walk that installs every direct and indirect requirement once.
module Requires {
  import opened Strings
  import opened Lists
  import opened Dict
  import Title

  /**
   * The block that owns a required unit: its vendor, library, name and
   * version (with its 'v'), and the requires code of the level it sits at
   * ('unstable', 'latest', a partial version or 'v' and its version).
   */
  datatype Need = Need(m: string, l: string, n: string, v: string, code: string)

  /** The key of block_titles: the block's title with its own version, lower-cased. */
  function Key(b: Need): string
  {
    Lower(Title.GetFull(b.m, b.l, b.n, b.v, true, []))
  }

  /** An entry of block_titles: the first block filed under the key and the codes of all of them. */
  datatype Group = Group(first: Need, codes: seq<string>)

  /** One block added to block_titles: a new key starts a group, a known one gains the block's code. */
  function Noted(t: Shelf<Group>, b: Need): Shelf<Group>
  {
    var k := Key(b);
    if k in t.jar then Put(t, k, Group(t.jar[k].first, t.jar[k].codes + [b.code]))
    else Put(t, k, Group(b, [b.code]))
  }

  /** block_titles after the blocks bs, the block itself skipped. */
  function TitlesOf(bs: seq<Need>, self: Need): Shelf<Group>
  {
    if bs == [] then Shelf([], map[])
    else
      var t := TitlesOf(bs[..|bs| - 1], self);
      var b := bs[|bs| - 1];
      if b == self then t else Noted(t, b)
  }

  /** The codes of the blocks of bs, other than the block itself, filed under k, in order. */
  function CodesOf(bs: seq<Need>, self: Need, k: string): seq<string>
  {
    if bs == [] then []
    else
      var b := bs[|bs| - 1];
      CodesOf(bs[..|bs| - 1], self, k) + (if b != self && Key(b) == k then [b.code] else [])
  }

  /** The identifier written for a group: the first block's title with the sorted codes chained before its version. */
  function Identifier(g: Group): string
  {
    Title.GetFull(g.first.m, g.first.l, g.first.n, g.first.v, true, g.codes)
  }

  /** block_ids after the first j groups of t: each identifier under its lower-cased text. */
  function IdsOf(t: Shelf<Group>, j: nat): Shelf<string>
    requires j <= |t.keys|
  {
    if j == 0 then Shelf([], map[])
    else
      var s := IdsOf(t, j - 1);
      var k := t.keys[j - 1];
      if k in t.jar then Put(s, Lower(Identifier(t.jar[k])), Identifier(t.jar[k])) else s
  }

  /** block_requires: the listed requirements under their lower-cased text. */
  function Listed(listed: seq<string>): Shelf<string>
  {
    if listed == [] then Shelf([], map[])
    else
      var t := listed[|listed| - 1];
      Put(Listed(listed[..|listed| - 1]), Lower(t), t)
  }

  /** list(m.values()): the entries in key order. */
  function Values(keys: seq<string>, jar: map<string, string>): (r: seq<string>)
    ensures forall x :: x in r ==> exists k :: k in keys && k in jar && jar[k] == x
  {
    if keys == [] then []
    else (if keys[0] in jar then [jar[keys[0]]] else []) + Values(keys[1..], jar)
  }

  /** The update test as written: the sizes differ, or a key of one is missing from the other. */
  predicate Changed(r: Shelf<string>, s: Shelf<string>)
  {
    |r.jar| != |s.jar| || (exists k :: k in r.keys && k !in s.jar) || (exists k :: k in s.keys && k !in r.jar)
  }

  // --------------------------------------------------------------- lemmas

  lemma {:induction false} TitlesOrdered(bs: seq<Need>, self: Need)
    ensures Ordered(TitlesOf(bs, self))
  {
    if bs != [] {
      var t := TitlesOf(bs[..|bs| - 1], self);
      var b := bs[|bs| - 1];
      TitlesOrdered(bs[..|bs| - 1], self);
      if b != self {
        PutOrdered(t, Key(b), if Key(b) in t.jar then Group(t.jar[Key(b)].first, t.jar[Key(b)].codes + [b.code]) else Group(b, [b.code]));
      }
    }
  }

  /**
   * Under each key of block_titles: the first block other than the block
   * itself with that title, and the codes of all of them in order.
   */
  lemma {:induction false} TitlesSpec(bs: seq<Need>, self: Need, k: string)
    requires k in TitlesOf(bs, self).jar
    ensures var g := TitlesOf(bs, self).jar[k];
      g.codes == CodesOf(bs, self, k) && g.first in bs && g.first != self && Key(g.first) == k
  {
    var p, b := bs[..|bs| - 1], bs[|bs| - 1];
    assert p + [b] == bs;
    TitlesStep(p, b, self, k);
    var t := TitlesOf(p, self);
    if k in t.jar {
      TitlesSpec(p, self, k);
      var f := t.jar[k].first;
      var j :| 0 <= j < |p| && p[j] == f;
      assert bs[j] == f;
    } else {
      TitlesNone(p, self, k);
    }
  }

  /** A title that is no key of block_titles has no codes. */
  lemma {:induction false} TitlesNone(bs: seq<Need>, self: Need, k: string)
    requires k !in TitlesOf(bs, self).jar
    ensures CodesOf(bs, self, k) == []
  {
    if bs != [] {
      var p, b := bs[..|bs| - 1], bs[|bs| - 1];
      assert p + [b] == bs;
      TitlesStep(p, b, self, k);
      TitlesNone(p, self, k);
    }
  }

  /** The blocks whose titles are keys of block_titles. */
  lemma {:induction false} TitlesKeys(bs: seq<Need>, self: Need, i: nat)
    requires i < |bs| && bs[i] != self
    ensures Key(bs[i]) in TitlesOf(bs, self).jar
  {
    var p, b := bs[..|bs| - 1], bs[|bs| - 1];
    TitlesStep(p, b, self, Key(bs[i]));
    assert p + [b] == bs;
    if i < |p| {
      TitlesKeys(p, self, i);
    }
  }

  /** Every key of block_titles is the title of one of the blocks other than the block itself. */
  lemma {:induction false} TitlesFrom(bs: seq<Need>, self: Need, k: string) returns (i: nat)
    requires k in TitlesOf(bs, self).jar
    ensures i < |bs| && bs[i] != self && Key(bs[i]) == k
  {
    var p, b := bs[..|bs| - 1], bs[|bs| - 1];
    TitlesStep(p, b, self, k);
    assert p + [b] == bs;
    if k in TitlesOf(p, self).jar {
      i := TitlesFrom(p, self, k);
      assert bs[i] == p[i];
    } else {
      i := |bs| - 1;
    }
  }

  /** The last block of bs, in terms of the prefix before it. */
  lemma TitlesStep(p: seq<Need>, b: Need, self: Need, k: string)
    ensures var t, u := TitlesOf(p, self), TitlesOf(p + [b], self);
      (k in u.jar <==> k in t.jar || (b != self && Key(b) == k))
      && CodesOf(p + [b], self, k) == CodesOf(p, self, k) + (if b != self && Key(b) == k then [b.code] else [])
      && (k in u.jar ==>
            (u.jar[k] ==
              if b != self && Key(b) == k then
                (if k in t.jar then Group(t.jar[k].first, t.jar[k].codes + [b.code]) else Group(b, [b.code]))
              else t.jar[k]))
  {
    assert (p + [b])[..|p + [b]| - 1] == p;
  }

  lemma {:induction false} IdsOrdered(t: Shelf<Group>, j: nat)
    requires j <= |t.keys|
    ensures Ordered(IdsOf(t, j))
  {
    if j > 0 {
      IdsOrdered(t, j - 1);
      var k := t.keys[j - 1];
      if k in t.jar {
        PutOrdered(IdsOf(t, j - 1), Lower(Identifier(t.jar[k])), Identifier(t.jar[k]));
      }
    }
  }

  /**
   * Every group's identifier is in block_ids under its lower-cased text and
   * every entry of block_ids is a group's identifier under its lower-cased text.
   */
  /** Every group's identifier is found under its lower-cased text. */
  lemma {:induction false} IdsHas(t: Shelf<Group>, j: nat, i: nat)
    requires i < j <= |t.keys| && t.keys[i] in t.jar
    ensures Lower(Identifier(t.jar[t.keys[i]])) in IdsOf(t, j).jar
  {
    if i < j - 1 {
      IdsHas(t, j - 1, i);
    }
  }

  /**
   * Every key found is the lower-cased text of the identifier stored under
   * it, and that identifier is the one of the group at some index i.
   */
  lemma {:induction false} IdsFrom(t: Shelf<Group>, j: nat, x: string) returns (i: nat)
    requires j <= |t.keys| && x in IdsOf(t, j).jar
    ensures i < j && t.keys[i] in t.jar
    ensures Lower(IdsOf(t, j).jar[x]) == x && Identifier(t.jar[t.keys[i]]) == IdsOf(t, j).jar[x]
  {
    var k := t.keys[j - 1];
    if k in t.jar && x == Lower(Identifier(t.jar[k])) {
      LowerIdempotent(Identifier(t.jar[k]));
      i := j - 1;
    } else {
      i := IdsFrom(t, j - 1, x);
    }
  }

  lemma {:induction false} ListedOrdered(listed: seq<string>)
    ensures Ordered(Listed(listed))
  {
    if listed != [] {
      ListedOrdered(listed[..|listed| - 1]);
      PutOrdered(Listed(listed[..|listed| - 1]), Lower(listed[|listed| - 1]), listed[|listed| - 1]);
    }
  }

  /** block_requires has exactly the lower-cased listed requirements as keys. */
  lemma {:induction false} ListedKeys(listed: seq<string>, k: string)
    ensures k in Listed(listed).jar <==> exists i :: 0 <= i < |listed| && Lower(listed[i]) == k
  {
    if listed != [] {
      var p := listed[..|listed| - 1];
      ListedKeys(p, k);
      if exists i :: 0 <= i < |p| && Lower(p[i]) == k {
        var i :| 0 <= i < |p| && Lower(p[i]) == k;
        assert listed[i] == p[i];
      }
      if exists i :: 0 <= i < |listed| && Lower(listed[i]) == k {
        var i :| 0 <= i < |listed| && Lower(listed[i]) == k;
        if i < |p| {
          assert p[i] == listed[i];
        }
      }
    }
  }

  /** The three tests of updateRequires together detect exactly a change in the set of keys. */
  lemma ChangedSpec(r: Shelf<string>, s: Shelf<string>)
    requires Ordered(r) && Ordered(s)
    ensures Changed(r, s) <==> r.jar.Keys != s.jar.Keys
  {
    if r.jar.Keys == s.jar.Keys {
      assert |r.jar| == |r.jar.Keys| && |s.jar| == |s.jar.Keys|;
    } else if exists k :: k in r.jar && k !in s.jar {
      var k :| k in r.jar && k !in s.jar;
      assert k in r.keys;
    } else {
      var k :| k in s.jar && k !in r.jar;
      assert k in s.keys;
    }
  }

  // --------------------------------------------------------------- method

  /** Whether some key is not in m; the source's loop stops at the first. */
  method AnyMissing(keys: seq<string>, m: map<string, string>) returns (missing: bool)
    ensures missing <==> exists k :: k in keys && k !in m
  {
    for i := 0 to |keys|
      invariant forall j :: 0 <= j < i ==> keys[j] in m
    {
      if keys[i] !in m {
        return true;
      }
    }
    return false;
  }

  /**
   * Block.updateRequires, given the owners of the units the block's units
   * require (in order, one per required unit), the block itself and its
   * listed requirements: the identifiers to list and whether they differ
   * from those listed, which is when the source saves them unless it is a
   * dry run.
   */
  method UpdateRequires(direct: seq<Need>, self: Need, listed: seq<string>) returns (ids: seq<string>, update: bool)
    ensures var t := TitlesOf(FirstSeen(direct), self);
      var s := IdsOf(t, |t.keys|);
      ids == Values(s.keys, s.jar) && (update <==> Changed(Listed(listed), s))
  {
    var blockReqs := CollectReqs(direct);
    var blockRequires := CollectListed(listed);
    var titles := CollectTitles(blockReqs, self);
    var blockIds := CollectIds(titles);
    update := |blockRequires.jar| != |blockIds.jar|;
    var gone := AnyMissing(blockRequires.keys, blockIds.jar);
    var added := AnyMissing(blockIds.keys, blockRequires.jar);
    update := update || gone || added;
    ids := Values(blockIds.keys, blockIds.jar);
  }

  /** The first loop of updateRequires: each required block once, in first-seen order. */
  method CollectReqs(direct: seq<Need>) returns (blockReqs: seq<Need>)
    ensures blockReqs == FirstSeen(direct)
  {
    blockReqs := [];
    for i := 0 to |direct|
      invariant blockReqs == FirstSeen(direct[..i])
    {
      assert direct[..i + 1][..i] == direct[..i];
      if direct[i] !in blockReqs {
        blockReqs := blockReqs + [direct[i]];
      }
    }
    assert direct[..|direct|] == direct;
  }

  /** The loop that files the listed requirements under their lower-cased text. */
  method CollectListed(listed: seq<string>) returns (blockRequires: Shelf<string>)
    ensures blockRequires == Listed(listed)
  {
    blockRequires := Shelf([], map[]);
    for i := 0 to |listed|
      invariant blockRequires == Listed(listed[..i])
    {
      assert listed[..i + 1][..i] == listed[..i];
      blockRequires := Put(blockRequires, Lower(listed[i]), listed[i]);
    }
    assert listed[..|listed|] == listed;
  }

  /** The loop that groups the required blocks other than the block itself by title. */
  method CollectTitles(blockReqs: seq<Need>, self: Need) returns (titles: Shelf<Group>)
    ensures titles == TitlesOf(blockReqs, self)
  {
    titles := Shelf([], map[]);
    for i := 0 to |blockReqs|
      invariant titles == TitlesOf(blockReqs[..i], self)
    {
      assert blockReqs[..i + 1][..i] == blockReqs[..i];
      if blockReqs[i] != self {
        titles := Noted(titles, blockReqs[i]);
      }
    }
    assert blockReqs[..|blockReqs|] == blockReqs;
  }

  /** The loop that builds one identifier per title group. */
  method CollectIds(titles: Shelf<Group>) returns (blockIds: Shelf<string>)
    ensures blockIds == IdsOf(titles, |titles.keys|)
  {
    blockIds := Shelf([], map[]);
    for j := 0 to |titles.keys|
      invariant blockIds == IdsOf(titles, j)
    {
      var k := titles.keys[j];
      if k in titles.jar {
        var id := Identifier(titles.jar[k]);
        blockIds := Put(blockIds, Lower(id), id);
      }
    }
  }

  /**
   * updateRequires asks for a save exactly when the set of lower-cased
   * listed requirements is not the set of lower-cased identifiers found.
   */
  lemma UpdateSpec(direct: seq<Need>, self: Need, listed: seq<string>)
    ensures var t := TitlesOf(FirstSeen(direct), self);
      var s := IdsOf(t, |t.keys|);
      Changed(Listed(listed), s) <==> Listed(listed).jar.Keys != s.jar.Keys
  {
    var t := TitlesOf(FirstSeen(direct), self);
    ListedOrdered(listed);
    IdsOrdered(t, |t.keys|);
    ChangedSpec(Listed(listed), IdsOf(t, |t.keys|));
  }

  /**
   * Every block of a required unit other than the block itself is listed:
   * the identifier of its title's group, whose chain holds its code, is
   * among the identifiers found.
   */
  lemma RequirementListed(direct: seq<Need>, self: Need, b: Need)
    requires b in direct && b != self
    ensures var t := TitlesOf(FirstSeen(direct), self);
      Key(b) in t.jar && b.code in t.jar[Key(b)].codes
      && Lower(Identifier(t.jar[Key(b)])) in IdsOf(t, |t.keys|).jar
  {
    var bs := FirstSeen(direct);
    FirstSeenSpec(direct);
    var i :| 0 <= i < |bs| && bs[i] == b;
    TitlesKeys(bs, self, i);
    TitlesSpec(bs, self, Key(b));
    CodesHas(bs, self, i);
    var t := TitlesOf(bs, self);
    TitlesOrdered(bs, self);
    var j :| 0 <= j < |t.keys| && t.keys[j] == Key(b);
    IdsHas(t, |t.keys|, j);
  }

  lemma {:induction false} CodesHas(bs: seq<Need>, self: Need, i: nat)
    requires i < |bs| && bs[i] != self
    ensures bs[i].code in CodesOf(bs, self, Key(bs[i]))
  {
    if i < |bs| - 1 {
      CodesHas(bs[..|bs| - 1], self, i);
    }
  }

  /** No identifier comes from the block itself: every code filed under k is that of another block with that title. */
  lemma {:induction false} CodesFrom(bs: seq<Need>, self: Need, k: string, c: string) returns (i: nat)
    requires c in CodesOf(bs, self, k)
    ensures i < |bs| && bs[i] != self && Key(bs[i]) == k && bs[i].code == c
  {
    var p, b := bs[..|bs| - 1], bs[|bs| - 1];
    var tail := if b != self && Key(b) == k then [b.code] else [];
    assert CodesOf(bs, self, k) == CodesOf(p, self, k) + tail;
    if c in CodesOf(p, self, k) {
      i := CodesFrom(p, self, k, c);
      assert bs[i] == p[i];
    } else {
      i := |bs| - 1;
    }
  }
}
