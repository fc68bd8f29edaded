// The shared constants and the helpers of Apparatus: path normalisation,
// the sub-path test, the merge of library maps and the repair of the loaded
// settings (type defaults and the clamp of the refresh rate).
module Apparatus {
  import opened Strings

  /** The metadata file that marks a block's root folder. */
  const MARKER: string := "Block.lock"
  /** Suffix that marks a git tag as a release point. */
  const TAG_ID: string := "-legohdl"
  const MAX_RATE: int := 1440
  const MIN_RATE: int := -1
  const VHDL_CODE: seq<string> := ["*.vhd", "*.vhdl"]
  const VERILOG_CODE: seq<string> := ["*.v", "*.sv"]
  const SRC_CODE: seq<string> := VHDL_CODE + VERILOG_CODE

  /** The option names load() guarantees to exist. */
  const OPTIONS: seq<string> := ["author", "editor", "template", "multi-develop",
    "overlap-recursive", "label", "script", "active-workspace", "workspace",
    "refresh-rate", "market"]

  // ------------------------------------------------------------------- fs

  /** os.path.expanduser for the forms "~" and "~/...", with the home folder given. */
  function ExpandUser(path: string, home: string): string
  {
    if path == "~" then home
    else if |path| >= 2 && path[0] == '~' && path[1] == '/' then home + path[1..]
    else path
  }

  /**
   * Apparatus.fs: expand '~', turn back-slashes into slashes, collapse "//"
   * (one left-to-right pass), put the second slash back after an "http"
   * scheme, and append '/' when the last '/' is after the last '.'.
   */
  function Fs(path: Option<string>, home: string): (r: Option<string>)
    ensures path.None? <==> r.None?
  {
    match path
    case None => None
    case Some(p0) =>
      var p1 := ReplaceAll(ExpandUser(p0, home), "\\", "/");
      var p2 := ReplaceAll(p1, "//", "/");
      var p3 := if StartsWith(Lower(p2), "http") then
          var i := Find(p2, ":/"); Slice(p2, 0, i + 2) + "/" + Slice(p2, i + 2, |p2|)
        else p2;
      if RFind(p3, "/") > RFind(p3, ".") && p3[|p3| - 1] != '/' then Some(p3 + "/")
      else Some(p3)
  }

  /** fs leaves a folder path ending in '/': a last '/' after the last '.' is the final character. */
  lemma FsTrailingSlash(p: string, home: string)
    ensures var r := Fs(Some(p), home).value;
      RFind(r, "/") > RFind(r, ".") ==> r[|r| - 1] == '/'
  {
    var r := Fs(Some(p), home).value;
    RFindChar(r, '/');
    RFindChar(r, '.');
  }

  /** No back-slash survives fs. */
  lemma FsNoBackslash(p: string, home: string)
    ensures '\\' !in Fs(Some(p), home).value
  {
    var p1 := ReplaceAll(ExpandUser(p, home), "\\", "/");
    ReplaceCharGone(ExpandUser(p, home), '\\', '/');
    ReplaceKeepsAbsent(p1, "//", "/", '\\');
  }

  lemma {:induction false} ReplaceKeepsAbsent(s: string, o: string, n: string, c: char)
    requires |o| > 0
    requires c !in s && c !in n
    ensures c !in ReplaceAll(s, o, n)
    decreases |s|
  {
    if |s| >= |o| {
      if s[..|o|] == o {
        ReplaceKeepsAbsent(s[|o|..], o, n, c);
      } else {
        ReplaceKeepsAbsent(s[1..], o, n, c);
      }
    }
  }

  /**
   * Apparatus.isSubPath: fs(path) starts with fs(inner) and the two differ;
   * both are lower-cased first unless the platform is Linux.
   */
  predicate IsSubPath(inner: string, path: string, linux: bool, home: string)
  {
    var i := if linux then inner else Lower(inner);
    var p := if linux then path else Lower(path);
    StartsWith(Fs(Some(p), home).value, Fs(Some(i), home).value) && p != i
  }

  lemma IsSubPathIrreflexive(p: string, linux: bool, home: string)
    ensures !IsSubPath(p, p, linux, home)
  {
  }

  /** Off Linux, the test ignores the case of both arguments. */
  lemma IsSubPathCaseBlind(inner: string, path: string, home: string)
    ensures IsSubPath(inner, path, false, home) == IsSubPath(Lower(inner), Lower(path), false, home)
  {
    LowerIdempotent(inner);
    LowerIdempotent(path);
  }

  // ---------------------------------------------------------------- merge

  /** The library map merge(place1, place2) produces, place2 taking precedence. */
  function MergedLibs<T>(p1: map<string, map<string, T>>, p2: map<string, map<string, T>>): map<string, map<string, T>>
  {
    map lib | lib in p1.Keys + p2.Keys :: LibOf(p1, p2, lib)
  }

  /**
   * Every library of either map is present; an entry of place2 always wins;
   * an entry only place1 has survives; nothing else appears.
   */
  lemma MergePrecedence<T>(p1: map<string, map<string, T>>, p2: map<string, map<string, T>>)
    ensures MergedLibs(p1, p2).Keys == p1.Keys + p2.Keys
    ensures forall lib, prj :: lib in p2 && prj in p2[lib] ==>
      prj in MergedLibs(p1, p2)[lib] && MergedLibs(p1, p2)[lib][prj] == p2[lib][prj]
    ensures forall lib, prj :: lib in p1 && prj in p1[lib] && (lib !in p2 || prj !in p2[lib]) ==>
      prj in MergedLibs(p1, p2)[lib] && MergedLibs(p1, p2)[lib][prj] == p1[lib][prj]
    ensures forall lib, prj :: lib in MergedLibs(p1, p2) && prj in MergedLibs(p1, p2)[lib] ==>
      (lib in p1 && prj in p1[lib]) || (lib in p2 && prj in p2[lib])
  {
  }

  lemma MergeIdentity<T>(p: map<string, map<string, T>>)
    ensures MergedLibs(p, map[]) == p && MergedLibs(map[], p) == p
  {
  }

  /** The inner loop of merge: every project of top is written over base. */
  method Overlay<T>(base: map<string, T>, top: map<string, T>) returns (inner: map<string, T>)
    ensures inner == base + top
  {
    inner := base;
    var prjs := top.Keys;
    while prjs != {}
      invariant prjs <= top.Keys
      invariant inner.Keys == base.Keys + (top.Keys - prjs)
      invariant forall prj :: prj in inner ==>
        inner[prj] == if prj in top && prj !in prjs then top[prj] else base[prj]
      decreases prjs
    {
      var prj :| prj in prjs;
      inner := inner[prj := top[prj]];
      prjs := prjs - {prj};
    }
    assert inner.Keys == (base + top).Keys;
  }

  /** The library place2 gives lib, written over place1's (p1 ⊕ p2 per library). */
  function LibOf<T>(p1: map<string, map<string, T>>, p2: map<string, map<string, T>>, lib: string): map<string, T>
    requires lib in p1 || lib in p2
  {
    if lib in p1 && lib in p2 then p1[lib] + p2[lib]
    else if lib in p1 then p1[lib] else p2[lib]
  }

  /**
   * Apparatus.merge: a copy of place1 updated entry by entry with place2's
   * libraries. The arguments are values, so place1 is left as it was.
   */
  method Merge<T>(place1: map<string, map<string, T>>, place2: map<string, map<string, T>>)
    returns (tmp: map<string, map<string, T>>)
    ensures tmp == MergedLibs(place1, place2)
  {
    tmp := OverlayShared(place1, place2);
    tmp := CopyMissing(place1, place2, tmp);
    assert tmp.Keys == MergedLibs(place1, place2).Keys;
  }

  /** The first loop of merge: libraries of place1 that place2 also has. */
  method OverlayShared<T>(place1: map<string, map<string, T>>, place2: map<string, map<string, T>>)
    returns (tmp: map<string, map<string, T>>)
    ensures tmp.Keys == place1.Keys
    ensures forall lib :: lib in tmp ==> tmp[lib] == LibOf(place1, place2, lib)
  {
    tmp := place1;
    var libs := place1.Keys;
    while libs != {}
      invariant libs <= place1.Keys
      invariant tmp.Keys == place1.Keys
      invariant forall lib :: lib in tmp ==>
        tmp[lib] == if lib in libs then place1[lib] else LibOf(place1, place2, lib)
      decreases libs
    {
      var lib :| lib in libs;
      if lib in place2 {
        var inner := Overlay(tmp[lib], place2[lib]);
        tmp := tmp[lib := inner];
      }
      libs := libs - {lib};
    }
  }

  /** The second loop of merge: libraries only place2 has, copied whole. */
  method CopyMissing<T>(place1: map<string, map<string, T>>, place2: map<string, map<string, T>>,
                        tmp0: map<string, map<string, T>>)
    returns (tmp: map<string, map<string, T>>)
    requires tmp0.Keys == place1.Keys
    requires forall lib :: lib in tmp0 ==> tmp0[lib] == LibOf(place1, place2, lib)
    ensures tmp.Keys == place1.Keys + place2.Keys
    ensures forall lib :: lib in tmp ==> tmp[lib] == LibOf(place1, place2, lib)
  {
    tmp := tmp0;
    var libs := place2.Keys;
    while libs != {}
      invariant libs <= place2.Keys
      invariant tmp.Keys == place1.Keys + (place2.Keys - libs)
      invariant forall lib :: lib in tmp ==> tmp[lib] == LibOf(place1, place2, lib)
      decreases libs
    {
      var lib :| lib in libs;
      if lib !in place1 {
        var inner := Overlay(map[], place2[lib]);
        assert map[] + place2[lib] == place2[lib];
        tmp := tmp[lib := inner];
      }
      libs := libs - {lib};
    }
  }

  // ------------------------------------------------------------- settings

  /** A value read from the settings file. */
  datatype Setting =
    | SNone
    | SBool(b: bool)
    | SInt(i: int)
    | SStr(s: string)
    | SList(items: seq<Setting>)
    | SDict(entries: map<string, Setting>)

  datatype Kind = DictKind | BoolKind | IntKind

  /** isinstance(v, t); a bool is also an int, as in Python. */
  predicate IsInstance(v: Setting, t: Kind)
  {
    match t
    case DictKind => v.SDict?
    case BoolKind => v.SBool?
    case IntKind => v.SInt? || v.SBool?
  }

  function DefaultOf(t: Kind): (d: Setting)
    ensures IsInstance(d, t)
  {
    match t
    case DictKind => SDict(map[])
    case BoolKind => SBool(false)
    case IntKind => SInt(0)
  }

  /** The refresh rate after load(): clamped into [MIN_RATE, MAX_RATE]; True/False compare as 1/0. */
  function ClampRate(v: Setting): (r: Setting)
    requires IsInstance(v, IntKind)
    ensures r.SInt? ==> MIN_RATE <= r.i <= MAX_RATE
    ensures v.SInt? && MIN_RATE <= v.i <= MAX_RATE ==> r == v
    ensures v.SBool? ==> r == v
  {
    if v.SInt? && v.i > MAX_RATE then SInt(MAX_RATE)
    else if v.SInt? && v.i < MIN_RATE then SInt(MIN_RATE)
    else v
  }

  lemma ClampRateNearest(n: int)
    ensures n > MAX_RATE ==> ClampRate(SInt(n)) == SInt(MAX_RATE)
    ensures n < MIN_RATE ==> ClampRate(SInt(n)) == SInt(MIN_RATE)
  {
  }

  /** The settings dictionary held by the Apparatus class. */
  class Settings {
    var values: map<string, Setting>

    constructor (loaded: map<string, Setting>)
      ensures values == loaded
    {
      values := loaded;
    }

    /**
     * Apparatus.generateDefault: every named value that is not an instance
     * of t is replaced by t's default; the others and all other keys stay.
     * A missing key raises KeyError in the source.
     */
    method GenerateDefault(t: Kind, keys: seq<string>)
      requires forall k :: 0 <= k < |keys| ==> keys[k] in values
      modifies this
      ensures values.Keys == old(values).Keys
      ensures forall a :: a in values ==>
        values[a] == if a in keys && !IsInstance(old(values)[a], t) then DefaultOf(t) else old(values)[a]
    {
      var i := 0;
      while i < |keys|
        invariant 0 <= i <= |keys|
        invariant values.Keys == old(values).Keys
        invariant forall a :: a in values ==>
          values[a] == if a in keys[..i] && !IsInstance(old(values)[a], t) then DefaultOf(t) else old(values)[a]
      {
        var a := keys[i];
        if !IsInstance(values[a], t) {
          values := values[a := DefaultOf(t)];
        }
        i := i + 1;
      }
      assert keys[..i] == keys;
    }

    /**
     * The label step of load(): None becomes an empty dict, and 'recursive'
     * and 'shallow' entries that are missing or not dicts become empty dicts.
     * A label that is neither None nor a dict has no keys() and makes the
     * source raise; ok is then false and nothing is changed.
     */
    method FixLabel() returns (ok: bool)
      requires "label" in values
      modifies this
      ensures values.Keys == old(values).Keys
      ensures forall o :: o in values && o != "label" ==> values[o] == old(values)[o]
      ensures ok <==> old(values)["label"].SNone? || old(values)["label"].SDict?
      ensures ok ==> LabelReady(values["label"])
      ensures ok && old(values)["label"].SDict? ==> forall e :: e in old(values)["label"].entries && e != "recursive" && e != "shallow" ==>
        e in values["label"].entries && values["label"].entries[e] == old(values)["label"].entries[e]
      ensures !ok ==> values == old(values)
    {
      if values["label"] == SNone {
        values := values["label" := SDict(map[])];
      }
      if !values["label"].SDict? {
        return false;
      }
      var lbl := values["label"].entries;
      if "recursive" !in lbl || !lbl["recursive"].SDict? {
        lbl := lbl["recursive" := SDict(map[])];
      }
      if "shallow" !in lbl || !lbl["shallow"].SDict? {
        lbl := lbl["shallow" := SDict(map[])];
      }
      values := values["label" := SDict(lbl)];
      ok := true;
    }

    /** The label value load() starts from: the file's, or None when the file has none. */
    function LabelBefore(old_values: map<string, Setting>): Setting
    {
      if "label" in old_values then old_values["label"] else SNone
    }

    /**
     * The option loop of load(): every option missing from the settings
     * becomes None, and at 'label' the label step runs; ok is false when
     * that step raises, and the loop stops there.
     */
    method FillOptions(opts: seq<string>) returns (ok: bool)
      modifies this
      ensures ok <==> !("label" in opts && !LabelBefore(old(values)).SNone? && !LabelBefore(old(values)).SDict?)
      ensures ok ==> forall o :: o in values <==> o in old(values) || o in opts
      ensures ok ==> forall o :: o in opts && o != "label" ==>
        values[o] == if o in old(values) then old(values)[o] else SNone
      ensures ok && "label" in opts ==> LabelReady(values["label"])
      ensures ok ==> forall o :: o in old(values) && o !in opts ==> values[o] == old(values)[o]
    {
      ok := true;
      var i := 0;
      while i < |opts|
        invariant 0 <= i <= |opts|
        invariant forall o :: o in values <==> o in old(values) || o in opts[..i]
        invariant forall o :: o in values && o !in opts[..i] ==> values[o] == old(values)[o]
        invariant forall o :: o in opts[..i] && o != "label" ==>
          values[o] == if o in old(values) then old(values)[o] else SNone
        invariant "label" in opts[..i] ==> LabelReady(values["label"])
        invariant "label" in opts[..i] ==> LabelBefore(old(values)).SNone? || LabelBefore(old(values)).SDict?
      {
        var opt := opts[i];
        if opt !in values {
          values := values[opt := SNone];
        }
        if opt == "label" {
          ok := FixLabel();
          if !ok {
            assert "label" in opts;
            return;
          }
        }
        assert opts[..i + 1] == opts[..i] + [opt];
        i := i + 1;
      }
      assert opts[..i] == opts;
    }

    /**
     * The typed part of load(): generateDefault for the dict, bool and int
     * options, then the refresh rate is clamped. Nothing else changes.
     */
    method Defaults()
      requires forall o :: o in TYPED ==> o in values
      modifies this
      ensures values.Keys == old(values).Keys
      ensures forall o :: o in DICT_OPTS ==> o in values && values[o].SDict?
      ensures forall o :: o in BOOL_OPTS ==> o in values && values[o].SBool?
      ensures "refresh-rate" in values && RateReady(values["refresh-rate"])
      ensures forall o :: o in values && o !in TYPED ==> values[o] == old(values)[o]
    {
      TypedFacts();
      GenerateDefault(DictKind, DICT_OPTS);
      GenerateDefault(BoolKind, BOOL_OPTS);
      GenerateDefault(IntKind, ["refresh-rate"]);
      values := values["refresh-rate" := ClampRate(values["refresh-rate"])];
    }

    /**
     * The repairs load() makes once the file is read: the option loop, then
     * the typed defaults. ok is false exactly when the label makes the
     * source raise.
     */
    method Repair() returns (ok: bool)
      modifies this
      ensures ok <==> LabelBefore(old(values)).SNone? || LabelBefore(old(values)).SDict?
      ensures ok ==> forall o :: o in values <==> o in old(values) || o in OPTIONS
      ensures ok ==> forall o :: o in DICT_OPTS ==> o in values && values[o].SDict?
      ensures ok ==> forall o :: o in BOOL_OPTS ==> o in values && values[o].SBool?
      ensures ok ==> "refresh-rate" in values && RateReady(values["refresh-rate"])
      ensures ok ==> "label" in values && LabelReady(values["label"])
      ensures ok ==> forall o :: o in OPTIONS && o !in TYPED && o != "label" ==>
        o in values && values[o] == if o in old(values) then old(values)[o] else SNone
      ensures ok ==> forall o :: o in old(values) && o !in OPTIONS ==> o in values && values[o] == old(values)[o]
    {
      OptionFacts();
      ok := FillOptions(OPTIONS);
      if !ok {
        return;
      }
      Defaults();
    }
  }

  /** The options generateDefault makes dicts, bools and an int. */
  const DICT_OPTS: seq<string> := ["market", "script", "workspace"]
  const BOOL_OPTS: seq<string> := ["multi-develop", "overlap-recursive"]
  const TYPED: seq<string> := DICT_OPTS + BOOL_OPTS + ["refresh-rate"]

  lemma TypedFacts()
    ensures forall o :: o in TYPED <==> o in DICT_OPTS || o in BOOL_OPTS || o == "refresh-rate"
    ensures forall o :: o in DICT_OPTS ==> o !in BOOL_OPTS && o != "refresh-rate"
    ensures forall o :: o in BOOL_OPTS ==> o != "refresh-rate"
  {
  }

  lemma OptionFacts()
    ensures "label" in OPTIONS && "label" !in TYPED
    ensures forall o :: o in TYPED ==> o in OPTIONS
  {
    assert OPTIONS[5] == "label";
  }

  /** The refresh rate after load(): a bool, or an int within [MIN_RATE, MAX_RATE]. */
  predicate RateReady(v: Setting)
  {
    v.SBool? || (v.SInt? && MIN_RATE <= v.i <= MAX_RATE)
  }

  /** The label section after load(): a dict with dict-valued 'recursive' and 'shallow'. */
  predicate LabelReady(v: Setting)
  {
    v.SDict? && "recursive" in v.entries && v.entries["recursive"].SDict?
    && "shallow" in v.entries && v.entries["shallow"].SDict?
  }
}
