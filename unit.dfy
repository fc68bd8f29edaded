// The design units of legoHDL (Unit): the class-level Jar of units by
// vendor/library/name/entity and the Bottle of units by library/entity;
// intelligent component recognition (ICR), which chooses among units of the
// same name by the ports and generics of an instantiation; the hierarchy
// edges and the configuration map of a unit; and the rules on signals and
// ports that the interface writers rely on.
module Units {
  import opened Strings
  import opened Lists
  import Title
  import G = Graph

  /** Unit.Language. */
  datatype Language = VHDL | VERILOG

  /** Unit.Design. */
  datatype Design = ENTITY | PACKAGE

  /** Port.Route. */
  datatype Route = IN | OUT | INOUT | BUFFER | LINKAGE | OTHER

  /** A signal or a generic: its identifier and the tokens of its initial value. */
  datatype Signal = Signal(name: string, value: seq<string>)

  /** A port: its signal, the direction word as written, and the route read from that word. */
  datatype Port = Port(sig: Signal, mode: string, route: Route)

  /**
   * What a design unit is: the vendor, library, name and version of the
   * block that owns it, its own name, its kind and language, and the ports
   * and generics of its interface in declaration order.
   */
  datatype Entity = Entity(m: string, l: string, n: string, v: string, e: string,
                           design: Design, lang: Language, ports: seq<Port>, generics: seq<Signal>)

  // ------------------------------------------------------------ signals

  /** apt.listToStr(tokens, delim=''): the tokens run together. */
  function Glued(tokens: seq<string>): string
  {
    if tokens == [] then "" else tokens[0] + Glued(tokens[1..])
  }

  /** Signal.isInitialized: the initial value is not empty. */
  predicate IsInitialized(s: Signal)
  {
    |Glued(s.value)| > 0
  }

  /** A signal has an initial value exactly when one of its value tokens is not empty. */
  lemma {:induction false} InitializedSpec(s: Signal)
    ensures IsInitialized(s) <==> exists i :: 0 <= i < |s.value| && s.value[i] != ""
  {
    GluedEmpty(s.value);
  }

  lemma {:induction false} GluedEmpty(tokens: seq<string>)
    ensures Glued(tokens) == "" <==> forall i :: 0 <= i < |tokens| ==> tokens[i] == ""
  {
    if tokens != [] {
      GluedEmpty(tokens[1..]);
      assert forall i :: 1 <= i < |tokens| ==> tokens[i] == tokens[1..][i - 1];
    }
  }

  /** Signal.getName: the identifier, or the pattern mod with every '*' replaced by it. */
  function GetName(s: Signal, mod: Option<string>): string
  {
    if mod.None? then s.name else ReplaceAll(mod.value, "*", s.name)
  }

  /** Replacing a character is cutting at it and joining the pieces with the replacement. */
  lemma {:induction false} ReplaceSplit(m: string, c: char, x: string)
    ensures ReplaceAll(m, [c], x) == Join(Split(m, c), x)
    decreases |m|
  {
    if m != [] {
      ReplaceSplit(m[1..], c, x);
      if m[0] == c {
        ReplaceAtSep(m, c, x);
      } else {
        ReplaceAtOther(m, c, x);
      }
    }
  }

  /** A string starting with the character: an empty first piece, then the replacement. */
  lemma ReplaceAtSep(m: string, c: char, x: string)
    requires m != [] && m[0] == c
    requires ReplaceAll(m[1..], [c], x) == Join(Split(m[1..], c), x)
    ensures ReplaceAll(m, [c], x) == Join(Split(m, c), x)
  {
    var rest := Split(m[1..], c);
    assert m[..1] == [c];
    assert ReplaceAll(m, [c], x) == x + ReplaceAll(m[1..], [c], x);
    var parts := [""] + rest;
    assert Split(m, c) == parts;
    assert parts[1..] == rest;
    assert Join(parts, x) == "" + x + Join(rest, x);
  }

  /** A string starting with another character: it heads the first piece. */
  lemma ReplaceAtOther(m: string, c: char, x: string)
    requires m != [] && m[0] != c
    requires ReplaceAll(m[1..], [c], x) == Join(Split(m[1..], c), x)
    ensures ReplaceAll(m, [c], x) == Join(Split(m, c), x)
  {
    var rest := Split(m[1..], c);
    assert m[..1] != [c];
    assert ReplaceAll(m, [c], x) == [m[0]] + Join(rest, x);
    var parts := [[m[0]] + rest[0]] + rest[1..];
    assert Split(m, c) == parts;
    assert parts[1..] == rest[1..];
    if |rest| == 1 {
      assert Join(rest, x) == rest[0];
      assert |parts| == 1;
    } else {
      var tail := Join(rest[1..], x);
      assert Join(rest, x) == rest[0] + x + tail;
      assert Join(parts, x) == ([m[0]] + rest[0]) + x + tail;
      assert [m[0]] + (rest[0] + x + tail) == ([m[0]] + rest[0]) + x + tail;
    }
  }

  /**
   * getName(mod) puts the identifier between the '*'-separated pieces of
   * the pattern; a pattern without '*' is returned as it is, and "*" gives
   * the identifier.
   */
  lemma GetNameSpec(s: Signal, pattern: string)
    ensures GetName(s, Some(pattern)) == Join(Split(pattern, '*'), s.name)
    ensures '*' !in pattern ==> GetName(s, Some(pattern)) == pattern
    ensures GetName(s, Some("*")) == s.name
  {
    ReplaceSplit(pattern, '*', s.name);
    if '*' !in pattern {
      SplitNoSep(pattern, '*');
    }
    ReplaceSplit("*", '*', s.name);
    assert Split("*", '*') == ["", ""];
    assert Join(["", ""], s.name) == "" + s.name + "";
  }

  // -------------------------------------------------------------- ports

  /** Port.__init__: the route read from the direction word, case-blind, in this order. */
  function RouteOf(mode: string): (r: Route)
    ensures r != BUFFER && r != LINKAGE
  {
    var w := Lower(mode);
    if w == "inout" then INOUT
    else if StartsWith(w, "in") then IN
    else if StartsWith(w, "out") then OUT
    else OTHER
  }

  /** The route's enum name in lower case. */
  function RouteName(r: Route): string
  {
    match r
    case IN => "in"
    case OUT => "out"
    case INOUT => "inout"
    case BUFFER => "buffer"
    case LINKAGE => "linkage"
    case OTHER => "other"
  }

  /** Port.castRoute as written: Verilog appends "put" to every route name. */
  function CastRouteAsWritten(r: Route, lang: Language, even: bool): string
  {
    var pad := if even && r == IN then " " else "";
    if lang == VERILOG then RouteName(r) + "put" + pad else RouteName(r) + pad
  }

  /**
   * Port.castRoute as meant: the direction keyword, with "in" padded to the
   * width of "out" when even is set; Verilog's bidirectional keyword is inout.
   */
  function CastRoute(r: Route, lang: Language, even: bool): (s: string)
    ensures even && (r == IN || r == OUT) ==> |s| == (if lang == VERILOG then |"output"| else |"out"|)
  {
    var pad := if even && r == IN then " " else "";
    if lang == VERILOG && r != INOUT then RouteName(r) + "put" + pad else RouteName(r) + pad
  }

  /** The direction keywords of VHDL read into a route are written back as they were, in lower case. */
  lemma VhdlModes(mode: string)
    requires Lower(mode) == "in" || Lower(mode) == "out" || Lower(mode) == "inout"
    ensures CastRoute(RouteOf(mode), VHDL, false) == Lower(mode)
  {
  }

  /** The direction keywords of Verilog read into a route are written back as they were, in lower case. */
  lemma VerilogModes(mode: string)
    requires Lower(mode) == "input" || Lower(mode) == "output" || Lower(mode) == "inout"
    ensures CastRoute(RouteOf(mode), VERILOG, false) == Lower(mode)
  {
  }

  /** As written, a Verilog inout port is declared "inoutput", which is not a Verilog keyword. */
  lemma InoutAsWritten(mode: string)
    requires Lower(mode) == "inout"
    ensures CastRouteAsWritten(RouteOf(mode), VERILOG, false) == "inoutput"
    ensures CastRoute(RouteOf(mode), VERILOG, false) == "inout"
  {
  }

  // -------------------------------------------------------------- units

  /** Unit.isTb: an entity without ports. */
  predicate IsTb(u: Entity)
  {
    u.design == ENTITY && |u.ports| == 0
  }

  /** Unit.getTitle: M.L.N:E, without the vendor and its dot when the vendor is empty. */
  function UnitTitle(u: Entity): string
  {
    Title.Base(u.m, u.l, u.n) + [Title.ENTITY_DELIM] + u.e
  }

  /** The title of a unit reads back, through snapTitle with the entity, into its parts. */
  lemma UnitTitleRead(u: Entity)
    requires '.' !in u.m && '.' !in u.l && '.' !in u.n && '.' !in u.e
    requires '(' !in u.m && '(' !in u.l && '(' !in u.n && '(' !in u.e
    requires Title.ENTITY_DELIM !in u.n
    ensures Title.SnapTitle(Some(UnitTitle(u)), true, '.') == Some(Title.Parts(u.m, u.l, u.n, "", u.e))
  {
    Title.SnapEntity(u.m, u.l, u.n, u.e);
  }

  // ----------------------------------------------------- Jar and Bottle

  /** One level of the Jar below vendor, library and name: units by lower-cased unit name. */
  type Drawer = map<string, Entity>

  /** Unit.Jar: vendor, library and name levels, each keyed by the lower-cased text. */
  type Jar = map<string, map<string, map<string, Drawer>>>

  /** Unit.Bottle: the units of each lower-cased library and unit name, in registration order. */
  type Bottle = map<string, map<string, seq<Entity>>>

  /** The units under vendor m, library l and name n; empty when a level is missing. */
  function DrawerOf(jar: Jar, m: string, l: string, n: string): Drawer
  {
    var a, b, c := Lower(m), Lower(l), Lower(n);
    if a in jar && b in jar[a] && c in jar[a][b] then jar[a][b][c] else map[]
  }

  /** Unit.jarExists: the Jar has the three key levels. */
  predicate JarExists(jar: Jar, m: string, l: string, n: string)
  {
    Lower(m) in jar && Lower(l) in jar[Lower(m)] && Lower(n) in jar[Lower(m)][Lower(l)]
  }

  /** The Jar once u is stored: the missing levels are created and u goes under its unit name. */
  function Stored(jar: Jar, u: Entity): Jar
  {
    var a, b, c := Lower(u.m), Lower(u.l), Lower(u.n);
    var vendor := if a in jar then jar[a] else map[];
    var library := if b in vendor then vendor[b] else map[];
    var drawer := if c in library then library[c] else map[];
    jar[a := vendor[b := library[c := drawer[Lower(u.e) := u]]]]
  }

  /** The units of library l named e, in the order they were added. */
  function Bin(bottle: Bottle, l: string, e: string): seq<Entity>
  {
    if Lower(l) in bottle && Lower(e) in bottle[Lower(l)] then bottle[Lower(l)][Lower(e)] else []
  }

  /** The Bottle once u is added at the end of its library's list for its name. */
  function Bottled(bottle: Bottle, u: Entity): Bottle
  {
    var l, e := Lower(u.l), Lower(u.e);
    var shelf := if l in bottle then bottle[l] else map[];
    bottle[l := shelf[e := Bin(bottle, u.l, u.e) + [u]]]
  }

  /** Storing u puts it under its unit name at its place, which then exists in the Jar. */
  lemma StoredHere(jar: Jar, u: Entity)
    ensures DrawerOf(Stored(jar, u), u.m, u.l, u.n) == DrawerOf(jar, u.m, u.l, u.n)[Lower(u.e) := u]
    ensures JarExists(Stored(jar, u), u.m, u.l, u.n)
  {
  }

  /** Storing u leaves every other vendor/library/name, its units and its jarExists answer, as they were. */
  lemma StoredElsewhere(jar: Jar, u: Entity, m: string, l: string, n: string)
    requires Lower(m) != Lower(u.m) || Lower(l) != Lower(u.l) || Lower(n) != Lower(u.n)
    ensures DrawerOf(Stored(jar, u), m, l, n) == DrawerOf(jar, m, l, n)
    ensures JarExists(Stored(jar, u), m, l, n) <==> JarExists(jar, m, l, n)
  {
  }

  /** Once u is stored, a unit with the same vendor, library, name and unit name, in any case, is refused. */
  lemma StoredRefuses(jar: Jar, u: Entity, w: Entity)
    requires Lower(w.m) == Lower(u.m) && Lower(w.l) == Lower(u.l) && Lower(w.n) == Lower(u.n) && Lower(w.e) == Lower(u.e)
    ensures Lower(w.e) in DrawerOf(Stored(jar, u), w.m, w.l, w.n)
    ensures DrawerOf(Stored(jar, u), w.m, w.l, w.n)[Lower(w.e)] == u
  {
    StoredHere(jar, u);
  }

  /** The Bottle after adding each of us in turn to an empty one. */
  function BottleAll(us: seq<Entity>): Bottle
  {
    if us == [] then map[] else Bottled(BottleAll(us[..|us| - 1]), us[|us| - 1])
  }

  /** The units of us with library l and unit name e, case-blind, in order. */
  function Sharing(us: seq<Entity>, l: string, e: string): seq<Entity>
  {
    if us == [] then []
    else
      var u := us[|us| - 1];
      Sharing(us[..|us| - 1], l, e) + (if Lower(u.l) == Lower(l) && Lower(u.e) == Lower(e) then [u] else [])
  }

  /** The Bottle keeps every unit sharing a library and a unit name, in registration order. */
  lemma {:induction false} BottleOrder(us: seq<Entity>, l: string, e: string)
    ensures Bin(BottleAll(us), l, e) == Sharing(us, l, e)
  {
    if us != [] {
      var p, u := us[..|us| - 1], us[|us| - 1];
      BottleOrder(p, l, e);
      LowerIdempotent(l);
      LowerIdempotent(e);
      BinAdded(BottleAll(p), u, l, e);
    }
  }

  /** Adding u changes only the list of u's library and unit name, which gains u at its end. */
  lemma BinAdded(bottle: Bottle, u: Entity, l: string, e: string)
    ensures Bin(Bottled(bottle, u), l, e) ==
      Bin(bottle, l, e) + (if Lower(u.l) == Lower(l) && Lower(u.e) == Lower(e) then [u] else [])
  {
  }

  /** The Bottle's lists hold units of the library and name they are filed under. */
  ghost predicate Filed(bottle: Bottle)
  {
    forall l, e, i :: l in bottle && e in bottle[l] && 0 <= i < |bottle[l][e]| ==>
      Lower(bottle[l][e][i].l) == l && Lower(bottle[l][e][i].e) == e
  }

  /** Adding a unit keeps every unit filed under its own library and name. */
  lemma BottledFiled(bottle: Bottle, u: Entity)
    requires Filed(bottle)
    ensures Filed(Bottled(bottle, u))
  {
    LowerIdempotent(u.l);
    LowerIdempotent(u.e);
    var b: Bottle := Bottled(bottle, u);
    forall l: string, e: string, i: int | l in b && e in b[l] && 0 <= i < |b[l][e]|
      ensures Lower(b[l][e][i].l) == l && Lower(b[l][e][i].e) == e
    {
      if l == Lower(u.l) && e == Lower(u.e) && i == |b[l][e]| - 1 {
        assert b[l][e][i] == u;
      } else if l == Lower(u.l) && e == Lower(u.e) {
        assert b[l][e][i] == Bin(bottle, u.l, u.e)[i];
      }
    }
  }

  // ------------------------------------------------------------------ ICR

  /** The units named name in each library, library by library in the Bottle's order. */
  function Gathered(shelves: seq<string>, bottle: Bottle, name: string): seq<Entity>
  {
    if shelves == [] then []
    else
      var l := shelves[|shelves| - 1];
      Gathered(shelves[..|shelves| - 1], bottle, name)
        + (if l in bottle && Lower(name) in bottle[l] then bottle[l][Lower(name)] else [])
  }

  /** ICR's potential units: those of every library when no library is given, else those of that library. */
  function Candidates(shelves: seq<string>, bottle: Bottle, name: string, lib: Option<string>): seq<Entity>
  {
    if lib.None? || lib.value == "" then Gathered(shelves, bottle, name) else Bin(bottle, lib.value, name)
  }

  /** The units of us written in lang, in order. */
  function OfLanguage(us: seq<Entity>, lang: Language): seq<Entity>
  {
    if us == [] then []
    else OfLanguage(us[..|us| - 1], lang) + (if us[|us| - 1].lang == lang then [us[|us| - 1]] else [])
  }

  /** The potential units that stay: all of them with mixed language on, else those of the instance's language. */
  function Filtered(us: seq<Entity>, lang: Language, mixed: bool): seq<Entity>
  {
    if mixed then us else OfLanguage(us, lang)
  }

  function Abs(x: int): nat
  {
    if x < 0 then -x else x
  }

  /** The instantiation was positional: some name is "?". */
  predicate Positional(given: seq<string>)
  {
    |given| > 0 && "?" in given
  }

  /**
   * The points of the ports from the i-th on, acc so far: a port the
   * instantiation names scores a point, an initialised one is passed over,
   * and an input that is neither sets the score to 0 and ends the pass.
   */
  function PortPass(cs: seq<Port>, i: nat, ports: seq<string>, acc: int): int
    requires i <= |cs|
    decreases |cs| - i
  {
    if i == |cs| then acc
    else if Lower(cs[i].sig.name) in ports then PortPass(cs, i + 1, ports, acc + 1)
    else if IsInitialized(cs[i].sig) then PortPass(cs, i + 1, ports, acc)
    else if cs[i].route == IN then 0
    else PortPass(cs, i + 1, ports, acc)
  }

  /** The same pass over the generics, where any generic neither named nor initialised sets the score to 0. */
  function GenPass(gs: seq<Signal>, i: nat, gens: seq<string>, acc: int): int
    requires i <= |gs|
    decreases |gs| - i
  {
    if i == |gs| then acc
    else if Lower(gs[i].name) in gens then GenPass(gs, i + 1, gens, acc + 1)
    else if IsInitialized(gs[i]) then GenPass(gs, i + 1, gens, acc)
    else 0
  }

  /**
   * A unit's ICR score: the port stage (by count when positional), then the
   * generic stage, which adds to it, or replaces it by its count when the
   * generics are positional.
   */
  function Score(u: Entity, ports: seq<string>, gens: seq<string>): int
  {
    var p := if Positional(ports) then |ports| - Abs(|u.ports| - |ports|) else PortPass(u.ports, 0, ports, 0);
    if Positional(gens) then |gens| - Abs(|u.generics| - |gens|) else GenPass(u.generics, 0, gens, p)
  }

  function Scores(us: seq<Entity>, ports: seq<string>, gens: seq<string>): seq<int>
  {
    seq(|us|, k requires 0 <= k < |us| => Score(us[k], ports, gens))
  }

  /** The index a scan of s from j on ends at, best so far i, moving only to a strictly higher score. */
  function ArgMaxFrom(s: seq<int>, j: nat, i: nat): (k: nat)
    requires i < |s| && j <= |s|
    ensures k < |s|
    decreases |s| - j
  {
    if j == |s| then i else ArgMaxFrom(s, j + 1, if s[j] > s[i] then j else i)
  }

  /** The first index of a highest score. */
  function FirstMax(s: seq<int>): nat
    requires |s| > 0
  {
    ArgMaxFrom(s, 0, 0)
  }

  /** Unit.ICR's choice among the potential units that stay. */
  function Recognised(ps: seq<Entity>, ports: seq<string>, gens: seq<string>): Option<Entity>
  {
    if |ps| == 1 then Some(ps[0])
    else if |ps| == 0 then None
    else Some(ps[FirstMax(Scores(ps, ports, gens))])
  }

  lemma {:induction false} ArgMaxFromSpec(s: seq<int>, j: nat, i: nat)
    requires i < |s| && j <= |s|
    requires forall t :: 0 <= t < j ==> s[t] <= s[i]
    requires forall t :: 0 <= t < i ==> s[t] < s[i]
    ensures forall t :: 0 <= t < |s| ==> s[t] <= s[ArgMaxFrom(s, j, i)]
    ensures forall t :: 0 <= t < ArgMaxFrom(s, j, i) ==> s[t] < s[ArgMaxFrom(s, j, i)]
    decreases |s| - j
  {
    if j < |s| {
      ArgMaxFromSpec(s, j + 1, if s[j] > s[i] then j else i);
    }
  }

  /** The first maximum is at least every score and above every score before it. */
  lemma FirstMaxSpec(s: seq<int>)
    requires |s| > 0
    ensures forall t :: 0 <= t < |s| ==> s[t] <= s[FirstMax(s)]
    ensures forall t :: 0 <= t < FirstMax(s) ==> s[t] < s[FirstMax(s)]
  {
    ArgMaxFromSpec(s, 0, 0);
  }

  /** ICR finds nothing exactly when no potential unit stays. */
  lemma RecognisedNone(ps: seq<Entity>, ports: seq<string>, gens: seq<string>)
    ensures Recognised(ps, ports, gens).None? <==> ps == []
    ensures Recognised(ps, ports, gens).Some? ==> Recognised(ps, ports, gens).value in ps
  {
  }

  /**
   * Among two or more potential units ICR picks one with the highest score,
   * and the first such one in order.
   */
  lemma RecognisedBest(ps: seq<Entity>, ports: seq<string>, gens: seq<string>)
    requires |ps| > 1
    ensures var k := FirstMax(Scores(ps, ports, gens));
      k < |ps| && Recognised(ps, ports, gens) == Some(ps[k])
      && (forall t :: 0 <= t < |ps| ==> Score(ps[t], ports, gens) <= Score(ps[k], ports, gens))
      && (forall t :: 0 <= t < k ==> Score(ps[t], ports, gens) < Score(ps[k], ports, gens))
  {
    var s := Scores(ps, ports, gens);
    FirstMaxSpec(s);
    var k := FirstMax(s);
    assert forall t :: 0 <= t < |ps| ==> s[t] == Score(ps[t], ports, gens);
  }

  /** The units of one language keep their order and are exactly those of us in that language. */
  lemma {:induction false} OfLanguageSpec(us: seq<Entity>, lang: Language, w: Entity)
    ensures w in OfLanguage(us, lang) <==> w in us && w.lang == lang
  {
    if us != [] {
      OfLanguageSpec(us[..|us| - 1], lang, w);
      assert us == us[..|us| - 1] + [us[|us| - 1]];
    }
  }

  /** Without a library every library's units of that name are potential; a filed Bottle gives no other. */
  lemma {:induction false} GatheredSpec(shelves: seq<string>, bottle: Bottle, name: string, w: Entity)
    ensures w in Gathered(shelves, bottle, name) <==>
      exists l :: l in shelves && l in bottle && Lower(name) in bottle[l] && w in bottle[l][Lower(name)]
  {
    if shelves != [] {
      var p, l := shelves[..|shelves| - 1], shelves[|shelves| - 1];
      GatheredSpec(p, bottle, name, w);
      assert shelves == p + [l];
    }
  }

  /** In a filed Bottle every potential unit has the instance's unit name, and the given library when there is one. */
  lemma CandidatesNamed(shelves: seq<string>, bottle: Bottle, name: string, lib: Option<string>, w: Entity)
    requires Filed(bottle)
    requires w in Candidates(shelves, bottle, name, lib)
    ensures Lower(w.e) == Lower(name)
    ensures lib.Some? && lib.value != "" ==> Lower(w.l) == Lower(lib.value)
  {
    if lib.None? || lib.value == "" {
      GatheredSpec(shelves, bottle, name, w);
      var l :| l in shelves && l in bottle && Lower(name) in bottle[l] && w in bottle[l][Lower(name)];
      var i :| 0 <= i < |bottle[l][Lower(name)]| && bottle[l][Lower(name)][i] == w;
    } else {
      var b := Bin(bottle, lib.value, name);
      var i :| 0 <= i < |b| && b[i] == w;
    }
  }

  /** A port the instantiation leaves out although the unit needs it: an input not initialised. */
  predicate UnmetPort(c: Port, ports: seq<string>)
  {
    Lower(c.sig.name) !in ports && !IsInitialized(c.sig) && c.route == IN
  }

  /** A generic the instantiation leaves out although it has no initial value. */
  predicate UnmetGen(g: Signal, gens: seq<string>)
  {
    Lower(g.name) !in gens && !IsInitialized(g)
  }

  /** The number of ports from the i-th on that the instantiation names. */
  function NamedPorts(cs: seq<Port>, i: nat, ports: seq<string>): nat
    requires i <= |cs|
    decreases |cs| - i
  {
    if i == |cs| then 0 else (if Lower(cs[i].sig.name) in ports then 1 else 0) + NamedPorts(cs, i + 1, ports)
  }

  /** The number of generics from the i-th on that the instantiation names. */
  function NamedGens(gs: seq<Signal>, i: nat, gens: seq<string>): nat
    requires i <= |gs|
    decreases |gs| - i
  {
    if i == |gs| then 0 else (if Lower(gs[i].name) in gens then 1 else 0) + NamedGens(gs, i + 1, gens)
  }

  /** The port pass disqualifies a unit with an unmet input, and otherwise counts the named ports. */
  lemma {:induction false} PortPassSpec(cs: seq<Port>, i: nat, ports: seq<string>, acc: int)
    requires i <= |cs|
    ensures PortPass(cs, i, ports, acc) ==
      if exists k :: i <= k < |cs| && UnmetPort(cs[k], ports) then 0 else acc + NamedPorts(cs, i, ports)
    decreases |cs| - i
  {
    if i < |cs| {
      PortPassSpec(cs, i + 1, ports, if Lower(cs[i].sig.name) in ports then acc + 1 else acc);
      if exists k :: i + 1 <= k < |cs| && UnmetPort(cs[k], ports) {
        var k :| i + 1 <= k < |cs| && UnmetPort(cs[k], ports);
        assert i <= k < |cs| && UnmetPort(cs[k], ports);
      }
    }
  }

  /** The generic pass disqualifies a unit with an unmet generic, and otherwise adds the named generics. */
  lemma {:induction false} GenPassSpec(gs: seq<Signal>, i: nat, gens: seq<string>, acc: int)
    requires i <= |gs|
    ensures GenPass(gs, i, gens, acc) ==
      if exists k :: i <= k < |gs| && UnmetGen(gs[k], gens) then 0 else acc + NamedGens(gs, i, gens)
    decreases |gs| - i
  {
    if i < |gs| {
      GenPassSpec(gs, i + 1, gens, if Lower(gs[i].name) in gens then acc + 1 else acc);
      if exists k :: i + 1 <= k < |gs| && UnmetGen(gs[k], gens) {
        var k :| i + 1 <= k < |gs| && UnmetGen(gs[k], gens);
        assert i <= k < |gs| && UnmetGen(gs[k], gens);
      }
    }
  }

  /**
   * For a named instantiation the score is 0 with an unmet generic;
   * otherwise it is the named generics plus, unless an input is unmet, the
   * named ports. A positional generic list replaces whatever the ports scored.
   */
  lemma ScoreSpec(u: Entity, ports: seq<string>, gens: seq<string>)
    ensures !Positional(ports) && !Positional(gens) ==> (Score(u, ports, gens) ==
      if exists k :: 0 <= k < |u.generics| && UnmetGen(u.generics[k], gens) then 0
      else (NamedGens(u.generics, 0, gens)
        + (if exists k :: 0 <= k < |u.ports| && UnmetPort(u.ports[k], ports) then 0 else NamedPorts(u.ports, 0, ports))))
    ensures Positional(gens) ==> Score(u, ports, gens) == |gens| - Abs(|u.generics| - |gens|)
  {
    PortPassSpec(u.ports, 0, ports, 0);
    var p := if Positional(ports) then |ports| - Abs(|u.ports| - |ports|) else PortPass(u.ports, 0, ports, 0);
    GenPassSpec(u.generics, 0, gens, p);
  }

  /**
   * Unit's class-level registry: the Jar, the Bottle, and the Bottle's
   * library keys in the order they were added.
   */
  class Registry {
    var jar: Jar
    var bottle: Bottle
    var shelves: seq<string>

    ghost predicate Valid()
      reads this
    {
      Distinct(shelves) && (forall l :: l in bottle <==> l in shelves) && Filed(bottle)
    }

    /** Unit.resetJar: both containers empty. */
    constructor ()
      ensures jar == map[] && bottle == map[] && shelves == [] && Valid()
    {
      jar, bottle, shelves := map[], map[], [];
    }

    /**
     * The registration a new unit makes: the Jar gains it unless a unit of
     * that vendor, library, name and unit name is there (where the source
     * stops the program), and its Bottle list gains it at the end.
     */
    method Register(u: Entity) returns (ok: bool)
      requires Valid()
      modifies this
      ensures Valid()
      ensures ok <==> Lower(u.e) !in DrawerOf(old(jar), u.m, u.l, u.n)
      ensures ok ==> (jar == Stored(old(jar), u) && bottle == Bottled(old(bottle), u)
        && shelves == old(shelves) + (if Lower(u.l) in old(bottle) then [] else [Lower(u.l)]))
      ensures !ok ==> jar == old(jar) && bottle == old(bottle) && shelves == old(shelves)
    {
      var a, b, c, e := Lower(u.m), Lower(u.l), Lower(u.n), Lower(u.e);
      if a in jar && b in jar[a] && c in jar[a][b] && e in jar[a][b][c] {
        return false;
      }
      jar := Stored(jar, u);
      BottledFiled(bottle, u);
      if b !in bottle {
        DistinctAppend(shelves, b);
        shelves := shelves + [b];
      }
      bottle := Bottled(bottle, u);
      ok := true;
    }

    /** The units named name in every library, in the Bottle's order. */
    method Gather(name: string) returns (ps: seq<Entity>)
      ensures ps == Gathered(shelves, bottle, name)
    {
      ps := [];
      for i := 0 to |shelves|
        invariant ps == Gathered(shelves[..i], bottle, name)
      {
        var l := shelves[i];
        assert shelves[..i + 1][..i] == shelves[..i];
        if l in bottle && Lower(name) in bottle[l] {
          ps := ps + bottle[l][Lower(name)];
        }
      }
      assert shelves[..|shelves|] == shelves;
    }

    /**
     * Unit.ICR: the unit an instantiation of name means, given the library
     * if any, the instance's language, the names of its ports and generics
     * (lower case, "?" when positional) and the mixed-language setting.
     */
    method ICR(name: string, lang: Language, lib: Option<string>, ports: seq<string>, gens: seq<string>, mixed: bool)
      returns (r: Option<Entity>)
      ensures r == Recognised(Filtered(Candidates(shelves, bottle, name, lib), lang, mixed), ports, gens)
    {
      var potentials: seq<Entity> := [];
      if lib.None? || lib.value == "" {
        potentials := Gather(name);
      } else if Lower(lib.value) in bottle && Lower(name) in bottle[Lower(lib.value)] {
        potentials := bottle[Lower(lib.value)][Lower(name)];
      }
      if !mixed {
        potentials := OfLanguage(potentials, lang);
      }
      if |potentials| == 1 {
        return Some(potentials[0]);
      }
      if |potentials| == 0 {
        return None;
      }
      var scores := new int[|potentials|];
      for i := 0 to |potentials|
        invariant forall k :: 0 <= k < i ==> scores[k] == Score(potentials[k], ports, gens)
      {
        scores[i] := ScoreOf(potentials[i], ports, gens);
      }
      assert scores[..] == Scores(potentials, ports, gens);
      var best := BestIndex(scores);
      r := Some(potentials[best]);
    }
  }

  /** The ICR score of one unit, computed as the source does, pass by pass. */
  method ScoreOf(u: Entity, ports: seq<string>, gens: seq<string>) returns (score: int)
    ensures score == Score(u, ports, gens)
  {
    if Positional(ports) {
      score := |ports| - Abs(|u.ports| - |ports|);
    } else {
      score := PortPoints(u.ports, ports);
    }
    if Positional(gens) {
      score := |gens| - Abs(|u.generics| - |gens|);
    } else {
      score := GenPoints(u.generics, gens, score);
    }
  }

  method PortPoints(cs: seq<Port>, ports: seq<string>) returns (score: int)
    ensures score == PortPass(cs, 0, ports, 0)
  {
    score := 0;
    var i := 0;
    while i < |cs|
      invariant i <= |cs|
      invariant PortPass(cs, i, ports, score) == PortPass(cs, 0, ports, 0)
    {
      var c := cs[i];
      if Lower(c.sig.name) in ports {
        score := score + 1;
      } else if !IsInitialized(c.sig) && c.route == IN {
        return 0;
      }
      i := i + 1;
    }
  }

  method GenPoints(gs: seq<Signal>, gens: seq<string>, acc: int) returns (score: int)
    ensures score == GenPass(gs, 0, gens, acc)
  {
    score := acc;
    var i := 0;
    while i < |gs|
      invariant i <= |gs|
      invariant GenPass(gs, i, gens, score) == GenPass(gs, 0, gens, acc)
    {
      var g := gs[i];
      if Lower(g.name) in gens {
        score := score + 1;
      } else if !IsInitialized(g) {
        return 0;
      }
      i := i + 1;
    }
  }

  /** The scan of ICR's last step: the first index of a highest score. */
  method BestIndex(scores: array<int>) returns (i: nat)
    requires scores.Length > 0
    ensures i == FirstMax(scores[..])
  {
    i := 0;
    for j := 0 to scores.Length
      invariant i < scores.Length
      invariant ArgMaxFrom(scores[..], j, i) == FirstMax(scores[..])
    {
      if scores[j] > scores[i] {
        i := j;
      }
    }
  }

  // ------------------------------------------------------ one design unit

  /** The configuration modes of a unit: architecture, identifier searched for, instance, replacement. */
  type Modes = map<string, map<string, map<string, string>>>

  /** The replacement linkConfig recorded for an instance, if any. */
  function ConfigOf(modes: Modes, arch: string, search: string, inst: string): Option<string>
  {
    Lookup3(modes, Lower(arch), Lower(search), Lower(inst))
  }

  /** Unit.linkConfig: the levels are created as needed and a replacement set once is kept. */
  function Configured(modes: Modes, arch: string, inst: string, search: string, replace: string): Modes
  {
    Set3(modes, Lower(arch), Lower(search), Lower(inst), replace)
  }

  /** The entry under three keys, one per level. */
  function Lookup3(modes: Modes, a: string, s: string, i: string): Option<string>
  {
    if a in modes && s in modes[a] && i in modes[a][s] then Some(modes[a][s][i]) else None
  }

  /** Setting the entry under three keys, creating the levels as needed, unless it is already set. */
  function Set3(modes: Modes, a: string, s: string, i: string, replace: string): Modes
  {
    var byArch := if a in modes then modes[a] else map[];
    var bySearch := if s in byArch then byArch[s] else map[];
    if i in bySearch then modes else modes[a := byArch[s := bySearch[i := replace]]]
  }

  lemma Set3Spec(modes: Modes, a: string, s: string, i: string, replace: string, a': string, s': string, i': string)
    ensures Lookup3(Set3(modes, a, s, i, replace), a, s, i) ==
      if Lookup3(modes, a, s, i).Some? then Lookup3(modes, a, s, i) else Some(replace)
    ensures (a', s', i') != (a, s, i) ==> Lookup3(Set3(modes, a, s, i, replace), a', s', i') == Lookup3(modes, a', s', i')
  {
  }

  /** The first replacement linked for an instance is the one that holds; no other instance's changes. */
  lemma ConfiguredSpec(modes: Modes, arch: string, inst: string, search: string, replace: string,
                       arch': string, search': string, inst': string)
    ensures ConfigOf(Configured(modes, arch, inst, search, replace), arch, search, inst) ==
      if ConfigOf(modes, arch, search, inst).Some? then ConfigOf(modes, arch, search, inst) else Some(replace)
    ensures (Lower(arch'), Lower(search'), Lower(inst')) != (Lower(arch), Lower(search), Lower(inst)) ==>
      ConfigOf(Configured(modes, arch, inst, search, replace), arch', search', inst') == ConfigOf(modes, arch', search', inst')
  {
    Set3Spec(modes, Lower(arch), Lower(search), Lower(inst), replace, Lower(arch'), Lower(search'), Lower(inst'));
  }

  /** setChecked on the hierarchy: added when first checked, removed when unchecked, else left alone. */
  function Checked(g: G.Adj<Entity>, u: Entity, was: bool, c: bool): G.Adj<Entity>
  {
    if c && !was then G.AddVertexTo(g, u)
    else if !c && was then G.RemoveVertexFrom(g, u)
    else g
  }

  /**
   * Checking a unit puts it in the hierarchy and unchecking it takes it out;
   * either way every other vertex keeps its lists.
   */
  lemma CheckedSpec(g: G.Adj<Entity>, u: Entity, was: bool, c: bool)
    requires G.WellFormed(g)
    ensures var h := Checked(g, u, was, c);
      G.WellFormed(h)
      && (c && !was ==> u in h.fwd)
      && (!c && was ==> u !in h.fwd)
      && (forall v :: v in g.fwd && v != u ==> v in h.fwd && h.fwd[v] == g.fwd[v] && h.back[v] == g.back[v])
  {
    G.AddVertexSpec(g, u);
    G.RemoveVertexSpec(g, u);
  }

  /** Checking a unit that is not in the hierarchy and then unchecking it leaves the hierarchy as it was. */
  lemma CheckedRoundTrip(g: G.Adj<Entity>, u: Entity)
    requires G.WellFormed(g) && u !in g.fwd
    ensures Checked(Checked(g, u, false, true), u, true, false) == g
  {
    assert u !in g.keys;
    RemoveFirstAppended(g.keys, u);
    assert g.fwd[u := []] - {u} == g.fwd;
    assert g.back[u := []] - {u} == g.back;
  }

  /** After addReq(r), r's title is among the titles of the unit's requirements, and the unit's among r's users. */
  lemma ReqListed(g: G.Adj<Entity>, u: Entity, r: Entity)
    requires G.WellFormed(g)
    ensures UnitTitle(r) in MapSeq(G.Neighbors(G.AddEdgeTo(g, u, r), u, false), UnitTitle)
    ensures UnitTitle(u) in MapSeq(G.Neighbors(G.AddEdgeTo(g, u, r), r, true), UnitTitle)
  {
    var h := G.AddEdgeTo(g, u, r);
    G.NeighborsAfterAddEdge(g, u, r);
    MapSeqIn(G.Neighbors(h, u, false), r, UnitTitle);
    MapSeqIn(G.Neighbors(h, r, true), u, UnitTitle);
  }

  /** A design unit: what it is, whether it has been checked, its configuration, and the shared hierarchy. */
  class Unit {
    const entity: Entity
    const hierarchy: G.Graph<Entity>
    var checked: bool
    var configModes: Modes

    constructor (entity: Entity, hierarchy: G.Graph<Entity>)
      ensures this.entity == entity && this.hierarchy == hierarchy
      ensures !checked && configModes == map[]
    {
      this.entity := entity;
      this.hierarchy := hierarchy;
      checked := false;
      configModes := map[];
    }

    /** Unit.setChecked. */
    method SetChecked(c: bool)
      requires hierarchy.Valid()
      modifies this, hierarchy
      ensures hierarchy.Valid() && checked == c && configModes == old(configModes)
      ensures hierarchy.Value() == Checked(old(hierarchy.Value()), entity, old(checked), c)
    {
      if c && !checked {
        hierarchy.AddVertex(entity);
      }
      if !c && checked {
        hierarchy.RemoveVertex(entity);
      }
      checked := c;
    }

    /** Unit.addReq: an edge from this unit to the one it uses; nothing for no unit. */
    method AddReq(req: Option<Entity>)
      requires hierarchy.Valid()
      modifies hierarchy
      ensures hierarchy.Valid()
      ensures hierarchy.Value() == if req.None? then old(hierarchy.Value()) else G.AddEdgeTo(old(hierarchy.Value()), entity, req.value)
    {
      if req.None? {
        return;
      }
      hierarchy.AddEdge(entity, req.value);
    }

    /** Unit.getReqs with returnnames: the titles of the units this one uses (or, upstream, that use it). */
    method GetReqNames(upstream: bool) returns (reqs: seq<string>)
      ensures reqs == MapSeq(G.Neighbors(hierarchy.Value(), entity, upstream), UnitTitle)
    {
      var edges := hierarchy.GetNeighbors(entity, upstream);
      reqs := [];
      for i := 0 to |edges|
        invariant reqs == MapSeq(edges[..i], UnitTitle)
      {
        MapSeqStep(edges, UnitTitle, i);
        reqs := reqs + [UnitTitle(edges[i])];
      }
      assert edges[..|edges|] == edges;
    }

    /** Unit.linkConfig. */
    method LinkConfig(arch: string, inst: string, search: string, replace: string)
      modifies this
      ensures configModes == Configured(old(configModes), arch, inst, search, replace)
      ensures checked == old(checked)
    {
      var a, s, i := Lower(arch), Lower(search), Lower(inst);
      var byArch: map<string, map<string, string>> := map[];
      if a in configModes {
        byArch := configModes[a];
      }
      var bySearch: map<string, string> := map[];
      if s in byArch {
        bySearch := byArch[s];
      }
      if i !in bySearch {
        configModes := configModes[a := byArch[s := bySearch[i := replace]]];
      }
    }
  }
}
