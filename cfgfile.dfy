// The configuration-file format of legoHDL (CfgFile): an indentation-scoped,
// line-oriented reader of headers, `key = value` assignments, bracketed
// lists spread over several lines, comments and continuation lines; the
// matching writer; and the casts applied to the strings it stores.
module CfgFile {
  import opened Strings

  // ------------------------------------------------------------- values

  /** What the reader stores: a string, a list of strings, or a nested dictionary. */
  datatype Value = Text(s: string) | Items(xs: seq<string>) | Table(entries: seq<Entry>)

  /** One key of a dictionary; a dictionary keeps its keys in insertion order. */
  datatype Entry = Entry(key: string, val: Value)

  /** The keys of a dictionary, in order. */
  function KeysOf(t: seq<Entry>): seq<string>
  {
    if t == [] then [] else [t[0].key] + KeysOf(t[1..])
  }

  /** d.get(k): the value of the first entry with key k. */
  function Get(t: seq<Entry>, k: string): Option<Value>
  {
    if t == [] then None else if t[0].key == k then Some(t[0].val) else Get(t[1..], k)
  }

  /** d[k] = v: an existing key keeps its place, a new key goes last. */
  function Put(t: seq<Entry>, k: string, v: Value): seq<Entry>
  {
    if t == [] then [Entry(k, v)]
    else if t[0].key == k then [Entry(k, v)] + t[1..]
    else [t[0]] + Put(t[1..], k, v)
  }

  /** After d[k] = v, d[k] is v and every other key reads as before. */
  lemma {:induction false} PutGet(t: seq<Entry>, k: string, v: Value)
    ensures Get(Put(t, k, v), k) == Some(v)
    ensures forall j :: j != k ==> Get(Put(t, k, v), j) == Get(t, j)
  {
    if t != [] && t[0].key != k {
      PutGet(t[1..], k, v);
    }
  }

  /** d[k] = v adds k at the end when it is new and leaves the key order alone otherwise. */
  lemma {:induction false} PutKeys(t: seq<Entry>, k: string, v: Value)
    ensures KeysOf(Put(t, k, v)) == if k in KeysOf(t) then KeysOf(t) else KeysOf(t) + [k]
  {
    if t != [] && t[0].key != k {
      PutKeys(t[1..], k, v);
      assert KeysOf(t) == [t[0].key] + KeysOf(t[1..]);
    }
  }

  /** The value reached by following the keys of path from the top dictionary. */
  function At(t: seq<Entry>, path: seq<string>): Option<Value>
    decreases |path|
  {
    if path == [] then Some(Table(t))
    else match Get(t, path[0])
      case None => None
      case Some(v) =>
        if |path| == 1 then Some(v)
        else if v.Table? then At(v.entries, path[1..])
        else None
  }

  /** Every key of path names a nested dictionary. */
  predicate Scoped(t: seq<Entry>, path: seq<string>)
  {
    At(t, path).Some? && At(t, path).value.Table?
  }

  /**
   * tunnel: walk the scope keys down the nested dictionaries and store data
   * (or a new empty dictionary) under key; None where Python raises because a
   * scope key is missing or does not name a dictionary.
   */
  function Tunnel(mp: seq<Entry>, key: string, scope: seq<string>, data: Option<Value>): Option<seq<Entry>>
    decreases |scope|
  {
    if scope == [] then Some(Put(mp, key, if data.Some? then data.value else Table([])))
    else match Get(mp, scope[0])
      case Some(Table(inner)) =>
        (match Tunnel(inner, key, scope[1..], data)
         case Some(t) => Some(Put(mp, scope[0], Table(t)))
         case None => None)
      case _ => None
  }

  /**
   * tunnel succeeds exactly when the scope names nested dictionaries, and then
   * the stored value is found at scope + [key]; the other top-level keys keep
   * their values.
   */
  lemma {:induction false} TunnelSpec(mp: seq<Entry>, key: string, scope: seq<string>, data: Option<Value>)
    ensures Tunnel(mp, key, scope, data).Some? <==> Scoped(mp, scope)
    ensures Tunnel(mp, key, scope, data).Some? ==>
      At(Tunnel(mp, key, scope, data).value, scope + [key])
        == Some(if data.Some? then data.value else Table([]))
    ensures Tunnel(mp, key, scope, data).Some? ==>
      forall j :: j != (if scope == [] then key else scope[0]) ==>
        Get(Tunnel(mp, key, scope, data).value, j) == Get(mp, j)
    decreases |scope|
  {
    var v := if data.Some? then data.value else Table([]);
    if scope == [] {
      PutGet(mp, key, v);
      assert [key][1..] == [];
    } else {
      var path := scope + [key];
      assert path[0] == scope[0] && path[1..] == scope[1..] + [key];
      match Get(mp, scope[0])
      case Some(Table(inner)) =>
        TunnelSpec(inner, key, scope[1..], data);
        if Tunnel(inner, key, scope[1..], data).Some? {
          var t := Tunnel(inner, key, scope[1..], data).value;
          PutGet(mp, scope[0], Table(t));
        }
        if |scope| == 1 {
          assert scope[1..] == [];
        }
      case _ =>
    }
  }

  // -------------------------------------------------------------- casts

  /** A setting as the program holds it: a bool, an int or a string. */
  datatype Scalar = Flag(b: bool) | Num(n: int) | Word(s: string)

  /** castBool; None where Python raises because an int has no lower(). */
  function CastBool(x: Scalar): Option<bool>
  {
    match x
    case Flag(b) => Some(b)
    case Num(_) => None
    case Word(s) =>
      var l := Lower(s);
      Some(l == "true" || l == "1" || l == "yes" || l == "on" || l == "enable")
  }

  /** str(b) for a bool, as the writer turns it into text. */
  function BoolText(b: bool): string
  {
    if b then "True" else "False"
  }

  /** castBool ignores case, and reads back the text str() gives a bool. */
  lemma CastBoolText(s: string, b: bool)
    ensures CastBool(Word(s)) == CastBool(Word(Lower(s)))
    ensures CastBool(Word(BoolText(b))) == Some(b)
    ensures CastBool(Flag(b)) == Some(b)
  {
    LowerIdempotent(s);
    LowerBool(b);
  }

  lemma LowerBool(b: bool)
    ensures Lower(BoolText(b)) == if b then "true" else "false"
  {
    var l := Lower(BoolText(b));
    if b {
      assert l[0] == 't' && l[1] == 'r' && l[2] == 'u' && l[3] == 'e';
    } else {
      assert l[0] == 'f' && l[1] == 'a' && l[2] == 'l' && l[3] == 's' && l[4] == 'e';
    }
  }

  /** castNone: the empty string stands for None. */
  function CastNone(s: string): Option<string>
  {
    if s == "" then None else Some(s)
  }

  lemma CastNoneSpec(s: string)
    ensures CastNone(s) == None <==> s == ""
    ensures CastNone(s).Some? ==> CastNone(s).value == s
  {
  }

  /**
   * castInt: ints pass through (a bool is an int in Python), a string of the
   * form [-]digits is read as its signed value, and any other string is 0.
   */
  function CastInt(x: Scalar): int
  {
    match x
    case Flag(b) => if b then 1 else 0
    case Num(n) => n
    case Word(s) =>
      if |s| > 0 && s[0] == '-' then
        (if IsDecimal(s[1..]) then -(DigitsValue(s[1..]) as int) else 0)
      else if IsDecimal(s) then DigitsValue(s)
      else 0
  }

  /** castInt reads back str(n) for every integer n. */
  lemma CastIntText(n: int)
    ensures CastInt(Word(IntToString(n))) == n
  {
    if n < 0 {
      NatToStringValue(-n);
      var s := IntToString(n);
      assert s[1..] == NatToString(-n);
    } else {
      NatToStringValue(n);
    }
  }

  /** castInt is 0 for a string that is neither digits nor '-' and digits. */
  lemma CastIntOther(s: string)
    requires !IsDecimal(s) && !(|s| > 0 && s[0] == '-' && IsDecimal(s[1..]))
    ensures CastInt(Word(s)) == 0
  {
  }

  // ------------------------------------------------------------ comments

  /** No quote character of either kind. */
  predicate Quoteless(s: string)
  {
    '\'' !in s && '"' !in s
  }

  /** One pass of the comment trimming, for the marker c. */
  function TrimAt(line: string, c: char, inQuote: bool): string
  {
    if CountChar(line, c) > 0 && !inQuote then
      var ci := Find(line, [c]);
      var q1 := Find(line, "'");
      var q2 := Find(line, "\"");
      if (q1 == -1 || ci < q1) && (q2 == -1 || ci < q2) then Slice(line, 0, ci) else line
    else line
  }

  /** Both comment markers, ';' first and then '#'. */
  function TrimComments(line: string, inQuote: bool): string
  {
    TrimAt(TrimAt(line, ';', inQuote), '#', inQuote)
  }

  /**
   * A comment marker is cut off, with the rest of the line, exactly when the
   * line is not inside a quote and no quote precedes the marker's first
   * occurrence.
   */
  lemma TrimAtSpec(line: string, c: char, inQuote: bool)
    requires c != '\'' && c != '"'
    ensures inQuote || c !in line ==> TrimAt(line, c, inQuote) == line
    ensures !inQuote && c in line ==>
      var k := Find(line, [c]);
      0 <= k < |line| && line[k] == c && c !in line[..k]
      && TrimAt(line, c, inQuote) == (if Quoteless(line[..k]) then line[..k] else line)
  {
    assert CountChar(line, c) > 0 <==> c in line;
    if !inQuote && c in line {
      var k := Find(line, [c]);
      FindChar(line, c);
      FindChar(line, '\'');
      FindChar(line, '"');
      assert "'" == ['\''] && "\"" == ['"'];
      var q1 := Find(line, "'");
      var q2 := Find(line, "\"");
      assert (q1 == -1 || k < q1) <==> '\'' !in line[..k];
      assert (q2 == -1 || k < q2) <==> '"' !in line[..k];
    }
  }

  // ------------------------------------------------------------ indentation

  predicate Blank(c: char)
  {
    c == ' ' || c == '\t'
  }

  /** The end of the run of spaces and tabs that starts at i. */
  function LeadFrom(line: string, i: nat): (r: nat)
    requires i <= |line|
    ensures i <= r <= |line|
    decreases |line| - i
  {
    if i < |line| && Blank(line[i]) then LeadFrom(line, i + 1) else i
  }

  /** The scope level of a line: its leading spaces in groups of four, plus its leading tabs. */
  function Level(line: string): nat
  {
    var n := LeadFrom(line, 0);
    CountChar(line[..n], ' ') / 4 + CountChar(line[..n], '\t')
  }

  lemma {:induction false} LeadFromSpec(line: string, i: nat)
    requires i <= |line|
    ensures forall k :: i <= k < LeadFrom(line, i) ==> Blank(line[k])
    ensures LeadFrom(line, i) == |line| || !Blank(line[LeadFrom(line, i)])
    decreases |line| - i
  {
    if i < |line| && Blank(line[i]) {
      LeadFromSpec(line, i + 1);
    }
  }

  /** A line indented by d tabs is at level d. */
  lemma LevelTabs(d: nat, rest: string)
    requires rest == [] || !Blank(rest[0])
    ensures Level(Repeat("\t", d) + rest) == d
  {
    var line := Repeat("\t", d) + rest;
    RepeatTabs(d);
    LeadFromSpec(line, 0);
    var n := LeadFrom(line, 0);
    assert forall k :: 0 <= k < d ==> line[k] == '\t';
    assert d == |line| || line[d] == rest[0];
    assert n == d;
    assert line[..n] == Repeat("\t", d);
    TabsCount(d);
  }

  lemma {:induction false} RepeatTabs(d: nat)
    ensures |Repeat("\t", d)| == d && forall k :: 0 <= k < d ==> Repeat("\t", d)[k] == '\t'
  {
    if d > 0 {
      RepeatTabs(d - 1);
    }
  }

  lemma {:induction false} TabsCount(d: nat)
    ensures CountChar(Repeat("\t", d), '\t') == d && CountChar(Repeat("\t", d), ' ') == 0
  {
    if d > 0 {
      TabsCount(d - 1);
      assert Repeat("\t", d) == "\t" + Repeat("\t", d - 1);
    }
  }

  /**
   * The indentation loop of load: walk the leading spaces and tabs, counting
   * the tabs, and divide the spaces by four. The line must hold a character
   * other than a space or a tab (load only measures non-blank lines).
   */
  method Indent(line: string) returns (lvl: nat)
    requires exists j :: 0 <= j < |line| && !Blank(line[j])
    ensures lvl == Level(line)
  {
    var n := 0;
    var tabs := 0;
    var c := line[0];
    LeadFromSpec(line, 0);
    while c == ' ' || c == '\t'
      invariant 0 <= n < |line| && c == line[n]
      invariant forall k :: 0 <= k < n ==> Blank(line[k])
      invariant LeadFrom(line, n) == LeadFrom(line, 0)
      invariant tabs == CountChar(line[..n], '\t') && n - tabs == CountChar(line[..n], ' ')
      decreases |line| - n
    {
      if c == '\t' {
        tabs := tabs + 1;
      }
      CountSnoc(line[..n], line[n], '\t');
      CountSnoc(line[..n], line[n], ' ');
      assert line[..n + 1] == line[..n] + [line[n]];
      n := n + 1;
      c := line[n];
    }
    lvl := (n - tabs) / 4 + tabs;
  }

  // ---------------------------------------------------------------- lists

  /** The text without any c. */
  function Drop(s: string, c: char): (r: string)
    ensures c !in r
  {
    if s == [] then [] else (if s[0] == c then [] else [s[0]]) + Drop(s[1..], c)
  }

  lemma {:induction false} DropChars(s: string, c: char)
    ensures forall x :: x in Drop(s, c) <==> x in s && x != c
  {
    if s != [] {
      DropChars(s[1..], c);
      assert s == [s[0]] + s[1..];
    }
  }

  /** str.replace(c, '') is dropping every c. */
  lemma {:induction false} ReplaceDrop(s: string, c: char)
    ensures ReplaceAll(s, [c], "") == Drop(s, c)
  {
    if s != [] {
      ReplaceDrop(s[1..], c);
      if s[..1] == [c] {
        assert s[0] == c;
      } else {
        assert s[0] != c;
      }
    }
  }

  /** The concatenation of a list of strings. */
  function Concat(parts: seq<string>): string
  {
    if parts == [] then "" else parts[0] + Concat(parts[1..])
  }

  /** The items of a list with the empty ones dropped. */
  function NonEmpty(items: seq<string>): seq<string>
  {
    if items == [] then []
    else NonEmpty(items[..|items| - 1]) + (if items[|items| - 1] != "" then [items[|items| - 1]] else [])
  }

  /** The text of one list line with its brackets removed. */
  function Unbracket(v: string): string
  {
    ReplaceAll(ReplaceAll(v, "[", ""), "]", "")
  }

  /**
   * collectList: count the brackets the line opens and closes, split it
   * (without brackets) at the commas, and add the non-empty pieces to the
   * running list.
   */
  method CollectList(cnt: int, val: string, tmp: seq<string>) returns (cnt': int, tmp': seq<string>)
    ensures cnt' == cnt + CountChar(val, '[') - CountChar(val, ']')
    ensures tmp' == tmp + NonEmpty(Split(Unbracket(val), ','))
  {
    cnt' := cnt + CountChar(val, '[') - CountChar(val, ']');
    var items := Split(Unbracket(val), ',');
    tmp' := tmp;
    for i := 0 to |items|
      invariant tmp' == tmp + NonEmpty(items[..i])
    {
      NonEmptyStep(items, i);
      if |items[i]| > 0 {
        tmp' := tmp' + [items[i]];
      }
    }
    assert items[..|items|] == items;
  }

  lemma NonEmptyStep(items: seq<string>, i: nat)
    requires i < |items|
    ensures NonEmpty(items[..i + 1]) == NonEmpty(items[..i]) + if items[i] != "" then [items[i]] else []
  {
    assert items[..i + 1][..i] == items[..i];
  }

  lemma {:induction false} ConcatAppend(a: seq<string>, b: seq<string>)
    ensures Concat(a + b) == Concat(a) + Concat(b)
  {
    if a == [] {
      assert a + b == b;
    } else {
      assert (a + b)[0] == a[0] && (a + b)[1..] == a[1..] + b;
      calc {
        Concat(a + b);
        a[0] + Concat(a[1..] + b);
        { ConcatAppend(a[1..], b); }
        a[0] + (Concat(a[1..]) + Concat(b));
        (a[0] + Concat(a[1..])) + Concat(b);
      }
    }
  }

  lemma {:induction false} NonEmptyConcat(items: seq<string>)
    ensures Concat(NonEmpty(items)) == Concat(items)
    ensures forall k :: 0 <= k < |NonEmpty(items)| ==> NonEmpty(items)[k] != ""
    ensures forall k :: 0 <= k < |NonEmpty(items)| ==> NonEmpty(items)[k] in items
  {
    if items != [] {
      var p, x := items[..|items| - 1], items[|items| - 1];
      NonEmptyConcat(p);
      assert items == p + [x];
      ConcatAppend(p, [x]);
      ConcatAppend(NonEmpty(p), if x != "" then [x] else []);
    }
  }

  lemma {:induction false} SplitConcat(s: string, c: char)
    ensures Concat(Split(s, c)) == Drop(s, c)
  {
    if s != [] {
      SplitConcat(s[1..], c);
      var rest := Split(s[1..], c);
      assert Drop(s, c) == (if s[0] == c then [] else [s[0]]) + Drop(s[1..], c);
      if s[0] != c {
        var parts := [[s[0]] + rest[0]] + rest[1..];
        assert parts[0] == [s[0]] + rest[0] && parts[1..] == rest[1..];
        assert Concat(parts) == [s[0]] + rest[0] + Concat(rest[1..]);
        assert Concat(rest) == rest[0] + Concat(rest[1..]);
      } else {
        var parts := [""] + rest;
        assert parts[1..] == rest;
      }
    }
  }

  /** The pieces of a split hold only characters of the text, and no separator. */
  lemma {:induction false} SplitChars(s: string, c: char)
    ensures forall k :: 0 <= k < |Split(s, c)| ==> forall x :: x in Split(s, c)[k] ==> x in s && x != c
  {
    if s != [] {
      SplitChars(s[1..], c);
      SplitParts(s, c);
    }
  }

  /**
   * The pieces collectList adds are non-empty, hold no bracket and no comma,
   * and together spell the line with its brackets and commas removed.
   */
  lemma CollectedItems(v: string)
    ensures var r := NonEmpty(Split(Unbracket(v), ','));
      Concat(r) == Drop(Drop(Drop(v, '['), ']'), ',')
      && forall k :: 0 <= k < |r| ==> r[k] != "" && '[' !in r[k] && ']' !in r[k] && ',' !in r[k]
  {
    var u := Unbracket(v);
    ReplaceDrop(v, '[');
    ReplaceDrop(Drop(v, '['), ']');
    assert u == Drop(Drop(v, '['), ']');
    DropChars(Drop(v, '['), ']');
    var parts := Split(u, ',');
    SplitConcat(u, ',');
    SplitChars(u, ',');
    NonEmptyConcat(parts);
  }

  // --------------------------------------------------------------- reader

  /** The text of `line.strip()` counts as a header: it is bracketed. */
  predicate IsHeader(s: string)
  {
    |s| > 0 && s[0] == '[' && s[|s| - 1] == ']'
  }

  /** An odd number of quote characters toggles the in-quote state. */
  function Toggle(inQuote: bool, v: string): bool
  {
    inQuote != ((CountChar(v, '\'') + CountChar(v, '"')) % 2 == 1)
  }

  /** Where the reader stands between two lines. */
  datatype Reader = Reader(
    dict: seq<Entry>,             // the dictionary built so far
    scope: seq<string>,           // the header keys enclosing the current line
    tmp: Value,                   // the value being assembled
    bracket: int,                 // open minus closed brackets of the current list
    inQuote: bool,
    last: Option<(string, Value)>, // the last completed assignment
    key: string,                  // the key of the current header or assignment
    lineNo: nat)

  const Start := Reader([], [], Items([]), 0, false, None, "", 0)

  /** The outcome of reading: a value, the line of a syntax error, or a Python exception. */
  datatype Loaded<T> = Ok(value: T) | SyntaxError(line: nat) | Crash

  /** collectList on the running value; a string value cannot be extended. */
  function Extend(tmp: Value, items: seq<string>): Option<Value>
  {
    if tmp.Items? then Some(Items(tmp.xs + items))
    else if items == [] then Some(tmp)
    else None
  }

  /** One line of load. */
  function Step(st: Reader, raw: string, ignoreDepth: bool): Loaded<Reader>
  {
    Dispatch(st.(lineNo := st.lineNo + 1), TrimComments(raw, st.inQuote), ignoreDepth)
  }

  /** The branch of load a line takes, once its comments are trimmed. */
  function Dispatch(st: Reader, line: string, ignoreDepth: bool): Loaded<Reader>
  {
    var s := Strip(line);
    if s == "" then Ok(st)
    else
      var lvl := Level(line);
      if !st.inQuote && IsHeader(s) then
        HeaderStep(st, s, if ignoreDepth then 0 else lvl)
      else
        var sep := Find(line, "=");
        if sep > -1 then
          AssignStep(st, Strip(Slice(line, 0, sep)), Strip(Slice(line, sep + 1, |line|)),
            if ignoreDepth && |st.scope| > 0 then 1 else lvl)
        else if st.bracket != 0 then ListStep(st, s)
        else if st.last.Some? then ContinueStep(st, s)
        else SyntaxError(st.lineNo)
  }

  /** A header: cut the scope to the line's level and nest a new dictionary there. */
  function HeaderStep(st: Reader, s: string, lvl: nat): Loaded<Reader>
  {
    var key := Slice(s, 1, |s| - 1);
    var scope := Slice(st.scope, 0, lvl);
    match Tunnel(st.dict, key, scope, None)
    case None => Crash
    case Some(m) => Ok(st.(dict := m, scope := scope + [key], key := key))
  }

  /** An assignment: store the value at once unless it opens a list that is still open. */
  function AssignStep(st: Reader, key: string, value: string, lvl: nat): Loaded<Reader>
  {
    var inQuote := Toggle(st.inQuote, value);
    var scope := Slice(st.scope, 0, lvl);
    var cnt := if |value| > 0 && value[0] == '[' then
      st.bracket + CountChar(value, '[') - CountChar(value, ']') else st.bracket;
    var tmp := if |value| > 0 && value[0] == '[' then
      Items(NonEmpty(Split(Unbracket(value), ','))) else Text(value);
    var st := st.(scope := scope, tmp := tmp, bracket := cnt, inQuote := inQuote, key := key);
    if cnt == 0 then
      match Tunnel(st.dict, key, scope, Some(tmp))
      case None => Crash
      case Some(m) => Ok(st.(dict := m, last := Some((key, tmp))))
    else Ok(st)
  }

  /** A line inside an open list: collect its items and store the list once it closes. */
  function ListStep(st: Reader, s: string): Loaded<Reader>
  {
    var inQuote := Toggle(st.inQuote, s);
    var cnt := st.bracket + CountChar(s, '[') - CountChar(s, ']');
    match Extend(st.tmp, NonEmpty(Split(Unbracket(s), ',')))
    case None => Crash
    case Some(tmp) =>
      var st := st.(tmp := tmp, bracket := cnt, inQuote := inQuote);
      if cnt == 0 then
        match Tunnel(st.dict, st.key, st.scope, Some(tmp))
        case None => Crash
        case Some(m) => Ok(st.(dict := m))
      else Ok(st)
  }

  /** A line without '=' after an assignment: append it to that value after one space. */
  function ContinueStep(st: Reader, s: string): Loaded<Reader>
    requires st.last.Some?
  {
    var inQuote := Toggle(st.inQuote, s);
    var (k, v) := st.last.value;
    if !v.Text? then Crash
    else
      var nv := Text(v.s + " " + s);
      match Tunnel(st.dict, k, st.scope, Some(nv))
      case None => Crash
      case Some(m) => Ok(st.(dict := m, last := Some((k, nv)), inQuote := inQuote))
  }

  /** The reader after the given lines. */
  function Run(lines: seq<string>, ignoreDepth: bool): Loaded<Reader>
  {
    if lines == [] then Ok(Start)
    else match Run(lines[..|lines| - 1], ignoreDepth)
      case Ok(st) => Step(st, lines[|lines| - 1], ignoreDepth)
      case SyntaxError(n) => SyntaxError(n)
      case Crash => Crash
  }

  /** What load returns for the given lines. */
  function LoadAll(lines: seq<string>, ignoreDepth: bool): Loaded<seq<Entry>>
  {
    match Run(lines, ignoreDepth)
    case Ok(st) => Ok(st.dict)
    case SyntaxError(n) => SyntaxError(n)
    case Crash => Crash
  }

  /** An error stops the reader: the lines after it do not change the outcome. */
  lemma {:induction false} RunStuck(lines: seq<string>, i: nat, ignoreDepth: bool)
    requires i <= |lines| && !Run(lines[..i], ignoreDepth).Ok?
    ensures Run(lines, ignoreDepth) == Run(lines[..i], ignoreDepth)
    decreases |lines| - i
  {
    if i < |lines| {
      assert lines[..i + 1][..i] == lines[..i];
      RunStuck(lines, i + 1, ignoreDepth);
    } else {
      assert lines[..i] == lines;
    }
  }

  /** A line whose strip() is not empty has a character other than a space or a tab. */
  lemma NonBlankLine(line: string)
    requires Strip(line) != ""
    ensures exists j :: 0 <= j < |line| && !Blank(line[j])
  {
    StripSpec(line);
    var a, b :| 0 <= a <= b <= |line| && Strip(line) == line[a..b]
      && (a == b || (!IsSpace(line[a]) && !IsSpace(line[b - 1])));
    assert !Blank(line[a]);
  }

  /** Run over one more line is one more Step, unless the reader already failed. */
  lemma RunNext(lines: seq<string>, i: nat, ignoreDepth: bool)
    requires i < |lines|
    ensures Run(lines[..i + 1], ignoreDepth) ==
      if Run(lines[..i], ignoreDepth).Ok? then Step(Run(lines[..i], ignoreDepth).value, lines[i], ignoreDepth)
      else Run(lines[..i], ignoreDepth)
  {
    assert lines[..i + 1][..i] == lines[..i];
  }

  /** The branch Step takes for a line, once the line is trimmed and stripped. */
  lemma StepIs(st: Reader, raw: string, ignoreDepth: bool, line: string, s: string)
    requires line == TrimComments(raw, st.inQuote) && s == Strip(line)
    ensures var st1 := st.(lineNo := st.lineNo + 1);
      var lvl := Level(line);
      var sep := Find(line, "=");
      Step(st, raw, ignoreDepth) ==
        if s == "" then Ok(st1)
        else if !st.inQuote && IsHeader(s) then HeaderStep(st1, s, if ignoreDepth then 0 else lvl)
        else if sep > -1 then
          AssignStep(st1, Strip(Slice(line, 0, sep)), Strip(Slice(line, sep + 1, |line|)),
            if ignoreDepth && |st.scope| > 0 then 1 else lvl)
        else if st.bracket != 0 then ListStep(st1, s)
        else if st.last.Some? then ContinueStep(st1, s)
        else SyntaxError(st1.lineNo)
  {
    assert Step(st, raw, ignoreDepth) == Dispatch(st.(lineNo := st.lineNo + 1), line, ignoreDepth);
    DispatchIs(st.(lineNo := st.lineNo + 1), line, s, ignoreDepth);
  }

  /** The branch Dispatch takes for a trimmed line. */
  lemma DispatchIs(st: Reader, line: string, s: string, ignoreDepth: bool)
    requires s == Strip(line)
    ensures var lvl := Level(line);
      var sep := Find(line, "=");
      Dispatch(st, line, ignoreDepth) ==
        if s == "" then Ok(st)
        else if !st.inQuote && IsHeader(s) then HeaderStep(st, s, if ignoreDepth then 0 else lvl)
        else if sep > -1 then
          AssignStep(st, Strip(Slice(line, 0, sep)), Strip(Slice(line, sep + 1, |line|)),
            if ignoreDepth && |st.scope| > 0 then 1 else lvl)
        else if st.bracket != 0 then ListStep(st, s)
        else if st.last.Some? then ContinueStep(st, s)
        else SyntaxError(st.lineNo)
  {
  }

  /** The header branch of load. */
  method ReadHeader(st: Reader, s: string, lvl: nat) returns (r: Loaded<Reader>)
    ensures r == HeaderStep(st, s, lvl)
  {
    var key := Slice(s, 1, |s| - 1);
    var scope := Slice(st.scope, 0, lvl);
    var m := Tunnel(st.dict, key, scope, None);
    if m.None? {
      return Crash;
    }
    r := Ok(st.(dict := m.value, scope := scope + [key], key := key));
  }

  /** The assignment branch of load. */
  method ReadAssign(st: Reader, key: string, value: string, lvl: nat) returns (r: Loaded<Reader>)
    ensures r == AssignStep(st, key, value, lvl)
  {
    var inQuote := Toggle(st.inQuote, value);
    var scope := Slice(st.scope, 0, lvl);
    var cnt := st.bracket;
    var tmp;
    if |value| > 0 && value[0] == '[' {
      var items;
      cnt, items := CollectList(cnt, value, []);
      assert items == NonEmpty(Split(Unbracket(value), ','));
      tmp := Items(items);
    } else {
      tmp := Text(value);
    }
    var st' := st.(scope := scope, tmp := tmp, bracket := cnt, inQuote := inQuote, key := key);
    if cnt != 0 {
      return Ok(st');
    }
    var m := Tunnel(st'.dict, key, scope, Some(tmp));
    if m.None? {
      return Crash;
    }
    r := Ok(st'.(dict := m.value, last := Some((key, tmp))));
  }

  /** The branch of load for a line inside an open list. */
  method ReadListLine(st: Reader, s: string) returns (r: Loaded<Reader>)
    ensures r == ListStep(st, s)
  {
    var inQuote := Toggle(st.inQuote, s);
    var cnt, items := CollectList(st.bracket, s, []);
    assert items == NonEmpty(Split(Unbracket(s), ','));
    var t := Extend(st.tmp, items);
    if t.None? {
      return Crash;
    }
    var st' := st.(tmp := t.value, bracket := cnt, inQuote := inQuote);
    if cnt != 0 {
      return Ok(st');
    }
    var m := Tunnel(st'.dict, st'.key, st'.scope, Some(t.value));
    if m.None? {
      return Crash;
    }
    r := Ok(st'.(dict := m.value));
  }

  /** The branch of load for a continuation line. */
  method ReadContinuation(st: Reader, s: string) returns (r: Loaded<Reader>)
    requires st.last.Some?
    ensures r == ContinueStep(st, s)
  {
    var inQuote := Toggle(st.inQuote, s);
    var (k, v) := st.last.value;
    if !v.Text? {
      return Crash;
    }
    var nv := Text(v.s + " " + s);
    var m := Tunnel(st.dict, k, st.scope, Some(nv));
    if m.None? {
      return Crash;
    }
    r := Ok(st.(dict := m.value, last := Some((k, nv)), inQuote := inQuote));
  }

  /** The branches of load for a line that is not blank once comments are trimmed. */
  method ReadLine(st: Reader, line: string, s: string, ignoreDepth: bool) returns (next: Loaded<Reader>)
    requires s == Strip(line) && s != ""
    ensures next == Dispatch(st, line, ignoreDepth)
  {
    NonBlankLine(line);
    var lvl := Indent(line);
    if !st.inQuote && IsHeader(s) {
      next := ReadHeader(st, s, if ignoreDepth then 0 else lvl);
    } else {
      var sep := Find(line, "=");
      if sep > -1 {
        next := ReadAssign(st, Strip(Slice(line, 0, sep)), Strip(Slice(line, sep + 1, |line|)),
          if ignoreDepth && |st.scope| > 0 then 1 else lvl);
      } else if st.bracket != 0 {
        next := ReadListLine(st, s);
      } else if st.last.Some? {
        next := ReadContinuation(st, s);
      } else {
        next := SyntaxError(st.lineNo);
      }
    }
  }

  /** One pass of the loop of load: trim the comments, count the line, read it unless blank. */
  method LoadLine(st: Reader, raw: string, ignoreDepth: bool) returns (next: Loaded<Reader>)
    ensures next == Step(st, raw, ignoreDepth)
  {
    var line := TrimAt(raw, ';', st.inQuote);
    line := TrimAt(line, '#', st.inQuote);
    var s := Strip(line);
    var st1 := st.(lineNo := st.lineNo + 1);
    if |s| == 0 {
      return Ok(st1);
    }
    next := ReadLine(st1, line, s, ignoreDepth);
  }

  /**
   * CfgFile.load over the lines of a file: the loop keeps the scope stack,
   * the list being assembled, the bracket count, the in-quote flag and the
   * last assignment, line by line; a failing line ends the read.
   */
  method Load(lines: seq<string>, ignoreDepth: bool) returns (r: Loaded<seq<Entry>>)
    ensures r == LoadAll(lines, ignoreDepth)
  {
    var st := Start;
    for i := 0 to |lines|
      invariant Run(lines[..i], ignoreDepth) == Ok(st)
    {
      RunNext(lines, i, ignoreDepth);
      var next := LoadLine(st, lines[i], ignoreDepth);
      if !next.Ok? {
        RunStuck(lines, i + 1, ignoreDepth);
        r := if next.Crash? then Crash else SyntaxError(next.line);
        return;
      }
      st := next.value;
    }
    assert lines[..|lines|] == lines;
    return Ok(st.dict);
  }

  // ------------------------------------------------ what one line does

  /** A blank line (once comments are trimmed) changes nothing but the line count. */
  lemma BlankLine(st: Reader, raw: string, ignoreDepth: bool)
    requires Strip(TrimComments(raw, st.inQuote)) == ""
    ensures Step(st, raw, ignoreDepth) == Ok(st.(lineNo := st.lineNo + 1))
  {
  }

  /**
   * A header line at level lvl cuts the scope to its first lvl keys and
   * nests a new empty dictionary there; it fails exactly when those keys do
   * not name nested dictionaries.
   */
  lemma HeaderLine(st: Reader, raw: string, ignoreDepth: bool)
    requires !st.inQuote && IsHeader(Strip(TrimComments(raw, st.inQuote)))
    ensures var line := TrimComments(raw, st.inQuote);
      var s := Strip(line);
      var scope := Slice(st.scope, 0, if ignoreDepth then 0 else Level(line));
      var r := Step(st, raw, ignoreDepth);
      (r.Ok? <==> Scoped(st.dict, scope))
      && (r.Ok? ==> r.value.scope == scope + [s[1..|s| - 1]]
                    && At(r.value.dict, r.value.scope) == Some(Table([])))
  {
    var line := TrimComments(raw, st.inQuote);
    var s := Strip(line);
    StepIs(st, raw, ignoreDepth, line, s);
    var scope := Slice(st.scope, 0, if ignoreDepth then 0 else Level(line));
    TunnelSpec(st.dict, Slice(s, 1, |s| - 1), scope, None);
  }

  /**
   * An assignment whose value does not open a list, outside any open list,
   * stores the stripped value under the stripped key, in the scope cut to the
   * line's level, and becomes the last assignment.
   */
  lemma AssignLine(st: Reader, raw: string, ignoreDepth: bool)
    requires st.bracket == 0
    requires var line := TrimComments(raw, st.inQuote);
      var s := Strip(line);
      s != "" && !(!st.inQuote && IsHeader(s)) && Find(line, "=") > -1
      && !StartsWith(Strip(Slice(line, Find(line, "=") + 1, |line|)), "[")
    ensures var line := TrimComments(raw, st.inQuote);
      var sep := Find(line, "=");
      var key := Strip(Slice(line, 0, sep));
      var value := Strip(Slice(line, sep + 1, |line|));
      var scope := Slice(st.scope, 0, if ignoreDepth && |st.scope| > 0 then 1 else Level(line));
      var r := Step(st, raw, ignoreDepth);
      (r.Ok? <==> Scoped(st.dict, scope))
      && (r.Ok? ==> At(r.value.dict, scope + [key]) == Some(Text(value))
                    && r.value.last == Some((key, Text(value))) && r.value.scope == scope)
  {
    var line := TrimComments(raw, st.inQuote);
    StepIs(st, raw, ignoreDepth, line, Strip(line));
    var sep := Find(line, "=");
    AssignText(st.(lineNo := st.lineNo + 1), Strip(Slice(line, 0, sep)), Strip(Slice(line, sep + 1, |line|)),
      if ignoreDepth && |st.scope| > 0 then 1 else Level(line));
  }

  lemma AssignText(st: Reader, key: string, value: string, lvl: nat)
    requires st.bracket == 0 && !StartsWith(value, "[")
    ensures var scope := Slice(st.scope, 0, lvl);
      var r := AssignStep(st, key, value, lvl);
      (r.Ok? <==> Scoped(st.dict, scope))
      && (r.Ok? ==> At(r.value.dict, scope + [key]) == Some(Text(value))
                    && r.value.last == Some((key, Text(value))) && r.value.scope == scope)
  {
    assert !(|value| > 0 && value[0] == '[');
    TunnelSpec(st.dict, key, Slice(st.scope, 0, lvl), Some(Text(value)));
  }

  /**
   * Inside an open list a line only collects items: the dictionary changes
   * only on the line that brings the bracket count back to 0, and then holds
   * the whole list under the list's key.
   */
  lemma ListLine(st: Reader, raw: string, ignoreDepth: bool)
    requires st.bracket != 0 && st.tmp.Items?
    requires var line := TrimComments(raw, st.inQuote);
      var s := Strip(line);
      s != "" && !(!st.inQuote && IsHeader(s)) && Find(line, "=") == -1
    ensures var s := Strip(TrimComments(raw, st.inQuote));
      var cnt := st.bracket + CountChar(s, '[') - CountChar(s, ']');
      var list := Items(st.tmp.xs + NonEmpty(Split(Unbracket(s), ',')));
      var r := Step(st, raw, ignoreDepth);
      (cnt != 0 ==> r.Ok? && r.value.dict == st.dict && r.value.tmp == list && r.value.bracket == cnt)
      && (cnt == 0 ==> (r.Ok? <==> Scoped(st.dict, st.scope)))
      && (cnt == 0 && r.Ok? ==> At(r.value.dict, st.scope + [st.key]) == Some(list))
  {
    var line := TrimComments(raw, st.inQuote);
    var s := Strip(line);
    StepIs(st, raw, ignoreDepth, line, s);
    var list := Items(st.tmp.xs + NonEmpty(Split(Unbracket(s), ',')));
    TunnelSpec(st.dict, st.key, st.scope, Some(list));
  }

  /**
   * A line without '=' after a completed string assignment is appended to
   * that value after one space, and stored again under the same key.
   */
  lemma ContinuationLine(st: Reader, raw: string, ignoreDepth: bool)
    requires st.bracket == 0 && st.last.Some? && st.last.value.1.Text?
    requires var line := TrimComments(raw, st.inQuote);
      var s := Strip(line);
      s != "" && !(!st.inQuote && IsHeader(s)) && Find(line, "=") == -1
    ensures var s := Strip(TrimComments(raw, st.inQuote));
      var (k, v) := st.last.value;
      var r := Step(st, raw, ignoreDepth);
      (r.Ok? <==> Scoped(st.dict, st.scope))
      && (r.Ok? ==> r.value.last == Some((k, Text(v.s + " " + s)))
                    && At(r.value.dict, st.scope + [k]) == Some(Text(v.s + " " + s)))
  {
    var line := TrimComments(raw, st.inQuote);
    var s := Strip(line);
    StepIs(st, raw, ignoreDepth, line, s);
    var (k, v) := st.last.value;
    TunnelSpec(st.dict, k, st.scope, Some(Text(v.s + " " + s)));
  }

  /** A line that is no header, no assignment and no continuation is a syntax error at its number. */
  lemma StrayLine(st: Reader, raw: string, ignoreDepth: bool)
    requires st.bracket == 0 && st.last.None?
    requires var line := TrimComments(raw, st.inQuote);
      var s := Strip(line);
      s != "" && !(!st.inQuote && IsHeader(s)) && Find(line, "=") == -1
    ensures Step(st, raw, ignoreDepth) == SyntaxError(st.lineNo + 1)
  {
    var line := TrimComments(raw, st.inQuote);
    StepIs(st, raw, ignoreDepth, line, Strip(line));
  }

  // --------------------------------------------------------------- writer

  /** A comment kept for a key: written before a header ("[]") or before an assignment ("="). */
  datatype Note = Note(kind: string, text: string)

  /** The options of save. */
  datatype Opts = Opts(comments: map<string, Note>, ignoreDepth: bool, spaceHeaders: bool)

  function Tabs(n: int): string
  {
    Repeat("\t", n)
  }

  /** Each line of a comment, indented and ended. */
  function NoteLines(lines: seq<string>, spacing: string): string
  {
    if lines == [] then "" else spacing + lines[0] + "\n" + NoteLines(lines[1..], spacing)
  }

  /** write_comment: a comment is written only before the kind of line it was kept for. */
  function NoteText(c: Note, spacing: string, isHeader: bool): string
  {
    if (c.kind == "[]" && isHeader) || (c.kind == "=" && !isHeader) then NoteLines(Split(c.text, '\n'), spacing)
    else ""
  }

  /** The end of the word that starts at i. */
  function WordEnd(s: string, i: nat): (r: nat)
    requires i <= |s|
    ensures i <= r <= |s|
    decreases |s| - i
  {
    if i < |s| && !IsSpace(s[i]) then WordEnd(s, i + 1) else i
  }

  /** str.split() without arguments: the maximal runs of non-whitespace. */
  function Words(s: string): seq<string>
  {
    WordsFrom(s, 0)
  }

  /** The words of s from index i on. */
  function WordsFrom(s: string, i: nat): seq<string>
    requires i <= |s|
    decreases |s| - i
  {
    var a := SkipFront(s, i);
    if a == |s| then []
    else
      var b := WordEnd(s, a + 1);
      [s[a..b]] + WordsFrom(s, b)
  }

  /**
   * The word-wrapping loop of save: each word is written followed by a space;
   * when the words on the line and the assignment before them reach 80
   * characters, the line is broken and the next line is indented by lLen
   * spaces. Returns the text, the final cursor and whether a break happened.
   */
  function Wrap(ws: seq<string>, lLen: nat, cursor: nat, first: bool, exceeded: bool): Wrapped
  {
    if ws == [] then Wrapped("", cursor, exceeded)
    else
      var c := Advance(ws[0], lLen, cursor);
      var r := Wrap(ws[1..], lLen, c, c == 0, exceeded || Overflows(ws[0], lLen, cursor));
      Wrapped(Piece(ws[0], lLen, cursor, first) + r.text, r.cursor, r.exceeded)
  }

  /** The wrapped text, with the cursor and the overflow flag it ends with. */
  datatype Wrapped = Wrapped(text: string, cursor: nat, exceeded: bool)

  /** Text written so far, and whether a header has been written. */
  datatype Written = Written(text: string, another: bool)

  /** The word w would take the line to 80 characters or more. */
  predicate Overflows(w: string, lLen: nat, cursor: nat)
  {
    cursor + |w| + 1 + lLen >= 80
  }

  /** The cursor after the word w. */
  function Advance(w: string, lLen: nat, cursor: nat): nat
  {
    if Overflows(w, lLen, cursor) then 0 else cursor + |w| + 1
  }

  /** What the loop writes for the word w: the word, and the line break where it overflows. */
  function Piece(w: string, lLen: nat, cursor: nat, first: bool): string
  {
    (if first then w + " " else "")
      + (if Overflows(w, lLen, cursor) then "\n" + Repeat(" ", lLen) else "")
      + (if !first then w + " " else "")
  }

  /** A string value as save writes it: the line is ended only when the cursor moved or the value is empty. */
  function WriteTextAsWritten(s: string, lLen: nat): string
  {
    var w := Wrap(Words(s), lLen, 0, true, false);
    w.text + (if w.cursor != 0 || |s| == 0 then "\n" else "") + (if w.exceeded then "\n" else "")
  }

  /** A string value as save means to write it: the line is also ended when there is no word. */
  function WriteText(s: string, lLen: nat): string
  {
    var w := Wrap(Words(s), lLen, 0, true, false);
    w.text + (if w.cursor != 0 || Words(s) == [] then "\n" else "") + (if w.exceeded then "\n" else "")
  }

  /** The item lines of a non-empty list, each item followed by a comma. */
  function ItemLines(xs: seq<string>, indent: string): string
  {
    if xs == [] then "" else ItemLines(xs[..|xs| - 1], indent) + indent + xs[|xs| - 1] + ",\n"
  }

  /** How save writes a list: bracket lines around one item per line, or [] when empty. */
  function WriteList(xs: seq<string>, lvl: nat, ignoreDepth: bool): string
  {
    if |xs| > 0 then
      "[\n" + ItemLines(xs, if ignoreDepth then "\t" else Tabs(lvl))
        + Tabs((if ignoreDepth || lvl == 0 then 1 else lvl) - 1) + "]\n"
    else "[]\n"
  }

  /** The right-hand side of an assignment. */
  function WriteValue(v: Value, lvl: nat, lLen: nat, ignoreDepth: bool): string
  {
    match v
    case Items(xs) => WriteList(xs, lvl, ignoreDepth)
    case Text(s) => WriteText(s, lLen)
    case Table(_) => ""
  }

  /** write_dictionary over the entries of one dictionary; the flag records that a header was written. */
  function WriteTable(t: seq<Entry>, lvl: nat, another: bool, o: Opts): Written
    decreases t
  {
    if t == [] then Written("", another)
    else
      var a := WriteEntry(t[0], lvl, another, o);
      var b := WriteTable(t[1..], lvl, a.another, o);
      Written(a.text + b.text, b.another)
  }

  /** One key: its comment, then a [header] and the nested dictionary, or `key = ` and the value. */
  function WriteEntry(e: Entry, lvl: nat, another: bool, o: Opts): Written
    decreases e
  {
    var indent := if o.ignoreDepth then "" else Tabs(lvl);
    var isHeader := e.val.Table?;
    var note := if e.key in o.comments then NoteText(o.comments[e.key], indent, isHeader) else "";
    if isHeader then
      var gap := if another && o.spaceHeaders then "\n" else "";
      var body := WriteTable(e.val.entries, lvl + 1, true, o);
      Written(note + gap + indent + "[" + e.key + "]\n" + body.text, body.another)
    else
      var assign := indent + e.key + " = ";
      Written(note + assign + WriteValue(e.val, lvl + 1, |assign|, o.ignoreDepth), another)
  }

  /** The word loop of save. */
  method WriteWords(ws: seq<string>, lLen: nat) returns (out: string, cursor: nat, exceeded: bool)
    ensures Wrapped(out, cursor, exceeded) == Wrap(ws, lLen, 0, true, false)
  {
    out, cursor, exceeded := "", 0, false;
    var first := true;
    assert ws[0..] == ws;
    for i := 0 to |ws|
      invariant var r := Wrap(ws[i..], lLen, cursor, first, exceeded);
        Wrap(ws, lLen, 0, true, false) == Wrapped(out + r.text, r.cursor, r.exceeded)
    {
      var piece, c, over := WrapWord(ws[i], lLen, cursor, first);
      WrapStep(ws, i, lLen, cursor, first, exceeded, piece, c, exceeded || over);
      cursor, exceeded, first := c, exceeded || over, c == 0;
      out := out + piece;
    }
    assert ws[|ws|..] == [];
  }

  /** One word of the loop: what is written, the new cursor, and whether the line was broken. */
  method WrapWord(w: string, lLen: nat, cursor: nat, first: bool) returns (piece: string, c: nat, over: bool)
    ensures piece == Piece(w, lLen, cursor, first) && c == Advance(w, lLen, cursor)
    ensures over == Overflows(w, lLen, cursor)
  {
    piece, over := "", false;
    if first {
      piece := w + " ";
    }
    c := cursor + |w| + 1;
    if c + lLen >= 80 {
      over := true;
      piece := piece + ("\n" + Repeat(" ", lLen));
      c := 0;
    }
    if !first {
      piece := piece + (w + " ");
    }
  }

  lemma WrapStep(ws: seq<string>, i: nat, lLen: nat, cursor: nat, first: bool, exceeded: bool,
                 piece: string, c: nat, e: bool)
    requires i < |ws| && piece == Piece(ws[i], lLen, cursor, first)
    requires c == Advance(ws[i], lLen, cursor) && e == (exceeded || Overflows(ws[i], lLen, cursor))
    ensures var r := Wrap(ws[i + 1..], lLen, c, c == 0, e);
      Wrap(ws[i..], lLen, cursor, first, exceeded) == Wrapped(piece + r.text, r.cursor, r.exceeded)
  {
    assert ws[i..][0] == ws[i] && ws[i..][1..] == ws[i + 1..];
  }

  /** The list branch of save. */
  method WriteItems(xs: seq<string>, lvl: nat, ignoreDepth: bool) returns (out: string)
    ensures out == WriteList(xs, lvl, ignoreDepth)
  {
    if |xs| == 0 {
      return "[]\n";
    }
    var indent := if ignoreDepth then "\t" else Tabs(lvl);
    var body := "";
    for i := 0 to |xs|
      invariant body == ItemLines(xs[..i], indent)
    {
      assert xs[..i + 1][..i] == xs[..i];
      body := body + indent + xs[i] + ",\n";
    }
    assert xs[..|xs|] == xs;
    var l := if ignoreDepth || lvl == 0 then 1 else lvl;
    out := "[\n" + body + Tabs(l - 1) + "]\n";
  }

  /** The value branch of save. */
  method WriteScalar(v: Value, lvl: nat, lLen: nat, ignoreDepth: bool) returns (out: string)
    requires !v.Table?
    ensures out == WriteValue(v, lvl, lLen, ignoreDepth)
  {
    if v.Items? {
      out := WriteItems(v.xs, lvl, ignoreDepth);
    } else {
      var ws := Words(v.s);
      var cursor, exceeded;
      out, cursor, exceeded := WriteWords(ws, lLen);
      if cursor != 0 || |ws| == 0 {
        out := out + "\n";
      }
      if exceeded {
        out := out + "\n";
      }
    }
  }

  /** write_dictionary: every key of a dictionary in order, recursing into nested ones. */
  method WriteDictionary(t: seq<Entry>, lvl: nat, another: bool, o: Opts) returns (out: string, another': bool)
    ensures Written(out, another') == WriteTable(t, lvl, another, o)
    decreases t
  {
    out, another' := "", another;
    assert t[0..] == t;
    for i := 0 to |t|
      invariant var r := WriteTable(t[i..], lvl, another', o);
        WriteTable(t, lvl, another, o) == Written(out + r.text, r.another)
    {
      ghost var was := another';
      var piece;
      piece, another' := WriteKey(t[i], lvl, another', o);
      TableNext(t, i, lvl, another, o, out, was, piece, another');
      out := out + piece;
    }
    assert t[|t|..] == [];
  }

  /** The loop invariant of write_dictionary, carried over one key. */
  lemma TableNext(t: seq<Entry>, i: nat, lvl: nat, another: bool, o: Opts, out: string, was: bool, piece: string, another': bool)
    requires i < |t|
    requires var r := WriteTable(t[i..], lvl, was, o);
      WriteTable(t, lvl, another, o) == Written(out + r.text, r.another)
    requires WriteEntry(t[i], lvl, was, o) == Written(piece, another')
    ensures var r := WriteTable(t[i + 1..], lvl, another', o);
      WriteTable(t, lvl, another, o) == Written(out + piece + r.text, r.another)
  {
    TableStep(t, i, lvl, was, o, piece, another');
    Glue(WriteTable(t, lvl, another, o), out, WriteTable(t[i..], lvl, was, o), piece, WriteTable(t[i + 1..], lvl, another', o));
  }

  /** Output before a table's rest, then one entry's piece before the rest after it. */
  lemma Glue(w: Written, out: string, r0: Written, piece: string, r: Written)
    requires w == Written(out + r0.text, r0.another) && r0 == Written(piece + r.text, r.another)
    ensures w == Written(out + piece + r.text, r.another)
  {
    assert out + (piece + r.text) == (out + piece) + r.text;
  }

  lemma TableStep(t: seq<Entry>, i: nat, lvl: nat, another: bool, o: Opts, piece: string, another': bool)
    requires i < |t| && WriteEntry(t[i], lvl, another, o) == Written(piece, another')
    ensures var r := WriteTable(t[i + 1..], lvl, another', o);
      WriteTable(t[i..], lvl, another, o) == Written(piece + r.text, r.another)
  {
    assert t[i..][0] == t[i] && t[i..][1..] == t[i + 1..];
  }

  /** One key of write_dictionary: its comment, then a header and its dictionary, or an assignment. */
  method WriteKey(e: Entry, lvl: nat, another: bool, o: Opts) returns (out: string, another': bool)
    ensures Written(out, another') == WriteEntry(e, lvl, another, o)
    decreases e
  {
    var indent := if o.ignoreDepth then "" else Tabs(lvl);
    var isHeader := e.val.Table?;
    var note := "";
    if e.key in o.comments {
      note := NoteText(o.comments[e.key], indent, isHeader);
    }
    if isHeader {
      var gap := "";
      if another && o.spaceHeaders {
        gap := "\n";
      }
      var body;
      body, another' := WriteDictionary(e.val.entries, lvl + 1, true, o);
      out := note + gap + indent + "[" + e.key + "]\n" + body;
    } else {
      var assign := indent + e.key + " = ";
      var value := WriteScalar(e.val, lvl + 1, |assign|, o.ignoreDepth);
      out, another' := note + assign + value, another;
    }
  }

  /** CfgFile.save: the text written for a dictionary. */
  method Save(data: seq<Entry>, o: Opts) returns (text: string)
    ensures text == WriteTable(data, 0, false, o).text
  {
    var another;
    text, another := WriteDictionary(data, 0, false, o);
  }

  // ---------------------------------------------------- writer properties

  /** A word as str.split() returns it: non-empty, without whitespace. */
  predicate Plain(w: string)
  {
    |w| > 0 && forall i :: 0 <= i < |w| ==> !IsSpace(w[i])
  }

  /** Whitespace only. */
  predicate Blanks(s: string)
  {
    forall i :: 0 <= i < |s| ==> IsSpace(s[i])
  }

  lemma {:induction false} SkipFrontShift(p: string, x: string, j: nat)
    requires j <= |x|
    ensures SkipFront(p + x, |p| + j) == |p| + SkipFront(x, j)
    decreases |x| - j
  {
    if j < |x| {
      assert (p + x)[|p| + j] == x[j];
      if IsSpace(x[j]) {
        SkipFrontShift(p, x, j + 1);
      }
    }
  }

  lemma {:induction false} WordEndShift(p: string, x: string, j: nat)
    requires j <= |x|
    ensures WordEnd(p + x, |p| + j) == |p| + WordEnd(x, j)
    decreases |x| - j
  {
    if j < |x| {
      assert (p + x)[|p| + j] == x[j];
      if !IsSpace(x[j]) {
        WordEndShift(p, x, j + 1);
      }
    }
  }

  lemma {:induction false} SkipFrontBlanks(p: string, x: string, i: nat)
    requires i <= |p| && Blanks(p)
    ensures SkipFront(p + x, i) == |p| + SkipFront(x, 0)
    decreases |p| - i
  {
    if i < |p| {
      assert (p + x)[i] == p[i];
      SkipFrontBlanks(p, x, i + 1);
    } else {
      SkipFrontShift(p, x, 0);
    }
  }

  /** The words of x do not depend on what comes before it. */
  lemma {:induction false} WordsFromShift(p: string, x: string, j: nat)
    requires j <= |x|
    ensures WordsFrom(p + x, |p| + j) == WordsFrom(x, j)
    decreases |x| - j
  {
    SkipFrontShift(p, x, j);
    var a := SkipFront(x, j);
    if a < |x| {
      var b := WordEnd(x, a + 1);
      WordsFromShift(p, x, b);
      ShiftWord(p, x, j, a, b);
    } else {
      assert SkipFront(p + x, |p| + j) == |p + x|;
    }
  }

  /** The next word of x is the next word of p + x, and so are the words after it. */
  lemma ShiftWord(p: string, x: string, j: nat, a: nat, b: nat)
    requires j <= a < |x| && SkipFront(x, j) == a && b == WordEnd(x, a + 1)
    requires SkipFront(p + x, |p| + j) == |p| + a
    requires WordsFrom(p + x, |p| + b) == WordsFrom(x, b)
    ensures WordsFrom(p + x, |p| + j) == WordsFrom(x, j)
  {
    WordEndShift(p, x, a + 1);
    SliceShift(p, x, a, b);
    WordsFromAt(p + x, |p| + j, |p| + a, |p| + b);
    WordsFromAt(x, j, a, b);
  }

  /** A slice of x is the same slice of p + x, shifted by |p|. */
  lemma SliceShift(p: string, x: string, a: nat, b: nat)
    requires a <= b <= |x|
    ensures (p + x)[|p| + a..|p| + b] == x[a..b]
  {
    assert (p + x)[|p|..] == x;
    assert (p + x)[|p| + a..|p| + b] == (p + x)[|p|..][a..b];
  }

  /** One word of WordsFrom, found between a and b. */
  lemma WordsFromAt(s: string, i: nat, a: nat, b: nat)
    requires i <= |s| && a < |s| && a + 1 <= |s| && SkipFront(s, i) == a && WordEnd(s, a + 1) == b
    ensures WordsFrom(s, i) == [s[a..b]] + WordsFrom(s, b)
  {
  }

  /** Leading whitespace does not change the words. */
  lemma {:induction false} WordsBlanks(p: string, x: string)
    requires Blanks(p)
    ensures Words(p + x) == Words(x)
  {
    SkipFrontBlanks(p, x, 0);
    SkipFrontShift(p, x, 0);
    WordsFromSkip(p + x, 0, |p|);
    WordsFromShift(p, x, 0);
  }

  /** WordsFrom depends only on where the next word starts. */
  lemma WordsFromSkip(s: string, i: nat, j: nat)
    requires i <= |s| && j <= |s| && SkipFront(s, i) == SkipFront(s, j)
    ensures WordsFrom(s, i) == WordsFrom(s, j)
  {
  }

  lemma {:induction false} WordEndPlain(w: string, y: string, j: nat)
    requires j <= |w| && forall i :: 0 <= i < |w| ==> !IsSpace(w[i])
    requires y == [] || IsSpace(y[0])
    ensures WordEnd(w + y, j) == |w|
    decreases |w| - j
  {
    if j < |w| {
      assert (w + y)[j] == w[j];
      WordEndPlain(w, y, j + 1);
    } else if y != [] {
      assert (w + y)[j] == y[0];
    }
  }

  /** A word followed by a space is the first word. */
  lemma {:induction false} WordsWord(w: string, x: string)
    requires Plain(w)
    ensures Words(w + " " + x) == [w] + Words(x)
  {
    var y := " " + x;
    var s := w + y;
    assert s == w + " " + x;
    assert s[0] == w[0];
    WordEndPlain(w, y, 1);
    WordsFromAt(s, 0, 0, |w|);
    assert s[0..|w|] == w;
    WordsFromShift(w, y, 0);
    WordsBlanks(" ", x);
  }

  lemma {:induction false} SkipFrontPrefix(x: string, p: string, i: nat)
    requires i <= |x| && Blanks(p)
    ensures SkipFront(x, i) < |x| ==> SkipFront(x + p, i) == SkipFront(x, i)
    ensures SkipFront(x, i) == |x| ==> SkipFront(x + p, i) == |x + p|
    decreases |x| - i
  {
    if i < |x| {
      assert (x + p)[i] == x[i];
      if IsSpace(x[i]) {
        SkipFrontPrefix(x, p, i + 1);
      }
    } else {
      SkipFrontBlanks(p, "", 0);
      assert p + "" == p;
      SkipFrontShift(x, p, 0);
    }
  }

  lemma {:induction false} WordEndPrefix(x: string, p: string, j: nat)
    requires j <= |x| && Blanks(p)
    ensures WordEnd(x + p, j) == WordEnd(x, j)
    decreases |x| - j
  {
    if j < |x| {
      assert (x + p)[j] == x[j];
      if !IsSpace(x[j]) {
        WordEndPrefix(x, p, j + 1);
      }
    } else if p != [] {
      assert (x + p)[j] == p[0];
    }
  }

  /** Trailing whitespace does not change the words. */
  lemma {:induction false} WordsFromBlanks(x: string, p: string, j: nat)
    requires j <= |x| && Blanks(p)
    ensures WordsFrom(x + p, j) == WordsFrom(x, j)
    decreases |x| - j
  {
    var s := x + p;
    var a := SkipFront(x, j);
    SkipFrontPrefix(x, p, j);
    if a < |x| {
      var b := WordEnd(x, a + 1);
      WordEndPrefix(x, p, a + 1);
      WordsFromBlanks(x, p, b);
      WordsFromAt(s, j, a, b);
      WordsFromAt(x, j, a, b);
      assert s[a..b] == x[a..b];
    }
  }

  lemma {:induction false} RepeatBlanks(n: int)
    ensures Blanks(Repeat(" ", n))
    decreases n
  {
    if n > 0 {
      RepeatBlanks(n - 1);
      assert Repeat(" ", n) == " " + Repeat(" ", n - 1);
    }
  }

  /** What the loop writes for one word holds exactly that word. */
  lemma {:induction false} PieceWords(w: string, lLen: nat, cursor: nat, first: bool, rest: string)
    requires Plain(w)
    ensures Words(Piece(w, lLen, cursor, first) + rest) == [w] + Words(rest)
  {
    var nl := "\n" + Repeat(" ", lLen);
    BreakBlanks(lLen);
    var over := Overflows(w, lLen, cursor);
    var piece := Piece(w, lLen, cursor, first);
    if first && over {
      assert piece + rest == w + " " + (nl + rest);
    } else if over {
      assert piece + rest == nl + (w + " " + rest);
    } else {
      assert piece + rest == w + " " + rest;
    }
    WordsAround(w, nl, rest);
  }

  /** The line break the wrapper writes is whitespace. */
  lemma BreakBlanks(lLen: nat)
    ensures Blanks("\n" + Repeat(" ", lLen))
  {
    var nl := "\n" + Repeat(" ", lLen);
    RepeatBlanks(lLen);
    assert forall i :: 1 <= i < |nl| ==> nl[i] == Repeat(" ", lLen)[i - 1];
  }

  /** A word and a run of whitespace, in either order, give the word. */
  lemma WordsAround(w: string, nl: string, rest: string)
    requires Plain(w) && Blanks(nl)
    ensures Words(w + " " + (nl + rest)) == [w] + Words(rest)
    ensures Words(nl + (w + " " + rest)) == [w] + Words(rest)
    ensures Words(w + " " + rest) == [w] + Words(rest)
  {
    WordsWord(w, nl + rest);
    WordsBlanks(nl, rest);
    WordsBlanks(nl, w + " " + rest);
    WordsWord(w, rest);
  }

  /** The wrapping loop writes the words in order, whatever follows them. */
  lemma {:induction false} WrapWords(ws: seq<string>, lLen: nat, cursor: nat, first: bool, exceeded: bool, tail: string)
    requires forall i :: 0 <= i < |ws| ==> Plain(ws[i])
    ensures Words(Wrap(ws, lLen, cursor, first, exceeded).text + tail) == ws + Words(tail)
  {
    if ws == [] {
      assert "" + tail == tail && [] + Words(tail) == Words(tail);
    } else {
      var c := Advance(ws[0], lLen, cursor);
      var e := exceeded || Overflows(ws[0], lLen, cursor);
      var rest := Wrap(ws[1..], lLen, c, c == 0, e).text + tail;
      WrapWords(ws[1..], lLen, c, c == 0, e, tail);
      WrapWordsStep(ws, lLen, cursor, first, exceeded, tail, rest);
    }
  }

  lemma WrapWordsStep(ws: seq<string>, lLen: nat, cursor: nat, first: bool, exceeded: bool, tail: string, rest: string)
    requires ws != [] && Plain(ws[0])
    requires var c := Advance(ws[0], lLen, cursor);
      rest == Wrap(ws[1..], lLen, c, c == 0, exceeded || Overflows(ws[0], lLen, cursor)).text + tail
    requires Words(rest) == ws[1..] + Words(tail)
    ensures Words(Wrap(ws, lLen, cursor, first, exceeded).text + tail) == ws + Words(tail)
  {
    var piece := Piece(ws[0], lLen, cursor, first);
    assert Wrap(ws, lLen, cursor, first, exceeded).text + tail == piece + rest;
    PieceWords(ws[0], lLen, cursor, first, rest);
    assert ws + Words(tail) == [ws[0]] + (ws[1..] + Words(tail));
  }

  lemma {:induction false} WordEndSpec(s: string, i: nat)
    requires i <= |s|
    ensures forall k :: i <= k < WordEnd(s, i) ==> !IsSpace(s[k])
    decreases |s| - i
  {
    if i < |s| && !IsSpace(s[i]) {
      WordEndSpec(s, i + 1);
    }
  }

  /** Every word str.split() returns is non-empty and has no whitespace. */
  lemma {:induction false} WordsPlain(s: string, i: nat)
    requires i <= |s|
    ensures forall k :: 0 <= k < |WordsFrom(s, i)| ==> Plain(WordsFrom(s, i)[k])
    decreases |s| - i
  {
    var a := SkipFront(s, i);
    if a < |s| {
      SkipFrontSpec(s, i);
      var b := WordEnd(s, a + 1);
      WordEndSpec(s, a + 1);
      assert Plain(s[a..b]);
      WordsPlain(s, b);
    }
  }

  /** save keeps the words of a string value, in order, however it wraps them. */
  lemma {:induction false} WriteTextWords(s: string, lLen: nat)
    ensures Words(WriteText(s, lLen)) == Words(s)
  {
    var w := Wrap(Words(s), lLen, 0, true, false);
    var e1: string := if w.cursor != 0 || Words(s) == [] then "\n" else "";
    var e2: string := if w.exceeded then "\n" else "";
    assert WriteText(s, lLen) == w.text + (e1 + e2);
    WordsPlain(s, 0);
    WrapWords(Words(s), lLen, 0, true, false, e1 + e2);
    assert Blanks(e1 + e2);
    WordsFromBlanks("", e1 + e2, 0);
    assert "" + (e1 + e2) == e1 + e2;
  }

  /** A wrap that ends at the start of a line broke a line somewhere. */
  lemma {:induction false} WrapBroke(ws: seq<string>, lLen: nat, cursor: nat, first: bool, exceeded: bool)
    requires ws != [] && Wrap(ws, lLen, cursor, first, exceeded).cursor == 0
    ensures Wrap(ws, lLen, cursor, first, exceeded).exceeded
  {
    var c := Advance(ws[0], lLen, cursor);
    var e := exceeded || Overflows(ws[0], lLen, cursor);
    if ws[1..] != [] {
      WrapBroke(ws[1..], lLen, c, c == 0, e);
    }
  }

  /** save ends the line of every string value it writes. */
  lemma {:induction false} TextEnded(s: string, lLen: nat)
    ensures var r := WriteText(s, lLen); |r| > 0 && r[|r| - 1] == '\n'
  {
    var w := Wrap(Words(s), lLen, 0, true, false);
    if w.cursor == 0 && Words(s) != [] {
      WrapBroke(Words(s), lLen, 0, true, false);
    }
  }

  /**
   * As written, a value of whitespace only writes nothing after `key = `, not
   * even the line end, so the next key of the file lands on the same line;
   * meant, the line is ended.
   */
  lemma {:induction false} OpenLine(s: string, lLen: nat)
    requires |s| > 0 && Blanks(s)
    ensures WriteTextAsWritten(s, lLen) == ""
    ensures WriteText(s, lLen) == "\n"
  {
    WordsFromBlanks("", s, 0);
    assert "" + s == s;
  }

  // ------------------------------------------------- save, then load again

  /**
   * A key or a value that one line of the file carries back unchanged: one
   * word, with no comment marker, quote or '=', that opens neither a header
   * nor a list.
   */
  predicate Bare(w: string)
  {
    Plain(w) && Quoteless(w) && ';' !in w && '#' !in w && '=' !in w && w[0] != '['
  }

  /** A dictionary of one-word strings, each short enough for save to keep it on one line. */
  predicate FlatWords(t: seq<Entry>)
  {
    forall i :: 0 <= i < |t| ==>
      t[i].val.Text? && Bare(t[i].key) && Bare(t[i].val.s) && |t[i].key| + |t[i].val.s| < 76
  }

  /** The line save writes for `k = w`: the word is followed by a space, then the line end. */
  function AssignmentLine(k: string, w: string): string
  {
    k + " = " + w + " \n"
  }

  /** The lines of a flat dictionary of words, one assignment per entry. */
  function FlatLines(t: seq<Entry>): (r: seq<string>)
    requires FlatWords(t)
    ensures |r| == |t|
  {
    if t == [] then [] else [AssignmentLine(t[0].key, t[0].val.s)] + FlatLines(t[1..])
  }

  lemma {:induction false} FlatLinesAt(t: seq<Entry>)
    requires FlatWords(t)
    ensures |FlatLines(t)| == |t|
    ensures forall i :: 0 <= i < |t| ==> FlatLines(t)[i] == AssignmentLine(t[i].key, t[i].val.s)
  {
    if t != [] {
      FlatLinesAt(t[1..]);
    }
  }

  /** A word short enough for its line is written with one space and the line end after it. */
  lemma OneWord(w: string, lLen: nat)
    requires Plain(w) && |w| + 1 + lLen < 80
    ensures WriteText(w, lLen) == w + " \n"
  {
    WordEndPlain(w, [], 1);
    assert w + [] == w;
    WordsFromAt(w, 0, 0, |w|);
    assert w[0..|w|] == w;
    assert Words(w) == [w];
    assert !Overflows(w, lLen, 0);
    assert Piece(w, lLen, 0, true) == w + " ";
    assert [w][1..] == [];
    assert Advance(w, lLen, 0) == |w| + 1;
    assert Wrap([], lLen, |w| + 1, false, false) == Wrapped("", |w| + 1, false);
    assert (w + " ") + "" == w + " ";
    assert Wrap([w], lLen, 0, true, false) == Wrapped(w + " ", |w| + 1, false);
  }

  /** save writes a flat dictionary of words as its assignment lines, in order. */
  lemma {:induction false} SaveFlat(t: seq<Entry>, another: bool, o: Opts)
    requires FlatWords(t) && forall i :: 0 <= i < |t| ==> t[i].key !in o.comments
    ensures WriteTable(t, 0, another, o) == Written(Concat(FlatLines(t)), another)
  {
    if t != [] {
      var k, w := t[0].key, t[0].val.s;
      var assign := "" + k + " = ";
      OneWord(w, |assign|);
      assert WriteEntry(t[0], 0, another, o) == Written(AssignmentLine(k, w), another);
      SaveFlat(t[1..], another, o);
      assert ([AssignmentLine(k, w)] + FlatLines(t[1..]))[1..] == FlatLines(t[1..]);
    }
  }

  /** A dictionary extended by a key it does not hold gets that key last. */
  lemma {:induction false} PutNew(t: seq<Entry>, k: string, v: Value)
    requires k !in KeysOf(t)
    ensures Put(t, k, v) == t + [Entry(k, v)]
  {
    if t != [] {
      assert KeysOf(t) == [t[0].key] + KeysOf(t[1..]);
      PutNew(t[1..], k, v);
    }
  }

  lemma {:induction false} KeysOfAt(t: seq<Entry>)
    ensures |KeysOf(t)| == |t|
    ensures forall i :: 0 <= i < |t| ==> KeysOf(t)[i] == t[i].key
  {
    if t != [] {
      KeysOfAt(t[1..]);
    }
  }

  /** strip() of a word between m and n whitespace characters is the word. */
  lemma StripAround(s: string, m: nat, n: nat)
    requires m + n < |s| && !IsSpace(s[m]) && !IsSpace(s[|s| - n - 1])
    requires forall i :: 0 <= i < m ==> IsSpace(s[i])
    requires forall i :: |s| - n <= i < |s| ==> IsSpace(s[i])
    ensures Strip(s) == s[m..|s| - n]
  {
    SkipFrontSpec(s, 0);
    SkipBackSpec(s, m, |s|);
  }

  /** The reader between the lines of a flat dictionary: d read so far, at the top level. */
  predicate Settled(st: Reader, d: seq<Entry>)
  {
    st.dict == d && st.scope == [] && st.bracket == 0 && !st.inQuote
  }

  /** The parts of an assignment line as the reader cuts them. */
  lemma AssignmentParts(k: string, w: string)
    requires Bare(k) && Bare(w)
    ensures var line := AssignmentLine(k, w);
      TrimComments(line, false) == line && Strip(line) == k + " = " + w
      && Find(line, "=") == |k| + 1 && Level(line) == 0
      && Strip(Slice(line, 0, |k| + 1)) == k && Strip(Slice(line, |k| + 2, |line|)) == w
  {
    var line := AssignmentLine(k, w);
    TrimAtSpec(line, ';', false);
    TrimAtSpec(line, '#', false);
    StripLine(k, w);
    FindEquals(k, w);
    KeyPart(k, w);
    ValuePart(k, w);
    assert LeadFrom(line, 0) == 0;
    assert line[..0] == [];
  }

  lemma StripLine(k: string, w: string)
    requires Bare(k) && Bare(w)
    ensures Strip(AssignmentLine(k, w)) == k + " = " + w
  {
    var line := AssignmentLine(k, w);
    StripAround(line, 0, 2);
    assert line[0..|line| - 2] == k + " = " + w;
  }

  lemma FindEquals(k: string, w: string)
    requires Bare(k)
    ensures Find(AssignmentLine(k, w), "=") == |k| + 1
  {
    var line := AssignmentLine(k, w);
    forall i | 0 <= i < |k| + 1
      ensures line[i] != '='
    {
      if i < |k| {
        assert line[i] == k[i];
      }
    }
    FindCharAt(line, '=', |k| + 1);
    assert "=" == ['='];
  }

  lemma KeyPart(k: string, w: string)
    requires Bare(k)
    ensures Strip(Slice(AssignmentLine(k, w), 0, |k| + 1)) == k
  {
    assert Slice(AssignmentLine(k, w), 0, |k| + 1) == k + " ";
    StripAround(k + " ", 0, 1);
    assert (k + " ")[0..|k|] == k;
  }

  lemma ValuePart(k: string, w: string)
    requires Bare(w)
    ensures var line := AssignmentLine(k, w); Strip(Slice(line, |k| + 2, |line|)) == w
  {
    var line := AssignmentLine(k, w);
    var v := " " + w + " \n";
    assert Slice(line, |k| + 2, |line|) == v;
    StripAround(v, 1, 2);
    assert v[1..|v| - 2] == w;
  }

  /** The assignment of a word to a new key at the top level appends the key. */
  lemma AssignWord(st: Reader, k: string, w: string)
    requires Settled(st, st.dict) && Bare(w) && k !in KeysOf(st.dict)
    ensures AssignStep(st, k, w, 0).Ok?
    ensures Settled(AssignStep(st, k, w, 0).value, st.dict + [Entry(k, Text(w))])
  {
    assert CountChar(w, '\'') == 0 && CountChar(w, '"') == 0;
    PutNew(st.dict, k, Text(w));
  }

  /** load reads the assignment line of a new key back into that key. */
  lemma ReadAssignment(st: Reader, line: string, k: string, w: string, ignoreDepth: bool)
    requires Settled(st, st.dict) && Bare(k) && Bare(w) && k !in KeysOf(st.dict)
    requires line == AssignmentLine(k, w)
    ensures Step(st, line, ignoreDepth).Ok?
    ensures Settled(Step(st, line, ignoreDepth).value, st.dict + [Entry(k, Text(w))])
  {
    AssignmentParts(k, w);
    var s := Strip(line);
    assert s[0] == k[0];
    StepIs(st, line, ignoreDepth, line, s);
    AssignWord(st.(lineNo := st.lineNo + 1), k, w);
  }

  /** load over the first i lines of a flat dictionary of words has read its first i entries. */
  lemma {:induction false} RunFlat(t: seq<Entry>, i: nat, ignoreDepth: bool)
    requires FlatWords(t) && UniqueKeys(t) && i <= |t|
    ensures Run(FlatLines(t)[..i], ignoreDepth).Ok?
    ensures Settled(Run(FlatLines(t)[..i], ignoreDepth).value, t[..i])
  {
    if i == 0 {
      assert FlatLines(t)[..0] == [];
    } else {
      RunFlat(t, i - 1, ignoreDepth);
      RunFlatStep(t, i - 1, ignoreDepth);
    }
  }

  lemma RunFlatStep(t: seq<Entry>, i: nat, ignoreDepth: bool)
    requires FlatWords(t) && UniqueKeys(t) && i < |t|
    requires Run(FlatLines(t)[..i], ignoreDepth).Ok?
    requires Settled(Run(FlatLines(t)[..i], ignoreDepth).value, t[..i])
    ensures Run(FlatLines(t)[..i + 1], ignoreDepth).Ok?
    ensures Settled(Run(FlatLines(t)[..i + 1], ignoreDepth).value, t[..i + 1])
  {
    var lines := FlatLines(t);
    var st := Run(lines[..i], ignoreDepth).value;
    StepFlat(t, i, ignoreDepth, st);
    RunExtend(lines, i, ignoreDepth, st, Step(st, lines[i], ignoreDepth).value);
  }

  /** The line of entry i, read after the entries before it, adds that entry. */
  lemma StepFlat(t: seq<Entry>, i: nat, ignoreDepth: bool, st: Reader)
    requires FlatWords(t) && UniqueKeys(t) && i < |t| && Settled(st, t[..i])
    ensures Step(st, FlatLines(t)[i], ignoreDepth).Ok?
    ensures Settled(Step(st, FlatLines(t)[i], ignoreDepth).value, t[..i + 1])
  {
    var e := t[i];
    FlatLineAt(t, i);
    NewKey(t, i);
    ReadAssignment(st, FlatLines(t)[i], e.key, e.val.s, ignoreDepth);
    TakeOne(t, i);
  }

  lemma TakeOne(t: seq<Entry>, i: nat)
    requires i < |t| && t[i].val.Text?
    ensures t[..i] + [Entry(t[i].key, Text(t[i].val.s))] == t[..i + 1]
  {
  }

  /** A successful step extends a successful run by one line. */
  lemma RunExtend(lines: seq<string>, i: nat, ignoreDepth: bool, st: Reader, st': Reader)
    requires i < |lines| && Run(lines[..i], ignoreDepth) == Ok(st) && Step(st, lines[i], ignoreDepth) == Ok(st')
    ensures Run(lines[..i + 1], ignoreDepth) == Ok(st')
  {
    RunNext(lines, i, ignoreDepth);
  }

  lemma FlatLineAt(t: seq<Entry>, i: nat)
    requires FlatWords(t) && i < |t|
    ensures FlatLines(t)[i] == AssignmentLine(t[i].key, t[i].val.s)
  {
    FlatLinesAt(t);
  }

  /** With unique keys, no entry's key is among the keys before it. */
  lemma NewKey(t: seq<Entry>, i: nat)
    requires UniqueKeys(t) && i < |t|
    ensures t[i].key !in KeysOf(t[..i])
  {
    KeysOfAt(t[..i]);
  }

  /** One line as readlines() returns it: the only line break is the last character. */
  predicate OneLine(l: string)
  {
    |l| > 0 && l[|l| - 1] == '\n' && '\n' !in l[..|l| - 1]
  }

  lemma AssignmentOneLine(k: string, w: string)
    requires Plain(k) && Plain(w)
    ensures OneLine(AssignmentLine(k, w))
  {
    var l := AssignmentLine(k, w);
    assert l[..|l| - 1] == k + " = " + w + " ";
    assert IsSpace('\n');
  }

  /**
   * save, then load: a flat dictionary of one-word strings is written as one
   * assignment line per entry, in order, each ended by its only line break
   * (so these are the lines load is given), and load reads the lines back
   * into the same dictionary.
   */
  lemma SaveLoad(t: seq<Entry>, o: Opts)
    requires FlatWords(t) && UniqueKeys(t) && forall i :: 0 <= i < |t| ==> t[i].key !in o.comments
    ensures WriteTable(t, 0, false, o).text == Concat(FlatLines(t))
    ensures forall i :: 0 <= i < |FlatLines(t)| ==> OneLine(FlatLines(t)[i])
    ensures LoadAll(FlatLines(t), o.ignoreDepth) == Ok(t)
  {
    SaveFlat(t, false, o);
    FlatLinesAt(t);
    forall i | 0 <= i < |FlatLines(t)|
      ensures OneLine(FlatLines(t)[i])
    {
      AssignmentOneLine(t[i].key, t[i].val.s);
    }
    RunFlat(t, |t|, o.ignoreDepth);
    assert FlatLines(t)[..|t|] == FlatLines(t);
    assert t[..|t|] == t;
  }

  // --------------------------------------------------------------- fields

  /** fieldSearch: every key holding a string or a list, depth first in key order. */
  function Fields(t: seq<Entry>): seq<string>
    decreases t
  {
    if t == [] then []
    else (if t[0].val.Table? then Fields(t[0].val.entries) else [t[0].key]) + Fields(t[1..])
  }

  /** No two entries of one dictionary share a key, as in a Python dict. */
  predicate UniqueKeys(t: seq<Entry>)
  {
    forall i, j :: 0 <= i < j < |t| ==> t[i].key != t[j].key
  }

  /** Keys are unique in the dictionary and in every nested one. */
  predicate WellKeyed(t: seq<Entry>)
    decreases t
  {
    UniqueKeys(t) && forall i :: 0 <= i < |t| ==> t[i].val.Table? ==> WellKeyed(t[i].val.entries)
  }

  /** The loop of fieldSearch, recursing into nested dictionaries. */
  method FieldSearch(t: seq<Entry>, fields: seq<string>) returns (r: seq<string>)
    ensures r == fields + Fields(t)
    decreases t
  {
    r := fields;
    assert t[0..] == t;
    for i := 0 to |t|
      invariant r + Fields(t[i..]) == fields + Fields(t)
    {
      ghost var was := r;
      if t[i].val.Table? {
        r := FieldSearch(t[i].val.entries, r);
      } else {
        r := r + [t[i].key];
      }
      FieldStep(t, i, was, r);
    }
    assert t[|t|..] == [];
  }

  lemma FieldStep(t: seq<Entry>, i: nat, was: seq<string>, r: seq<string>)
    requires i < |t|
    requires r == was + (if t[i].val.Table? then Fields(t[i].val.entries) else [t[i].key])
    ensures r + Fields(t[i + 1..]) == was + Fields(t[i..])
  {
    var h := if t[i].val.Table? then Fields(t[i].val.entries) else [t[i].key];
    assert t[i..][0] == t[i] && t[i..][1..] == t[i + 1..];
    assert Fields(t[i..]) == h + Fields(t[i + 1..]);
    assert was + (h + Fields(t[i + 1..])) == (was + h) + Fields(t[i + 1..]);
  }

  /** getAllFields. */
  method GetAllFields(data: seq<Entry>) returns (r: seq<string>)
    ensures r == Fields(data)
  {
    r := FieldSearch(data, []);
  }

  /** The entry d.get(k) finds is one of the dictionary's entries, at index i. */
  lemma {:induction false} GetFound(t: seq<Entry>, k: string) returns (i: nat)
    requires Get(t, k).Some?
    ensures i < |t| && t[i] == Entry(k, Get(t, k).value)
  {
    if t[0].key == k {
      i := 0;
    } else {
      var j := GetFound(t[1..], k);
      i := j + 1;
      assert t[i] == t[1..][j];
    }
  }

  /** The fields of an entry are among the fields of its dictionary. */
  lemma {:induction false} FieldsIndex(t: seq<Entry>, i: nat)
    requires i < |t|
    ensures !t[i].val.Table? ==> t[i].key in Fields(t)
    ensures t[i].val.Table? ==> forall k :: k in Fields(t[i].val.entries) ==> k in Fields(t)
  {
    if i > 0 {
      assert t[1..][i - 1] == t[i];
      FieldsIndex(t[1..], i - 1);
    }
  }

  /** Every key the path search reaches holding a string or a list is a field. */
  lemma {:induction false} FieldsComplete(t: seq<Entry>, path: seq<string>, k: string)
    requires At(t, path + [k]).Some? && !At(t, path + [k]).value.Table?
    ensures k in Fields(t)
    decreases |path|
  {
    var q := path + [k];
    assert q[0] == (if path == [] then k else path[0]);
    var i := GetFound(t, q[0]);
    FieldsIndex(t, i);
    if path != [] {
      assert q[1..] == path[1..] + [k];
      FieldsComplete(t[i].val.entries, path[1..], k);
    }
  }

  /** Where keys are unique, every field is reached by some path of dictionary keys. */
  lemma {:induction false} FieldsSound(t: seq<Entry>, k: string) returns (path: seq<string>)
    requires WellKeyed(t) && k in Fields(t)
    ensures At(t, path + [k]).Some? && !At(t, path + [k]).value.Table?
    decreases t
  {
    var head := if t[0].val.Table? then Fields(t[0].val.entries) else [t[0].key];
    assert Fields(t) == head + Fields(t[1..]);
    if k in head {
      if t[0].val.Table? {
        var p := FieldsSound(t[0].val.entries, k);
        path := [t[0].key] + p;
        SoundHead(t, p, k);
      } else {
        path := [];
        assert At(t, [] + [k]) == Get(t, k);
      }
    } else {
      var u := t[1..];
      TailKeyed(t);
      path := FieldsSound(u, k);
      SoundTail(t, path, k);
    }
  }

  /** A path found in the first entry's dictionary, behind that entry's key. */
  lemma SoundHead(t: seq<Entry>, p: seq<string>, k: string)
    requires t != [] && t[0].val.Table?
    requires At(t[0].val.entries, p + [k]).Some? && !At(t[0].val.entries, p + [k]).value.Table?
    ensures At(t, [t[0].key] + p + [k]).Some? && !At(t, [t[0].key] + p + [k]).value.Table?
  {
    var q := [t[0].key] + p + [k];
    assert q[0] == t[0].key && q[1..] == p + [k];
  }

  /** The rest of a well-keyed dictionary is well keyed. */
  lemma TailKeyed(t: seq<Entry>)
    requires t != [] && WellKeyed(t)
    ensures WellKeyed(t[1..])
  {
    var u := t[1..];
    forall a, b | 0 <= a < b < |u| ensures u[a].key != u[b].key {
      assert u[a] == t[a + 1] && u[b] == t[b + 1];
    }
    forall a | 0 <= a < |u| && u[a].val.Table? ensures WellKeyed(u[a].val.entries) {
      assert u[a] == t[a + 1];
    }
  }

  /** Where keys are unique, a path found after the first entry is found in the whole dictionary. */
  lemma SoundTail(t: seq<Entry>, p: seq<string>, k: string)
    requires t != [] && UniqueKeys(t)
    requires At(t[1..], p + [k]).Some? && !At(t[1..], p + [k]).value.Table?
    ensures At(t, p + [k]) == At(t[1..], p + [k])
  {
    var u := t[1..];
    var q := p + [k];
    var j := GetFound(u, q[0]);
    assert u[j] == t[j + 1];
  }
}
