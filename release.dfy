// The version-bump rule of Block.release: an explicit three-part version must
// be higher than the highest tag, the words major/minor/patch increment one
// part of the highest tag, anything else is refused; the accepted version is
// lower-cased and given a leading 'v'.
module Release {
  import opened Strings
  import opened Version

  /** The lower-casing and 'v' prefix release applies to the accepted version. */
  function Normalise(v: string): (r: string)
    ensures |r| > 0 && r[0] == 'v'
  {
    var l := Lower(v);
    if |l| > 0 && l[0] == 'v' then l else "v" + l
  }

  /** The version a bump word gives from the highest tag, if it is one. */
  function Increment(word: string, h: Ver): Option<Ver>
  {
    var w := Lower(word);
    if w == "major" then Some(Ver(h.major + 1, 0, 0))
    else if w == "minor" then Some(Ver(h.major, h.minor + 1, 0))
    else if w == "patch" then Some(Ver(h.major, h.minor, h.patch + 1))
    else None
  }

  /**
   * The release point as written: an explicit version is compared with the
   * highest tag before it is lower-cased.
   */
  function NextVersionAsWritten(nextVer: string, highest: string): Option<string>
  {
    if ValidVer(nextVer, [3]) then
      if CmpVer(nextVer, highest) == highest then None else Some(Normalise(nextVer))
    else match Increment(nextVer, SepVer(highest))
      case None => None
      case Some(v) => Some(Normalise(Format(v)))
  }

  /**
   * The release point, with the explicit version lower-cased and 'v'-prefixed
   * before it is compared, as it will be stored.
   */
  function NextVersion(nextVer: string, highest: string): Option<string>
  {
    if ValidVer(nextVer, [3]) then
      var n := Normalise(nextVer);
      if CmpVer(n, highest) == highest then None else Some(n)
    else match Increment(nextVer, SepVer(highest))
      case None => None
      case Some(v) => Some(Normalise(Format(v)))
  }

  /** A formatted version has no upper-case letter, so release keeps it as it is. */
  lemma NormaliseFormat(v: Ver)
    ensures Normalise(Format(v)) == Format(v)
  {
    var f := Format(v);
    NoUpperInt(v.major);
    NoUpperInt(v.minor);
    NoUpperInt(v.patch);
    assert f == "v" + IntToString(v.major) + "." + IntToString(v.minor) + "." + IntToString(v.patch);
    assert forall i :: 0 <= i < |f| ==> !IsUpper(f[i]);
    LowerFixed(f);
  }

  lemma NoUpperInt(n: int)
    ensures forall i :: 0 <= i < |IntToString(n)| ==> !IsUpper(IntToString(n)[i])
  {
    var d := NatToString(if n < 0 then -n else n);
    assert forall i :: 0 <= i < |d| ==> IsDigit(d[i]);
  }

  /** The three bump words, in terms of the highest tag's parts. */
  lemma BumpWords(word: string, highest: string)
    requires !ValidVer(word, [3])
    ensures var h := SepVer(highest);
      (Lower(word) == "major" ==> NextVersion(word, highest) == Some(Format(Ver(h.major + 1, 0, 0))))
      && (Lower(word) == "minor" ==> NextVersion(word, highest) == Some(Format(Ver(h.major, h.minor + 1, 0))))
      && (Lower(word) == "patch" ==> NextVersion(word, highest) == Some(Format(Ver(h.major, h.minor, h.patch + 1))))
      && (Lower(word) !in ["major", "minor", "patch"] ==> NextVersion(word, highest) == None)
  {
    BumpFormat(word, highest);
  }

  /** A word that is no version releases the formatted increment, if any. */
  lemma BumpFormat(word: string, highest: string)
    requires !ValidVer(word, [3])
    ensures var i := Increment(word, SepVer(highest));
      NextVersion(word, highest) == if i.None? then None else Some(Format(i.value))
  {
    var i := Increment(word, SepVer(highest));
    if i.Some? {
      NormaliseFormat(i.value);
    }
  }

  /** An explicit version is refused exactly when it is not above the highest tag. */
  lemma ExplicitVersion(nextVer: string, highest: string)
    requires ValidVer(nextVer, [3])
    ensures NextVersion(nextVer, highest) == None <==> VerLe(SepVer(Normalise(nextVer)), SepVer(highest))
    ensures NextVersion(nextVer, highest) != None ==> NextVersion(nextVer, highest) == Some(Normalise(nextVer))
  {
    CmpVerRight(Normalise(nextVer), highest);
  }

  /** Whatever release accepts is strictly above the highest tag. */
  lemma NextVersionHigher(nextVer: string, highest: string)
    requires NextVersion(nextVer, highest).Some?
    ensures VerLt(SepVer(highest), SepVer(NextVersion(nextVer, highest).value))
  {
    if ValidVer(nextVer, [3]) {
      ComparedHigher(Normalise(nextVer), highest);
    } else {
      IncrementHigher(nextVer, SepVer(highest));
    }
  }

  /** A version cmpVer prefers over the highest tag is above it. */
  lemma ComparedHigher(n: string, highest: string)
    requires CmpVer(n, highest) != highest
    ensures VerLt(SepVer(highest), SepVer(n))
  {
    CmpVerRight(n, highest);
    VerLeTotal(SepVer(n), SepVer(highest));
  }

  /** A bump word's version, formatted and read back, is above the tag it bumps. */
  lemma IncrementHigher(word: string, h: Ver)
    requires Increment(word, h).Some?
    ensures VerLt(h, SepVer(Normalise(Format(Increment(word, h).value))))
  {
    var v := Increment(word, h).value;
    IncrementAbove(word, h);
    NormaliseFormat(v);
    SepVerFormat(v);
    assert SepVer(Normalise(Format(v))) == v;
  }

  /** Each bump word increments one part and zeroes those below it. */
  lemma IncrementAbove(word: string, h: Ver)
    requires Increment(word, h).Some?
    ensures VerLt(h, Increment(word, h).value)
  {
  }

  /**
   * As written, a valid version with an upper-case 'V' is read with major part
   * 0 before it is lower-cased, so it is refused whenever the highest tag has a
   * non-zero major part, however high it is.
   */
  lemma UpperVRefused(nextVer: string, highest: string)
    requires ValidVer(nextVer, [3]) && |nextVer| > 0 && nextVer[0] == 'V'
    requires SepVer(highest).major > 0
    ensures NextVersionAsWritten(nextVer, highest) == None
  {
    ValidVerUpperV(nextVer);
    CmpVerRight(nextVer, highest);
  }

  /** A formatted version written with an upper-case 'V', such as "V2.0.0". */
  function UpperForm(v: Ver): (r: string)
    ensures |r| > 0 && r[0] == 'V'
  {
    "V" + IntToString(v.major) + "." + IntToString(v.minor) + "." + IntToString(v.patch)
  }

  /**
   * The two readings disagree on every version written with 'V' above a tag
   * whose major part is not 0, for example "V2.0.0" above "v1.0.0": as
   * written it is refused, lower-cased first it becomes the release point.
   */
  lemma UpperVDisagree(v: Ver, h: Ver)
    requires v.major >= 0 && v.minor >= 0 && v.patch >= 0
    requires h.major > 0 && VerLt(h, v)
    ensures NextVersionAsWritten(UpperForm(v), Format(h)) == None
    ensures NextVersion(UpperForm(v), Format(h)) == Some(Format(v))
  {
    SepVerFormat(h);
    UpperFormValid(v);
    UpperVRefused(UpperForm(v), Format(h));
    NormaliseUpper(v);
    SepVerFormat(v);
    CmpVerRight(Format(v), Format(h));
  }

  lemma NormaliseUpper(v: Ver)
    ensures Normalise(UpperForm(v)) == Format(v)
  {
    var t := IntToString(v.major) + "." + IntToString(v.minor) + "." + IntToString(v.patch);
    NoUpperInt(v.major);
    NoUpperInt(v.minor);
    NoUpperInt(v.patch);
    assert UpperForm(v) == "V" + t && Format(v) == "v" + t;
    assert forall i :: 0 <= i < |t| ==> !IsUpper(t[i]);
    LowerFixed(t);
    LowerConcat("V", t);
  }

  lemma UpperFormValid(v: Ver)
    requires v.major >= 0 && v.minor >= 0 && v.patch >= 0
    ensures ValidVer(UpperForm(v), [3])
  {
    var a, b, c := IntToString(v.major), IntToString(v.minor), IntToString(v.patch);
    NoDotInInt(v.major);
    NoDotInInt(v.minor);
    NoDotInInt(v.patch);
    var f := UpperForm(v);
    assert '_' !in f && f[|f| - 1] == c[|c| - 1];
    StdVerFixed(f);
    JoinThree("V" + a, b, c);
    assert f == Join(["V" + a, b, c], ".");
    assert '.' !in "V" + a;
    JoinSplit(["V" + a, b, c], '.');
    assert StripV("V" + a) == a;
  }
}
