/** The pattern that `validate_version_format` matches first
    (scripts/version_checker.py:119), anchored at both ends: three digit runs
    separated by `.`, then optionally `-` and a non-empty run over letters,
    digits, `-` and `.`, then optionally `+` and another such run. It is
    written here as a scanner over the three runs and the two suffixes.
    Neither character class contains the character that follows it in the
    pattern (`.` after a digit run, `+` or the end after the pre-release, the
    end after the build metadata), so taking each run as long as possible is
    exactly how the regular expression matches. */
module VersionSyntax {
  import opened Wrappers
  import opened PyText

  /** The parts of a version the pattern captures: three digit runs (leading
      zeros kept) and the optional pre-release and build metadata texts. */
  datatype Version = Version(
    major: string, minor: string, patch: string,
    pre: Option<string>, build: Option<string>)

  predicate WellFormedPart(p: Option<string>) {
    p.None? || (|p.value| > 0 && AllIn(p.value, Identifiers))
  }

  /** A version the pattern can describe. */
  predicate WellFormed(v: Version) {
    |v.major| > 0 && AllIn(v.major, Digits) &&
    |v.minor| > 0 && AllIn(v.minor, Digits) &&
    |v.patch| > 0 && AllIn(v.patch, Digits) &&
    WellFormedPart(v.pre) && WellFormedPart(v.build)
  }

  function Marked(mark: char, p: Option<string>): string {
    match p
    case None => ""
    case Some(text) => [mark] + text
  }

  /** The text of a version: `X.Y.Z`, then `-pre` and `+build` when present. */
  function Render(v: Version): string {
    v.major + ("." + (v.minor + ("." + (v.patch + (Marked('-', v.pre) + Marked('+', v.build))))))
  }

  /** Length of the longest prefix of `s` inside the class `cls`. */
  function Lead(s: string, cls: CharClass): (n: nat)
    ensures n <= |s| && AllIn(s[..n], cls)
    ensures n == |s| || !InClass(s[n], cls)
  {
    if s == [] || !InClass(s[0], cls) then 0
    else
      var n := 1 + Lead(s[1..], cls);
      assert s[..n] == [s[0]] + s[1..][..n - 1];
      n
  }

  lemma LeadOf(x: string, y: string, cls: CharClass)
    requires AllIn(x, cls)
    requires y == [] || !InClass(y[0], cls)
    ensures Lead(x + y, cls) == |x|
  {
    var s := x + y;
    var n := Lead(s, cls);
    assert forall k :: 0 <= k < n ==> InClass(s[k], cls) by {
      forall k | 0 <= k < n ensures InClass(s[k], cls) { assert s[..n][k] == s[k]; }
    }
    assert forall k :: 0 <= k < |x| ==> s[k] == x[k];
    assert y != [] ==> s[|x|] == y[0];
  }

  /** The build metadata part: empty, or `+` and a non-empty run to the end. */
  function ParseBuild(t: string): Option<Option<string>> {
    if t == [] then Some(None)
    else if t[0] == '+' && |t| > 1 && Lead(t[1..], Identifiers) == |t| - 1 then Some(Some(t[1..]))
    else None
  }

  /** The two optional suffixes that follow the patch number. */
  function ParseSuffixes(t: string): Option<(Option<string>, Option<string>)> {
    if t != [] && t[0] == '-' then
      var n := Lead(t[1..], Identifiers);
      if n == 0 then None
      else
        match ParseBuild(t[1..][n..])
        case None => None
        case Some(build) => Some((Some(t[1..][..n]), build))
    else
      match ParseBuild(t)
      case None => None
      case Some(build) => Some((None, build))
  }

  /** A non-empty digit run at the front of `s`, and what follows it. */
  function DigitRun(s: string): Option<(string, string)> {
    var n := Lead(s, Digits);
    if n == 0 then None else Some((s[..n], s[n..]))
  }

  /** A non-empty digit run at the front of `s` closed by a `.`, and what follows the `.`. */
  function DottedRun(s: string): Option<(string, string)> {
    match DigitRun(s)
    case Some((run, rest)) =>
      if rest != [] && rest[0] == '.' then Some((run, rest[1..])) else None
    case None => None
  }

  /** Whether `s` matches the pattern, with what it captures. */
  function Parse(s: string): Option<Version> {
    match DottedRun(s)
    case None => None
    case Some((major, rest)) => ParseAfterMajor(major, rest)
  }

  function ParseAfterMajor(major: string, s: string): Option<Version> {
    match DottedRun(s)
    case None => None
    case Some((minor, rest)) => ParseAfterMinor(major, minor, rest)
  }

  function ParseAfterMinor(major: string, minor: string, s: string): Option<Version> {
    match DigitRun(s)
    case None => None
    case Some((patch, tail)) =>
      match ParseSuffixes(tail)
      case None => None
      case Some((pre, build)) => Some(Version(major, minor, patch, pre, build))
  }

  // ---------------------------------------------------------------------
  // Parse and Render are inverse to each other

  lemma ParseBuildSound(t: string)
    requires ParseBuild(t).Some?
    ensures WellFormedPart(ParseBuild(t).value)
    ensures Marked('+', ParseBuild(t).value) == t
  {
    if t != [] {
      assert t[1..][..|t| - 1] == t[1..];
      assert t == ['+'] + t[1..];
    }
  }

  lemma ParseSuffixesSound(t: string)
    requires ParseSuffixes(t).Some?
    ensures WellFormedPart(ParseSuffixes(t).value.0) && WellFormedPart(ParseSuffixes(t).value.1)
    ensures Marked('-', ParseSuffixes(t).value.0) + Marked('+', ParseSuffixes(t).value.1) == t
  {
    if t != [] && t[0] == '-' {
      var n := Lead(t[1..], Identifiers);
      ParseBuildSound(t[1..][n..]);
      assert t == ['-'] + t[1..][..n] + t[1..][n..];
    } else {
      ParseBuildSound(t);
    }
  }

  lemma DigitRunSound(s: string)
    requires DigitRun(s).Some?
    ensures |DigitRun(s).value.0| > 0 && AllIn(DigitRun(s).value.0, Digits)
    ensures DigitRun(s).value.0 + DigitRun(s).value.1 == s
    ensures DigitRun(s).value.1 == [] || !IsDigit(DigitRun(s).value.1[0])
  {
    var n := Lead(s, Digits);
    assert s[..n] + s[n..] == s;
  }

  lemma DottedRunSound(s: string)
    requires DottedRun(s).Some?
    ensures |DottedRun(s).value.0| > 0 && AllIn(DottedRun(s).value.0, Digits)
    ensures DottedRun(s).value.0 + ("." + DottedRun(s).value.1) == s
  {
    DigitRunSound(s);
    var (run, rest) := DigitRun(s).value;
    assert rest == "." + rest[1..];
  }

  lemma ParseUnfold(s: string)
    requires DottedRun(s).Some?
    ensures Parse(s) == ParseAfterMajor(DottedRun(s).value.0, DottedRun(s).value.1)
  {
  }

  lemma ParseAfterMinorSound(major: string, minor: string, s: string)
    requires ParseAfterMinor(major, minor, s).Some?
    ensures var v := ParseAfterMinor(major, minor, s).value;
      v.major == major && v.minor == minor &&
      |v.patch| > 0 && AllIn(v.patch, Digits) && WellFormedPart(v.pre) && WellFormedPart(v.build) &&
      v.patch + (Marked('-', v.pre) + Marked('+', v.build)) == s
  {
    DigitRunSound(s);
    ParseSuffixesSound(DigitRun(s).value.1);
  }

  lemma ParseAfterMajorSound(major: string, s: string)
    requires ParseAfterMajor(major, s).Some?
    ensures var v := ParseAfterMajor(major, s).value;
      v.major == major && |v.minor| > 0 && AllIn(v.minor, Digits) &&
      |v.patch| > 0 && AllIn(v.patch, Digits) && WellFormedPart(v.pre) && WellFormedPart(v.build) &&
      v.minor + ("." + (v.patch + (Marked('-', v.pre) + Marked('+', v.build)))) == s
  {
    DottedRunSound(s);
    var (minor, rest) := DottedRun(s).value;
    ParseAfterMinorSound(major, minor, rest);
  }

  /** What the pattern accepts is the text of a well-formed version. */
  lemma ParseSound(s: string)
    requires Parse(s).Some?
    ensures WellFormed(Parse(s).value) && Render(Parse(s).value) == s
  {
    var major := DottedRun(s).value.0;
    var rest := DottedRun(s).value.1;
    ParseUnfold(s);
    DottedRunSound(s);
    ParseAfterMajorSound(major, rest);
  }

  lemma ParseBuildComplete(p: Option<string>)
    requires WellFormedPart(p)
    ensures ParseBuild(Marked('+', p)) == Some(p)
  {
    if p.Some? {
      var t := Marked('+', p);
      assert t[1..] == p.value;
      LeadOf(p.value, [], Identifiers);
      assert p.value + [] == p.value;
    }
  }

  lemma PreReleaseComplete(pre: string, rest: string)
    requires |pre| > 0 && AllIn(pre, Identifiers)
    requires rest == [] || rest[0] == '+'
    requires ParseBuild(rest).Some?
    ensures ParseSuffixes(['-'] + pre + rest) == Some((Some(pre), ParseBuild(rest).value))
  {
    var t := ['-'] + pre + rest;
    assert t[0] == '-' && t[1..] == pre + rest;
    LeadOf(pre, rest, Identifiers);
    assert (pre + rest)[|pre|..] == rest;
    assert (pre + rest)[..|pre|] == pre;
  }

  lemma ParseSuffixesComplete(pre: Option<string>, build: Option<string>)
    requires WellFormedPart(pre) && WellFormedPart(build)
    ensures ParseSuffixes(Marked('-', pre) + Marked('+', build)) == Some((pre, build))
  {
    var rest := Marked('+', build);
    ParseBuildComplete(build);
    assert rest == [] || rest[0] == '+';
    if pre.Some? {
      assert Marked('-', pre) + rest == ['-'] + pre.value + rest;
      PreReleaseComplete(pre.value, rest);
    } else {
      assert Marked('-', pre) + rest == rest;
    }
  }

  lemma DigitRunComplete(run: string, rest: string)
    requires |run| > 0 && AllIn(run, Digits)
    requires rest == [] || !IsDigit(rest[0])
    ensures DigitRun(run + rest) == Some((run, rest))
  {
    LeadOf(run, rest, Digits);
    assert (run + rest)[..|run|] == run && (run + rest)[|run|..] == rest;
  }

  lemma DottedRunComplete(run: string, rest: string)
    requires |run| > 0 && AllIn(run, Digits)
    ensures DottedRun(run + "." + rest) == Some((run, rest))
  {
    assert run + "." + rest == run + ("." + rest);
    DigitRunComplete(run, "." + rest);
    assert ("." + rest)[1..] == rest;
  }

  lemma ParseAfterMinorComplete(v: Version)
    requires WellFormed(v)
    ensures ParseAfterMinor(v.major, v.minor, v.patch + (Marked('-', v.pre) + Marked('+', v.build))) == Some(v)
  {
    var tail := Marked('-', v.pre) + Marked('+', v.build);
    ParseSuffixesComplete(v.pre, v.build);
    assert tail == [] || tail[0] == '-' || tail[0] == '+';
    DigitRunComplete(v.patch, tail);
  }

  lemma ParseAfterMajorComplete(v: Version)
    requires WellFormed(v)
    ensures ParseAfterMajor(v.major, v.minor + ("." + (v.patch + (Marked('-', v.pre) + Marked('+', v.build))))) == Some(v)
  {
    var s2 := v.patch + (Marked('-', v.pre) + Marked('+', v.build));
    assert v.minor + ("." + s2) == v.minor + "." + s2;
    DottedRunComplete(v.minor, s2);
    assert ParseAfterMajor(v.major, v.minor + ("." + s2)) == ParseAfterMinor(v.major, v.minor, s2);
    ParseAfterMinorComplete(v);
  }

  /** The pattern accepts the text of every well-formed version and captures its parts. */
  lemma ParseComplete(v: Version)
    requires WellFormed(v)
    ensures Parse(Render(v)) == Some(v)
  {
    var s1 := v.minor + ("." + (v.patch + (Marked('-', v.pre) + Marked('+', v.build))));
    assert Render(v) == v.major + ("." + s1);
    assert v.major + ("." + s1) == v.major + "." + s1;
    DottedRunComplete(v.major, s1);
    assert Parse(Render(v)) == ParseAfterMajor(v.major, s1);
    ParseAfterMajorComplete(v);
  }
}
