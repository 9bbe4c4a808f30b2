/** `validate_version_format` of scripts/version_checker.py: the pattern match
    of VersionSyntax followed by the numeric re-check, which splits the text on
    its first `-`, splits what comes before on `.`, and reads the first three
    fields with `int`. The re-check is where the function departs from the
    pattern: without a pre-release, build metadata ends up inside the third
    field, `int` refuses it, and the version is rejected. */
module VersionFormat {
  import opened Wrappers
  import opened PyText
  import opened VersionSyntax

  /** The inputs the model speaks for: ASCII text without a line feed. On
      other text Python's `\d` also takes non-ASCII digits and `$` also
      matches in front of a final line feed. */
  predicate PlainAscii(s: string) {
    forall k :: 0 <= k < |s| ==> s[k] < '\U{80}' && s[k] != '\n'
  }

  /** The re-check: take the text in front of the first `-`, split it on `.`,
      read the first three fields with `int` and test that none is negative.
      Every `ValueError` (a field `int` refuses, fewer than three fields)
      gives `false`. */
  function NumericCheck(version: string): bool {
    var parts := Split(Split(version, '-')[0], '.');
    if |parts| < 3 then false
    else
      match (PyInt(parts[0]), PyInt(parts[1]), PyInt(parts[2]))
      case (Some(major), Some(minor), Some(patch)) => major >= 0 && minor >= 0 && patch >= 0
      case _ => false
  }

  /** `validate_version_format(version)`. */
  function ValidateVersionFormat(version: string): bool
    requires PlainAscii(version)
  {
    Parse(version).Some? && NumericCheck(version)
  }

  // ---------------------------------------------------------------------
  // What the numeric re-check sees of a version text

  lemma NoMarkInDigits(d: string, mark: char)
    requires AllIn(d, Digits) && !IsDigit(mark)
    ensures mark !in d
  {
    assert forall k :: 0 <= k < |d| ==> d[k] != mark;
  }

  /** Text up to the first `-` of a version: the normal version, followed by
      `+` and the build metadata up to its first `-` when there is no pre-release. */
  lemma UpToDashOfRender(v: Version)
    requires WellFormed(v)
    ensures UpTo(Render(v), '-') ==
      v.major + ("." + (v.minor + ("." + (v.patch + UpTo(Marked('-', v.pre) + Marked('+', v.build), '-')))))
  {
    var tail := Marked('-', v.pre) + Marked('+', v.build);
    NoMarkInDigits(v.major, '-');
    NoMarkInDigits(v.minor, '-');
    NoMarkInDigits(v.patch, '-');
    UpToAppend(v.patch, tail, '-');
    UpToAppend(".", v.patch + tail, '-');
    UpToAppend(v.minor, "." + (v.patch + tail), '-');
    UpToAppend(".", v.minor + ("." + (v.patch + tail)), '-');
    UpToAppend(v.major, "." + (v.minor + ("." + (v.patch + tail))), '-');
  }

  /** The three leading `.`-fields of a normal version followed by `rest`. */
  lemma FieldsOf(v: Version, rest: string)
    requires WellFormed(v)
    ensures var parts := Split(v.major + ("." + (v.minor + ("." + (v.patch + rest)))), '.');
      |parts| >= 3 && parts[0] == v.major && parts[1] == v.minor &&
      parts[2] == v.patch + UpTo(rest, '.')
  {
    NoMarkInDigits(v.major, '.');
    NoMarkInDigits(v.minor, '.');
    NoMarkInDigits(v.patch, '.');
    var s2 := v.patch + rest;
    var s1 := v.minor + ("." + s2);
    assert v.minor + ("." + s2) == v.minor + ['.'] + s2;
    assert v.major + ("." + s1) == v.major + ['.'] + s1;
    SplitCons(v.major, s1, '.');
    SplitCons(v.minor, s2, '.');
    UpToAppend(v.patch, rest, '.');
  }

  /** The third `.`-field in front of the first `-`: the patch number, or,
      with build metadata and no pre-release, the patch number followed by `+`
      and more. */
  lemma ThirdField(v: Version)
    requires WellFormed(v)
    ensures var parts := Split(Split(Render(v), '-')[0], '.');
      |parts| >= 3 && parts[0] == v.major && parts[1] == v.minor &&
      (v.pre.Some? || v.build.None? ==> parts[2] == v.patch) &&
      (v.pre.None? && v.build.Some? ==> exists w :: parts[2] == v.patch + ['+'] + w)
  {
    var tail := Marked('-', v.pre) + Marked('+', v.build);
    var rest := UpTo(tail, '-');
    UpToDashOfRender(v);
    FieldsOf(v, rest);
    if v.pre.Some? || v.build.None? {
      assert tail == [] || tail[0] == '-';
      assert UpTo(rest, '.') == [];
    } else {
      var b := v.build.value;
      assert tail == "+" + b;
      var w := UpTo(UpTo(b, '-'), '.');
      BuildOnlyField(b);
      assert v.patch + ("+" + w) == v.patch + ['+'] + w;
    }
  }

  /** With no pre-release, the `+` of the build metadata stays in front of
      the first `-` and in front of the first `.` after it. */
  lemma BuildOnlyField(b: string)
    ensures UpTo(UpTo("+" + b, '-'), '.') == "+" + UpTo(UpTo(b, '-'), '.')
  {
    var u := UpTo(b, '-');
    UpToAppend("+", b, '-');
    UpToAppend("+", u, '.');
  }

  /** On the text of a well-formed version the re-check fails exactly when
      build metadata comes without a pre-release. */
  lemma NumericCheckOfRender(v: Version)
    requires WellFormed(v)
    ensures NumericCheck(Render(v)) <==> v.pre.Some? || v.build.None?
  {
    ThirdField(v);
    DigitRunIsInt(v.major);
    DigitRunIsInt(v.minor);
    if v.pre.Some? || v.build.None? {
      DigitRunIsInt(v.patch);
    } else {
      var parts := Split(Split(Render(v), '-')[0], '.');
      var w :| parts[2] == v.patch + ['+'] + w;
      PlusAfterDigitsIsNoInt(v.patch, w);
    }
  }

  // ---------------------------------------------------------------------
  // What validate_version_format accepts

  lemma PlainAsciiOfClass(s: string, cls: CharClass)
    requires AllIn(s, cls)
    ensures PlainAscii(s)
  {
    assert forall k :: 0 <= k < |s| ==> InClass(s[k], cls);
  }

  lemma PlainAsciiConcat(a: string, b: string)
    requires PlainAscii(a) && PlainAscii(b)
    ensures PlainAscii(a + b)
  {
    assert forall k :: 0 <= k < |a + b| ==> (a + b)[k] == if k < |a| then a[k] else b[k - |a|];
  }

  lemma PlainAsciiOfMarked(mark: char, p: Option<string>)
    requires WellFormedPart(p) && mark < '\U{80}' && mark != '\n'
    ensures PlainAscii(Marked(mark, p))
  {
    if p.Some? {
      PlainAsciiOfClass(p.value, Identifiers);
      PlainAsciiConcat([mark], p.value);
    }
  }

  lemma PlainAsciiOfRender(v: Version)
    requires WellFormed(v)
    ensures PlainAscii(Render(v))
  {
    PlainAsciiOfClass(v.major, Digits);
    PlainAsciiOfClass(v.minor, Digits);
    PlainAsciiOfClass(v.patch, Digits);
    PlainAsciiOfMarked('-', v.pre);
    PlainAsciiOfMarked('+', v.build);
    PlainAsciiConcat(Marked('-', v.pre), Marked('+', v.build));
    var tail := Marked('-', v.pre) + Marked('+', v.build);
    PlainAsciiConcat(v.patch, tail);
    PlainAsciiConcat(".", v.patch + tail);
    PlainAsciiConcat(v.minor, "." + (v.patch + tail));
    PlainAsciiConcat(".", v.minor + ("." + (v.patch + tail)));
    PlainAsciiConcat(v.major, "." + (v.minor + ("." + (v.patch + tail))));
  }

  /** A version is accepted exactly when it matches the pattern and does not
      carry build metadata without a pre-release. */
  lemma ValidateVersionFormatIff(version: string)
    requires PlainAscii(version)
    ensures ValidateVersionFormat(version) <==>
      Parse(version).Some? && (Parse(version).value.pre.Some? || Parse(version).value.build.None?)
  {
    if Parse(version).Some? {
      ParseSound(version);
      NumericCheckOfRender(Parse(version).value);
    }
  }

  /** The text of a well-formed version is accepted unless it has build
      metadata and no pre-release; leading zeros make no difference. */
  lemma ValidateRender(v: Version)
    requires WellFormed(v)
    ensures PlainAscii(Render(v))
    ensures ValidateVersionFormat(Render(v)) <==> v.pre.Some? || v.build.None?
  {
    PlainAsciiOfRender(v);
    ParseComplete(v);
    NumericCheckOfRender(v);
  }

  /** An accepted version is three digit runs, then optionally `-` and a
      non-empty run over `[A-Za-z0-9.-]`, then optionally `+` and another such
      run, and nothing else; its three numbers read as non-negative integers. */
  lemma AcceptedShape(version: string)
    requires PlainAscii(version) && ValidateVersionFormat(version)
    ensures Parse(version).Some?
    ensures var v := Parse(version).value;
      WellFormed(v) && Render(v) == version && (v.build.Some? ==> v.pre.Some?) &&
      PyInt(v.major) == Some(LiteralValue(v.major)) &&
      PyInt(v.minor) == Some(LiteralValue(v.minor)) &&
      PyInt(v.patch) == Some(LiteralValue(v.patch))
  {
    ValidateVersionFormatIff(version);
    ParseSound(version);
    var v := Parse(version).value;
    DigitRunIsInt(v.major);
    DigitRunIsInt(v.minor);
    DigitRunIsInt(v.patch);
  }

  /** The examples of the function's documentation. */
  lemma DocumentedRelease()
    ensures PlainAscii("1.0.0") && ValidateVersionFormat("1.0.0")
  {
    var v := Version("1", "0", "0", None, None);
    assert WellFormed(v);
    assert Render(v) == "1.0.0";
    ValidateRender(v);
  }

  lemma DocumentedCandidate()
    ensures PlainAscii("1.0.0-rc1") && ValidateVersionFormat("1.0.0-rc1")
  {
    var v := Version("1", "0", "0", Some("rc1"), None);
    assert WellFormed(v);
    assert Render(v) == "1.0.0-rc1";
    ValidateRender(v);
  }

  lemma DocumentedInvalid()
    ensures PlainAscii("invalid") && !ValidateVersionFormat("invalid")
  {
    assert Lead("invalid", Digits) == 0;
  }

  /** Build metadata alone is rejected, although the pattern admits it. */
  lemma BuildOnlyDotted()
    ensures PlainAscii("1.0.0+build.1") && !ValidateVersionFormat("1.0.0+build.1")
  {
    var v := Version("1", "0", "0", None, Some("build.1"));
    assert WellFormed(v);
    assert Render(v) == "1.0.0+build.1";
    ValidateRender(v);
  }

  lemma BuildOnlyDashed()
    ensures PlainAscii("1.0.0+a-b") && !ValidateVersionFormat("1.0.0+a-b")
  {
    var v := Version("1", "0", "0", None, Some("a-b"));
    assert WellFormed(v);
    assert Render(v) == "1.0.0+a-b";
    ValidateRender(v);
  }

  /** After a pre-release, build metadata is accepted. */
  lemma BuildAfterPreRelease()
    ensures PlainAscii("1.0.0-rc1+build.1") && ValidateVersionFormat("1.0.0-rc1+build.1")
  {
    var v := Version("1", "0", "0", Some("rc1"), Some("build.1"));
    assert WellFormed(v);
    assert Render(v) == "1.0.0-rc1+build.1";
    ValidateRender(v);
  }

  /** Leading zeros are accepted. */
  lemma LeadingZeros()
    ensures PlainAscii("01.0.0") && ValidateVersionFormat("01.0.0")
  {
    var v := Version("01", "0", "0", None, None);
    assert WellFormed(v);
    assert Render(v) == "01.0.0";
    ValidateRender(v);
  }
}
