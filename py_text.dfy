/** The few Python string built-ins the version checker relies on, stated on
    `string` (a sequence of Unicode scalar values, as a Python `str` is):
    `str.split` with a one-character separator, `int()` on a decimal string,
    `str.strip()` without arguments and the substring test `p in s`, and the
    two character classes of the version pattern. */
module PyText {
  import opened Wrappers

  predicate IsDigit(c: char) {
    '0' <= c <= '9'
  }

  function DigitValue(c: char): (d: nat)
    requires IsDigit(c)
    ensures d < 10
  {
    (c - '0') as nat
  }

  /** The two character classes of the version pattern: `\d` on ASCII
      input, and `[a-zA-Z0-9\-\.]`. */
  datatype CharClass = Digits | Identifiers

  predicate InClass(c: char, cls: CharClass) {
    match cls
    case Digits => IsDigit(c)
    case Identifiers => IsDigit(c) || 'a' <= c <= 'z' || 'A' <= c <= 'Z' || c == '-' || c == '.'
  }

  predicate AllIn(s: string, cls: CharClass) {
    forall k :: 0 <= k < |s| ==> InClass(s[k], cls)
  }

  // ---------------------------------------------------------------------
  // str.split(sep) for a single-character separator

  /** The part of `s` in front of the first `sep`, or all of `s` when there is none. */
  function UpTo(s: string, sep: char): (r: string)
    ensures r <= s && sep !in r
    ensures |r| == |s| || s[|r|] == sep
    decreases |s|
  {
    if s == [] || s[0] == sep then [] else [s[0]] + UpTo(s[1..], sep)
  }

  /** The three properties in UpTo's contract single out its result. */
  lemma UpToUnique(s: string, sep: char, r: string)
    requires r <= s && sep !in r
    requires |r| == |s| || s[|r|] == sep
    ensures UpTo(s, sep) == r
  {
    var q := UpTo(s, sep);
    assert forall k :: 0 <= k < |r| ==> r[k] in r;
    assert forall k :: 0 <= k < |q| ==> q[k] in q;
  }

  lemma UpToAppend(a: string, b: string, sep: char)
    requires sep !in a
    ensures UpTo(a + b, sep) == a + UpTo(b, sep)
  {
    var u := UpTo(b, sep);
    var r := a + u;
    assert r <= a + b by {
      forall k | 0 <= k < |r| ensures r[k] == (a + b)[k] {
        if k >= |a| { assert r[k] == u[k - |a|] == b[k - |a|]; }
      }
    }
    assert sep !in r by {
      forall k | 0 <= k < |r| ensures r[k] != sep {
        if k < |a| { assert r[k] == a[k]; assert a[k] in a; } else { assert r[k] == u[k - |a|]; assert u[k - |a|] in u; }
      }
    }
    if |r| < |a + b| {
      assert (a + b)[|r|] == b[|u|];
    }
    UpToUnique(a + b, sep, r);
  }

  /** Python's `s.split(sep)`: the pieces between the occurrences of `sep`. */
  function Split(s: string, sep: char): (parts: seq<string>)
    ensures |parts| >= 1 && parts[0] == UpTo(s, sep)
    ensures forall i :: 0 <= i < |parts| ==> sep !in parts[i]
    decreases |s|
  {
    var head := UpTo(s, sep);
    if |head| == |s| then [s] else [head] + Split(s[|head| + 1..], sep)
  }

  /** Python's `sep.join(parts)`. */
  function Join(parts: seq<string>, sep: char): string
    requires |parts| >= 1
  {
    if |parts| == 1 then parts[0] else parts[0] + [sep] + Join(parts[1..], sep)
  }

  /** One step of `Split`: the text in front of the first separator, then
      the pieces of what follows that separator. */
  lemma SplitStep(s: string, sep: char)
    requires |UpTo(s, sep)| < |s|
    ensures Split(s, sep) == [UpTo(s, sep)] + Split(s[|UpTo(s, sep)| + 1..], sep)
    ensures s == UpTo(s, sep) + [sep] + s[|UpTo(s, sep)| + 1..]
  {
  }

  lemma JoinCons(head: string, tail: seq<string>, sep: char)
    requires |tail| >= 1
    ensures Join([head] + tail, sep) == head + [sep] + Join(tail, sep)
  {
    assert ([head] + tail)[1..] == tail;
  }

  lemma {:induction false} SplitThenJoin(s: string, sep: char)
    ensures Join(Split(s, sep), sep) == s
    decreases |s|
  {
    var head := UpTo(s, sep);
    if |head| < |s| {
      var rest := s[|head| + 1..];
      var tail := Split(rest, sep);
      calc {
        Join(Split(s, sep), sep);
      == { SplitStep(s, sep); }
        Join([head] + tail, sep);
      == { JoinCons(head, tail, sep); }
        head + [sep] + Join(tail, sep);
      == { SplitThenJoin(rest, sep); }
        head + [sep] + rest;
      == { SplitStep(s, sep); }
        s;
      }
    }
  }

  lemma SplitCons(a: string, b: string, sep: char)
    requires sep !in a
    ensures Split(a + [sep] + b, sep) == [a] + Split(b, sep)
  {
    var s := a + [sep] + b;
    assert s == a + ([sep] + b);
    UpToAppend(a, [sep] + b, sep);
    assert UpTo([sep] + b, sep) == [];
    assert UpTo(s, sep) == a;
    assert s[|a| + 1..] == b;
  }

  lemma SplitNone(s: string, sep: char)
    requires sep !in s
    ensures Split(s, sep) == [s]
  {
    UpToUnique(s, sep, s);
  }

  lemma {:induction false} JoinThenSplit(parts: seq<string>, sep: char)
    requires |parts| >= 1
    requires forall i :: 0 <= i < |parts| ==> sep !in parts[i]
    ensures Split(Join(parts, sep), sep) == parts
  {
    if |parts| == 1 {
      SplitNone(parts[0], sep);
    } else {
      var tail := parts[1..];
      assert forall i :: 0 <= i < |tail| ==> tail[i] == parts[i + 1];
      JoinThenSplit(tail, sep);
      assert Join(parts, sep) == parts[0] + [sep] + Join(tail, sep);
      SplitCons(parts[0], Join(tail, sep), sep);
      assert [parts[0]] + tail == parts;
    }
  }

  // ---------------------------------------------------------------------
  // int(text) on a string without surrounding white space

  /** Python's grammar for the digits of a decimal integer: digits, with single
      underscores allowed between two digits. */
  predicate DecimalLiteral(t: string) {
    |t| > 0 && IsDigit(t[0]) && IsDigit(t[|t| - 1]) &&
    (forall k :: 0 <= k < |t| ==> IsDigit(t[k]) || t[k] == '_') &&
    (forall k :: 0 <= k < |t| - 1 && t[k] == '_' ==> t[k + 1] != '_')
  }

  /** The number a digit string denotes, underscores being ignored. */
  function LiteralValue(t: string): nat
  {
    if t == [] then 0
    else if IsDigit(t[|t| - 1]) then 10 * LiteralValue(t[..|t| - 1]) + DigitValue(t[|t| - 1])
    else LiteralValue(t[..|t| - 1])
  }

  /** Python's `int(f)`: `None` where Python raises `ValueError`. */
  function PyInt(f: string): (r: Option<int>)
    ensures r.Some? ==> exists k :: 0 <= k < |f| && IsDigit(f[k])
    ensures r.Some? && r.value < 0 ==> f[0] == '-'
  {
    if |f| > 0 && (f[0] == '+' || f[0] == '-') then
      if DecimalLiteral(f[1..]) then
        assert IsDigit(f[1..][0]) && f[1..][0] == f[1];
        var magnitude: int := LiteralValue(f[1..]);
        Some(if f[0] == '-' then -magnitude else magnitude)
      else None
    else if DecimalLiteral(f) then
      assert IsDigit(f[0]);
      Some(LiteralValue(f))
    else None
  }

  /** Python's `str(n)` for a non-negative integer. */
  function DecimalText(n: nat): (t: string)
    ensures |t| > 0 && AllIn(t, Digits)
  {
    var last := ['0' + (n % 10) as char];
    if n < 10 then last else DecimalText(n / 10) + last
  }

  /** `int(str(n)) == n`. */
  lemma PyIntOfDecimalText(n: nat)
    ensures PyInt(DecimalText(n)) == Some(n)
  {
    DecimalTextValue(n);
    DigitRunIsInt(DecimalText(n));
  }

  lemma {:induction false} DecimalTextValue(n: nat)
    ensures LiteralValue(DecimalText(n)) == n
  {
    var t := DecimalText(n);
    var last := '0' + (n % 10) as char;
    assert DigitValue(last) == n % 10;
    if n >= 10 {
      DecimalTextValue(n / 10);
      assert t[..|t| - 1] == DecimalText(n / 10);
    }
  }

  /** A non-empty run of ASCII digits is an integer, read with its leading zeros ignored. */
  lemma DigitRunIsInt(d: string)
    requires |d| > 0 && AllIn(d, Digits)
    ensures PyInt(d) == Some(LiteralValue(d)) && LiteralValue(d) >= 0
  {
    assert DecimalLiteral(d);
  }

  /** `int` refuses a digit run followed by `+`: a sign may only lead. */
  lemma PlusAfterDigitsIsNoInt(d: string, w: string)
    requires |d| > 0 && AllIn(d, Digits)
    ensures PyInt(d + ['+'] + w) == None
  {
    var f := d + ['+'] + w;
    assert f[0] == d[0] && f[|d|] == '+';
    NoLiteralWith(f, |d|);
  }

  /** A character that is neither a digit nor an underscore spoils a literal. */
  lemma NoLiteralWith(t: string, k: nat)
    requires k < |t| && !IsDigit(t[k]) && t[k] != '_'
    ensures !DecimalLiteral(t)
  {
  }

  // ---------------------------------------------------------------------
  // str.strip()

  /** The characters for which Python's `str.isspace()` holds. */
  predicate IsSpace(c: char) {
    '\t' <= c <= '\r' || '\U{1c}' <= c <= '\U{20}' || c == '\U{85}' || c == '\U{a0}' ||
    c == '\U{1680}' || '\U{2000}' <= c <= '\U{200a}' || c == '\U{2028}' || c == '\U{2029}' ||
    c == '\U{202f}' || c == '\U{205f}' || c == '\U{3000}'
  }

  predicate AllSpace(s: string) {
    forall k :: 0 <= k < |s| ==> IsSpace(s[k])
  }

  function TrimStart(s: string): (r: string)
    ensures |r| <= |s| && r == s[|s| - |r|..]
    ensures AllSpace(s[..|s| - |r|])
    ensures r == [] || !IsSpace(r[0])
  {
    if s != [] && IsSpace(s[0]) then
      var r := TrimStart(s[1..]);
      assert s[..|s| - |r|] == [s[0]] + s[1..][..|s| - 1 - |r|];
      r
    else s
  }

  function TrimEnd(s: string): (r: string)
    ensures r <= s
    ensures AllSpace(s[|r|..])
    ensures r == [] || !IsSpace(r[|r| - 1])
  {
    if s != [] && IsSpace(s[|s| - 1]) then
      var r := TrimEnd(s[..|s| - 1]);
      assert s[|r|..] == s[..|s| - 1][|r|..] + [s[|s| - 1]];
      r
    else s
  }

  /** Python's `s.strip()`: a part of `s` that neither starts nor ends with
      white space. */
  function Strip(s: string): (r: string)
    ensures IsSubstring(r, s)
    ensures r == [] || (!IsSpace(r[0]) && !IsSpace(r[|r| - 1]))
  {
    var a := TrimStart(s);
    var r := TrimEnd(a);
    assert r <= s[|s| - |a|..];
    r
  }

  /** Stripping removes exactly the white space around a text that neither
      starts nor ends with white space. */
  lemma StripPadded(lead: string, t: string, trail: string)
    requires AllSpace(lead) && AllSpace(trail)
    requires t == [] || (!IsSpace(t[0]) && !IsSpace(t[|t| - 1]))
    ensures Strip(lead + t + trail) == t
  {
    assert lead + t + trail == lead + (t + trail);
    if t == [] {
      TrimStartOf(lead + trail, []);
    } else {
      TrimStartOf(lead, t + trail);
      TrimEndOf(t, trail);
    }
  }

  lemma TrimStartOf(lead: string, rest: string)
    requires AllSpace(lead)
    requires rest == [] || !IsSpace(rest[0])
    ensures TrimStart(lead + rest) == rest
  {
    var s := lead + rest;
    var a := TrimStart(s);
    var cut := |s| - |a|;
    assert forall k :: 0 <= k < cut ==> IsSpace(s[k]) by {
      forall k | 0 <= k < cut ensures IsSpace(s[k]) { assert s[..cut][k] == s[k]; }
    }
    assert forall k :: 0 <= k < |lead| ==> s[k] == lead[k];
    assert rest != [] ==> s[|lead|] == rest[0];
    assert a == [] || a[0] == s[cut];
    assert cut == |lead|;
  }

  lemma {:induction false} TrimEndOf(t: string, trail: string)
    requires AllSpace(trail)
    requires t == [] || !IsSpace(t[|t| - 1])
    ensures TrimEnd(t + trail) == t
    decreases |trail|
  {
    if trail == [] {
      assert t + trail == t;
    } else {
      var s := t + trail;
      var shorter := trail[..|trail| - 1];
      assert s[|s| - 1] == trail[|trail| - 1];
      assert s[..|s| - 1] == t + shorter;
      assert AllSpace(shorter) by {
        forall k | 0 <= k < |shorter| ensures IsSpace(shorter[k]) { assert shorter[k] == trail[k]; }
      }
      TrimEndOf(t, shorter);
    }
  }

  // ---------------------------------------------------------------------
  // p in s

  /** Python's substring test `p in s`. */
  predicate IsSubstring(p: string, s: string)
    ensures IsSubstring(p, s) ==> |p| <= |s|
    ensures p <= s ==> IsSubstring(p, s)
  {
    assert p <= s ==> p <= s[0..];
    exists i :: 0 <= i <= |s| - |p| && p <= s[i..]
  }

  lemma SubstringOfSubstring(p: string, q: string, s: string)
    requires IsSubstring(p, q) && IsSubstring(q, s)
    ensures IsSubstring(p, s)
  {
    var i :| 0 <= i <= |q| - |p| && p <= q[i..];
    var j :| 0 <= j <= |s| - |q| && q <= s[j..];
    assert p <= s[i + j..] by {
      forall k | 0 <= k < |p| ensures p[k] == s[i + j..][k] {
        assert p[k] == q[i + k] == s[j..][i + k];
      }
    }
  }

  lemma SubstringOfConcat(a: string, p: string, b: string)
    ensures IsSubstring(p, a + p + b)
  {
    var s := a + p + b;
    assert p <= s[|a|..] by {
      forall k | 0 <= k < |p| ensures p[k] == s[|a|..][k] { }
    }
  }
}
