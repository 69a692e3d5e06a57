/**
  The request validators: the version parameters and the schema body.

  `validate_current_target_version` of the request validator accepts a
  version when it is three dot-separated decimal numerals without leading
  zeros (the X.Y.Z normal version of Semantic Versioning 2.0.0, clause 2).
  The query-parameter validator accepts any three dot-separated runs of
  digits, and then demands the expected versions, which the service reads
  from its environment and which are parameters here.
*/
module Validators {
  import opened Wrappers
  import opened Json

  /** The exceptions the validators raise. */
  datatype ValidationError = InvalidCurrentVersion | InvalidTargetVersion | InvalidInputJson

  // ---------------------------------------------------------------------
  // The version patterns

  predicate IsDigit(c: char)
  {
    '0' <= c <= '9'
  }

  /** `\d+`: one or more digits. */
  predicate Digits(s: string)
  {
    |s| > 0 && forall i :: 0 <= i < |s| ==> IsDigit(s[i])
  }

  /** `0|[1-9]\d*`: a decimal numeral without leading zeros. */
  predicate Numeral(s: string)
  {
    Digits(s) && (s[0] == '0' ==> |s| == 1)
  }

  /** One part of a version: a numeral for the strict pattern, any run of digits for the loose one. */
  predicate Part(s: string, strict: bool)
  {
    if strict then Numeral(s) else Digits(s)
  }

  /** The position of the first `.` of `s`. */
  function FirstDot(s: string): (r: Option<nat>)
    ensures r.Some? ==> r.value < |s| && s[r.value] == '.'
    decreases |s|
  {
    if s == [] then None
    else if s[0] == '.' then Some(0)
    else
      match FirstDot(s[1..])
      case None => None
      case Some(k) => Some(k + 1)
  }

  /**
    `s` is `n` parts separated by dots. A part holds no dot, so the first
    part ends at the first dot, as the regular expression finds it.
  */
  predicate Parts(s: string, n: nat, strict: bool)
    decreases n
  {
    if n <= 1 then n == 1 && Part(s, strict)
    else
      match FirstDot(s)
      case None => false
      case Some(k) => Part(s[..k], strict) && Parts(s[k + 1..], n - 1, strict)
  }

  /**
    `re.match` of a pattern anchored with `^` and `$`: Python's `$` also
    matches just before a final newline, so the text may end in one.
  */
  predicate Matches(s: string, strict: bool)
  {
    || Parts(s, 3, strict)
    || (|s| > 0 && s[|s| - 1] == '\n' && Parts(s[..|s| - 1], 3, strict))
  }

  /** The pattern of the request validator, `^(0|[1-9]\d*)\.(0|[1-9]\d*)\.(0|[1-9]\d*)$`. */
  predicate IsVersion(s: string)
  {
    Matches(s, true)
  }

  /** The pattern of the query-parameter validator, `^(\d+\.\d+\.\d+)$`. */
  predicate IsLooseVersion(s: string)
  {
    Matches(s, false)
  }

  // ---------------------------------------------------------------------
  // Numerals and their values

  function DigitValue(c: char): nat
    requires IsDigit(c)
  {
    c as int - '0' as int
  }

  /** The value of a run of decimal digits. */
  function DigitsValue(s: string): nat
    requires forall i :: 0 <= i < |s| ==> IsDigit(s[i])
    decreases |s|
  {
    if s == [] then 0 else DigitsValue(s[..|s| - 1]) * 10 + DigitValue(s[|s| - 1])
  }

  /** `major.minor.patch` written out. */
  function FormatVersion(major: nat, minor: nat, patch: nat): string
  {
    NatString(major) + "." + NatString(minor) + "." + NatString(patch)
  }

  /** The three numbers of a version in the strict form. */
  function ParseVersion(s: string): (r: Option<(nat, nat, nat)>)
  {
    match FirstDot(s)
    case None => None
    case Some(i) =>
      var rest := s[i + 1..];
      match FirstDot(rest)
      case None => None
      case Some(j) =>
        var a, b, c := s[..i], rest[..j], rest[j + 1..];
        if Numeral(a) && Numeral(b) && Numeral(c) then Some((DigitsValue(a), DigitsValue(b), DigitsValue(c)))
        else None
  }

  // ---------------------------------------------------------------------
  // The strict pattern accepts exactly the canonical renderings

  lemma DigitChar(d: nat)
    requires d < 10
    ensures IsDigit(Digit(d)) && DigitValue(Digit(d)) == d
  {
  }

  lemma CharDigit(c: char)
    requires IsDigit(c)
    ensures DigitValue(c) < 10 && Digit(DigitValue(c)) == c
  {
  }

  /** A run of digits that does not start with `0` has a positive value. */
  lemma {:induction false} LeadingValue(s: string)
    requires Digits(s) && s[0] != '0'
    ensures DigitsValue(s) >= 1
    decreases |s|
  {
    if |s| > 1 {
      var p := s[..|s| - 1];
      assert p[0] == s[0];
      LeadingValue(p);
    }
  }

  /** A number written out is a numeral, and reads back as the number. */
  lemma {:induction false} NumeralNatString(n: nat)
    ensures Numeral(NatString(n)) && DigitsValue(NatString(n)) == n
    decreases n
  {
    var s := NatString(n);
    if n < 10 {
      DigitChar(n);
      assert s[..0] == [];
    } else {
      var p := NatString(n / 10);
      NumeralNatString(n / 10);
      DigitChar(n % 10);
      assert s == p + [Digit(n % 10)];
      assert s[..|s| - 1] == p && s[|s| - 1] == Digit(n % 10);
      assert s[0] == p[0];
    }
  }

  /** A numeral is the writing of its value. */
  lemma {:induction false} NatStringNumeral(s: string)
    requires Numeral(s)
    ensures NatString(DigitsValue(s)) == s
    decreases |s|
  {
    CharDigit(s[|s| - 1]);
    if |s| == 1 {
      assert s[..0] == [];
    } else {
      var p := s[..|s| - 1];
      assert p[0] == s[0];
      LeadingValue(p);
      NatStringNumeral(p);
      var v := DigitsValue(s);
      assert v / 10 == DigitsValue(p) && v % 10 == DigitValue(s[|s| - 1]);
      assert s == p + [s[|s| - 1]];
    }
  }

  /** The first dot after a run of digits is the one right after it. */
  lemma {:induction false} FirstDotAfter(u: string, rest: string)
    requires forall i :: 0 <= i < |u| ==> IsDigit(u[i])
    ensures FirstDot(u + "." + rest) == Some(|u|)
    decreases |u|
  {
    if u == [] {
      assert (u + "." + rest)[0] == '.';
    } else {
      var s := u + "." + rest;
      assert s[0] == u[0] && s[1..] == u[1..] + "." + rest;
      FirstDotAfter(u[1..], rest);
    }
  }

  /** `a.r` with `a` a run of digits: the dot after `a` ends the first part. */
  lemma DotCons(a: string, r: string)
    requires forall i :: 0 <= i < |a| ==> IsDigit(a[i])
    ensures FirstDot(a + "." + r) == Some(|a|)
    ensures (a + "." + r)[..|a|] == a && (a + "." + r)[|a| + 1..] == r
  {
    FirstDotAfter(a, r);
  }

  lemma DotShape(a: string, b: string, c: string)
    ensures a + "." + b + "." + c == a + "." + (b + "." + c)
  {
  }

  lemma SplitAtDot(s: string, i: nat)
    requires i < |s| && s[i] == '.'
    ensures s == s[..i] + "." + s[i + 1..]
  {
  }

  /** The three parts of `a.b.c` with `a` and `b` runs of digits, as both patterns and the parser find them. */
  lemma ThreeParts(a: string, b: string, c: string, strict: bool)
    requires (forall i :: 0 <= i < |a| ==> IsDigit(a[i])) && (forall i :: 0 <= i < |b| ==> IsDigit(b[i]))
    ensures Parts(a + "." + (b + "." + c), 3, strict) == (Part(a, strict) && Part(b, strict) && Part(c, strict))
    ensures ParseVersion(a + "." + (b + "." + c))
         == if Numeral(a) && Numeral(b) && Numeral(c) then Some((DigitsValue(a), DigitsValue(b), DigitsValue(c))) else None
  {
    DotCons(a, b + "." + c);
    DotCons(b, c);
  }

  /** Every rendering `x.y.z` matches the strict pattern and parses back to its numbers. */
  lemma CanonicalIsVersion(major: nat, minor: nat, patch: nat)
    ensures Parts(FormatVersion(major, minor, patch), 3, true)
    ensures ParseVersion(FormatVersion(major, minor, patch)) == Some((major, minor, patch))
  {
    var a, b, c := NatString(major), NatString(minor), NatString(patch);
    NumeralNatString(major);
    NumeralNatString(minor);
    NumeralNatString(patch);
    DotShape(a, b, c);
    ThreeParts(a, b, c, true);
  }

  /** A text the strict pattern accepts is `a.b.c` with three numerals. */
  lemma SplitVersion(s: string) returns (a: string, b: string, c: string)
    requires Parts(s, 3, true)
    ensures s == a + "." + (b + "." + c) && Numeral(a) && Numeral(b) && Numeral(c)
  {
    var i := FirstDot(s).value;
    var rest := s[i + 1..];
    var j := FirstDot(rest).value;
    a, b, c := s[..i], rest[..j], rest[j + 1..];
    SplitAtDot(s, i);
    SplitAtDot(rest, j);
  }

  /** What the strict pattern accepts parses, and is the rendering of its numbers. */
  lemma VersionIsCanonical(s: string)
    requires Parts(s, 3, true)
    ensures ParseVersion(s).Some?
    ensures var v := ParseVersion(s).value; FormatVersion(v.0, v.1, v.2) == s
  {
    var a, b, c := SplitVersion(s);
    ThreeParts(a, b, c, true);
    NatStringNumeral(a);
    NatStringNumeral(b);
    NatStringNumeral(c);
    DotShape(a, b, c);
  }

  /** The loose pattern accepts everything the strict one does. */
  lemma {:induction false} PartsStrictLoose(s: string, n: nat)
    requires Parts(s, n, true)
    ensures Parts(s, n, false)
    decreases n
  {
    if n > 1 {
      var k := FirstDot(s).value;
      PartsStrictLoose(s[k + 1..], n - 1);
    }
  }

  lemma StrictIsLoose(s: string)
    requires IsVersion(s)
    ensures IsLooseVersion(s)
  {
    if Parts(s, 3, true) {
      PartsStrictLoose(s, 3);
    } else {
      PartsStrictLoose(s[..|s| - 1], 3);
    }
  }

  // ---------------------------------------------------------------------
  // The validators

  /**
    `validate_current_target_version` of the request validator: the
    current version is checked first, so a request with two bad versions
    is refused for its current version.
  */
  function ValidateVersions(current: string, target: string): (r: Option<ValidationError>)
    ensures r == None <==> IsVersion(current) && IsVersion(target)
    ensures r == Some(InvalidCurrentVersion) <==> !IsVersion(current)
    ensures r == Some(InvalidTargetVersion) <==> IsVersion(current) && !IsVersion(target)
  {
    if !IsVersion(current) then Some(InvalidCurrentVersion)
    else if !IsVersion(target) then Some(InvalidTargetVersion)
    else None
  }

  /**
    `validate_current_target_version` of the query-parameter validator:
    each version must match the loose pattern and equal the expected
    version; the current version is checked first.
  */
  function ValidateExpectedVersions(current: string, target: string, expectedCurrent: string, expectedTarget: string)
    : (r: Option<ValidationError>)
    ensures r == None <==>
              IsLooseVersion(current) && current == expectedCurrent && IsLooseVersion(target) && target == expectedTarget
    ensures r == Some(InvalidCurrentVersion) <==> !(IsLooseVersion(current) && current == expectedCurrent)
    ensures r == Some(InvalidTargetVersion) <==>
              IsLooseVersion(current) && current == expectedCurrent
              && !(IsLooseVersion(target) && target == expectedTarget)
  {
    if !IsLooseVersion(current) || current != expectedCurrent then Some(InvalidCurrentVersion)
    else if !IsLooseVersion(target) || target != expectedTarget then Some(InvalidTargetVersion)
    else None
  }

  /** `validate_input_json`: an empty schema mapping is refused. */
  function ValidateInputJson(schema: seq<(string, Value)>): (r: Option<ValidationError>)
    ensures r.Some? <==> schema == []
    ensures r.Some? ==> r.value == InvalidInputJson
  {
    if schema == [] then Some(InvalidInputJson) else None
  }

  // ---------------------------------------------------------------------
  // What the validators accept

  /** Two versions in the canonical form pass the request validator. */
  lemma CanonicalVersionsPass(current: (nat, nat, nat), target: (nat, nat, nat))
    ensures ValidateVersions(FormatVersion(current.0, current.1, current.2), FormatVersion(target.0, target.1, target.2)) == None
  {
    CanonicalIsVersion(current.0, current.1, current.2);
    CanonicalIsVersion(target.0, target.1, target.2);
  }

  /** A part with a leading zero is refused. */
  lemma LeadingZeroRefused()
    ensures !IsVersion("01.0.0")
  {
    ThreeParts("01", "0", "0", true);
    assert "01.0.0" == "01" + "." + ("0" + "." + "0");
  }

  /** Two parts are too few. */
  lemma TwoPartsRefused()
    ensures !IsVersion("1.2")
  {
    DotCons("1", "2");
    assert "1.2" == "1" + "." + "2";
    assert FirstDot("2") == None;
  }

  /** Four parts are too many: the third part would hold a dot. */
  lemma FourPartsRefused()
    ensures !IsVersion("1.2.3.4")
  {
    ThreeParts("1", "2", "3.4", true);
    assert "1.2.3.4" == "1" + "." + ("2" + "." + "3.4");
  }

  /** A pre-release suffix is refused. */
  lemma SuffixRefused()
    ensures !IsVersion("1.2.3-rc")
  {
    ThreeParts("1", "2", "3-rc", true);
    assert "1.2.3-rc" == "1" + "." + ("2" + "." + "3-rc");
  }

  /** A single final newline is accepted, because of how `$` matches. */
  lemma FinalNewlineAccepted()
    ensures IsVersion("1.2.3\n")
  {
    ThreeParts("1", "2", "3", true);
    assert "1.2.3\n"[..5] == "1.2.3" == "1" + "." + ("2" + "." + "3");
  }

  /** The loose pattern of the query-parameter validator admits leading zeros, the strict one does not. */
  lemma LeadingZeroLooseOnly()
    ensures IsLooseVersion("09.0.0") && !IsVersion("09.0.0")
  {
    ThreeParts("09", "0", "0", true);
    ThreeParts("09", "0", "0", false);
    assert "09.0.0" == "09" + "." + ("0" + "." + "0");
  }

  lemma DefaultCurrentIsLoose()
    ensures IsLooseVersion("9.0.0")
  {
    ThreeParts("9", "0", "0", false);
    assert "9.0.0" == "9" + "." + ("0" + "." + "0");
  }

  lemma DefaultTargetIsLoose()
    ensures IsLooseVersion("10.0.0")
  {
    ThreeParts("10", "0", "0", false);
    assert "10.0.0" == "10" + "." + ("0" + "." + "0");
  }

  /** With the default expected versions, exactly the pair `9.0.0`, `10.0.0` passes the query-parameter validator. */
  lemma DefaultExpectedPair(current: string, target: string)
    ensures ValidateExpectedVersions(current, target, "9.0.0", "10.0.0") == None
        <==> current == "9.0.0" && target == "10.0.0"
  {
    DefaultCurrentIsLoose();
    DefaultTargetIsLoose();
  }
}
