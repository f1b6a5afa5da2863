/**
 * The version check of the setup script (`tools/Setup.js`): a version
 * string is cut down to `major.minor.patch`, each part is read with
 * `Number.parseInt`, and the installed version must be at least the minimum
 * in the lexicographic order of the three numbers.
 */
module Setup {
  import opened Common
  import opened Strings

  // Number.parseInt with no radix

  /** The characters `parseInt` skips before the number: white space and line terminators. */
  predicate IsJsSpace(c: char)
  {
    c == ' ' || c == '\t' || c == '\n' || c == '\U{B}' || c == '\U{C}' || c == '\r'
    || c == '\U{A0}' || c == '\U{1680}' || ('\U{2000}' <= c <= '\U{200A}')
    || c == '\U{2028}' || c == '\U{2029}' || c == '\U{202F}' || c == '\U{205F}'
    || c == '\U{3000}' || c == '\U{FEFF}'
  }

  /** `s` without its leading white space. */
  function TrimStart(s: string): (r: string)
    ensures |r| <= |s| && r == s[|s| - |r|..]
    ensures r == [] || !IsJsSpace(r[0])
    ensures forall k | 0 <= k < |s| - |r| :: IsJsSpace(s[k])
  {
    if s != [] && IsJsSpace(s[0]) then TrimStart(s[1..]) else s
  }

  /** The length of the longest prefix of `s` whose characters all satisfy `p`. */
  function RunLength(s: string, p: char -> bool): (n: nat)
    ensures n <= |s|
    ensures forall k | 0 <= k < n :: p(s[k])
    ensures n == |s| || !p(s[n])
  {
    if s != [] && p(s[0]) then 1 + RunLength(s[1..], p) else 0
  }

  /** The run length is the only one with those two properties. */
  lemma {:induction false} RunLengthExact(s: string, p: char -> bool, n: nat)
    requires n <= |s| && (forall k | 0 <= k < n :: p(s[k])) && (n == |s| || !p(s[n]))
    ensures RunLength(s, p) == n
    decreases n
  {
    if n > 0 {
      RunLengthExact(s[1..], p, n - 1);
    }
  }

  predicate IsHexDigit(c: char)
  {
    IsDigit(c) || 'a' <= c <= 'f' || 'A' <= c <= 'F'
  }

  function HexDigitValue(c: char): nat
    requires IsHexDigit(c)
  {
    if IsDigit(c) then DigitValue(c)
    else if 'a' <= c <= 'f' then c as int - 'a' as int + 10
    else c as int - 'A' as int + 10
  }

  function HexValue(s: string): nat
    requires forall k | 0 <= k < |s| :: IsHexDigit(s[k])
  {
    if s == [] then 0 else HexValue(s[..|s| - 1]) * 16 + HexDigitValue(s[|s| - 1])
  }

  /** The number spelled by the decimal digits at the start of `u`; none is NaN. */
  function LeadingDecimal(u: string): Option<int>
  {
    var n := RunLength(u, IsDigit);
    if n == 0 then None else Some(DigitsValue(u[..n]))
  }

  /** The number spelled by the hexadecimal digits at the start of `u`; none is NaN. */
  function LeadingHex(u: string): Option<int>
  {
    var n := RunLength(u, IsHexDigit);
    if n == 0 then None else Some(HexValue(u[..n]))
  }

  predicate HasHexPrefix(u: string)
  {
    |u| >= 2 && u[0] == '0' && (u[1] == 'x' || u[1] == 'X')
  }

  /** An unsigned number: base 16 after a `0x`/`0X` prefix, otherwise base 10. */
  function ParseUnsigned(u: string): Option<int>
  {
    if HasHexPrefix(u) then LeadingHex(u[2..]) else LeadingDecimal(u)
  }

  function Negate(r: Option<int>): Option<int>
  {
    if r.Some? then Some(-r.value) else None
  }

  /**
   * `Number.parseInt(s)`, None standing for `NaN`: leading white space is
   * skipped, one sign is read, a `0x`/`0X` prefix switches to base 16, and
   * the longest run of digits that follows is the number; no digit is NaN.
   */
  function ParseInt(s: string): Option<int>
  {
    var t := TrimStart(s);
    if |t| >= 1 && t[0] == '-' then Negate(ParseUnsigned(t[1..]))
    else if |t| >= 1 && t[0] == '+' then ParseUnsigned(t[1..])
    else ParseUnsigned(t)
  }

  predicate AllDigits(s: string)
  {
    forall k | 0 <= k < |s| :: IsDigit(s[k])
  }

  /** Leading white space never changes what `parseInt` reads. */
  lemma {:induction false} TrimStartSkipsSpace(w: string, s: string)
    requires forall k | 0 <= k < |w| :: IsJsSpace(w[k])
    ensures TrimStart(w + s) == TrimStart(s)
    decreases |w|
  {
    if w != [] {
      assert (w + s)[0] == w[0];
      assert (w + s)[1..] == w[1..] + s;
      TrimStartSkipsSpace(w[1..], s);
    } else {
      assert w + s == s;
    }
  }

  lemma ParseIntSkipsSpace(w: string, s: string)
    requires forall k | 0 <= k < |w| :: IsJsSpace(w[k])
    ensures ParseInt(w + s) == ParseInt(s)
  {
    TrimStartSkipsSpace(w, s);
  }

  /** Reading stops at the first character that is not a decimal digit. */
  lemma LeadingDecimalStops(s: string, rest: string)
    requires |s| >= 1 && forall k | 0 <= k < |s| :: IsDigit(s[k])
    requires rest == [] || !IsDigit(rest[0])
    ensures LeadingDecimal(s + rest) == Some(DigitsValue(s))
  {
    var t := s + rest;
    assert forall k | 0 <= k < |s| :: t[k] == s[k];
    assert |s| == |t| || t[|s|] == rest[0];
    RunLengthExact(t, IsDigit, |s|);
    assert t[..|s|] == s;
  }

  /** Text that starts with a digit is read in base 10 unless it starts with `0x` or `0X`. */
  lemma ParseIntAtDigit(t: string)
    requires |t| >= 1 && IsDigit(t[0]) && !HasHexPrefix(t)
    ensures ParseInt(t) == LeadingDecimal(t)
    ensures ParseInt("-" + t) == Negate(LeadingDecimal(t))
  {
    assert !IsJsSpace(t[0]);
    assert TrimStart(t) == t;
    var m := "-" + t;
    assert !IsJsSpace(m[0]);
    assert TrimStart(m) == m;
    assert m[1..] == t;
  }

  /**
   * Digits followed by anything that is not a digit read as the number the
   * digits spell, unless they form a `0x` prefix.
   */
  lemma ParseIntStopsAtNonDigit(s: string, rest: string)
    requires |s| >= 1 && forall k | 0 <= k < |s| :: IsDigit(s[k])
    requires rest == [] || !IsDigit(rest[0])
    requires !(|s| == 1 && s[0] == '0' && |rest| >= 1 && (rest[0] == 'x' || rest[0] == 'X'))
    ensures ParseInt(s + rest) == Some(DigitsValue(s))
  {
    NoHexPrefix(s, rest);
    ParseIntAtDigit(s + rest);
    LeadingDecimalStops(s, rest);
  }

  lemma NoHexPrefix(s: string, rest: string)
    requires |s| >= 1 && forall k | 0 <= k < |s| :: IsDigit(s[k])
    requires !(|s| == 1 && s[0] == '0' && |rest| >= 1 && (rest[0] == 'x' || rest[0] == 'X'))
    ensures |s + rest| >= 1 && IsDigit((s + rest)[0]) && !HasHexPrefix(s + rest)
  {
    var t := s + rest;
    assert t[0] == s[0];
    if |s| >= 2 {
      assert t[1] == s[1];
    } else if |t| >= 2 {
      assert t[1] == rest[0];
    }
  }

  /** Reading a number's decimal spelling gives the number back. */
  lemma ParseIntDecimal(n: nat)
    ensures ParseInt(Decimal(n)) == Some(n as int)
  {
    var s := Decimal(n);
    assert s + "" == s;
    ParseIntStopsAtNonDigit(s, "");
    DecimalValue(n);
  }

  /** Text that starts with neither white space, a sign nor a digit is NaN. */
  lemma NoDigitIsNaN(s: string)
    requires s == [] || (!IsJsSpace(s[0]) && !IsDigit(s[0]) && s[0] != '-' && s[0] != '+')
    ensures ParseInt(s) == None
  {
    assert TrimStart(s) == s;
    assert RunLength(s, IsDigit) == 0;
  }

  /** `"undefined"`, the text of a missing part, is NaN. */
  lemma UndefinedIsNaN()
    ensures ParseInt("undefined") == None
  {
    var u := "undefined";
    assert u[0] == 'u';
    NoDigitIsNaN(u);
  }

  // mustParseInt and parseSemver

  function ParseIntMessage(text: string): string
  {
    "failed to parse integer from string: \"" + text + "\""
  }

  /** `mustParseInt`: the number, or the error naming the text when it is NaN. */
  function MustParseInt(text: string): (r: Result<int>)
    ensures r.Ok? <==> ParseInt(text).Some?
    ensures r.Ok? ==> r.value == ParseInt(text).value
    ensures r.Err? ==> r.error == ParseIntMessage(text)
  {
    match ParseInt(text)
    case Some(n) => Ok(n)
    case None => Err(ParseIntMessage(text))
  }

  datatype Semver = Semver(major: int, minor: int, patch: int)

  /** Element `i` of a destructured array; a missing one is `undefined`, which `parseInt` reads as the text "undefined". */
  function Component(parts: seq<string>, i: nat): string
  {
    if i < |parts| then parts[i] else "undefined"
  }

  /** The text of `major.minor.patch` that `parseSemver` reads: before the first `-`, after the last `=`. */
  function VersionCore(version: string): string
  {
    var release := Split(version, '-')[0];
    var pieces := Split(release, '=');
    pieces[|pieces| - 1]
  }

  /** `parseSemver`: the first three dot-separated parts of the core, each through `mustParseInt`, in order. */
  function ParseSemver(version: string): (r: Result<Semver>)
    ensures r.Err? ==> exists i | 0 <= i < 3 :: r.error == ParseIntMessage(Component(Split(VersionCore(version), '.'), i))
  {
    var fields := Split(VersionCore(version), '.');
    var major :- MustParseInt(Component(fields, 0));
    var minor :- MustParseInt(Component(fields, 1));
    var patch :- MustParseInt(Component(fields, 2));
    Ok(Semver(major, minor, patch))
  }

  /** The plain spelling of a version. */
  function Render(v: Semver): string
    requires v.major >= 0 && v.minor >= 0 && v.patch >= 0
  {
    Decimal(v.major) + "." + Decimal(v.minor) + "." + Decimal(v.patch)
  }

  /** Digit strings joined with dots hold only digits and dots. */
  lemma {:induction false} JoinDigits(parts: seq<string>)
    requires forall i | 0 <= i < |parts| :: AllDigits(parts[i])
    ensures forall k | 0 <= k < |Join(parts, ".")| :: IsDigit(Join(parts, ".")[k]) || Join(parts, ".")[k] == '.'
  {
    if |parts| > 1 {
      JoinDigits(parts[1..]);
      var rest := Join(parts[1..], ".");
      var s := Join(parts, ".");
      assert s == parts[0] + "." + rest;
      assert AllDigits(parts[0]);
      forall k | 0 <= k < |s| ensures IsDigit(s[k]) || s[k] == '.' {
        if k > |parts[0]| {
          assert s[k] == rest[k - |parts[0]| - 1];
        } else if k < |parts[0]| {
          assert s[k] == parts[0][k];
        }
      }
    } else if |parts| == 1 {
      assert AllDigits(parts[0]);
    }
  }

  /** A string of digits and dots is its own core, and splits on dots into digit strings. */
  lemma PlainCore(s: string)
    requires forall k | 0 <= k < |s| :: IsDigit(s[k]) || s[k] == '.'
    ensures VersionCore(s) == s
  {
    assert '-' !in s && '=' !in s;
    PlainVersionCore(s);
  }

  /** Dot-joined digit strings split back into those strings, and are their own core. */
  lemma DottedDigits(parts: seq<string>)
    requires |parts| >= 1
    requires forall i | 0 <= i < |parts| :: |parts[i]| >= 1 && AllDigits(parts[i])
    ensures VersionCore(Join(parts, ".")) == Join(parts, ".")
    ensures Split(Join(parts, "."), '.') == parts
  {
    JoinDigits(parts);
    PlainCore(Join(parts, "."));
    forall i | 0 <= i < |parts| ensures '.' !in parts[i] {
      assert AllDigits(parts[i]);
    }
    SplitJoin(parts, '.');
  }

  /** Parsing the spelling of a version gives the version back. */
  lemma ParseRender(v: Semver)
    requires v.major >= 0 && v.minor >= 0 && v.patch >= 0
    ensures ParseSemver(Render(v)) == Ok(v)
  {
    var a, b, c := Decimal(v.major), Decimal(v.minor), Decimal(v.patch);
    JoinThree(a, b, c, ".");
    DottedDigits([a, b, c]);
    ParseIntDecimal(v.major);
    ParseIntDecimal(v.minor);
    ParseIntDecimal(v.patch);
    ThreeFields(Render(v), a, b, c);
  }

  /** A core of three numeric fields parses to those numbers. */
  lemma ThreeFields(version: string, a: string, b: string, c: string)
    requires Split(VersionCore(version), '.') == [a, b, c]
    requires ParseInt(a).Some? && ParseInt(b).Some? && ParseInt(c).Some?
    ensures ParseSemver(version) == Ok(Semver(ParseInt(a).value, ParseInt(b).value, ParseInt(c).value))
  {
  }

  /** A core of two numeric fields fails on the missing third. */
  lemma TwoFields(version: string, a: string, b: string)
    requires Split(VersionCore(version), '.') == [a, b]
    requires ParseInt(a).Some? && ParseInt(b).Some?
    ensures ParseSemver(version) == Err(ParseIntMessage("undefined"))
  {
    UndefinedIsNaN();
  }

  lemma JoinTwo(a: string, b: string, sep: string)
    ensures Join([a, b], sep) == a + sep + b
  {
    assert [a, b][1..] == [b];
  }

  lemma JoinThree(a: string, b: string, c: string, sep: string)
    ensures Join([a, b, c], sep) == a + sep + b + sep + c
  {
    assert [a, b, c][1..] == [b, c];
    JoinTwo(b, c, sep);
    assert a + sep + (b + sep + c) == a + sep + b + sep + c;
  }

  /** Everything from the first `-` on, a pre-release or build suffix, is ignored. */
  lemma ParseSemverIgnoresSuffix(version: string, suffix: string)
    requires '-' !in version
    ensures ParseSemver(version + "-" + suffix) == ParseSemver(version)
  {
    SplitFirst(version, suffix, '-');
    SplitWithout(version, '-');
    assert VersionCore(version + "-" + suffix) == VersionCore(version);
    SameCoreSameParse(version + "-" + suffix, version);
  }

  /** Only the text after the last `=` counts, so a range such as `>=18.0.0` reads as its version. */
  lemma ParseSemverAfterEquals(prefix: string, version: string)
    requires '-' !in prefix && '-' !in version && '=' !in version
    ensures ParseSemver(prefix + "=" + version) == ParseSemver(version)
  {
    var s := prefix + "=" + version;
    assert '-' !in s;
    SplitWithout(s, '-');
    assert Split(s, '-')[0] == s;
    SplitLast(prefix, version, '=');
    PlainVersionCore(version);
    SameCoreSameParse(s, version);
  }

  /** A version without `-` or `=` is its own core. */
  lemma PlainVersionCore(version: string)
    requires '-' !in version && '=' !in version
    ensures VersionCore(version) == version
  {
    SplitWithout(version, '-');
    SplitWithout(version, '=');
  }

  lemma SameCoreSameParse(a: string, b: string)
    requires VersionCore(a) == VersionCore(b)
    ensures ParseSemver(a) == ParseSemver(b)
  {
  }

  /** A version with no patch part fails: the missing part is read as "undefined". */
  lemma MissingPatchFails(major: nat, minor: nat)
    ensures ParseSemver(Decimal(major) + "." + Decimal(minor)) == Err(ParseIntMessage("undefined"))
  {
    var a, b := Decimal(major), Decimal(minor);
    JoinTwo(a, b, ".");
    DottedDigits([a, b]);
    ParseIntDecimal(major);
    ParseIntDecimal(minor);
    TwoFields(a + "." + b, a, b);
  }

  // meetsMinimumVersion

  /** The comparison of `meetsMinimumVersion` once both versions are parsed. */
  predicate AtLeast(v: Semver, min: Semver)
  {
    if v.major > min.major then true
    else if v.major == min.major then
      if v.minor > min.minor then true
      else if v.minor == min.minor then v.patch >= min.patch
      else false
    else false
  }

  /** `meetsMinimumVersion(minimumVersion, version)`: the installed version is parsed first, then the minimum. */
  function MeetsMinimumVersion(minimumVersion: string, version: string): (r: Result<bool>)
    ensures r.Ok? <==> ParseSemver(version).Ok? && ParseSemver(minimumVersion).Ok?
    ensures r.Ok? ==> r.value == AtLeast(ParseSemver(version).value, ParseSemver(minimumVersion).value)
    ensures ParseSemver(version).Err? ==> r == Err(ParseSemver(version).error)
  {
    var parsed :- ParseSemver(version);
    var minimum :- ParseSemver(minimumVersion);
    Ok(AtLeast(parsed, minimum))
  }

  /** Lexicographic order on equally long number sequences, defined element by element. */
  predicate LexLess(a: seq<int>, b: seq<int>)
    requires |a| == |b|
  {
    a != [] && (a[0] < b[0] || (a[0] == b[0] && LexLess(a[1..], b[1..])))
  }

  function Triple(v: Semver): seq<int>
  {
    [v.major, v.minor, v.patch]
  }

  /** The nested comparison is exactly "not lexicographically smaller" on (major, minor, patch). */
  lemma AtLeastIsLexicographic(v: Semver, min: Semver)
    ensures AtLeast(v, min) <==> !LexLess(Triple(v), Triple(min))
  {
    var a, b := Triple(v), Triple(min);
    assert a[1..] == [v.minor, v.patch] && b[1..] == [min.minor, min.patch];
    assert a[1..][1..] == [v.patch] && b[1..][1..] == [min.patch];
    assert a[1..][1..][1..] == [] && b[1..][1..][1..] == [];
    assert !LexLess([], []);
    assert LexLess([v.patch], [min.patch]) <==> v.patch < min.patch;
    assert LexLess(a[1..], b[1..]) <==> v.minor < min.minor || (v.minor == min.minor && v.patch < min.patch);
  }

  /** Every version meets itself as a minimum. */
  lemma AtLeastReflexive(v: Semver)
    ensures AtLeast(v, v)
  {
  }

  /** Of two versions, one always meets the other. */
  lemma AtLeastTotal(v: Semver, w: Semver)
    ensures AtLeast(v, w) || AtLeast(w, v)
  {
  }

  lemma AtLeastTransitive(u: Semver, v: Semver, w: Semver)
    requires AtLeast(u, v) && AtLeast(v, w)
    ensures AtLeast(u, w)
  {
  }

  lemma AtLeastAntisymmetric(v: Semver, w: Semver)
    requires AtLeast(v, w) && AtLeast(w, v)
    ensures v == w
  {
  }

  /** The major version decides whenever it differs, whatever the minor and patch. */
  lemma MajorDecides(v: Semver, min: Semver)
    ensures v.major > min.major ==> AtLeast(v, min)
    ensures v.major < min.major ==> !AtLeast(v, min)
  {
  }

  /** On plainly spelled versions the check is exactly the lexicographic comparison. */
  lemma MeetsRenderedVersions(minimum: Semver, version: Semver)
    requires minimum.major >= 0 && minimum.minor >= 0 && minimum.patch >= 0
    requires version.major >= 0 && version.minor >= 0 && version.patch >= 0
    ensures MeetsMinimumVersion(Render(minimum), Render(version)) == Ok(!LexLess(Triple(version), Triple(minimum)))
  {
    ParseRender(minimum);
    ParseRender(version);
    AtLeastIsLexicographic(version, minimum);
  }
}
