/**
 * Semantic Versioning 2.0.0: the version value, its rendering, the parser
 * for the grammar of the "Backus-Naur Form Grammar" section of semver.org,
 * and precedence as defined in section 11.
 *
 * `Parse` plays the part of the semver library's `VersionInfo.is_valid` and
 * `VersionInfo.parse`, `Render` the part of its `__str__`.
 */
module SemVer {
  import opened Wrappers
  import opened Text

  /**
   * A version as the semver library holds it: three numbers and the
   * pre-release and build parts as the text after `-` and `+`.
   */
  datatype Version = Version(major: nat, minor: nat, patch: nat,
                             prerelease: Option<string>, build: Option<string>)

  // ---------------------------------------------------------------------
  // Grammar

  /** `<identifier character>`: an ASCII letter, digit or hyphen. */
  predicate IsIdentChar(c: char)
  {
    IsDigit(c) || 'a' <= c <= 'z' || 'A' <= c <= 'Z' || c == '-'
  }

  /** A non-empty run of identifier characters (`<build identifier>`). */
  predicate IsIdent(s: string)
  {
    |s| > 0 && forall i :: 0 <= i < |s| ==> IsIdentChar(s[i])
  }

  /**
   * `<pre-release identifier>`: alphanumeric (some character is not a digit)
   * or a numeric identifier without leading zeros.
   */
  predicate IsPrereleaseIdent(s: string)
  {
    IsIdent(s) && (AllDigits(s) ==> IsNumeral(s))
  }

  /** `<dot-separated pre-release identifiers>` */
  predicate IsPrerelease(s: string)
  {
    var ids := Split(s, '.');
    forall i :: 0 <= i < |ids| ==> IsPrereleaseIdent(ids[i])
  }

  /** `<dot-separated build identifiers>` */
  predicate IsBuild(s: string)
  {
    var ids := Split(s, '.');
    forall i :: 0 <= i < |ids| ==> IsIdent(ids[i])
  }

  /** The versions the grammar can describe. */
  predicate WellFormed(v: Version)
  {
    && (v.prerelease.Some? ==> IsPrerelease(v.prerelease.value))
    && (v.build.Some? ==> IsBuild(v.build.value))
  }

  // ---------------------------------------------------------------------
  // Rendering and parsing

  /** `MAJOR.MINOR.PATCH` */
  function CoreText(v: Version): string
  {
    Join([Decimal(v.major), Decimal(v.minor), Decimal(v.patch)], '.')
  }

  /**
   * The version string. As in the library, a part is written only when it is
   * present and non-empty.
   */
  function Render(v: Version): string
  {
    CoreText(v)
    + (if v.prerelease.Some? && v.prerelease.value != "" then "-" + v.prerelease.value else "")
    + (if v.build.Some? && v.build.value != "" then "+" + v.build.value else "")
  }

  /**
   * Parses `MAJOR.MINOR.PATCH[-PRERELEASE][+BUILD]`. The build part starts at
   * the first `+` and the pre-release part at the first `-` before it, since
   * neither character can occur earlier in a valid version.
   */
  function Parse(s: string): Option<Version>
  {
    var (main, build) := SplitOff(s, '+');
    var (core, pre) := SplitOff(main, '-');
    var nums := Split(core, '.');
    if && |nums| == 3
       && IsNumeral(nums[0]) && IsNumeral(nums[1]) && IsNumeral(nums[2])
       && (pre.Some? ==> IsPrerelease(pre.value))
       && (build.Some? ==> IsBuild(build.value))
    then Some(Version(NumeralValue(nums[0]), NumeralValue(nums[1]), NumeralValue(nums[2]), pre, build))
    else None
  }

  /** `semver.VersionInfo.is_valid` */
  predicate IsValid(s: string)
  {
    Parse(s).Some?
  }

  // ---------------------------------------------------------------------
  // Parse is the inverse of Render

  /** No character outside `[0-9A-Za-z-.]` occurs in a well-formed dotted part. */
  lemma DottedExcludes(s: string, x: char)
    requires forall i :: 0 <= i < |Split(s, '.')| ==> IsIdent(Split(s, '.')[i])
    requires !IsIdentChar(x) && x != '.'
    ensures x !in s
  {
    var ids := Split(s, '.');
    forall i | 0 <= i < |ids|
      ensures x !in ids[i]
    {
      assert IsIdent(ids[i]);
    }
    JoinExcludes(ids, '.', x);
    JoinSplit(s, '.');
  }

  lemma CoreTextExcludes(v: Version, x: char)
    requires !IsDigit(x) && x != '.'
    ensures x !in CoreText(v)
  {
    var parts := [Decimal(v.major), Decimal(v.minor), Decimal(v.patch)];
    forall i | 0 <= i < 3
      ensures x !in parts[i]
    {
      if x in parts[i] {
        var k :| 0 <= k < |parts[i]| && parts[i][k] == x;
      }
    }
    JoinExcludes(parts, '.', x);
  }

  /** The empty string is neither a pre-release nor a build part. */
  lemma EmptyIsNotDotted()
    ensures !IsPrerelease("") && !IsBuild("")
  {
    assert Split("", '.') == [""];
    assert !IsIdent(Split("", '.')[0]);
  }

  /** A well-formed version renders as its parts glued by `-` and `+`. */
  lemma RenderGlue(v: Version)
    requires WellFormed(v)
    ensures Render(v) == Glue(Glue(CoreText(v), v.prerelease, '-'), v.build, '+')
  {
    EmptyIsNotDotted();
    var core := CoreText(v);
    var preText := if v.prerelease.Some? then "-" + v.prerelease.value else "";
    var buildText := if v.build.Some? then "+" + v.build.value else "";
    assert Glue(core, v.prerelease, '-') == core + preText;
    assert Glue(core + preText, v.build, '+') == core + preText + buildText;
  }

  /** Round trip: every well-formed version parses back from its rendering. */
  lemma ParseRender(v: Version)
    requires WellFormed(v)
    ensures Parse(Render(v)) == Some(v)
  {
    RenderGlue(v);
    var core := CoreText(v);
    var main := Glue(core, v.prerelease, '-');
    CoreTextExcludes(v, '+');
    CoreTextExcludes(v, '-');
    if v.prerelease.Some? {
      DottedExcludes(v.prerelease.value, '+');
    }
    assert '+' !in main;
    SplitOffGlue(main, v.build, '+');
    SplitOffGlue(core, v.prerelease, '-');
    var nums := [Decimal(v.major), Decimal(v.minor), Decimal(v.patch)];
    SplitJoin(nums, '.');
    NumeralValueDecimal(v.major);
    NumeralValueDecimal(v.minor);
    NumeralValueDecimal(v.patch);
  }

  /** Soundness: whatever parses is well-formed and renders back to the input. */
  lemma RenderParse(s: string)
    requires IsValid(s)
    ensures WellFormed(Parse(s).value) && Render(Parse(s).value) == s
  {
    var v := Parse(s).value;
    var (main, build) := SplitOff(s, '+');
    var (core, pre) := SplitOff(main, '-');
    var nums := Split(core, '.');
    GlueSplitOff(s, '+');
    GlueSplitOff(main, '-');
    JoinSplit(core, '.');
    DecimalNumeralValue(nums[0]);
    DecimalNumeralValue(nums[1]);
    DecimalNumeralValue(nums[2]);
    assert nums == [nums[0], nums[1], nums[2]];
    assert CoreText(v) == core;
    RenderGlue(v);
  }

  /** A version with neither pre-release nor build renders as its three numbers. */
  lemma RenderCoreOnly(v: Version)
    requires v.prerelease.None? && v.build.None?
    ensures Render(v) == Decimal(v.major) + "." + Decimal(v.minor) + "." + Decimal(v.patch)
  {
    var parts := [Decimal(v.major), Decimal(v.minor), Decimal(v.patch)];
    assert parts[1..][1..] == [Decimal(v.patch)];
    assert Join(parts[1..], '.') == Decimal(v.minor) + "." + Decimal(v.patch);
  }

  /** A pre-release part is appended to the rendering after a `-`. */
  lemma RenderPrerelease(v: Version)
    requires v.prerelease.Some? && v.prerelease.value != "" && v.build.None?
    ensures Render(v) == Render(v.(prerelease := None)) + "-" + v.prerelease.value
  {
  }

  /** An alphanumeric identifier followed by `.` and a number is a pre-release part. */
  lemma NamedPrerelease(name: string, n: nat)
    requires IsIdent(name) && !AllDigits(name)
    ensures IsPrerelease(name + "." + Decimal(n))
  {
    var num := Decimal(n);
    var ids := [name, num];
    assert '.' !in name;
    assert '.' !in num;
    SplitJoin(ids, '.');
    assert Join(ids, '.') == name + "." + num;
    assert IsPrereleaseIdent(name);
    assert IsPrereleaseIdent(num);
  }

  /** A rendering never starts with a zero followed by another digit. */
  lemma RenderNoLeadingZero(v: Version)
    ensures var r := Render(v); !(|r| >= 2 && r[0] == '0' && IsDigit(r[1]))
  {
    var d := Decimal(v.major);
    var rest := Join([Decimal(v.minor), Decimal(v.patch)], '.');
    var r := Render(v);
    assert [d, Decimal(v.minor), Decimal(v.patch)][1..] == [Decimal(v.minor), Decimal(v.patch)];
    assert CoreText(v) == d + ['.'] + rest;
    assert r[0] == d[0];
    if |d| == 1 {
      assert r[1] == '.';
    } else {
      assert r[1] == d[1];
    }
  }

  /** Numbers have no leading zeros: a string starting with `0` and a digit is invalid. */
  lemma LeadingZeroRejected(s: string)
    requires |s| >= 2 && s[0] == '0' && IsDigit(s[1])
    ensures !IsValid(s)
  {
    if IsValid(s) {
      RenderParse(s);
      RenderNoLeadingZero(Parse(s).value);
    }
  }

  /** The strings the grammar accepts are exactly the renderings of well-formed versions. */
  lemma ParseIff(s: string, v: Version)
    ensures Parse(s) == Some(v) <==> WellFormed(v) && Render(v) == s
  {
    if Parse(s) == Some(v) {
      RenderParse(s);
    }
    if WellFormed(v) && Render(v) == s {
      ParseRender(v);
    }
  }

  // ---------------------------------------------------------------------
  // Precedence (section 11)

  /** Lexicographic order of `(major, minor, patch)` (section 11.2). */
  predicate CoreLess(a: Version, b: Version)
  {
    || a.major < b.major
    || (a.major == b.major && a.minor < b.minor)
    || (a.major == b.major && a.minor == b.minor && a.patch < b.patch)
  }

  predicate SameCore(a: Version, b: Version)
  {
    a.major == b.major && a.minor == b.minor && a.patch == b.patch
  }

  /** ASCII (code point) order of strings. */
  predicate LexLess(x: string, y: string)
  {
    if |x| == 0 then |y| > 0
    else if |y| == 0 then false
    else if x[0] != y[0] then x[0] < y[0]
    else LexLess(x[1..], y[1..])
  }

  predicate IsNumeric(x: string) { |x| > 0 && AllDigits(x) }

  /**
   * Section 11.4.1-11.4.3: numeric identifiers compare numerically and rank
   * below alphanumeric ones, which compare in ASCII order.
   */
  predicate IdentLess(x: string, y: string)
  {
    if IsNumeric(x) && IsNumeric(y) then NumeralValue(x) < NumeralValue(y)
    else if IsNumeric(x) then true
    else if IsNumeric(y) then false
    else LexLess(x, y)
  }

  /** Section 11.4.4: first differing identifier decides; a proper prefix ranks lower. */
  predicate IdentsLess(xs: seq<string>, ys: seq<string>)
  {
    if |xs| == 0 then |ys| > 0
    else if |ys| == 0 then false
    else if xs[0] != ys[0] then IdentLess(xs[0], ys[0])
    else IdentsLess(xs[1..], ys[1..])
  }

  /** Section 11.3: a pre-release ranks below the same core without one. */
  predicate PrereleaseLess(a: Option<string>, b: Option<string>)
  {
    match (a, b)
    case (Some(x), None) => true
    case (Some(x), Some(y)) => IdentsLess(Split(x, '.'), Split(y, '.'))
    case _ => false
  }

  /** `a` has lower precedence than `b`; build metadata is ignored. */
  predicate Less(a: Version, b: Version)
  {
    || CoreLess(a, b)
    || (SameCore(a, b) && PrereleaseLess(a.prerelease, b.prerelease))
  }

  lemma {:induction false} LexLessAsymmetric(x: string, y: string)
    ensures LexLess(x, y) ==> !LexLess(y, x)
  {
    if |x| > 0 && |y| > 0 && x[0] == y[0] {
      LexLessAsymmetric(x[1..], y[1..]);
    }
  }

  lemma {:induction false} IdentsLessAsymmetric(xs: seq<string>, ys: seq<string>)
    ensures IdentsLess(xs, ys) ==> !IdentsLess(ys, xs)
  {
    if |xs| > 0 && |ys| > 0 {
      if xs[0] == ys[0] {
        IdentsLessAsymmetric(xs[1..], ys[1..]);
      } else {
        LexLessAsymmetric(xs[0], ys[0]);
      }
    }
  }

  /** Precedence is a strict order: never both `a < b` and `b < a`, so never `a < a`. */
  lemma LessAsymmetric(a: Version, b: Version)
    ensures Less(a, b) ==> !Less(b, a)
  {
    if a.prerelease.Some? && b.prerelease.Some? {
      IdentsLessAsymmetric(Split(a.prerelease.value, '.'), Split(b.prerelease.value, '.'));
    }
  }
}
