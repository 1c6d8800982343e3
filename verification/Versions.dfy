/** Comparison of release versions, as the updater decides whether one is newer. */
module Versions {
  import opened Shared
  import opened Text

  /** Reads a decimal integer at the start of `s` as scanning with %d does: white
      space is skipped, but a newline in it, a missing number or one that does not
      fit in 64 bits leaves the result at zero. */
  function ScanInt(s: string): int {
    var body := TrimLeft(s);
    var negative := body != "" && body[0] == '-';
    var signed := body != "" && (body[0] == '-' || body[0] == '+');
    var digits := DigitPrefix(if signed then body[1..] else body);
    var magnitude: int := DigitsValue(digits);
    var value := if negative then -magnitude else magnitude;
    if '\n' in s[..|s| - |body|] || digits == "" || !InInt64(value) then 0 else value
  }

  function TrimV(s: string): string {
    if s != "" && s[0] == 'v' then s[1..] else s
  }

  function Parts(version: string): (parts: seq<string>)
    ensures |parts| >= 1
  {
    Split(TrimV(TrimSpace(version)), '.')
  }

  function Component(parts: seq<string>, i: nat): int {
    if i < |parts| then ScanInt(parts[i]) else 0
  }

  /** The three numbers that decide a comparison. */
  function Key(version: string): (key: seq<int>)
    ensures |key| == 3
  {
    var parts := Parts(version);
    [Component(parts, 0), Component(parts, 1), Component(parts, 2)]
  }

  /** Lexicographic precedence: the first difference decides. */
  ghost predicate Precedes(a: seq<int>, b: seq<int>)
    requires |a| == |b|
  {
    exists i :: 0 <= i < |a| && a[..i] == b[..i] && a[i] < b[i]
  }

  /** -1, 0 or 1 as `a` is older than, as new as, or newer than `b`. */
  function Order(a: seq<int>, b: seq<int>): (r: int)
    requires |a| == |b|
    ensures r == -1 || r == 0 || r == 1
  {
    if a == [] then 0
    else if a[0] != b[0] then (if a[0] < b[0] then -1 else 1)
    else Order(a[1..], b[1..])
  }

  method Compare(a: string, b: string) returns (r: int)
    ensures r == Order(Key(a), Key(b))
  {
    var pa, pb := Parts(a), Parts(b);
    for i := 0 to 3
      invariant Order(Key(a), Key(b)) == Order(Key(a)[i..], Key(b)[i..])
    {
      var ai, bi := 0, 0;
      if i < |pa| {
        ai := ScanInt(pa[i]);
      }
      if i < |pb| {
        bi := ScanInt(pb[i]);
      }
      assert ai == Key(a)[i] && bi == Key(b)[i];
      assert Key(a)[i..][1..] == Key(a)[i + 1..] && Key(b)[i..][1..] == Key(b)[i + 1..];
      if ai != bi {
        return if ai < bi then -1 else 1;
      }
    }
    r := 0;
  }

  // ------------------------------------------------------------------
  // The order
  // ------------------------------------------------------------------

  /** The comparison is lexicographic order on the three numbers, both ways. */
  lemma {:induction false} OrderIsLexicographic(a: seq<int>, b: seq<int>)
    requires |a| == |b|
    ensures Order(a, b) == -1 <==> Precedes(a, b)
    ensures Order(a, b) == 1 <==> Precedes(b, a)
    ensures Order(a, b) == 0 <==> a == b
  {
    if a != [] {
      if a[0] == b[0] {
        OrderIsLexicographic(a[1..], b[1..]);
        PrecedesTail(a, b);
        PrecedesTail(b, a);
        assert a == [a[0]] + a[1..] && b == [b[0]] + b[1..];
      } else if a[0] < b[0] {
        assert a[..0] == b[..0];
        NotBothPrecede(a, b);
      } else {
        assert a[..0] == b[..0];
        NotBothPrecede(b, a);
      }
    }
  }

  lemma PrecedesTail(a: seq<int>, b: seq<int>)
    requires |a| == |b| > 0 && a[0] == b[0]
    ensures Precedes(a, b) <==> Precedes(a[1..], b[1..])
  {
    if i :| 0 <= i < |a| && a[..i] == b[..i] && a[i] < b[i] {
      assert a[1..][..i - 1] == a[..i][1..] && b[1..][..i - 1] == b[..i][1..];
      assert a[1..][i - 1] < b[1..][i - 1];
    }
    if i :| 0 <= i < |a[1..]| && a[1..][..i] == b[1..][..i] && a[1..][i] < b[1..][i] {
      assert a[..i + 1] == [a[0]] + a[1..][..i] && b[..i + 1] == [b[0]] + b[1..][..i];
      assert a[i + 1] < b[i + 1];
    }
  }

  lemma NotBothPrecede(a: seq<int>, b: seq<int>)
    requires |a| == |b| > 0 && a[0] < b[0]
    ensures Precedes(a, b) && !Precedes(b, a)
  {
    assert a[..0] == b[..0];
    forall i | 0 < i < |a|
      ensures b[..i] != a[..i]
    {
      assert b[..i][0] == b[0] && a[..i][0] == a[0];
    }
  }

  lemma {:induction false} OrderLaws(a: seq<int>, b: seq<int>, c: seq<int>)
    requires |a| == |b| == |c|
    ensures Order(b, a) == -Order(a, b)
    ensures Order(a, b) <= 0 && Order(b, c) <= 0 ==> Order(a, c) <= 0
    ensures Order(a, b) <= 0 && Order(b, c) < 0 ==> Order(a, c) < 0
    ensures Order(a, b) < 0 && Order(b, c) <= 0 ==> Order(a, c) < 0
  {
    if a != [] {
      OrderLaws(a[1..], b[1..], c[1..]);
    }
  }

  /** On all strings the comparison is a total preorder: antisymmetric in sign,
      transitive, and indifferent exactly between versions with the same numbers. */
  lemma TotalPreorder(a: string, b: string, c: string)
    ensures Order(Key(b), Key(a)) == -Order(Key(a), Key(b))
    ensures Order(Key(a), Key(b)) <= 0 || Order(Key(b), Key(a)) <= 0
    ensures Order(Key(a), Key(b)) <= 0 && Order(Key(b), Key(c)) <= 0 ==> Order(Key(a), Key(c)) <= 0
    ensures Order(Key(a), Key(b)) == 0 <==> Key(a) == Key(b)
    ensures Order(Key(a), Key(b)) == -1 <==> Precedes(Key(a), Key(b))
  {
    OrderLaws(Key(a), Key(b), Key(c));
    OrderIsLexicographic(Key(a), Key(b));
  }

  // ------------------------------------------------------------------
  // What does not matter
  // ------------------------------------------------------------------

  lemma SpacesDoNotMatter(before: string, version: string, after: string)
    requires Blank(before) && Blank(after)
    ensures Key(before + version + after) == Key(version)
  {
    TrimSpaceSkips(before, version, after);
  }

  lemma {:induction false} TrimmedStays(s: string)
    requires Trimmed(s)
    ensures TrimSpace(s) == s
  {
  }

  lemma ScanStopsAtV(s: string)
    ensures ScanInt(['v'] + s) == 0
  {
    assert TrimLeft(['v'] + s) == ['v'] + s;
    assert (['v'] + s)[..0] == "";
  }

  lemma SplitHead(c: char, s: string, sep: char)
    requires c != sep
    ensures Split([c] + s, sep) == [[c] + Split(s, sep)[0]] + Split(s, sep)[1..]
  {
    assert ([c] + s)[1..] == s;
  }

  /** The white space before a version. */
  function Margin(s: string): string {
    s[..|s| - |TrimLeft(s)|]
  }

  lemma MarginIsBlank(s: string)
    ensures Blank(Margin(s)) && '.' !in Margin(s) && s == Margin(s) + TrimLeft(s)
  {
    var blank := TrimLeftRemoves(s);
    assert Margin(s) == blank;
  }

  lemma TrimRightBehind(margin: string, core: string, after: string)
    requires Blank(margin) && Blank(after) && (core != "" ==> !IsSpace(core[|core| - 1]))
    ensures TrimRight(['v'] + (margin + (core + after))) == ['v'] + if core == "" then "" else margin + core
  {
    if core == "" {
      assert ['v'] + (margin + (core + after)) == ['v'] + (margin + after);
      TrimRightSkips(['v'], margin + after);
    } else {
      var kept := ['v'] + (margin + core);
      assert ['v'] + (margin + (core + after)) == kept + after;
      assert kept[|kept| - 1] == core[|core| - 1];
      TrimRightSkips(kept, after);
    }
  }

  /** What trimming makes of a version behind a "v": its margin stays, unless all of
      it is blank. */
  lemma TrimBehindV(version: string)
    ensures TrimSpace(['v'] + version)
            == ['v'] + if TrimSpace(version) == "" then "" else Margin(version) + TrimSpace(version)
  {
    var core, margin := TrimSpace(version), Margin(version);
    MarginIsBlank(version);
    var after := TrimRightRemoves(TrimLeft(version));
    assert TrimLeft(['v'] + version) == ['v'] + version;
    assert version == margin + (core + after);
    TrimRightBehind(margin, core, after);
  }

  lemma {:induction false} SplitBehind(blank: string, s: string, sep: char)
    requires sep !in blank
    ensures Split(blank + s, sep) == [blank + Split(s, sep)[0]] + Split(s, sep)[1..]
  {
    if blank == "" {
      assert blank + s == s && "" + Split(s, sep)[0] == Split(s, sep)[0];
    } else {
      assert blank + s == [blank[0]] + (blank[1..] + s);
      SplitBehind(blank[1..], s, sep);
      SplitHead(blank[0], blank[1..] + s, sep);
      assert [blank[0]] + (blank[1..] + Split(s, sep)[0]) == blank + Split(s, sep)[0];
    }
  }

  /** White space before a number counts only if it holds a newline. */
  lemma ScanBehind(blank: string, s: string)
    requires Blank(blank) && TrimLeft(s) == s
    ensures ScanInt(blank + s) == if '\n' in blank then 0 else ScanInt(s)
  {
    TrimLeftSkips(blank, s);
    assert (blank + s)[..|blank|] == blank;
    assert s[..0] == "";
  }

  lemma HeadIsTrimmed(core: string)
    requires TrimLeft(core) == core
    ensures TrimLeft(Split(core, '.')[0]) == Split(core, '.')[0]
  {
    if core != "" && core[0] != '.' {
      assert core == [core[0]] + core[1..];
      SplitHead(core[0], core[1..], '.');
    }
  }

  lemma TrimmedLeft(version: string)
    ensures TrimLeft(TrimSpace(version)) == TrimSpace(version)
  {
    var blank := TrimLeftRemoves(version);
    var after := TrimRightRemoves(TrimLeft(version));
    if TrimSpace(version) != "" {
      assert TrimLeft(version)[0] == TrimSpace(version)[0];
    }
  }

  lemma PartsBehindV(version: string)
    requires TrimSpace(version) != ""
    ensures
      var parts := Split(TrimSpace(version), '.');
      Parts(['v'] + version) == [Margin(version) + parts[0]] + parts[1..]
  {
    var core, margin := TrimSpace(version), Margin(version);
    TrimBehindV(version);
    MarginIsBlank(version);
    assert (['v'] + (margin + core))[1..] == margin + core;
    SplitBehind(margin, core, '.');
  }

  lemma WithoutV(core: string)
    requires core != "" && core[0] == 'v'
    ensures Split(TrimV(core), '.')[1..] == Split(core, '.')[1..]
    ensures ScanInt(Split(core, '.')[0]) == 0
  {
    assert core == ['v'] + core[1..];
    SplitHead('v', core[1..], '.');
    ScanStopsAtV(Split(core[1..], '.')[0]);
  }

  lemma HeadBehindV(core: string, margin: string)
    requires core != "" && TrimLeft(core) == core && Blank(margin)
    ensures
      var parts, trimmed := Split(core, '.'), Split(TrimV(core), '.');
      && trimmed[1..] == parts[1..]
      && ScanInt(margin + parts[0]) == if core[0] == 'v' || '\n' in margin then 0 else ScanInt(trimmed[0])
  {
    HeadIsTrimmed(core);
    ScanBehind(margin, Split(core, '.')[0]);
    if core[0] == 'v' {
      WithoutV(core);
    }
  }

  /** A leading "v" is ignored, but only one, and what follows it is no longer trimmed.
      So putting one before a version matters exactly when the version already begins with
      one, or with white space that holds a newline, and its first number is not zero. */
  lemma LeadingV(version: string)
    ensures
      var core := TrimSpace(version);
      Key(['v'] + version) == Key(version)
      <==> ((core != "" && core[0] == 'v') || '\n' in Margin(version) ==> Key(version)[0] == 0)
  {
    var core, margin := TrimSpace(version), Margin(version);
    if core == "" {
      TrimBehindV(version);
      assert TrimV(['v'] + "") == "";
    } else {
      PartsBehindV(version);
      TrimmedLeft(version);
      MarginIsBlank(version);
      HeadBehindV(core, margin);
      var parts, trimmed := Parts(['v'] + version), Parts(version);
      assert parts[1..] == trimmed[1..];
      assert forall i :: 1 <= i ==> Component(parts, i) == Component(trimmed, i) by {
        forall i | 1 <= i
          ensures Component(parts, i) == Component(trimmed, i)
        {
          assert i < |parts| ==> parts[1..][i - 1] == trimmed[1..][i - 1];
        }
      }
    }
  }

  // ------------------------------------------------------------------
  // Semantic Versioning
  // ------------------------------------------------------------------

  function Dotted(x: nat, y: nat, z: nat, suffix: string): string {
    Decimal(x) + "." + Decimal(y) + "." + Decimal(z) + suffix
  }

  lemma ScanDigits(digits: string, suffix: string)
    requires digits != "" && AllDigits(digits) && (suffix != "" ==> !IsDigit(suffix[0]))
    ensures ScanInt(digits + suffix) == if DigitsValue(digits) <= MAX_INT64 then DigitsValue(digits) else 0
  {
    var s := digits + suffix;
    assert s[0] == digits[0] && IsDigit(s[0]);
    assert TrimLeft(s) == s && s[..0] == "";
    DigitPrefixStops(digits, suffix);
  }

  /** A sign belongs to the number. */
  lemma SignsAreRead(n: nat)
    ensures ScanInt("+" + Decimal(n)) == Read(n)
    ensures ScanInt("-" + Decimal(n)) == if n <= MAX_INT64 + 1 then -(n as int) else 0
  {
    DecimalValue(n);
    var plus, minus := "+" + Decimal(n), "-" + Decimal(n);
    assert plus[1..] == Decimal(n) && minus[1..] == Decimal(n);
    assert TrimLeft(plus) == plus && TrimLeft(minus) == minus;
    assert plus[..0] == "" && minus[..0] == "";
    DigitPrefixStops(Decimal(n), "");
    assert Decimal(n) + "" == Decimal(n);
  }

  lemma ScanDecimal(n: nat, suffix: string)
    requires suffix != "" ==> !IsDigit(suffix[0])
    ensures ScanInt(Decimal(n) + suffix) == if n <= MAX_INT64 then n else 0
  {
    DecimalValue(n);
    ScanDigits(Decimal(n), suffix);
  }

  lemma SplitDecimal(n: nat, rest: string)
    ensures Split(Decimal(n) + "." + rest, '.') == [Decimal(n)] + Split(rest, '.')
  {
    SplitConcat(Decimal(n), '.', rest);
    SplitSingle(Decimal(n), '.');
  }

  /** Leading digits stay in front of the first part. */
  lemma {:induction false} SplitAfterDigits(digits: string, suffix: string)
    requires AllDigits(digits)
    ensures Split(digits + suffix, '.') == [digits + Split(suffix, '.')[0]] + Split(suffix, '.')[1..]
  {
    if digits == "" {
      assert digits + suffix == suffix && digits + Split(suffix, '.')[0] == Split(suffix, '.')[0];
      assert Split(suffix, '.') == [Split(suffix, '.')[0]] + Split(suffix, '.')[1..];
    } else {
      assert IsDigit(digits[0]) && digits[0] != '.';
      assert digits + suffix == [digits[0]] + (digits[1..] + suffix);
      SplitAfterDigits(digits[1..], suffix);
      SplitHead(digits[0], digits[1..] + suffix, '.');
      assert [digits[0]] + (digits[1..] + Split(suffix, '.')[0]) == digits + Split(suffix, '.')[0];
    }
  }

  lemma DottedIsTrimmed(x: nat, y: nat, z: nat, suffix: string)
    requires suffix != "" ==> !IsSpace(suffix[|suffix| - 1])
    ensures var v := Dotted(x, y, z, suffix);
            v != "" && IsDigit(v[0]) && TrimV(TrimSpace(v)) == v
  {
    var v := Dotted(x, y, z, suffix);
    assert v[0] == Decimal(x)[0];
    assert v[|v| - 1] == if suffix == "" then Decimal(z)[|Decimal(z)| - 1] else suffix[|suffix| - 1];
    TrimmedStays(v);
  }

  lemma DottedNests(a: string, b: string, c: string, suffix: string)
    ensures a + "." + b + "." + c + suffix == a + "." + (b + "." + (c + suffix))
  {
  }

  lemma DottedParts(x: nat, y: nat, z: nat, suffix: string)
    requires suffix != "" ==> !IsSpace(suffix[|suffix| - 1])
    ensures Parts(Dotted(x, y, z, suffix))
            == [Decimal(x)] + ([Decimal(y)] + ([Decimal(z) + Split(suffix, '.')[0]] + Split(suffix, '.')[1..]))
  {
    var tail := Decimal(z) + suffix;
    var middle := Decimal(y) + "." + tail;
    DottedIsTrimmed(x, y, z, suffix);
    DottedNests(Decimal(x), Decimal(y), Decimal(z), suffix);
    SplitDecimal(x, middle);
    SplitDecimal(y, tail);
    SplitAfterDigits(Decimal(z), suffix);
  }

  lemma SplitKeepsFirst(s: string, sep: char)
    ensures Split(s, sep)[0] != "" ==> s != "" && Split(s, sep)[0][0] == s[0]
  {
  }

  function Read(n: nat): int {
    if n <= MAX_INT64 then n else 0
  }

  lemma KeyOfParts(version: string, a: string, b: string, c: string, rest: seq<string>)
    requires Parts(version) == [a] + ([b] + ([c] + rest))
    ensures Key(version) == [ScanInt(a), ScanInt(b), ScanInt(c)]
  {
    assert Parts(version)[0] == a && Parts(version)[1] == b && Parts(version)[2] == c;
  }

  lemma ScanDecimalAlone(n: nat)
    ensures ScanInt(Decimal(n)) == Read(n)
  {
    ScanDecimal(n, "");
    assert Decimal(n) + "" == Decimal(n);
  }

  lemma DottedReads(x: nat, y: nat, z: nat, suffix: string)
    requires suffix != "" ==> !IsDigit(suffix[0]) && !IsSpace(suffix[|suffix| - 1])
    ensures Key(Dotted(x, y, z, suffix)) == [Read(x), Read(y), Read(z)]
  {
    var cut := Split(suffix, '.')[0];
    DottedParts(x, y, z, suffix);
    KeyOfParts(Dotted(x, y, z, suffix), Decimal(x), Decimal(y), Decimal(z) + cut, Split(suffix, '.')[1..]);
    SplitKeepsFirst(suffix, '.');
    ScanDecimal(z, cut);
    ScanDecimalAlone(x);
    ScanDecimalAlone(y);
  }

  /** The numbers of MAJOR.MINOR.PATCH, with or without a pre-release or build suffix,
      are read as written exactly when they fit in 64 bits. */
  lemma DottedKey(x: nat, y: nat, z: nat, suffix: string)
    requires suffix != "" ==> !IsDigit(suffix[0]) && !IsSpace(suffix[|suffix| - 1])
    ensures Key(Dotted(x, y, z, suffix)) == [x, y, z]
            <==> x <= MAX_INT64 && y <= MAX_INT64 && z <= MAX_INT64
  {
    DottedReads(x, y, z, suffix);
    var read := [Read(x), Read(y), Read(z)];
    assert read == [x, y, z] ==> read[0] == x && read[1] == y && read[2] == z;
  }

  lemma PlainIsTrimmed(v: string)
    requires v != "" && IsDigit(v[0]) && !IsSpace(v[|v| - 1])
    ensures TrimV(TrimSpace(v)) == v
  {
    TrimmedStays(v);
  }

  /** Missing numbers are zero: "1" and "1.2" are "1.0.0" and "1.2.0". */
  lemma MissingPartsAreZero(x: nat, y: nat)
    ensures Key("") == [0, 0, 0]
    ensures Key(Decimal(x)) == [Read(x), 0, 0]
    ensures Key(Decimal(x) + "." + Decimal(y)) == [Read(x), Read(y), 0]
  {
    var one, two := Decimal(x), Decimal(x) + "." + Decimal(y);
    PlainIsTrimmed(one);
    assert two[|two| - 1] == Decimal(y)[|Decimal(y)| - 1];
    PlainIsTrimmed(two);
    SplitSingle(one, '.');
    SplitSingle(Decimal(y), '.');
    SplitDecimal(x, Decimal(y));
    ScanDecimalAlone(x);
    ScanDecimalAlone(y);
    assert ScanInt("") == 0;
  }

  lemma OrderOfThree(x: int, y: int, z: int, x': int, y': int, z': int)
    ensures var r := Order([x, y, z], [x', y', z']);
            && (r < 0 <==> x < x' || (x == x' && (y < y' || (y == y' && z < z'))))
            && (r == 0 <==> x == x' && y == y' && z == z')
  {
    var a, b := [x, y, z], [x', y', z'];
    assert a[1..] == [y, z] && b[1..] == [y', z'];
    assert [y, z][1..] == [z] && [y', z'][1..] == [z'];
    assert Order([z], [z']) == if z < z' then -1 else if z == z' then 0 else 1 by {
      assert [z][1..] == [] && [z'][1..] == [];
    }
  }

  /** Section 11 of Semantic Versioning 2.0.0 orders versions without a pre-release
      tag by their three numbers, and ignores build metadata. */
  lemma AgreesWithSemanticVersioning(x: nat, y: nat, z: nat, build: string, x': nat, y': nat, z': nat, build': string)
    requires x <= MAX_INT64 && y <= MAX_INT64 && z <= MAX_INT64
    requires x' <= MAX_INT64 && y' <= MAX_INT64 && z' <= MAX_INT64
    requires build != "" ==> build[0] == '+' && !IsSpace(build[|build| - 1])
    requires build' != "" ==> build'[0] == '+' && !IsSpace(build'[|build'| - 1])
    ensures var r := Order(Key(Dotted(x, y, z, build)), Key(Dotted(x', y', z', build')));
            && (r < 0 <==> x < x' || (x == x' && (y < y' || (y == y' && z < z'))))
            && (r == 0 <==> x == x' && y == y' && z == z')
  {
    DottedKey(x, y, z, build);
    DottedKey(x', y', z', build');
    OrderOfThree(x, y, z, x', y', z');
  }

  /** How a version is written behind its three numbers. */
  ghost predicate Suffix(suffix: string, pre: Option<string>, build: string) {
    && suffix == (match pre case None => "" case Some(tag) => "-" + tag) + build
    && (build != "" ==> build[0] == '+')
    && (suffix != "" ==> !IsSpace(suffix[|suffix| - 1]))
  }

  /** Section 11 of Semantic Versioning 2.0.0: the numbers first, then a pre-release before
      its release, then the pre-release tags by an order of their own; build metadata does
      not count. */
  function Standard(tags: (string, string) -> int, x: nat, y: nat, z: nat, pre: Option<string>,
                    x': nat, y': nat, z': nat, pre': Option<string>): int
  {
    if x != x' then (if x < x' then -1 else 1)
    else if y != y' then (if y < y' then -1 else 1)
    else if z != z' then (if z < z' then -1 else 1)
    else
      match (pre, pre')
      case (None, None) => 0
      case (Some(_), None) => -1
      case (None, Some(_)) => 1
      case (Some(tag), Some(tag')) => tags(tag, tag')
  }

  lemma StandardOnNumbers(tags: (string, string) -> int, x: nat, y: nat, z: nat, pre: Option<string>,
                          x': nat, y': nat, z': nat, pre': Option<string>)
    ensures [x, y, z] == [x', y', z'] <==> x == x' && y == y' && z == z'
    ensures [x, y, z] != [x', y', z'] ==>
              Standard(tags, x, y, z, pre, x', y', z', pre') == Order([x, y, z], [x', y', z'])
  {
    var a, b := [x, y, z], [x', y', z'];
    OrderOfThree(x, y, z, x', y', z');
    assert a == b ==> a[0] == b[0] && a[1] == b[1] && a[2] == b[2];
  }

  predicate Fit(x: nat, y: nat, z: nat) {
    x <= MAX_INT64 && y <= MAX_INT64 && z <= MAX_INT64
  }

  /** Neither is a pre-release, or both are and rank equal. */
  predicate RankEqual(tags: (string, string) -> int, pre: Option<string>, pre': Option<string>) {
    if pre.None? || pre'.None? then pre == pre' else tags(pre.value, pre'.value) == 0
  }

  /** The comparison agrees with the standard exactly when the numbers differ and still
      compare alike with those too large for 64 bits read as zero, or they are the same and
      the pre-releases rank equal. So for numbers that fit, it is wrong exactly about
      pre-releases of one version, against each other or against that version. */
  lemma AgreesExactly(tags: (string, string) -> int,
                      x: nat, y: nat, z: nat, pre: Option<string>, build: string, suffix: string,
                      x': nat, y': nat, z': nat, pre': Option<string>, build': string, suffix': string)
    requires Suffix(suffix, pre, build) && Suffix(suffix', pre', build')
    ensures
      var r := Order(Key(Dotted(x, y, z, suffix)), Key(Dotted(x', y', z', suffix')));
      var agrees := r == Standard(tags, x, y, z, pre, x', y', z', pre');
      && (agrees <==> if [x, y, z] == [x', y', z'] then RankEqual(tags, pre, pre')
                      else Order([Read(x), Read(y), Read(z)], [Read(x'), Read(y'), Read(z')])
                           == Order([x, y, z], [x', y', z']))
      && (Fit(x, y, z) && Fit(x', y', z') ==>
            (agrees <==> [x, y, z] != [x', y', z'] || RankEqual(tags, pre, pre')))
  {
    DottedReads(x, y, z, suffix);
    DottedReads(x', y', z', suffix');
    StandardOnNumbers(tags, x, y, z, pre, x', y', z', pre');
    if [x, y, z] == [x', y', z'] {
      OrderOfThree(Read(x), Read(y), Read(z), Read(x'), Read(y'), Read(z'));
    }
  }

  /** A pre-release tag is ignored, where the standard puts the pre-release first. */
  lemma PreReleaseIsNotOlder(x: nat, y: nat, z: nat, tag: string)
    requires x <= MAX_INT64 && y <= MAX_INT64 && z <= MAX_INT64
    requires tag == "" || !IsSpace(tag[|tag| - 1])
    ensures Order(Key(Dotted(x, y, z, "-" + tag)), Key(Dotted(x, y, z, ""))) == 0
  {
    DottedKey(x, y, z, "-" + tag);
    DottedKey(x, y, z, "");
    OrderIsLexicographic([x, y, z], [x, y, z]);
  }
}
