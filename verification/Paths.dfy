/**
  Lexical path containment: the guard that keeps a configured name inside a
  directory. Paths are Unix paths and nothing is looked up on disk.
  */
module Paths {
  import opened Text

  datatype PathError = EmptyBase | RelativeBase | EmptyName | AbsoluteName | Outside

  datatype Resolved = Inside(path: string) | Refused(error: PathError)

  predicate IsAbs(path: string) {
    path != "" && path[0] == '/'
  }

  /** A path element that names something below its parent. */
  predicate Proper(part: string) {
    part != "" && part != "." && part != ".." && '/' !in part
  }

  ghost predicate AllProper(parts: seq<string>) {
    forall p :: p in parts ==> Proper(p)
  }

  /** Where one more path element leads from `at`; there is nothing above the root. */
  function Enter(at: seq<string>, part: string): seq<string> {
    if part == "" || part == "." then at
    else if part == ".." then (if at == [] then [] else at[..|at| - 1])
    else at + [part]
  }

  function Walk(at: seq<string>, parts: seq<string>): seq<string>
    decreases parts
  {
    if parts == [] then at else Walk(Enter(at, parts[0]), parts[1..])
  }

  /** The normalised components of an absolute path. */
  function Components(path: string): seq<string> {
    Walk([], Split(path, '/'))
  }

  function Slashed(parts: seq<string>): string {
    if parts == [] then "" else Slashed(parts[..|parts| - 1]) + "/" + parts[|parts| - 1]
  }

  function Render(parts: seq<string>): string {
    if parts == [] then "/" else Slashed(parts)
  }

  /** Lexical cleaning of an absolute path: single slashes, no "." or ".." elements,
      no trailing slash except at the root. */
  function Clean(path: string): string
    requires IsAbs(path)
  {
    Render(Components(path))
  }

  function Join(base: string, name: string): string
    requires IsAbs(base)
  {
    Clean(base + "/" + name)
  }

  predicate HasPrefix(s: string, prefix: string) {
    |prefix| <= |s| && s[..|prefix|] == prefix
  }

  /** Joins `name` onto `dir`, refusing a result outside it. */
  function ResolveInDir(dir: string, name: string): Resolved {
    if dir == "" then Refused(EmptyBase)
    else if !IsAbs(dir) then Refused(RelativeBase)
    else if name == "" then Refused(EmptyName)
    else if IsAbs(name) then Refused(AbsoluteName)
    else
      var base := Clean(dir);
      RenderIsAbs(Components(dir));
      var joined := Join(base, name);
      if joined != base && !HasPrefix(joined, base + "/") then Refused(Outside) else Inside(joined)
  }

  lemma {:induction false} SlashedIsAbs(parts: seq<string>)
    requires parts != []
    ensures IsAbs(Slashed(parts))
  {
    if |parts| > 1 {
      SlashedIsAbs(parts[..|parts| - 1]);
    } else {
      assert Slashed(parts[..0]) == "";
    }
  }

  lemma RenderIsAbs(parts: seq<string>)
    ensures IsAbs(Render(parts))
  {
    if parts != [] {
      SlashedIsAbs(parts);
    }
  }

  // ------------------------------------------------------------------
  // Walking
  // ------------------------------------------------------------------

  lemma {:induction false} WalkInTwo(at: seq<string>, a: seq<string>, b: seq<string>)
    ensures Walk(at, a + b) == Walk(Walk(at, a), b)
    decreases a
  {
    if a == [] {
      assert a + b == b;
    } else {
      assert (a + b)[1..] == a[1..] + b;
      WalkInTwo(Enter(at, a[0]), a[1..], b);
    }
  }

  lemma {:induction false} WalkProper(at: seq<string>, parts: seq<string>)
    requires AllProper(parts)
    ensures Walk(at, parts) == at + parts
    decreases parts
  {
    if parts == [] {
      assert at + parts == at;
    } else {
      assert Proper(parts[0]);
      WalkProper(at + [parts[0]], parts[1..]);
      assert at + [parts[0]] + parts[1..] == at + parts;
    }
  }

  lemma {:induction false} WalkStaysProper(at: seq<string>, parts: seq<string>)
    requires AllProper(at)
    requires forall p :: p in parts ==> '/' !in p
    ensures AllProper(Walk(at, parts))
    decreases parts
  {
    if parts != [] {
      assert parts[0] in parts;
      WalkStaysProper(Enter(at, parts[0]), parts[1..]);
    }
  }

  lemma ComponentsAreProper(path: string)
    ensures AllProper(Components(path))
  {
    SplitPartsHaveNoSeparator(path, '/');
    WalkStaysProper([], Split(path, '/'));
  }

  lemma ComponentsConcat(a: string, b: string)
    ensures Components(a + "/" + b) == Walk(Components(a), Split(b, '/'))
  {
    SplitConcat(a, '/', b);
    WalkInTwo([], Split(a, '/'), Split(b, '/'));
  }

  // ------------------------------------------------------------------
  // What each kind of path element does
  // ------------------------------------------------------------------

  lemma EnterBetween(a: string, part: string, b: string)
    requires '/' !in part
    ensures Components(a + "/" + part + "/" + b) == Walk(Enter(Components(a), part), Split(b, '/'))
  {
    assert a + "/" + part + "/" + b == a + "/" + (part + "/" + b);
    ComponentsConcat(a, part + "/" + b);
    SplitConcat(part, '/', b);
    SplitSingle(part, '/');
    assert ([part] + Split(b, '/'))[1..] == Split(b, '/');
  }

  lemma EnterLast(a: string, part: string)
    requires '/' !in part
    ensures Components(a + "/" + part) == Enter(Components(a), part)
  {
    ComponentsConcat(a, part);
    SplitSingle(part, '/');
    assert [part][1..] == [];
  }

  /** The root has no components, and a proper element adds itself. */
  lemma ProperElementIsAdded(a: string, x: string)
    requires Proper(x)
    ensures Components("") == Components("/") == []
    ensures Components(a + "/" + x) == Components(a) + [x]
  {
    EnterLast(a, x);
    EnterLast("", "");
    assert "" + "/" + "" == "/";
    SplitSingle("", '/');
    assert [""][1..] == [];
  }

  /** A dot stands for where one is, in the middle and at the end. */
  lemma DotIsNothing(a: string, b: string)
    ensures Components(a + "/./" + b) == Components(a + "/" + b)
    ensures Components(a + "/.") == Components(a)
  {
    EnterBetween(a, ".", b);
    assert a + "/" + "." + "/" + b == a + "/./" + b;
    ComponentsConcat(a, b);
    EnterLast(a, ".");
    assert a + "/" + "." == a + "/.";
  }

  /** Slashes count once, and not at the end. */
  lemma ExtraSlashesAreNothing(a: string, b: string)
    ensures Components(a + "//" + b) == Components(a + "/" + b)
    ensures Components(a + "/") == Components(a)
  {
    EnterBetween(a, "", b);
    assert a + "/" + "" + "/" + b == a + "//" + b;
    ComponentsConcat(a, b);
    EnterLast(a, "");
    assert a + "/" + "" == a + "/";
  }

  /** Two dots undo the proper element before them, in the middle and at the end. */
  lemma DotDotUndoes(a: string, x: string, b: string)
    requires Proper(x)
    ensures Components(a + "/" + x + "/../" + b) == Components(a + "/" + b)
    ensures Components(a + "/" + x + "/..") == Components(a)
  {
    EnterLast(a, x);
    EnterBetween(a + "/" + x, "..", b);
    assert a + "/" + x + "/" + ".." + "/" + b == a + "/" + x + "/../" + b;
    ComponentsConcat(a, b);
    EnterLast(a + "/" + x, "..");
    assert a + "/" + x + "/" + ".." == a + "/" + x + "/..";
  }

  /** There is nothing above the root. */
  lemma NothingAboveTheRoot(a: string, b: string)
    requires Components(a) == []
    ensures Components(a + "/../" + b) == Components(a + "/" + b)
    ensures Components(a + "/..") == []
  {
    EnterBetween(a, "..", b);
    assert a + "/" + ".." + "/" + b == a + "/../" + b;
    ComponentsConcat(a, b);
    EnterLast(a, "..");
    assert a + "/" + ".." == a + "/..";
  }

  // ------------------------------------------------------------------
  // Rendering
  // ------------------------------------------------------------------

  lemma {:induction false} SplitSlashed(parts: seq<string>)
    requires AllProper(parts)
    ensures Split(Slashed(parts), '/') == [""] + parts
  {
    if parts != [] {
      var front, last := parts[..|parts| - 1], parts[|parts| - 1];
      SplitSlashed(front);
      SplitConcat(Slashed(front), '/', last);
      assert last in parts;
      SplitSingle(last, '/');
      assert parts == front + [last];
    }
  }

  /** Rendering and taking components are inverse on proper components. */
  lemma ComponentsOfRender(parts: seq<string>)
    requires AllProper(parts)
    ensures Components(Render(parts)) == parts
  {
    if parts == [] {
      assert Split("/", '/') == ["", ""] by {
        SplitConcat("", '/', "");
        assert "" + ['/'] + "" == "/";
      }
      assert ["", ""][1..] == [""] && [""][1..] == [];
    } else {
      SplitSlashed(parts);
      assert ([""] + parts)[1..] == parts;
      WalkProper([], parts);
      assert [] + parts == parts;
    }
  }

  lemma {:induction false} SlashedConcat(a: seq<string>, b: seq<string>)
    ensures Slashed(a + b) == Slashed(a) + Slashed(b)
  {
    if b == [] {
      assert a + b == a;
    } else {
      assert (a + b)[..|a + b| - 1] == a + b[..|b| - 1];
      SlashedConcat(a, b[..|b| - 1]);
    }
  }

  lemma {:induction false} SlashedBegins(parts: seq<string>)
    requires parts != [] && AllProper(parts)
    ensures |Slashed(parts)| >= 2 && Slashed(parts)[0] == '/' && Slashed(parts)[1] != '/'
  {
    assert parts[|parts| - 1] in parts;
    if |parts| > 1 {
      SlashedBegins(parts[..|parts| - 1]);
    } else {
      assert Slashed(parts[..0]) == "";
    }
  }

  lemma PrefixMeansBelow(base: seq<string>, joined: seq<string>, rest: string)
    requires AllProper(base) && AllProper(joined) && base != [] && joined != []
    requires Slashed(joined) == Slashed(base) + "/" + rest
    ensures base <= joined
  {
    SplitConcat(Slashed(base), '/', rest);
    SplitSlashed(base);
    SplitSlashed(joined);
    SameTail("", joined, base, Split(rest, '/'));
  }

  lemma SameTail(first: string, whole: seq<string>, front: seq<string>, back: seq<string>)
    requires [first] + whole == [first] + front + back
    ensures whole == front + back
  {
    assert whole == ([first] + whole)[1..];
    assert front + back == ([first] + front + back)[1..];
  }

  lemma BelowMeansPrefix(base: seq<string>, joined: seq<string>)
    requires AllProper(joined) && base != [] && base < joined
    ensures HasPrefix(Slashed(joined), Slashed(base) + "/")
  {
    var below := joined[|base|..];
    assert joined == base + below;
    SlashedConcat(base, below);
    SlashedIsAbs(below);
  }

  lemma PrefixGivesBelow(base: seq<string>, joined: seq<string>)
    requires AllProper(base) && AllProper(joined) && base != [] && joined != []
    requires HasPrefix(Slashed(joined), Slashed(base) + "/")
    ensures base <= joined
  {
    var rest := Slashed(joined)[|Slashed(base) + "/"|..];
    assert Slashed(joined) == Slashed(base) + "/" + rest;
    PrefixMeansBelow(base, joined, rest);
  }

  /** The string test used by the guard, as a statement about components. */
  lemma PrefixTestIsContainment(base: seq<string>, joined: seq<string>)
    requires AllProper(base) && AllProper(joined)
    ensures Render(joined) == Render(base) || HasPrefix(Render(joined), Render(base) + "/")
            <==> if base == [] then joined == [] else base <= joined
  {
    ComponentsOfRender(base);
    ComponentsOfRender(joined);
    if joined != [] {
      SlashedBegins(joined);
    }
    if base != [] {
      SlashedBegins(base);
      if base < joined {
        BelowMeansPrefix(base, joined);
      }
      if base <= joined {
        assert base == joined || base < joined;
      }
      if joined != [] && HasPrefix(Render(joined), Render(base) + "/") {
        PrefixGivesBelow(base, joined);
      }
    }
  }

  // ------------------------------------------------------------------
  // The guard
  // ------------------------------------------------------------------

  /** Below the directory, or the directory itself; at the root, only the root. */
  ghost predicate Contained(dir: string, path: string) {
    if Components(dir) == [] then Components(path) == [] else Components(dir) <= Components(path)
  }

  lemma CleanIsNormal(path: string)
    requires IsAbs(path)
    ensures IsAbs(Clean(path)) && Components(Clean(path)) == Components(path)
    ensures Clean(Clean(path)) == Clean(path)
  {
    ComponentsAreProper(path);
    ComponentsOfRender(Components(path));
    RenderIsAbs(Components(path));
  }

  /** For an absolute directory and a relative name, the guard accepts exactly when
      the directory's components are a prefix of those of dir/name, whatever
      intermediate elements the name passes through; what it returns is clean. */
  lemma ResolveIsContainment(dir: string, name: string)
    requires IsAbs(dir) && name != "" && !IsAbs(name)
    ensures var r := ResolveInDir(dir, name);
            && (r.Inside? <==> Contained(dir, dir + "/" + name))
            && (r.Inside? ==>
                  && IsAbs(r.path) && Clean(r.path) == r.path
                  && Components(r.path) == Components(dir + "/" + name)
                  && Contained(dir, r.path))
            && (r.Refused? ==> r.error == Outside)
  {
    var base := Clean(dir);
    CleanIsNormal(dir);
    ComponentsConcat(base, name);
    ComponentsConcat(dir, name);
    var joined := Components(dir + "/" + name);
    assert Join(base, name) == Render(joined);
    ComponentsAreProper(dir);
    ComponentsAreProper(dir + "/" + name);
    PrefixTestIsContainment(Components(dir), joined);
    CleanIsNormal(base + "/" + name);
  }

  /** Every other argument is refused, with the reason the source gives. */
  lemma ResolveRefusals(dir: string, name: string)
    ensures ResolveInDir(dir, name).Inside? ==> IsAbs(dir) && name != "" && !IsAbs(name)
    ensures ResolveInDir(dir, name) == Refused(EmptyBase) <==> dir == ""
    ensures ResolveInDir(dir, name) == Refused(EmptyName) <==> IsAbs(dir) && name == ""
    ensures ResolveInDir(dir, name) == Refused(RelativeBase) <==> dir != "" && !IsAbs(dir)
    ensures ResolveInDir(dir, name) == Refused(AbsoluteName) <==> IsAbs(dir) && IsAbs(name)
  {
    if IsAbs(dir) && name != "" && !IsAbs(name) {
      ResolveIsContainment(dir, name);
    }
  }

  /** At the root everything but the root itself is refused. */
  lemma RootAcceptsOnlyItself(dir: string, name: string)
    requires IsAbs(dir) && Components(dir) == []
    ensures ResolveInDir(dir, name).Inside? ==> ResolveInDir(dir, name).path == "/"
    ensures ResolveInDir(dir, name).Inside? <==>
              name != "" && !IsAbs(name) && Components(dir + "/" + name) == []
  {
    if name != "" && !IsAbs(name) {
      ResolveIsContainment(dir, name);
      ComponentsAreProper(dir + "/" + name);
    }
  }

  /** Only the net result counts: a name may leave the directory and come back. */
  lemma LeavingAndReturningIsAccepted(dir: string, last: string, rest: string)
    requires IsAbs(dir) && Components(dir) != []
    requires last == Components(dir)[|Components(dir)| - 1]
    requires Proper(rest)
    ensures ResolveInDir(dir, "../" + last + "/" + rest)
            == Inside(Render(Components(dir) + [rest]))
  {
    var name := "../" + last + "/" + rest;
    var at := Components(dir);
    ComponentsAreProper(dir);
    assert Proper(last);
    assert name == ".." + "/" + (last + "/" + rest);
    SplitConcat("..", '/', last + "/" + rest);
    SplitConcat(last, '/', rest);
    SplitSingle("..", '/');
    SplitSingle(last, '/');
    SplitSingle(rest, '/');
    assert Split(name, '/') == [".."] + [last, rest];
    ComponentsConcat(dir, name);
    WalkInTwo(at, [".."], [last, rest]);
    assert [".."][1..] == [];
    WalkProper(at[..|at| - 1], [last, rest]);
    assert at[..|at| - 1] + [last, rest] == at + [rest];
    ResolveIsContainment(dir, name);
    ComponentsOfRender(at + [rest]);
  }

  lemma SameComponentsResolveAlike(dir: string, name: string, other: string)
    requires IsAbs(dir) && name != "" && !IsAbs(name) && other != "" && !IsAbs(other)
    requires Components(Clean(dir) + "/" + name) == Components(Clean(dir) + "/" + other)
    ensures ResolveInDir(dir, name) == ResolveInDir(dir, other)
  {
  }

  lemma Regroup(a: string, b: string, c: string, d: string)
    ensures a + b + (c + d) == a + (b + c) + d == a + b + c + d
  {
  }

  /** A dot in front of a name changes nothing, with one slash behind it or with two. */
  lemma LeadingDotIsNothing(dir: string, name: string)
    requires IsAbs(dir) && name != "" && !IsAbs(name)
    ensures ResolveInDir(dir, "./" + name) == ResolveInDir(dir, name)
    ensures ResolveInDir(dir, ".//" + name) == ResolveInDir(dir, name)
  {
    var base := Clean(dir);
    DotIsNothing(base, name);
    Regroup(base, "/", "./", name);
    assert "/" + "./" == "/./";
    SameComponentsResolveAlike(dir, "./" + name, name);
    ExtraSlashesAreNothing(base + "/.", name);
    Regroup(base, "/", ".//", name);
    Regroup(base, "/.", "//", name);
    Regroup(base, "/.", "/", name);
    assert "/" + ".//" == "/.//" == "/." + "//" && "/." + "/" == "/./";
    SameComponentsResolveAlike(dir, ".//" + name, name);
  }

  /** Nor does a slash behind it, with a dot or without. */
  lemma TrailingSlashIsNothing(dir: string, name: string)
    requires IsAbs(dir) && name != "" && !IsAbs(name)
    ensures ResolveInDir(dir, name + "/") == ResolveInDir(dir, name)
    ensures ResolveInDir(dir, name + "/.") == ResolveInDir(dir, name)
  {
    var base := Clean(dir);
    ExtraSlashesAreNothing(base + "/" + name, "");
    assert base + "/" + name + "/" == base + "/" + (name + "/");
    SameComponentsResolveAlike(dir, name + "/", name);
    DotIsNothing(base + "/" + name, "");
    assert base + "/" + name + "/." == base + "/" + (name + "/.");
    SameComponentsResolveAlike(dir, name + "/.", name);
  }

  /** A plain name is put behind the cleaned directory, in so many characters. */
  lemma PlainNameIsAppended(dir: string, name: string)
    requires IsAbs(dir) && Components(dir) != [] && Proper(name)
    ensures ResolveInDir(dir, name) == Inside(Clean(dir) + "/" + name)
  {
    var at := Components(dir);
    ProperElementIsAdded(dir, name);
    ResolveIsContainment(dir, name);
    var r := ResolveInDir(dir, name);
    assert r.path == Render(at + [name]);
    assert (at + [name])[..|at + [name]| - 1] == at;
  }
}
