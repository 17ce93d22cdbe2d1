/** Joining a relative path below a root, and taking it off again (src/config.c). */
module Joining {
  import opened Wrappers
  import opened PathText
  import opened PathReal
  import opened Containment

  predicate IsSeparator(c: char) {
    c == '/' || c == '\\'
  }

  /** The loop that skips leading separators. */
  method SkipSeparators(s: string) returns (r: string)
    ensures r == Stripped(s)
  {
    var i := 0;
    assert s[0..] == s;
    while i < |s| && IsSeparator(s[i])
      invariant 0 <= i <= |s| && Stripped(s[i..]) == Stripped(s)
    {
      assert s[i..][1..] == s[i + 1..];
      i := i + 1;
    }
    return s[i..];
  }

  function Stripped(s: string): string {
    if s != [] && IsSeparator(s[0]) then Stripped(s[1..]) else s
  }

  /** `syseba_safe_join`: what is accepted leads at or below where the base leads. */
  method SafeJoin(disk: Disk, base: string, relative: Option<string>, size: nat) returns (r: Option<string>)
    requires SoundDisk(disk)
    ensures r.Some? ==> CanonicalText(r.value) && |r.value| < size && Inside(disk, base, r.value)
    ensures var combined := base + "/" + Stripped(if relative == None then "" else relative.value);
            && (r.Some? ==> RealText(combined, disk.cwd, size) == r)
            && (r == None ==>
                  || |combined| >= PATH_MAX
                  || RealText(combined, disk.cwd, size) == None
                  || !Inside(disk, base, RealText(combined, disk.cwd, size).value))
  {
    var cursor := SkipSeparators(if relative == None then "" else relative.value);
    var combined := base + "/" + cursor;
    if |combined| >= PATH_MAX {
      return None;
    }
    r := RealText(combined, disk.cwd, size);
    if r == None {
      return None;
    }
    CanonicalTextParts(Absolute(combined, disk.cwd).value);
    var within := IsWithin(disk, base, r.value);
    if !within {
      return None;
    }
  }

  /** Without links, every accepted join lies under its base, component by component. */
  lemma JoinIsUnderBase(disk: Disk, base: seq<string>, r: string)
    requires LinkFree(disk) && Canonical(base) && CanonicalText(r) && Inside(disk, Text(base), r)
    ensures base <= Components(r)
  {
    LinkFreeResolves(disk, Text(base));
    LinkFreeResolves(disk, r);
    ComponentsOfText(base);
    TextFacts(base);
    NormalIsCanonical(r);
    CanonicalTextParts(r);
    TextFacts(Components(r));
  }

  lemma InsideBelow(disk: Disk, base: seq<string>, parts: seq<string>)
    requires LinkFree(disk) && Canonical(base) && Canonical(parts)
    requires |Text(base)| < PATH_MAX && |Text(parts)| < PATH_MAX
    ensures Inside(disk, Text(base), Text(parts)) <==> base <= parts
  {
    LinkFreeResolves(disk, Text(base));
    LinkFreeResolves(disk, Text(parts));
    ComponentsOfText(base);
    ComponentsOfText(parts);
    TextFacts(base);
    TextFacts(parts);
  }

  /** The relative text of a descendant: its components with slashes between them. */
  function RelativeText(rest: seq<string>): string {
    if rest == [] then "" else Slashed(rest)[if Slashed(rest) == [] then 0 else 1..]
  }

  lemma StrippedSlashed(rest: seq<string>)
    requires Canonical(rest)
    ensures rest != [] ==> Slashed(rest) == "/" + RelativeText(rest)
    ensures Stripped(Slashed(rest)) == RelativeText(rest) && Stripped(RelativeText(rest)) == RelativeText(rest)
    ensures '\\' !in RelativeText(rest)
  {
    if rest != [] {
      TextFacts(rest);
      assert Slashed(rest) == ['/'] + Slashed(rest)[1..];
      FirstCharacter(rest);
    }
  }

  lemma {:induction false} FirstCharacter(rest: seq<string>)
    requires Canonical(rest) && rest != []
    ensures |Slashed(rest)| > 1 && !IsSeparator(Slashed(rest)[1])
  {
    var n := |rest| - 1;
    assert IsComponent(rest[n]);
    if n == 0 {
      assert rest[..n] == [];
      assert Slashed(rest[..n]) == "";
      assert Slashed(rest) == "" + "/" + rest[0];
      assert rest[0][0] in rest[0];
      assert Slashed(rest)[1] == rest[0][0];
    } else {
      FirstCharacter(rest[..n]);
    }
  }

  /** `syseba_relative_path`.  Without links it is defined exactly below the base, and is what the components
      of the path have beyond those of the base.  Whatever the links, what it returns is the normal text of the
      path with as many characters cut off as the base has, which leads from the base to the path if and only if
      the path has the components of the base in front; if the path is shorter, the result is arbitrary. */
  method RelativePath(disk: Disk, base: string, path: string, size: nat) returns (r: Option<string>)
    requires SoundDisk(disk)
    ensures var b, p := RealText(base, disk.cwd, PATH_MAX), RealText(path, disk.cwd, PATH_MAX);
            if b == None || p == None || !Inside(disk, b.value, p.value) then r == None
            else if |b.value| <= |p.value| then
              var relative := Stripped(p.value[|b.value|..]);
              && r == (if |relative| < size then Some(Separators(relative)) else None)
              && (r.Some? ==> (Components(b.value + "/" + r.value) == Components(p.value) <==>
                                 Components(b.value) <= Components(p.value)))
            else true
    ensures LinkFree(disk) ==>
              var b, p := RealText(base, disk.cwd, PATH_MAX), RealText(path, disk.cwd, PATH_MAX);
              if b == None || p == None || !(Components(b.value) <= Components(p.value)) then r == None
              else
                var relative := RelativeText(Components(p.value)[|Components(b.value)|..]);
                r == if |relative| < size then Some(relative) else None
  {
    var b := RealText(base, disk.cwd, PATH_MAX);
    if b == None {
      return None;
    }
    var p := RealText(path, disk.cwd, PATH_MAX);
    if p == None {
      return None;
    }
    if LinkFree(disk) {
      RelativeWithoutLinks(disk, Absolute(base, disk.cwd).value, Absolute(path, disk.cwd).value);
    }
    var within := IsWithin(disk, b.value, p.value);
    if !within {
      return None;
    }
    if |b.value| > |p.value| {
      r := *;
      return;
    }
    var relative := SkipSeparators(p.value[|b.value|..]);
    if |relative| >= size {
      return None;
    }
    CutOfNormal(Absolute(base, disk.cwd).value, Absolute(path, disk.cwd).value);
    return Some(Separators(relative));
  }

  lemma CutOfNormal(base: string, path: string)
    requires |Normal(base)| <= |Normal(path)|
    ensures var b, p := Normal(base), Normal(path);
            var r := Separators(Stripped(p[|b|..]));
            Components(b + "/" + r) == Components(p) <==> Components(b) <= Components(p)
  {
    var b, p := Normal(base), Normal(path);
    CanonicalTextParts(base);
    CanonicalTextParts(path);
    NormalIsCanonical(base);
    NormalIsCanonical(path);
    CutIsRightIff(Components(base), Components(path));
    TextFacts(Components(path));
    StrippedSuffix(p[|b|..]);
    assert forall c :: c in p[|b|..] ==> c in p;
    SeparatorsSame(Stripped(p[|b|..]));
  }

  lemma RelativeWithoutLinks(disk: Disk, base: string, path: string)
    requires LinkFree(disk) && |Normal(base)| < PATH_MAX && |Normal(path)| < PATH_MAX
    ensures var b, p := Normal(base), Normal(path);
            && (Inside(disk, b, p) <==> Components(b) <= Components(p))
            && (Components(b) <= Components(p) ==>
                  && |b| <= |p|
                  && Separators(Stripped(p[|b|..])) == RelativeText(Components(p)[|Components(b)|..]))
  {
    var from, to := Components(base), Components(path);
    CanonicalTextParts(base);
    CanonicalTextParts(path);
    NormalIsCanonical(base);
    NormalIsCanonical(path);
    InsideBelow(disk, from, to);
    if from <= to {
      BelowText(from, to);
      SeparatorsSame(RelativeText(to[|from|..]));
    }
  }

  // ---------------------------------------------------------------------------
  // Where the relative path is cut
  // ---------------------------------------------------------------------------

  /** What is cut off, with the base in front of it again. */
  function CutAndJoined(b: string, p: string): string
    requires |b| <= |p|
  {
    b + "/" + Stripped(p[|b|..])
  }

  lemma {:induction false} StrippedSuffix(s: string)
    ensures |Stripped(s)| <= |s| && (s != [] && s[0] == '/' ==> |Stripped(s)| < |s|)
    ensures forall c :: c in Stripped(s) ==> c in s
  {
    if s != [] && IsSeparator(s[0]) {
      StrippedSuffix(s[1..]);
    }
  }

  /** If joining again gives the path, the base was above it: `.` and `..` would lose too many characters. */
  lemma RejoinedIsBelow(from: seq<string>, to: seq<string>)
    requires Canonical(from) && Canonical(to) && from != [] && |Text(from)| <= |Text(to)|
    requires Components(CutAndJoined(Text(from), Text(to))) == to
    ensures from <= to
  {
    var b, p := Text(from), Text(to);
    var r := Stripped(p[|b|..]);
    TextFacts(from);
    TextFacts(to);
    StrippedSuffix(p[|b|..]);
    assert forall c :: c in p[|b|..] ==> c in p;
    SeparatorsSame(b + "/" + r);
    TokensOfJoin(b, r);
    TokensOfText(from);
    TokensWeight(r);
    TokensAreTokens(b + "/" + r);
    SlashedAppend(from, Tokens(r));
    ResolveLoses(from + Tokens(r));
  }

  /** The relative path that is cut off leads back to the path if and only if the components of the base are in front of
      those of the path, whatever the links are. */
  lemma CutIsRightIff(from: seq<string>, to: seq<string>)
    requires Canonical(from) && Canonical(to) && |Text(from)| <= |Text(to)|
    ensures Components(CutAndJoined(Text(from), Text(to))) == to <==> from <= to
  {
    if from <= to {
      BelowText(from, to);
      assert forall i :: 0 <= i < |to| - |from| ==> to[|from|..][i] == to[|from| + i];
      JoinComponents(from, to[|from|..]);
      assert from + to[|from|..] == to;
    } else if Components(CutAndJoined(Text(from), Text(to))) == to {
      RejoinedIsBelow(from, to);
    }
  }

  /** A path resolves through its nearest existing ancestor. */
  lemma ResolvesThrough(disk: Disk, parts: seq<string>, n: nat, target: seq<string>)
    requires Canonical(parts) && Canonical(target) && target != [] && 0 < n <= |parts|
    requires |Text(parts)| < PATH_MAX && |Text(target + parts[n..])| < PATH_MAX
    requires Existing(disk, parts) == Some(n) && disk.realpath(Text(parts[..n])) == Some(Text(target))
    ensures ResolvedParts(disk, Text(parts)) == Some(target + parts[n..])
  {
    ThroughText(parts, n, target);
    RealOfText(parts, disk.cwd);
    RealOfText(target + parts[n..], disk.cwd);
    TextFacts(target + parts[n..]);
  }

  lemma ThroughText(parts: seq<string>, n: nat, target: seq<string>)
    requires Canonical(parts) && Canonical(target) && target != [] && 0 < n <= |parts|
    ensures Canonical(target + parts[n..]) && |Text(parts[..n])| <= |Text(parts)|
    ensures Text(target) + Text(parts)[|Text(parts[..n])|..] == Text(target + parts[n..])
  {
    var rest := parts[n..];
    assert parts == parts[..n] + rest;
    TextBelow(parts[..n], rest);
    TextBelow(target, rest);
    assert Text(parts)[|Text(parts[..n])|..] == Slashed(rest);
  }

  /** A disk on which the directory `long` is a link to the directory `a`. */
  function LinkedDisk(): Disk {
    var there := p => p == "/" || p == "/a" || p == "/long";
    Disk(there, there, p => if p == "/" then Some("/") else if there(p) then Some("/a") else None, None)
  }

  lemma OneName(name: string)
    ensures Text([name]) == "/" + name
  {
    assert [name][..0] == [];
    assert Slashed([name]) == Slashed([]) + "/" + name;
  }

  lemma LinkedTexts()
    ensures Text(["a"]) == "/a" && Text(["long"]) == "/long" && Text(["long", "x"]) == "/long/x"
    ensures Canonical(["a"]) && Canonical(["long"]) && Canonical(["long", "x"]) && Canonical(["a", "x"])
    ensures |Text(["a", "x"])| == 4
  {
    OneName("a");
    OneName("long");
    assert ["long", "x"][..1] == ["long"] && ["a", "x"][..1] == ["a"];
    assert Slashed(["long", "x"]) == Slashed(["long"]) + "/" + "x";
    assert Slashed(["a", "x"]) == Slashed(["a"]) + "/" + "x";
  }

  lemma LinkedResolves(disk: Disk)
    requires disk == LinkedDisk()
    ensures ResolvedParts(disk, "/a") == Some(["a"]) && ResolvedParts(disk, "/long") == Some(["a"])
    ensures ResolvedParts(disk, "/long/x") == Some(["a", "x"])
  {
    LinkedTexts();
    assert ["a"][..1] == ["a"] && ["long"][..1] == ["long"] && ["long", "x"][..1] == ["long"];
    assert ["a"] + ["a"][1..] == ["a"] && ["a"] + ["long"][1..] == ["a"] && ["a"] + ["long", "x"][1..] == ["a", "x"];
    assert Existing(disk, ["long"]) == Some(1);
    assert Existing(disk, ["long", "x"]) == Some(1);
    ResolvesThrough(disk, ["a"], 1, ["a"]);
    ResolvesThrough(disk, ["long"], 1, ["a"]);
    ResolvesThrough(disk, ["long", "x"], 1, ["a"]);
  }

  lemma LinkedIsSound(disk: Disk)
    requires disk == LinkedDisk()
    ensures SoundDisk(disk)
  {
    LinkedTexts();
    ComponentsOfText(["a"]);
    ComponentsOfText([]);
  }

  /** There the path `/long/x` is inside the base `/a`, and the relative path that is cut off is `ong/x`; and `/a`
      is inside the base `/long`, which is longer. */
  lemma CutGoesWrong() returns (disk: Disk)
    ensures SoundDisk(disk) && Inside(disk, "/a", "/long/x") && Stripped("/long/x"[|"/a"|..]) == "ong/x"
    ensures !(Components("/a") <= Components("/long/x"))
    ensures Inside(disk, "/long", "/a") && |"/long"| > |"/a"|
  {
    disk := LinkedDisk();
    LinkedIsSound(disk);
    LinkedInside(disk);
    LinkedCut();
    LinkedApart();
  }

  lemma LinkedInside(disk: Disk)
    requires disk == LinkedDisk()
    ensures Inside(disk, "/a", "/long/x") && Inside(disk, "/long", "/a")
  {
    LinkedResolves(disk);
  }

  lemma LinkedCut()
    ensures Stripped("/long/x"[|"/a"|..]) == "ong/x"
  {
    assert "/long/x"[2..] == "ong/x";
  }

  lemma LinkedApart()
    ensures !(Components("/a") <= Components("/long/x"))
  {
    LinkedTexts();
    ComponentsOfText(["a"]);
    ComponentsOfText(["long", "x"]);
  }

  lemma BelowText(from: seq<string>, to: seq<string>)
    requires Canonical(from) && Canonical(to) && from <= to
    ensures Text(from) <= Text(to)
    ensures Stripped(Text(to)[|Text(from)|..]) == RelativeText(to[|from|..])
    ensures '\\' !in RelativeText(to[|from|..])
  {
    var rest := to[|from|..];
    assert to == from + rest;
    assert forall i :: 0 <= i < |rest| ==> rest[i] == to[|from| + i];
    StrippedSlashed(rest);
    if from == [] {
      TextFacts(to);
      assert rest == to;
    } else {
      TextBelow(from, rest);
      assert Text(to)[|Text(from)|..] == Slashed(rest);
    }
  }

  // ---------------------------------------------------------------------------
  // From the source to another root
  // ---------------------------------------------------------------------------

  lemma JoinComponents(base: seq<string>, rest: seq<string>)
    requires Canonical(base) && Canonical(rest)
    ensures var combined := Text(base) + "/" + RelativeText(rest);
            combined[0] == '/' && Components(combined) == base + rest
  {
    var combined := Text(base) + "/" + RelativeText(rest);
    TextFacts(base);
    StrippedSlashed(rest);
    SeparatorsSame(combined);
    TokensOfJoin(Text(base), RelativeText(rest));
    TokensOfText(base);
    TokensOfSlashed(rest);
    if rest != [] {
      assert Slashed(rest)[1..] == RelativeText(rest);
    }
    ResolveAppend([], base);
    assert [] + base == base;
    ResolveAppend(base, rest);
  }

  lemma RealOfText(parts: seq<string>, cwd: Option<string>)
    requires Canonical(parts) && |Text(parts)| < PATH_MAX
    ensures RealText(Text(parts), cwd, PATH_MAX) == Some(Text(parts)) && Components(Text(parts)) == parts
  {
    TextFacts(parts);
    ComponentsOfText(parts);
  }

  lemma RelativeIsShorter(base: seq<string>, rest: seq<string>)
    requires Canonical(base) && Canonical(rest)
    ensures |RelativeText(rest)| < |Text(base + rest)|
  {
    assert Canonical(base + rest);
    TextFacts(base + rest);
    StrippedSlashed(rest);
    SlashedAppend(base, rest);
  }

  /** What joining a relative path below a root gives. */
  lemma JoinGives(disk: Disk, root: seq<string>, rest: seq<string>)
    requires LinkFree(disk) && Canonical(root) && Canonical(rest) && |Text(root)| < PATH_MAX
    ensures var combined := Text(root) + "/" + RelativeText(rest);
            && (RealText(combined, disk.cwd, PATH_MAX).Some? ==>
                  && RealText(combined, disk.cwd, PATH_MAX) == Some(Text(root + rest))
                  && Inside(disk, Text(root), Text(root + rest)))
            && (|combined| < PATH_MAX ==> RealText(combined, disk.cwd, PATH_MAX).Some?)
  {
    var combined := Text(root) + "/" + RelativeText(rest);
    JoinComponents(root, rest);
    assert Canonical(root + rest);
    JoinedLength(root, rest);
    if |Text(root + rest)| < PATH_MAX {
      InsideBelow(disk, root, root + rest);
    }
  }

  lemma JoinedLength(root: seq<string>, rest: seq<string>)
    requires Canonical(root) && Canonical(rest)
    ensures |Text(root + rest)| <= |Text(root)| + 1 + |RelativeText(rest)|
  {
    SlashedAppend(root, rest);
    StrippedSlashed(rest);
  }

  /** The text of the place below `root` that belongs to a path below `source`. */
  function TargetText(source: seq<string>, root: seq<string>, path: string, cwd: Option<string>): Option<string> {
    var p := RealText(path, cwd, PATH_MAX);
    if p == None || Beyond(source, p.value) == None then None
    else
      var rest := Beyond(source, p.value).value;
      if |Text(root)| + 1 + |RelativeText(rest)| < PATH_MAX then Some(Text(root + rest)) else None
  }

  /** How the text of an event path becomes a backup or restore path: relative to the source, then below the
      root.  What counts is the normal form of the text. */
  method Target(disk: Disk, source: seq<string>, root: seq<string>, path: string) returns (r: Option<string>)
    requires LinkFree(disk) && Canonical(source) && Canonical(root)
    requires |Text(root)| < PATH_MAX && |Text(source)| < PATH_MAX
    ensures r == TargetText(source, root, path, disk.cwd)
  {
    RealOfText(source, disk.cwd);
    var relative := RelativePath(disk, Text(source), path, PATH_MAX);
    ghost var p := RealText(path, disk.cwd, PATH_MAX);
    if p.Some? && Beyond(source, p.value).Some? {
      RelativeFits(disk, source, path);
    }
    if relative == None {
      return None;
    }
    ghost var rest := Beyond(source, p.value).value;
    NormalIsCanonical(p.value);
    BeyondIsCanonical(source, p.value);
    r := JoinRest(disk, root, rest, relative.value);
  }

  lemma RelativeFits(disk: Disk, source: seq<string>, path: string)
    requires Canonical(source) && RealText(path, disk.cwd, PATH_MAX).Some?
    requires Beyond(source, RealText(path, disk.cwd, PATH_MAX).value).Some?
    ensures |RelativeText(Beyond(source, RealText(path, disk.cwd, PATH_MAX).value).value)| < PATH_MAX
  {
    var p := RealText(path, disk.cwd, PATH_MAX).value;
    var rest := Beyond(source, p).value;
    CanonicalTextParts(Absolute(path, disk.cwd).value);
    CanonicalTextParts(p);
    NormalIsCanonical(p);
    BeyondIsCanonical(source, p);
    RelativeIsShorter(source, rest);
    assert source + rest == Components(p);
  }

  method JoinRest(disk: Disk, root: seq<string>, ghost rest: seq<string>, relative: string) returns (r: Option<string>)
    requires LinkFree(disk) && Canonical(root) && Canonical(rest) && |Text(root)| < PATH_MAX
    requires relative == RelativeText(rest)
    ensures r == if |Text(root)| + 1 + |RelativeText(rest)| < PATH_MAX then Some(Text(root + rest)) else None
  {
    StrippedSlashed(rest);
    JoinComponents(root, rest);
    JoinGives(disk, root, rest);
    r := SafeJoin(disk, Text(root), Some(relative), PATH_MAX);
  }

  /** Joining the relative path of a descendant gives that descendant back, if only the joined text fits. */
  method JoinRelative(disk: Disk, base: seq<string>, rest: seq<string>) returns (r: Option<string>)
    requires LinkFree(disk) && Canonical(base) && Canonical(rest)
    requires |Text(base)| < PATH_MAX && |Text(base + rest)| < PATH_MAX
    ensures r == if |Text(base)| + 1 + |RelativeText(rest)| < PATH_MAX then Some(Text(base + rest)) else None
  {
    assert Canonical(base + rest);
    RealOfText(base + rest, disk.cwd);
    assert (base + rest)[|base|..] == rest;
    r := Target(disk, base, base, Text(base + rest));
  }

  // ---------------------------------------------------------------------------
  // Where events land
  // ---------------------------------------------------------------------------

  /** What the components of a path have beyond those of a root, if they are below it. */
  function Beyond(root: seq<string>, path: string): Option<seq<string>> {
    var parts := Components(path);
    if root <= parts then Some(parts[|root|..]) else None
  }

  lemma BeyondIsCanonical(root: seq<string>, path: string)
    ensures Beyond(root, path).Some? ==> Canonical(Beyond(root, path).value)
  {
    NormalIsCanonical(path);
  }

  /** Where the entry `rest` of the source at `root` lands in backup and in restore: a name may stand for
      several components there, or take some back. */
  function Landing(root: seq<string>, rest: seq<string>): Option<seq<string>> {
    Beyond(root, Text(root + rest))
  }

  /** Two event paths share their target exactly when their normal forms are the same. */
  lemma SharedTarget(source: seq<string>, root: seq<string>, a: string, b: string)
    requires Canonical(root) && Beyond(source, a).Some? && Beyond(source, b).Some?
    ensures Text(root + Beyond(source, a).value) == Text(root + Beyond(source, b).value)
            <==> Components(a) == Components(b)
  {
    var x, y := Beyond(source, a).value, Beyond(source, b).value;
    BeyondIsCanonical(source, a);
    BeyondIsCanonical(source, b);
    assert source + x == Components(a) && source + y == Components(b);
    assert (root + x)[|root|..] == x && (root + y)[|root|..] == y;
    if Text(root + x) == Text(root + y) {
      TextInjective(root + x, root + y);
    }
  }

  /** An entry lands at its own path exactly when its names are plain components: in particular, when none
      of them has a backslash. */
  lemma LandsAtHome(root: seq<string>, rest: seq<string>)
    requires Canonical(root)
    ensures Landing(root, rest) == Some(rest) <==> Canonical(rest)
    ensures Landing(root, rest).Some? ==> Canonical(Landing(root, rest).value)
  {
    BeyondIsCanonical(root, Text(root + rest));
    if Canonical(rest) {
      ComponentsOfText(root + rest);
      assert (root + rest)[|root|..] == rest;
    }
  }

  /** The text of an entry of the source, as the walk builds it, normalises to where the entry lands. */
  lemma EventText(root: seq<string>, rest: seq<string>, cwd: Option<string>)
    requires root + rest != []
    ensures var p := RealText(Text(root + rest), cwd, PATH_MAX);
            && (p.Some? <==> |Text(root + rest)| < PATH_MAX)
            && (p.Some? ==> Beyond(root, p.value) == Landing(root, rest))
  {
    var s := Text(root + rest);
    SlashedStart(root + rest);
    NormalShrinks(s);
    CanonicalTextParts(s);
  }

  lemma {:induction false} SlashedStart(parts: seq<string>)
    requires parts != []
    ensures Slashed(parts) != [] && Slashed(parts)[0] == '/'
  {
    if |parts| > 1 {
      SlashedStart(parts[..|parts| - 1]);
    } else {
      assert parts[..0] == [];
      assert Slashed(parts[..0]) == "";
    }
  }

  lemma SeparatorsOfJoin(a: string, x: string, y: string)
    requires '\\' !in a && '\\' !in x && '\\' !in y
    ensures Separators(a + "/" + (x + "\\" + y)) == a + "/" + x + "/" + y
  {
    var s, t := a + "/" + (x + "\\" + y), a + "/" + x + "/" + y;
    forall i | 0 <= i < |s|
      ensures Separators(s)[i] == t[i]
    {
      if i < |a| {
        assert s[i] == a[i] && a[i] in a;
      } else if |a| < i <= |a| + |x| {
        assert s[i] == x[i - |a| - 1] && x[i - |a| - 1] in x;
      } else if i > |a| + 1 + |x| {
        assert s[i] == y[i - |a| - |x| - 2] && y[i - |a| - |x| - 2] in y;
      }
    }
  }

  /** A backslash in a name is lost: the file `x\y` lands where the file `y` in the directory `x` does. */
  lemma BackslashCollides(root: seq<string>, x: string, y: string)
    requires Canonical(root) && IsComponent(x) && IsComponent(y)
    ensures Landing(root, [x + "\\" + y]) == Landing(root, [x, y]) == Some([x, y])
  {
    var odd, even := root + [x + "\\" + y], root + [x, y];
    assert Slashed(odd) == Slashed(root) + "/" + (x + "\\" + y) by {
      assert odd[..|odd| - 1] == root;
    }
    assert Slashed(even) == Slashed(root) + "/" + x + "/" + y by {
      assert even[..|even| - 1] == root + [x] && (root + [x])[..|root|] == root;
    }
    TextFacts(root);
    SeparatorsOfJoin(Slashed(root), x, y);
    LandsAtHome(root, [x, y]);
    TextFacts(even);
    SeparatorsSame(Text(even));
  }

  lemma OneUp(root: seq<string>, x: string)
    requires Canonical(root) && IsComponent(x)
    ensures Resolve(root + [x, ".."]) == root
  {
    var tokens := root + [x, ".."];
    assert tokens[..|root| + 1] == root + [x] && (root + [x])[..|root|] == root;
    ResolveAppend([], root);
    assert [] + root == root;
    assert Resolve(root + [x]) == root + [x];
  }

  lemma TokensUp(root: seq<string>, x: string)
    requires Canonical(root) && IsComponent(x)
    ensures Tokens(Slashed(root) + "/" + x + "/" + "..") == root + [x, ".."]
  {
    TokensOfSlashed(root);
    TokensOfJoin(Slashed(root), x);
    TokensOfJoin(Slashed(root) + "/" + x, "..");
    TokenAlone(x);
    TokenAlone("..");
  }

  /** Even the root of a tree can be the target of an entry: the file `x\..` stands for it. */
  lemma RootIsATarget(root: seq<string>, x: string)
    requires Canonical(root) && IsComponent(x)
    ensures Landing(root, [x + "\\" + ".."]) == Some([])
  {
    var odd := root + [x + "\\" + ".."];
    assert Slashed(odd) == Slashed(root) + "/" + (x + "\\" + "..") by {
      assert odd[..|odd| - 1] == root;
    }
    TextFacts(root);
    SeparatorsOfJoin(Slashed(root), x, "..");
    TokensUp(root, x);
    OneUp(root, x);
    assert Components(Text(odd)) == root && root[|root|..] == [];
  }
}
