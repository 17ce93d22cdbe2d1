/**
 Containment, joining and relative paths (src/config.c).  The disk is seen
 through what the code asks it: whether something exists, and `realpath`.
 */
module Containment {
  import opened Wrappers
  import opened PathText
  import opened PathReal

  datatype Disk = Disk(exist: string -> bool, isDirectory: string -> bool, realpath: string -> Option<string>,
                       cwd: Option<string>)

  /** What `syseba_path_real` makes of a path, as far as it fits in `size` bytes. */
  function RealText(path: string, cwd: Option<string>, size: nat): Option<string> {
    if Fits(Absolute(path, cwd), size) then Some(Normal(Absolute(path, cwd).value)) else None
  }

  predicate CanonicalText(s: string) {
    Normal(s) == s
  }

  ghost predicate SoundDisk(disk: Disk) {
    && (forall p, q :: disk.realpath(p) == Some(q) ==> CanonicalText(q))
    && (disk.cwd.Some? ==> disk.cwd.value != [] && disk.cwd.value[0] == '/')
  }

  /** No symbolic links: everything that exists is its own real path. */
  ghost predicate LinkFree(disk: Disk) {
    SoundDisk(disk) && disk.exist("/") && forall p :: disk.exist(p) && CanonicalText(p) ==> disk.realpath(p) == Some(p)
  }

  lemma CanonicalTextParts(s: string)
    ensures CanonicalText(s) ==> Canonical(Components(s)) && s == Text(Components(s))
    ensures CanonicalText(Normal(s)) && Components(Normal(s)) == Components(s)
  {
    NormalIsCanonical(s);
    ComponentsOfText(Components(s));
  }

  // ---------------------------------------------------------------------------
  // Parents
  // ---------------------------------------------------------------------------

  function LastSlash(s: string): (i: int)
    ensures -1 <= i < |s| && (i >= 0 ==> s[i] == '/') && forall j :: i < j < |s| ==> s[j] != '/'
  {
    if s == [] then -1
    else if s[|s| - 1] == '/' then |s| - 1
    else LastSlash(s[..|s| - 1])
  }

  /** `syseba_parent_dir` */
  function ParentDir(path: string): string {
    var slash := LastSlash(path);
    if slash < 0 then "." else if slash == 0 then "/" else path[..slash]
  }

  lemma {:induction false} LastSlashOfJoin(front: string, last: string)
    requires '/' !in last
    ensures LastSlash(front + "/" + last) == |front|
  {
    var s := front + "/" + last;
    if last != [] {
      var n := |last| - 1;
      assert s[|s| - 1] == last[n];
      assert s[..|s| - 1] == front + "/" + last[..n];
      LastSlashOfJoin(front, last[..n]);
    }
  }

  lemma ParentOfText(parts: seq<string>)
    requires Canonical(parts)
    ensures parts == [] ==> ParentDir(Text(parts)) == Text(parts)
    ensures parts != [] ==> ParentDir(Text(parts)) == Text(parts[..|parts| - 1]) != Text(parts)
  {
    if parts != [] {
      var n := |parts| - 1;
      assert IsComponent(parts[n]);
      LastSlashOfJoin(Slashed(parts[..n]), parts[n]);
      if n > 0 {
        TextFacts(parts[..n]);
      }
    }
  }

  // ---------------------------------------------------------------------------
  // Resolving links
  // ---------------------------------------------------------------------------

  /** The nearest ancestor that exists. */
  function Existing(disk: Disk, parts: seq<string>): Option<nat> {
    if disk.exist(Text(parts)) then Some(|parts|)
    else if parts == [] then None
    else Existing(disk, parts[..|parts| - 1])
  }

  /** Where a path leads: the real path of its nearest existing ancestor, and below it what is left. */
  function ResolvedParts(disk: Disk, path: string): Option<seq<string>> {
    var normal := RealText(path, disk.cwd, PATH_MAX);
    if normal == None then None
    else
      var parts := Components(normal.value);
      var n := Existing(disk, parts);
      if n == None || n.value > |parts| then None
      else
        var probe := Text(parts[..n.value]);
        var found := disk.realpath(probe);
        if found == None || |probe| > |normal.value| then None
        else
          var text := found.value + normal.value[|probe|..];
          if |text| < PATH_MAX && RealText(text, disk.cwd, PATH_MAX).Some? then
            Some(Components(Absolute(text, disk.cwd).value))
          else None
  }

  lemma {:induction false} ExistingIsAncestor(disk: Disk, parts: seq<string>)
    requires disk.exist("/")
    ensures Existing(disk, parts).Some? && Existing(disk, parts).value <= |parts|
    ensures disk.exist(Text(parts[..Existing(disk, parts).value]))
  {
    if disk.exist(Text(parts)) {
      assert parts[..|parts|] == parts;
    } else if parts != [] {
      var front := parts[..|parts| - 1];
      ExistingIsAncestor(disk, front);
      var n := Existing(disk, front).value;
      assert front[..n] == parts[..n];
    }
  }

  /** It exists, nothing between it and the path does, and there is none only when not even the root exists. */
  lemma {:induction false} ExistingIsNearest(disk: Disk, parts: seq<string>)
    ensures match Existing(disk, parts)
            case None => forall k :: 0 <= k <= |parts| ==> !disk.exist(Text(parts[..k]))
            case Some(n) =>
              && n <= |parts| && disk.exist(Text(parts[..n]))
              && forall k :: n < k <= |parts| ==> !disk.exist(Text(parts[..k]))
  {
    assert parts[..|parts|] == parts;
    if !disk.exist(Text(parts)) && parts != [] {
      var front := parts[..|parts| - 1];
      ExistingIsNearest(disk, front);
      assert forall k :: 0 <= k <= |front| ==> front[..k] == parts[..k];
    }
  }

  /** What the normaliser makes of a path leads where the path leads. */
  lemma RealTextLeads(path: string, cwd: Option<string>, size: nat)
    requires RealText(path, cwd, size).Some?
    ensures RealText(path, cwd, size).value == Text(LeadsTo(path, cwd)) && |RealText(path, cwd, size).value| < size
    ensures Components(RealText(path, cwd, size).value) == LeadsTo(path, cwd)
  {
    AbsoluteLeads(path, cwd);
    CanonicalTextParts(Absolute(path, cwd).value);
  }

  lemma AncestorText(parts: seq<string>, n: nat)
    requires Canonical(parts) && n <= |parts|
    ensures Text(parts[..n]) <= Text(parts)
  {
    SlashedAppend(parts[..n], parts[n..]);
    assert parts[..n] + parts[n..] == parts;
    TextFacts(parts);
  }

  /** Without links a path leads where it says. */
  lemma LinkFreeResolves(disk: Disk, path: string)
    requires LinkFree(disk)
    ensures var normal := RealText(path, disk.cwd, PATH_MAX);
            ResolvedParts(disk, path) == if normal == None then None else Some(Components(normal.value))
  {
    var normal := RealText(path, disk.cwd, PATH_MAX);
    if normal.Some? {
      var s := normal.value;
      CanonicalTextParts(Absolute(path, disk.cwd).value);
      CanonicalTextParts(s);
      var parts := Components(s);
      ExistingIsAncestor(disk, parts);
      var n := Existing(disk, parts).value;
      AncestorText(parts, n);
      ComponentsOfText(parts[..n]);
      var probe := Text(parts[..n]);
      assert probe + s[|probe|..] == s;
      TextFacts(parts);
    }
  }

  /** One round of the climb. */
  lemma OneUp(disk: Disk, parts: seq<string>, n: nat)
    requires Canonical(parts) && n <= |parts| && !disk.exist(Text(parts[..n]))
    ensures ParentDir(Text(parts[..n])) == Text(parts[..n]) <==> n == 0
    ensures n == 0 ==> Existing(disk, parts[..n]) == None
    ensures n > 0 ==> ParentDir(Text(parts[..n])) == Text(parts[..n - 1])
    ensures n > 0 ==> Existing(disk, parts[..n]) == Existing(disk, parts[..n - 1])
  {
    ParentOfText(parts[..n]);
    if n > 0 {
      assert parts[..n][..n - 1] == parts[..n - 1];
    }
  }

  /** Climbs to the first ancestor that exists; no text when even the root does not. */
  method Climb(disk: Disk, start: string, ghost parts: seq<string>) returns (probe: string, ghost n: nat)
    requires Canonical(parts) && start == Text(parts)
    ensures probe == [] ==> Existing(disk, parts) == None
    ensures probe != [] ==> n <= |parts| && probe == Text(parts[..n]) && Existing(disk, parts) == Some(n)
  {
    probe := start;
    n := |parts|;
    assert parts[..n] == parts;
    TextFacts(parts);
    while !disk.exist(probe)
      invariant n <= |parts| && probe == Text(parts[..n])
      invariant Existing(disk, parts) == Existing(disk, parts[..n])
      decreases n
    {
      OneUp(disk, parts, n);
      var parent := ParentDir(probe);
      if parent == probe {
        return [], n;
      }
      probe := parent;
      n := n - 1;
    }
    TextFacts(parts[..n]);
  }

  /** `syseba_path_resolve_links`: the loop climbs to the first ancestor that exists, and ends. */
  method ResolveLinks(disk: Disk, path: string) returns (r: Option<string>)
    requires SoundDisk(disk)
    ensures r == match ResolvedParts(disk, path) { case None => None case Some(parts) => Some(Text(parts)) }
  {
    var normal := RealText(path, disk.cwd, PATH_MAX);
    if normal == None {
      return None;
    }
    ghost var parts := Components(normal.value);
    CanonicalTextParts(Absolute(path, disk.cwd).value);
    CanonicalTextParts(normal.value);
    assert parts[..|parts|] == parts;
    var probe;
    ghost var n;
    probe, n := Climb(disk, normal.value, parts);
    if probe == [] {
      return None;
    }
    assert Existing(disk, parts) == Some(n);
    AncestorText(parts, n);
    var found := disk.realpath(probe);
    if found == None {
      return None;
    }
    var text := found.value + normal.value[|probe|..];
    if |text| >= PATH_MAX {
      return None;
    }
    r := RealText(text, disk.cwd, PATH_MAX);
  }

  // ---------------------------------------------------------------------------
  // Containment
  // ---------------------------------------------------------------------------

  /** The comparison in `syseba_path_is_within`: a prefix of the text that ends at a boundary. */
  predicate TextWithin(base: string, candidate: string) {
    && base <= candidate
    && (|| (base != [] && base[|base| - 1] == '/')
        || |candidate| == |base|
        || candidate[|base|] == '/')
  }

  lemma TextBelow(a: seq<string>, rest: seq<string>)
    requires Canonical(a + rest) && a != []
    ensures Text(a + rest) == Text(a) + Slashed(rest)
    ensures rest != [] ==> Slashed(rest) != [] && Slashed(rest)[0] == '/'
  {
    SlashedAppend(a, rest);
    if rest != [] {
      assert forall i :: 0 <= i < |rest| ==> rest[i] == (a + rest)[|a| + i];
      TextFacts(rest);
    }
  }

  lemma BoundaryGivesPrefix(a: seq<string>, b: seq<string>)
    requires Canonical(a) && Canonical(b) && a != [] && TextWithin(Text(a), Text(b))
    ensures a <= b
  {
    TextFacts(a);
    TokensOfText(a);
    TokensOfText(b);
    var tail := Text(b)[|Text(a)|..];
    if tail == [] {
      assert Text(b) == Text(a);
    } else {
      assert Text(b) == Text(a) + "/" + tail[1..];
      TokensOfJoin(Text(a), tail[1..]);
    }
  }

  /** On canonical paths that is the prefix order on component lists. */
  lemma BoundaryIsComponentPrefix(a: seq<string>, b: seq<string>)
    requires Canonical(a) && Canonical(b)
    ensures TextWithin(Text(a), Text(b)) <==> a <= b
  {
    if a == [] {
      TextFacts(b);
    } else if a <= b {
      assert b == a + b[|a|..];
      TextBelow(a, b[|a|..]);
    } else if TextWithin(Text(a), Text(b)) {
      BoundaryGivesPrefix(a, b);
    }
  }

  /** Where `candidate` leads is where `base` leads, or below. */
  predicate Inside(disk: Disk, base: string, candidate: string) {
    var b, c := ResolvedParts(disk, base), ResolvedParts(disk, candidate);
    b.Some? && c.Some? && b.value <= c.value
  }

  lemma ResolvedCanonical(disk: Disk, path: string)
    ensures ResolvedParts(disk, path).Some? ==> Canonical(ResolvedParts(disk, path).value)
  {
    if ResolvedParts(disk, path).Some? {
      var normal := RealText(path, disk.cwd, PATH_MAX).value;
      var parts := Components(normal);
      var probe := Text(parts[..Existing(disk, parts).value]);
      NormalIsCanonical(Absolute(disk.realpath(probe).value + normal[|probe|..], disk.cwd).value);
    }
  }

  method IsWithin(disk: Disk, base: string, candidate: string) returns (r: bool)
    requires SoundDisk(disk)
    ensures r == Inside(disk, base, candidate)
  {
    var b := ResolveLinks(disk, base);
    if b == None {
      return false;
    }
    var c := ResolveLinks(disk, candidate);
    if c == None {
      return false;
    }
    ResolvedCanonical(disk, base);
    ResolvedCanonical(disk, candidate);
    BoundaryIsComponentPrefix(ResolvedParts(disk, base).value, ResolvedParts(disk, candidate).value);
    return TextWithin(b.value, c.value);
  }
}
