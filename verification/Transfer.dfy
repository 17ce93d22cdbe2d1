/**
 Walking, copying, removing and moving whole subtrees (src/fs.c).  A move that
 crosses devices copies everything first and only then removes, deepest
 entries first.
 */
module Transfer {
  import opened Wrappers
  import opened PathText
  import opened Joining
  import opened FileTree

  /** A recursive walk of what lies strictly below `root`: every entry once,
      and a directory before anything inside it. */
  ghost predicate IsListing(t: Tree, root: Path, out: seq<Path>) {
    && (forall q :: q in out <==> Below(t, root, q))
    && ParentsFirst(out)
  }

  /** No entry repeats, and none stands before one of its ancestors. */
  ghost predicate ParentsFirst(out: seq<Path>) {
    forall i, j :: 0 <= i < j < |out| ==> !(out[j] <= out[i])
  }

  /** `out` lists what lies in and below the children of `root` that are in `done`. */
  ghost predicate ListsBelow(t: Tree, root: Path, done: set<Path>, out: seq<Path>) {
    && (forall q :: q in out <==> Below(t, root, q) && q[..|root| + 1] in done)
    && ParentsFirst(out)
  }

  predicate Below(t: Tree, root: Path, q: Path) {
    q in t && root <= q && q != root
  }

  function Children(t: Tree, root: Path): set<Path> {
    set q | q in t && q != [] && Parent(q) == root
  }

  /** The order in which `readdir` reports children is arbitrary. */
  method Walk(t: Tree, root: Path) returns (out: seq<Path>)
    requires WellFormed(t) && root in t
    ensures IsListing(t, root, out)
    decreases Subtree(t, root)
  {
    var children := Children(t, root);
    out := [];
    ghost var done := {};
    while children != {}
      invariant children + done == Children(t, root) && children !! done
      invariant ListsBelow(t, root, done, out)
      decreases children
    {
      var c :| c in children;
      assert c in Children(t, root);
      children := children - {c};
      assert root in Subtree(t, root) && root !in Subtree(t, c);
      var below := [];
      if t[c] == Dir {
        below := Walk(t, c);
      } else {
        NothingBelowFile(t, c);
      }
      WalkExtends(t, root, done, out, c, below);
      out := out + [c] + below;
      done := done + {c};
    }
    WalkComplete(t, root, out);
  }

  lemma WalkComplete(t: Tree, root: Path, out: seq<Path>)
    requires WellFormed(t) && ListsBelow(t, root, Children(t, root), out)
    ensures IsListing(t, root, out)
  {
    forall q | Below(t, root, q)
      ensures q in out
    {
      var c := q[..|root| + 1];
      if c != q {
        AncestorIsDir(t, q, |root| + 1);
      }
      assert Parent(c) == root;
    }
  }

  lemma NothingBelowFile(t: Tree, c: Path)
    requires WellFormed(t) && IsFile(t, c)
    ensures IsListing(t, c, [])
  {
    forall q | Below(t, c, q)
      ensures false
    {
      PrefixIsDir(t, c, q);
    }
  }

  /** A child and its subtree follow the subtrees of other children. */
  lemma WalkExtends(t: Tree, root: Path, done: set<Path>, out: seq<Path>, c: Path, below: seq<Path>)
    requires ListsBelow(t, root, done, out) && IsListing(t, c, below)
    requires c in Children(t, root) && c !in done
    ensures ListsBelow(t, root, done + {c}, out + [c] + below)
  {
    var r := out + [c] + below;
    assert root <= c && c[..|root| + 1] == c;
    forall q
      ensures q in r <==> Below(t, root, q) && q[..|root| + 1] in done + {c}
    {
      assert q in r <==> q in out || q == c || q in below;
      assert q in below <==> Below(t, c, q);
      if Below(t, root, q) && q[..|root| + 1] == c {
        assert c <= q;
      }
    }
    forall i, j | 0 <= i < j < |r|
      ensures !(r[j] <= r[i])
    {
      assert i < |out| ==> r[i] == out[i] && r[i] in out;
      assert j > |out| ==> r[j] == below[j - |out| - 1] && r[j] in below;
      if i < |out| <= j {
        assert c <= r[j] && r[i][..|root| + 1] != c;
      } else if i > |out| {
        assert r[i] == below[i - |out| - 1];
      } else if i == |out| {
        assert r[i] == c && c <= r[j] && r[j] != c;
      } else {
        assert r[j] == out[j];
      }
    }
  }

  /** Whatever `t` held, `u` still holds. */
  ghost predicate Keeps(t: Tree, u: Tree) {
    forall q :: q in t ==> q in u && u[q] == t[q]
  }

  /** The part of `from` that a copy has placed so far. */
  function Part(from: Tree, done: seq<Path>): Tree {
    map q | q in done && q in from :: from[q]
  }

  lemma GraftInsertAt(base: Tree, part: Tree, p: Path, dest: Path, q: Path, node: Node, x: Path)
    requires p <= q
    ensures SameAt(Graft(base, part[q := node], p, dest), Graft(base, part, p, dest)[Rebase(p, dest, q) := node], x)
  {
    GraftAt(base, part[q := node], p, dest, x);
    GraftAt(base, part, p, dest, x);
    if dest <= x {
      RebaseInverse(p, dest, q, x);
    }
  }

  lemma GraftInsert(base: Tree, part: Tree, p: Path, dest: Path, q: Path, node: Node)
    requires p <= q
    ensures Graft(base, part[q := node], p, dest) == Graft(base, part, p, dest)[Rebase(p, dest, q) := node]
  {
    var g, h := Graft(base, part[q := node], p, dest), Graft(base, part, p, dest)[Rebase(p, dest, q) := node];
    forall x ensures SameAt(g, h, x) {
      GraftInsertAt(base, part, p, dest, q, node, x);
    }
    SameTree(g, h);
  }

  /** The new root of the copy, before anything is placed inside it. */
  lemma GraftRoot(base: Tree, p: Path, dest: Path, node: Node)
    ensures Graft(base, map[p := node], p, dest) == base[dest := node]
  {
    var g, h := Graft(base, map[p := node], p, dest), base[dest := node];
    forall x ensures SameAt(g, h, x) {
      GraftAt(base, map[p := node], p, dest, x);
      if dest <= x {
        RebaseInverse(p, dest, p, x);
        assert Rebase(p, dest, p) == dest;
      }
    }
    SameTree(g, h);
  }

  lemma MkdirsOneLevel(t: Tree, p: Path)
    requires WellFormed(t) && p != [] && p !in t && Parent(p) in t
    ensures WithDirs(t, p, |p|) == t[p := Dir]
  {
    WithDirsStep(t, p, |p| - 1);
    assert p[..|p|] == p;
    forall q
      ensures q in WithDirs(t, p, |p| - 1) <==> q in t
      ensures q in t ==> WithDirs(t, p, |p| - 1)[q] == t[q]
    {
      WithDirsAt(t, p, |p| - 1, q);
      if q <= p && |q| <= |p| - 1 {
        assert q <= Parent(p);
        if q != Parent(p) {
          PrefixIsDir(t, q, Parent(p));
        }
      }
    }
  }

  /** When the walk reaches an entry below `p`, the entry is new and its parent has been seen. */
  lemma ParentSeen(from: Tree, p: Path, listing: seq<Path>, j: nat)
    requires WellFormed(from) && p in from && IsListing(from, p, listing) && j < |listing|
    ensures Below(from, p, listing[j]) && listing[j] != []
    ensures p <= Parent(listing[j]) && Parent(listing[j]) in [p] + listing[..j]
    ensures listing[j] !in [p] + listing[..j]
  {
    var q := listing[j];
    assert q in listing;
    assert forall i :: 0 <= i < j ==> !(listing[j] <= listing[i]);
    var up := Parent(q);
    if up != p {
      assert Below(from, p, up);
      var i :| 0 <= i < |listing| && listing[i] == up;
      assert up <= q && i != j;
      assert listing[..j][i] == up;
    }
  }

  ghost function Placed(base: Tree, from: Tree, p: Path, dest: Path, seen: seq<Path>): Tree {
    Graft(base, Part(from, [p] + seen), p, dest)
  }

  lemma PartNext(from: Tree, p: Path, listing: seq<Path>, j: nat)
    requires j < |listing| && listing[j] in from
    ensures Part(from, [p] + listing[..j + 1]) == Part(from, [p] + listing[..j])[listing[j] := from[listing[j]]]
  {
    assert listing[..j + 1] == listing[..j] + [listing[j]];
  }

  /** While an entry's parent is placed and its own place is free, copying it
      adds exactly that entry. */
  lemma NextPlace(base: Tree, from: Tree, p: Path, dest: Path, listing: seq<Path>, j: nat, q: Path)
    requires WellFormed(from) && WellFormed(base) && p in from && from[p] == Dir
    requires dest != [] && dest !in base
    requires IsListing(from, p, listing) && j < |listing| && q == listing[j] && Below(from, p, q)
    ensures var to, target := Placed(base, from, p, dest, listing[..j]), Rebase(p, dest, q);
            && target != [] && target !in to && Parent(target) in to && to[Parent(target)] == Dir
            && Placed(base, from, p, dest, listing[..j + 1]) == to[target := from[q]]
  {
    var part, target := Part(from, [p] + listing[..j]), Rebase(p, dest, q);
    ParentSeen(from, p, listing, j);
    var up := Parent(q);
    RebaseParent(p, dest, q);
    RebaseInverse(p, dest, up, Parent(target));
    RebaseInverse(p, dest, q, target);
    GraftAt(base, part, p, dest, Parent(target));
    GraftAt(base, part, p, dest, target);
    AncestorIsDir(from, q, |up|);
    if target in base {
      PrefixIsDir(base, dest, target);
      assert false;
    }
    PartNext(from, p, listing, j);
    GraftInsert(base, part, p, dest, q, from[q]);
  }

  lemma NoFileAboveDir(t: Tree, p: Path)
    requires WellFormed(t) && p != [] && Parent(p) in t && t[Parent(p)] == Dir
    ensures NoFileAbove(t, p, |p|)
  {
    NoFileAboveParent(t, p);
    forall i | 0 <= i < |p| - 1
      ensures !IsFile(t, Parent(p)[..i])
    {
      AncestorIsDir(t, Parent(p), i);
    }
  }

  /** The tree receiving a copy, once the parents of the new root exist. */
  ghost function Base(to: Tree, dest: Path): Tree
    requires dest != []
  {
    WithDirs(to, Parent(dest), |dest| - 1)
  }

  lemma BaseAt(to: Tree, dest: Path, q: Path)
    requires WellFormed(to) && dest != [] && dest !in to
    ensures SameAt(WithDirs(to, dest, |dest|), Base(to, dest)[dest := Dir], q)
    ensures q in to ==> q in Base(to, dest) && Base(to, dest)[q] == to[q]
  {
    WithDirsAt(to, Parent(dest), |dest| - 1, q);
    WithDirsAt(to, dest, |dest|, q);
    assert q <= dest <==> q == dest || q <= Parent(dest);
  }

  lemma BaseFacts(to: Tree, dest: Path)
    requires WellFormed(to) && dest != [] && dest !in to && NoFileAbove(to, dest, |dest|)
    ensures WellFormed(Base(to, dest)) && dest !in Base(to, dest) && Keeps(to, Base(to, dest))
    ensures Parent(dest) in Base(to, dest) && Base(to, dest)[Parent(dest)] == Dir
    ensures WithDirs(to, dest, |dest|) == Base(to, dest)[dest := Dir]
  {
    NoFileAboveParent(to, dest);
    WithDirsWellFormed(to, Parent(dest), |dest| - 1);
    WithDirsAt(to, Parent(dest), |dest| - 1, dest);
    WithDirsAt(to, Parent(dest), |dest| - 1, Parent(dest));
    var t, u := WithDirs(to, dest, |dest|), Base(to, dest)[dest := Dir];
    forall q
      ensures SameAt(t, u, q)
      ensures q in to ==> q in Base(to, dest) && Base(to, dest)[q] == to[q]
    {
      BaseAt(to, dest, q);
    }
    SameTree(t, u);
  }

  lemma GraftKeeps(to: Tree, from: Tree, p: Path, dest: Path)
    requires WellFormed(to) && dest !in to
    ensures Keeps(to, Graft(to, from, p, dest))
  {
    forall q | q in to
      ensures q in Graft(to, from, p, dest) && Graft(to, from, p, dest)[q] == to[q]
    {
      GraftAt(to, from, p, dest, q);
      if dest <= q {
        if q != dest {
          PrefixIsDir(to, dest, q);
        }
        assert false;
      }
    }
  }

  /** When the walk is over, the copy is the whole subtree. */
  lemma AllPlaced(base: Tree, from: Tree, p: Path, dest: Path, listing: seq<Path>)
    requires p in from && IsListing(from, p, listing)
    ensures Placed(base, from, p, dest, listing) == Graft(base, from, p, dest)
  {
    var part := Part(from, [p] + listing);
    forall q ensures SameAt(Graft(base, part, p, dest), Graft(base, from, p, dest), q) {
      GraftAt(base, part, p, dest, q);
      GraftAt(base, from, p, dest, q);
      if Grafted(from, p, dest, q) {
        assert Rebase(dest, p, q) == p || Below(from, p, Rebase(dest, p, q));
      }
    }
    SameTree(Graft(base, part, p, dest), Graft(base, from, p, dest));
  }

  // ---------------------------------------------------------------------------
  // Copying
  // ---------------------------------------------------------------------------

  /** Every name strictly below `p` is a plain component, so that normalising leaves it alone. */
  ghost predicate PlainBelow(t: Tree, p: Path) {
    forall q :: q in t && p <= q ==> Canonical(q[|p|..])
  }

  predicate Near(q: Path, dest: Path) {
    q <= dest || dest <= q
  }

  /** A state the receiving tree may go through: well formed, with all it had, and new only at or below
      `dest` and on the way there. */
  ghost predicate Confined(to0: Tree, to: Tree, dest: Path) {
    && WellFormed(to) && Keeps(to0, to)
    && forall q :: q in to && q !in to0 ==> Near(q, dest)
  }

  lemma PutInFreePlace(t: Tree, target: Path, node: Node)
    requires WellFormed(t) && target != [] && target !in t && Parent(target) in t && t[Parent(target)] == Dir
    ensures CanPut(t, target, node) && Put(t, target, node) == t[target := node]
    ensures WellFormed(t[target := node])
  {
    NoFileAboveDir(t, target);
    MkdirsOneLevel(t, target);
    DirsInPlace(t, Parent(target));
    PutWellFormed(t, target, node);
  }

  lemma NotThereBefore(to0: Tree, dest: Path, q: Path)
    requires WellFormed(to0) && dest !in to0 && dest <= q
    ensures q !in to0
  {
    if q in to0 && q != dest {
      PrefixIsDir(to0, dest, q);
    }
  }

  /** Adding directories on the way to `target`, and the whole file there, goes no further than allowed. */
  lemma StaysConfined(to0: Tree, t: Tree, u: Tree, target: Path, dest: Path)
    requires WellFormed(to0) && dest !in to0 && dest <= target && Confined(to0, t, dest) && WellFormed(u)
    requires forall q :: q in t ==> q in u && (q != target ==> u[q] == t[q])
    requires forall q :: q in u && q !in t ==> q <= target
    ensures Confined(to0, u, dest)
  {
    NotThereBefore(to0, dest, target);
    forall q | q in u && q !in to0
      ensures Near(q, dest)
    {
      if q !in t {
        assert q == target[..|q|] && dest == target[..|dest|];
      }
    }
  }

  /** One entry of the walk in `syseba_copy_tree`. */
  method CopyEntry(node: Node, to: Volume, target: Path, mayFail: bool, ghost to0: Tree, ghost dest: Path)
    returns (ok: bool, fault: bool)
    requires target != [] && dest <= target && WellFormed(to0) && dest !in to0 && Confined(to0, to.tree, dest)
    modifies to
    ensures Confined(to0, to.tree, dest)
    ensures ok ==> CanPut(old(to.tree), target, node) && to.tree == Put(old(to.tree), target, node)
    ensures !ok && !fault ==> !CanPut(old(to.tree), target, node)
    ensures fault ==> mayFail
  {
    ghost var t := to.tree;
    if node == Dir {
      ok, fault := to.Mkdirs(target, mayFail);
    } else {
      ok, fault := to.CopyFile(node, target, mayFail);
    }
    if ok {
      forall q | q in t || q in to.tree {
        PutAt(t, target, node, q);
      }
    }
    StaysConfined(to0, t, to.tree, target, dest);
  }

  /** Every one of the `states` is one the receiving tree may go through. */
  ghost predicate AllConfined(to0: Tree, states: seq<Tree>, dest: Path) {
    states == [] || (Confined(to0, Last(states), dest) && AllConfined(to0, Front(states), dest))
  }

  ghost function Last<T>(s: seq<T>): T
    requires s != []
  {
    s[|s| - 1]
  }

  ghost function Front<T>(s: seq<T>): seq<T>
    requires s != []
  {
    s[..|s| - 1]
  }

  lemma AllConfinedThen(to0: Tree, states: seq<Tree>, dest: Path, t: Tree)
    requires AllConfined(to0, states, dest) && Confined(to0, t, dest)
    ensures AllConfined(to0, states + [t], dest)
  {
    assert Front(states + [t]) == states;
  }

  lemma {:induction false} AllConfinedAt(to0: Tree, states: seq<Tree>, dest: Path, i: nat)
    requires AllConfined(to0, states, dest) && i < |states|
    ensures Confined(to0, states[i], dest)
  {
    if i < |states| - 1 {
      AllConfinedAt(to0, Front(states), dest, i);
    }
  }

  /** Where an entry of the subtree at `p` goes.  Like the target of an event it is computed on normalised
      text; `root` is the absolute path of the subtree. */
  function Lands(root: Path, p: Path, dest: Path, q: Path): Option<Path> {
    if !(p <= q) then None
    else match Landing(root, q[|p|..]) { case None => None case Some(rest) => Some(dest + rest) }
  }

  ghost predicate AllLand(root: Path, p: Path, dest: Path, seen: seq<Path>) {
    forall q :: q in seen ==> Lands(root, p, dest, q).Some?
  }

  /** The receiving tree after the entries `seen` were copied one after the other. */
  ghost function Copied(root: Path, start: Tree, from: Tree, p: Path, dest: Path, seen: seq<Path>): Tree
    requires dest != []
    decreases |seen|
  {
    if seen == [] then start
    else
      var t, q := Copied(root, start, from, p, dest, Front(seen)), Last(seen);
      if q in from && Lands(root, p, dest, q).Some? then Put(t, Lands(root, p, dest, q).value, from[q]) else t
  }

  /** Copying plain names one after the other places exactly what was seen. */
  lemma {:induction false} PlainCopied(root: Path, to0: Tree, from: Tree, p: Path, dest: Path, listing: seq<Path>,
                                       j: nat)
    requires Canonical(root) && WellFormed(from) && p in from && from[p] == Dir && PlainBelow(from, p)
    requires WellFormed(to0) && dest != [] && dest !in to0 && NoFileAbove(to0, dest, |dest|)
    requires IsListing(from, p, listing) && j <= |listing|
    ensures var t := Placed(Base(to0, dest), from, p, dest, listing[..j]);
            t == Copied(root, WithDirs(to0, dest, |dest|), from, p, dest, listing[..j]) && WellFormed(t)
  {
    if j == 0 {
      StartOfCopy(to0, from, p, dest);
      WithDirsWellFormed(to0, dest, |dest|);
    } else {
      assert Front(listing[..j]) == listing[..j - 1] && Last(listing[..j]) == listing[j - 1];
      PlainCopied(root, to0, from, p, dest, listing, j - 1);
      PlainNext(root, to0, from, p, dest, listing, j - 1);
    }
  }

  /** The next plain entry finds its place free. */
  lemma PlainNext(root: Path, to0: Tree, from: Tree, p: Path, dest: Path, listing: seq<Path>, j: nat)
    requires Canonical(root) && WellFormed(from) && p in from && from[p] == Dir && PlainBelow(from, p)
    requires WellFormed(to0) && dest != [] && dest !in to0 && NoFileAbove(to0, dest, |dest|)
    requires IsListing(from, p, listing) && j < |listing|
    requires WellFormed(Placed(Base(to0, dest), from, p, dest, listing[..j]))
    ensures listing[j] in from && p <= listing[j]
    ensures Lands(root, p, dest, listing[j]) == Some(Rebase(p, dest, listing[j]))
    ensures var t, q := Placed(Base(to0, dest), from, p, dest, listing[..j]), listing[j];
            var target := Rebase(p, dest, q);
            && target != [] && CanPut(t, target, from[q])
            && Placed(Base(to0, dest), from, p, dest, listing[..j + 1]) == Put(t, target, from[q])
            && WellFormed(Put(t, target, from[q]))
  {
    var q := listing[j];
    assert q in listing;
    LandsAtHome(root, q[|p|..]);
    StartOfCopy(to0, from, p, dest);
    NextPlace(Base(to0, dest), from, p, dest, listing, j, q);
    PutInFreePlace(Placed(Base(to0, dest), from, p, dest, listing[..j]), Rebase(p, dest, q), from[q]);
  }

  /** `syseba_copy_tree` into a place that is free; `root` is the absolute path of what is copied.  `states`
      are the trees the destination goes through, `listing` is the order of the walk. */
  method CopyTree(from: Tree, to: Volume, root: Path, p: Path, dest: Path, mayFail: bool)
    returns (ok: bool, fault: bool, ghost states: seq<Tree>, ghost listing: seq<Path>)
    requires WellFormed(from) && p in from && from[p] == Dir && Canonical(root)
    requires WellFormed(to.tree) && dest != [] && dest !in to.tree
    modifies to
    ensures ok ==> NoFileAbove(old(to.tree), dest, |dest|)
    ensures ok ==> IsListing(from, p, listing) && AllLand(root, p, dest, listing)
    ensures ok ==> to.tree == Copied(root, WithDirs(old(to.tree), dest, |dest|), from, p, dest, listing)
    ensures ok && PlainBelow(from, p) ==> to.tree == Graft(Base(old(to.tree), dest), from, p, dest)
    ensures !ok && !fault && PlainBelow(from, p) ==> !NoFileAbove(old(to.tree), dest, |dest|)
    ensures fault ==> mayFail
    ensures states != [] && Last(states) == to.tree && AllConfined(old(to.tree), states, dest)
  {
    ghost var to0 := to.tree;
    listing := [];
    ok, fault := to.Mkdirs(dest, mayFail);
    MkdirsConfined(to0, to.tree, dest);
    states := [to.tree];
    if !ok {
      return;
    }
    var walk := Walk(from, p);
    listing := walk;
    ok, fault, states := CopyEntries(from, to, root, p, dest, walk, mayFail, to0);
    if ok && PlainBelow(from, p) {
      assert walk[..|walk|] == walk;
      PlainCopied(root, to0, from, p, dest, walk, |walk|);
      AllPlaced(Base(to0, dest), from, p, dest, walk);
    }
  }

  lemma MkdirsConfined(to0: Tree, to: Tree, dest: Path)
    requires WellFormed(to) && OnlyDirsAdded(to0, to, dest)
    ensures Confined(to0, to, dest)
  {
  }

  lemma StartOfCopy(to: Tree, from: Tree, p: Path, dest: Path)
    requires WellFormed(to) && dest != [] && dest !in to && NoFileAbove(to, dest, |dest|)
    requires p in from && from[p] == Dir
    ensures WellFormed(Base(to, dest)) && dest !in Base(to, dest)
    ensures WithDirs(to, dest, |dest|) == Placed(Base(to, dest), from, p, dest, [])
  {
    BaseFacts(to, dest);
    GraftRoot(Base(to, dest), p, dest, Dir);
    PartOfRoot(from, p);
  }

  lemma PartOfRoot(from: Tree, p: Path)
    requires p in from
    ensures Part(from, [p] + []) == map[p := from[p]]
  {
    assert [p] + [] == [p];
  }

  /** The walk of `syseba_copy_tree`, once the new root exists. */
  method CopyEntries(from: Tree, to: Volume, root: Path, p: Path, dest: Path, listing: seq<Path>, mayFail: bool,
                     ghost to0: Tree)
    returns (ok: bool, fault: bool, ghost states: seq<Tree>)
    requires WellFormed(from) && p in from && from[p] == Dir && IsListing(from, p, listing) && Canonical(root)
    requires WellFormed(to0) && dest != [] && dest !in to0 && NoFileAbove(to0, dest, |dest|)
    requires to.tree == WithDirs(to0, dest, |dest|) && Confined(to0, to.tree, dest)
    modifies to
    ensures ok ==> AllLand(root, p, dest, listing)
    ensures ok ==> to.tree == Copied(root, old(to.tree), from, p, dest, listing)
    ensures PlainBelow(from, p) && !fault ==> ok
    ensures fault ==> mayFail
    ensures states != [] && Last(states) == to.tree && AllConfined(to0, states, dest)
  {
    ghost var start := to.tree;
    states := [to.tree];
    assert listing[..0] == [];
    for j := 0 to |listing|
      invariant states != [] && Last(states) == to.tree && AllConfined(to0, states, dest)
      invariant Confined(to0, to.tree, dest) && AllLand(root, p, dest, listing[..j])
      invariant to.tree == Copied(root, start, from, p, dest, listing[..j])
    {
      ok, fault := CopyNext(from, to, root, p, dest, listing, j, mayFail, to0, start);
      AllConfinedThen(to0, states, dest, to.tree);
      states := states + [to.tree];
      if !ok {
        return;
      }
    }
    assert listing[..|listing|] == listing;
    return true, false, states;
  }

  method CopyNext(from: Tree, to: Volume, root: Path, p: Path, dest: Path, listing: seq<Path>, j: nat,
                  mayFail: bool, ghost to0: Tree, ghost start: Tree)
    returns (ok: bool, fault: bool)
    requires WellFormed(from) && p in from && from[p] == Dir && IsListing(from, p, listing) && Canonical(root)
    requires WellFormed(to0) && dest != [] && dest !in to0 && NoFileAbove(to0, dest, |dest|)
    requires start == WithDirs(to0, dest, |dest|) && Confined(to0, to.tree, dest) && j < |listing|
    requires to.tree == Copied(root, start, from, p, dest, listing[..j]) && AllLand(root, p, dest, listing[..j])
    modifies to
    ensures Confined(to0, to.tree, dest)
    ensures ok ==> AllLand(root, p, dest, listing[..j + 1])
    ensures ok ==> to.tree == Copied(root, start, from, p, dest, listing[..j + 1])
    ensures PlainBelow(from, p) && !fault ==> ok
    ensures fault ==> mayFail
  {
    var q := listing[j];
    assert q in listing;
    assert Front(listing[..j + 1]) == listing[..j] && Last(listing[..j + 1]) == q;
    assert listing[..j + 1] == listing[..j] + [q];
    if PlainBelow(from, p) {
      PlainCopied(root, to0, from, p, dest, listing, j);
      PlainNext(root, to0, from, p, dest, listing, j);
    }
    var target := Lands(root, p, dest, q);
    if target == None {
      // EINVAL
      return false, false;
    }
    ok, fault := CopyEntry(from[q], to, target.value, mayFail, to0, dest);
  }

  // ---------------------------------------------------------------------------
  // Files that land together
  // ---------------------------------------------------------------------------

  /** The file among `seen` that was copied last to where `q` goes is what is there in the end. */
  lemma {:induction false} LastCopyWins(root: Path, start: Tree, from: Tree, p: Path, dest: Path, seen: seq<Path>,
                                        q: Path, y: Path)
    returns (w: Path)
    requires dest != [] && q in seen && IsFile(from, q) && Lands(root, p, dest, q) == Some(y)
    ensures w in seen && IsFile(from, w) && Lands(root, p, dest, w) == Some(y)
    ensures var t := Copied(root, start, from, p, dest, seen); y in t && t[y] == from[w]
    decreases |seen|
  {
    var front, e := Front(seen), Last(seen);
    assert seen == front + [e];
    CopiedAt(root, start, from, p, dest, seen, y);
    if IsFile(from, e) && Lands(root, p, dest, e) == Some(y) {
      w := e;
    } else {
      w := LastCopyWins(root, start, from, p, dest, front, q, y);
    }
  }

  /** What copying the last entry does at `y`. */
  lemma CopiedAt(root: Path, start: Tree, from: Tree, p: Path, dest: Path, seen: seq<Path>, y: Path)
    requires dest != [] && seen != []
    ensures var e, t, u := Last(seen), Copied(root, start, from, p, dest, Front(seen)),
                           Copied(root, start, from, p, dest, seen);
            if IsFile(from, e) && Lands(root, p, dest, e) == Some(y) then y in u && u[y] == from[e]
            else y in t ==> y in u && u[y] == t[y]
  {
    var e, t := Last(seen), Copied(root, start, from, p, dest, Front(seen));
    if e in from && Lands(root, p, dest, e).Some? {
      PutAt(t, Lands(root, p, dest, e).value, from[e], y);
    }
  }

  /** No two different files of the subtree land at the same place. */
  ghost predicate LandApart(root: Path, from: Tree, p: Path, dest: Path) {
    forall q, w | Below(from, p, q) && Below(from, p, w) && from[q].File? && from[w].File? ::
      Lands(root, p, dest, q) == Lands(root, p, dest, w) ==> from[q] == from[w]
  }

  /** Every file of the subtree is whole where it lands. */
  ghost predicate AllArrived(root: Path, from: Tree, p: Path, dest: Path, to: Tree) {
    forall q :: Below(from, p, q) && from[q].File? && Lands(root, p, dest, q).Some? ==>
                  Lands(root, p, dest, q).value in to && to[Lands(root, p, dest, q).value] == from[q]
  }

  /** A copied tree has every file of the original exactly when no two different files land at the same
      place. */
  lemma CopyIsCompleteIff(root: Path, start: Tree, from: Tree, p: Path, dest: Path, listing: seq<Path>)
    requires dest != [] && IsListing(from, p, listing)
    requires AllLand(root, p, dest, listing)
    ensures AllArrived(root, from, p, dest, Copied(root, start, from, p, dest, listing))
            <==> LandApart(root, from, p, dest)
  {
    var to := Copied(root, start, from, p, dest, listing);
    if LandApart(root, from, p, dest) {
      forall q | Below(from, p, q) && from[q].File? && Lands(root, p, dest, q).Some?
        ensures Lands(root, p, dest, q).value in to && to[Lands(root, p, dest, q).value] == from[q]
      {
        var w := LastCopyWins(root, start, from, p, dest, listing, q, Lands(root, p, dest, q).value);
        assert Below(from, p, w);
      }
    }
  }

  /** Only entries at or below `p` are gone; what is left is a tree and unchanged. */
  ghost predicate PartlyRemoved(t0: Tree, t: Tree, p: Path) {
    && WellFormed(t) && Keeps(t, t0)
    && forall q :: q in t0 && !(p <= q) ==> q in t
  }

  ghost predicate AllPartlyRemoved(t0: Tree, states: seq<Tree>, p: Path) {
    states == [] || (PartlyRemoved(t0, Last(states), p) && AllPartlyRemoved(t0, Front(states), p))
  }

  lemma AllPartlyRemovedThen(t0: Tree, states: seq<Tree>, p: Path, t: Tree)
    requires AllPartlyRemoved(t0, states, p) && PartlyRemoved(t0, t, p)
    ensures AllPartlyRemoved(t0, states + [t], p)
  {
    assert Front(states + [t]) == states;
  }

  lemma {:induction false} AllPartlyRemovedAt(t0: Tree, states: seq<Tree>, p: Path, i: nat)
    requires AllPartlyRemoved(t0, states, p) && i < |states|
    ensures PartlyRemoved(t0, states[i], p)
  {
    if i < |states| - 1 {
      AllPartlyRemovedAt(t0, Front(states), p, i);
    }
  }

  /** The tail of the listing, from `j` on, has been removed. */
  ghost predicate RemovedTail(t0: Tree, t: Tree, listing: seq<Path>, j: nat)
    requires j <= |listing|
  {
    t == t0 - (set q | q in listing[j..])
  }

  lemma TailPartlyRemoved(t0: Tree, t: Tree, p: Path, listing: seq<Path>, j: nat)
    requires IsListing(t0, p, listing) && j <= |listing| && RemovedTail(t0, t, listing, j)
    requires WellFormed(t)
    ensures PartlyRemoved(t0, t, p)
  {
    forall q | q in t0 && !(p <= q)
      ensures q in t
    {
      assert !Below(t0, p, q);
      assert q in listing[j..] ==> q in listing;
    }
  }

  /** An entry comes after its parent in the listing. */
  lemma ChildIsLater(t0: Tree, p: Path, listing: seq<Path>, j: nat, c: Path)
    requires IsListing(t0, p, listing) && j < |listing| && c in t0 && c != [] && Parent(c) == listing[j]
    ensures c in listing[j + 1..]
  {
    var q := listing[j];
    assert q in listing && q <= c;
    assert Below(t0, p, c);
    var i :| 0 <= i < |listing| && listing[i] == c;
    assert !(i < j);
    assert listing[j + 1..][i - j - 1] == c;
  }

  /** The entry about to be removed is still there, and nothing is left inside it. */
  lemma NextIsEmpty(t0: Tree, t: Tree, p: Path, listing: seq<Path>, j: nat)
    requires WellFormed(t0) && p in t0 && IsListing(t0, p, listing) && j < |listing|
    requires RemovedTail(t0, t, listing, j + 1)
    ensures var q := listing[j]; q in t && q != [] && EmptyDir(t, q) && RemovedTail(t0, t - {q}, listing, j)
  {
    var q := listing[j];
    ParentSeen(t0, p, listing, j);
    assert forall i :: j < i < |listing| ==> !(listing[i] <= listing[j]);
    assert listing[j..] == [q] + listing[j + 1..];
    forall c | c in t && c != []
      ensures Parent(c) != q
    {
      if Parent(c) == q {
        ChildIsLater(t0, p, listing, j, c);
        assert false;
      }
    }
  }

  lemma AllRemoved(t0: Tree, t: Tree, p: Path, listing: seq<Path>)
    requires IsListing(t0, p, listing) && p in t0 && RemovedTail(t0, t, listing, 0)
    ensures p in t && t[p] == t0[p] && t - {p} == Without(t0, p) && EmptyDir(t, p)
  {
    assert listing[0..] == listing;
    assert !Below(t0, p, p);
    forall q
      ensures q in t <==> q in t0 && (p <= q ==> q == p)
    {
      assert q in listing <==> Below(t0, p, q);
    }
    forall q | q in t && q != []
      ensures Parent(q) != p
    {
      assert !(p <= q) || q == p;
    }
  }

  /** `unlink` or `rmdir`, by kind, of an entry with nothing inside: only the
      environment can make it fail. */
  method RemoveEntry(from: Volume, q: Path, mayFail: bool) returns (ok: bool)
    requires WellFormed(from.tree) && q in from.tree && EmptyDir(from.tree, q)
    modifies from
    ensures WellFormed(from.tree)
    ensures from.tree == if ok then old(from.tree) - {q} else old(from.tree)
    ensures !ok ==> mayFail
  {
    if from.tree[q] == Dir {
      var fault;
      ok, fault := from.Rmdir(q, mayFail);
      assert ok || fault;
    } else {
      ok := from.Unlink(q, mayFail);
    }
  }

  /** `syseba_remove_path`: the collected listing is removed from its end.  A
      directory is always empty when its turn comes.  `states` are the trees
      the removal goes through. */
  method RemovePath(from: Volume, p: Path, mayFail: bool) returns (ok: bool, ghost states: seq<Tree>)
    requires WellFormed(from.tree)
    modifies from
    ensures ok ==> from.tree == Without(old(from.tree), p)
    ensures !ok ==> mayFail
    ensures states != [] && Last(states) == from.tree && AllPartlyRemoved(old(from.tree), states, p)
  {
    ghost var t0 := from.tree;
    states := [from.tree];
    if p !in from.tree {
      NothingThere(t0, p);
      return true, states;
    }
    var listing := [];
    if from.tree[p] == Dir {
      listing := Walk(from.tree, p);
      var refused := SystemRefuses(mayFail);
      if refused {
        // the walk itself was refused
        return false, states;
      }
    } else {
      NothingBelowFile(t0, p);
    }
    var j := |listing|;
    while j > 0
      invariant 0 <= j <= |listing|
      invariant WellFormed(from.tree) && RemovedTail(t0, from.tree, listing, j)
      invariant states != [] && Last(states) == from.tree && AllPartlyRemoved(t0, states, p)
    {
      j := j - 1;
      NextIsEmpty(t0, from.tree, p, listing, j);
      ok := RemoveEntry(from, listing[j], mayFail);
      TailPartlyRemoved(t0, from.tree, p, listing, if ok then j else j + 1);
      AllPartlyRemovedThen(t0, states, p, from.tree);
      states := states + [from.tree];
      if !ok {
        return;
      }
    }
    AllRemoved(t0, from.tree, p, listing);
    ok := RemoveEntry(from, p, mayFail);
    RootPartlyRemoved(t0, from.tree, p, listing);
    AllPartlyRemovedThen(t0, states, p, from.tree);
    states := states + [from.tree];
  }

  lemma RootPartlyRemoved(t0: Tree, t: Tree, p: Path, listing: seq<Path>)
    requires IsListing(t0, p, listing) && WellFormed(t)
    requires t == Without(t0, p) || RemovedTail(t0, t, listing, 0)
    ensures PartlyRemoved(t0, t, p)
  {
    if RemovedTail(t0, t, listing, 0) {
      TailPartlyRemoved(t0, t, p, listing, 0);
    }
  }

  lemma NothingThere(t: Tree, p: Path)
    requires WellFormed(t) && p !in t
    ensures Without(t, p) == t
  {
    forall q | q in t
      ensures !(p <= q)
    {
      if p <= q && p != q {
        PrefixIsDir(t, p, q);
      }
    }
  }

  // ---------------------------------------------------------------------------
  // Moving
  // ---------------------------------------------------------------------------

  /** What is gone from the subtree at `p` is whole at its new place. */
  ghost predicate NothingLost(from0: Tree, from: Tree, to: Tree, p: Path, dest: Path) {
    forall q :: q in from0 && q !in from && p <= q ==>
      Rebase(p, dest, q) in to && to[Rebase(p, dest, q)] == from0[q]
  }

  /** Nothing but the subtree has left one tree and nothing has been lost in the other, which is new only
      around `dest`; and if its names are plain, every file of the subtree is whole at its old or at its
      new place. */
  ghost predicate MoveSafe(from0: Tree, to0: Tree, from: Tree, to: Tree, p: Path, dest: Path) {
    && PartlyRemoved(from0, from, p) && Confined(to0, to, dest)
    && (PlainBelow(from0, p) ==> NothingLost(from0, from, to, p, dest))
  }

  /** What a finished move leaves: the subtree is gone from one tree and is in
      the other, at a place that was free, below directories only. */
  ghost predicate Moved(from0: Tree, to0: Tree, from: Tree, to: Tree, p: Path, dest: Path)
    requires dest != []
  {
    && dest !in to0 && NoFileAbove(to0, dest, |dest|)
    && from == Without(from0, p)
    && to == Graft(Base(to0, dest), from0, p, dest)
  }

  /** The whole subtree has been copied: in the order `listing`, if it is a directory. */
  ghost predicate FullCopy(root: Path, from0: Tree, to0: Tree, to: Tree, p: Path, dest: Path, listing: seq<Path>)
    requires dest != []
  {
    && Confined(to0, to, dest)
    && (PlainBelow(from0, p) ==> to == Graft(Base(to0, dest), from0, p, dest))
    && (p in from0 && from0[p] == Dir ==>
          && IsListing(from0, p, listing) && AllLand(root, p, dest, listing)
          && to == Copied(root, WithDirs(to0, dest, |dest|), from0, p, dest, listing))
  }

  /** How a move goes through the two trees: first `copying` runs, with the
      origin untouched, and `removing` starts only when the copy is complete. */
  ghost predicate MoveHistory(root: Path, from0: Tree, to0: Tree, to: Tree, p: Path, dest: Path,
                              copying: seq<Tree>, removing: seq<Tree>, listing: seq<Path>)
    requires dest != []
  {
    && AllConfined(to0, copying, dest) && AllPartlyRemoved(from0, removing, p)
    && (removing != [] ==> FullCopy(root, from0, to0, to, p, dest, listing))
  }

  lemma GraftHasAll(from0: Tree, from: Tree, to: Tree, base: Tree, p: Path, dest: Path)
    requires to == Graft(base, from0, p, dest)
    ensures NothingLost(from0, from, to, p, dest)
  {
    forall q | q in from0 && q !in from && p <= q
      ensures Rebase(p, dest, q) in to && to[Rebase(p, dest, q)] == from0[q]
    {
      RebaseInverse(p, dest, q, Rebase(p, dest, q));
      GraftAt(base, from0, p, dest, Rebase(p, dest, q));
    }
  }

  lemma FullCopyIsSafe(root: Path, from0: Tree, to0: Tree, from: Tree, to: Tree, p: Path, dest: Path,
                       listing: seq<Path>)
    requires dest != [] && PartlyRemoved(from0, from, p) && FullCopy(root, from0, to0, to, p, dest, listing)
    ensures MoveSafe(from0, to0, from, to, p, dest)
  {
    if PlainBelow(from0, p) {
      GraftHasAll(from0, from, to, Base(to0, dest), p, dest);
    }
  }

  /** Nothing is lost at any intermediate state of a move across devices, if the names are plain. */
  lemma MoveLosesNothing(root: Path, from0: Tree, to0: Tree, to: Tree, p: Path, dest: Path,
                         copying: seq<Tree>, removing: seq<Tree>, listing: seq<Path>)
    requires WellFormed(from0) && dest != [] && PlainBelow(from0, p)
    requires MoveHistory(root, from0, to0, to, p, dest, copying, removing, listing)
    ensures forall i :: 0 <= i < |copying| ==> Confined(to0, copying[i], dest)
    ensures forall i :: 0 <= i < |removing| ==>
              PartlyRemoved(from0, removing[i], p) && NothingLost(from0, removing[i], to, p, dest)
    ensures removing != [] ==> Confined(to0, to, dest)
  {
    forall i | 0 <= i < |copying|
      ensures Confined(to0, copying[i], dest)
    {
      AllConfinedAt(to0, copying, dest, i);
    }
    forall i | 0 <= i < |removing|
      ensures PartlyRemoved(from0, removing[i], p) && NothingLost(from0, removing[i], to, p, dest)
    {
      AllPartlyRemovedAt(from0, removing, p, i);
      GraftHasAll(from0, removing[i], to, Base(to0, dest), p, dest);
    }
  }

  /** For any names: when the removal starts, every file of the directory is whole where it lands if and only
      if no two different files land at the same place.  Otherwise the removal loses one of them. */
  lemma MoveKeepsFilesIff(root: Path, from0: Tree, to0: Tree, to: Tree, p: Path, dest: Path,
                          copying: seq<Tree>, removing: seq<Tree>, listing: seq<Path>)
    requires dest != [] && p in from0 && from0[p] == Dir && removing != []
    requires MoveHistory(root, from0, to0, to, p, dest, copying, removing, listing)
    ensures AllArrived(root, from0, p, dest, to) <==> LandApart(root, from0, p, dest)
  {
    CopyIsCompleteIff(root, WithDirs(to0, dest, |dest|), from0, p, dest, listing);
  }

  /** A directory with a file `x\y` and a different file `x/y` is such a case: they land at the same place. */
  lemma TwoFilesOneLanding(root: Path, from: Tree, p: Path, dest: Path, x: Name, y: Name)
    requires Canonical(root) && IsComponent(x) && IsComponent(y)
    requires IsFile(from, p + [x + "\\" + y]) && IsFile(from, p + [x, y])
    requires from[p + [x + "\\" + y]] != from[p + [x, y]]
    ensures !LandApart(root, from, p, dest)
  {
    var q, w := p + [x + "\\" + y], p + [x, y];
    LandTogether(root, p, dest, x, y);
    assert Below(from, p, q) && Below(from, p, w);
  }

  lemma LandTogether(root: Path, p: Path, dest: Path, x: Name, y: Name)
    requires Canonical(root) && IsComponent(x) && IsComponent(y)
    ensures Lands(root, p, dest, p + [x + "\\" + y]) == Lands(root, p, dest, p + [x, y])
  {
    var odd := x + "\\" + y;
    BackslashCollides(root, x, y);
    LandsAfter(root, p, dest, [odd]);
    LandsAfter(root, p, dest, [x, y]);
  }

  lemma LandsAfter(root: Path, p: Path, dest: Path, rest: Path)
    ensures Lands(root, p, dest, p + rest)
            == match Landing(root, rest) { case None => None case Some(x) => Some(dest + x) }
  {
    assert (p + rest)[|p|..] == rest;
  }

  lemma MovedIsSafe(from0: Tree, to0: Tree, p: Path, dest: Path)
    requires WellFormed(from0) && WellFormed(to0) && p in from0 && p != []
    requires dest != [] && dest !in to0 && NoFileAbove(to0, dest, |dest|)
    ensures var to := Graft(Base(to0, dest), from0, p, dest);
            Confined(to0, to, dest) && MoveSafe(from0, to0, Without(from0, p), to, p, dest)
  {
    var base := Base(to0, dest);
    BaseFacts(to0, dest);
    GraftWellFormed(base, from0, p, dest);
    GraftKeeps(base, from0, p, dest);
    WithoutWellFormed(from0, p);
    GraftHasAll(from0, Without(from0, p), Graft(base, from0, p, dest), base, p, dest);
    GraftConfined(to0, from0, p, dest);
  }

  lemma GraftConfined(to0: Tree, from: Tree, p: Path, dest: Path)
    requires dest != [] && WellFormed(Graft(Base(to0, dest), from, p, dest))
    requires Keeps(to0, Base(to0, dest)) && Keeps(Base(to0, dest), Graft(Base(to0, dest), from, p, dest))
    ensures Confined(to0, Graft(Base(to0, dest), from, p, dest), dest)
  {
    var g := Graft(Base(to0, dest), from, p, dest);
    forall q | q in g && q !in to0
      ensures Near(q, dest)
    {
      GraftAt(Base(to0, dest), from, p, dest, q);
      WithDirsAt(to0, Parent(dest), |dest| - 1, q);
    }
  }

  /** `syseba_copy_tree` or `syseba_copy_file` of whatever is at `p`, as the move
      across devices uses them. */
  method CopyPath(from: Tree, to: Volume, root: Path, p: Path, dest: Path, mayFail: bool)
    returns (ok: bool, fault: bool, ghost copying: seq<Tree>, ghost listing: seq<Path>)
    requires WellFormed(from) && p in from && p != [] && Canonical(root)
    requires WellFormed(to.tree) && dest != [] && dest !in to.tree
    modifies to
    ensures ok ==> NoFileAbove(old(to.tree), dest, |dest|)
    ensures ok ==> FullCopy(root, from, old(to.tree), to.tree, p, dest, listing)
    ensures !ok && !fault && PlainBelow(from, p) ==> !NoFileAbove(old(to.tree), dest, |dest|)
    ensures fault ==> mayFail
    ensures copying != [] && Last(copying) == to.tree && AllConfined(old(to.tree), copying, dest)
  {
    ghost var to0 := to.tree;
    if from[p] == Dir {
      ok, fault, copying, listing := CopyTree(from, to, root, p, dest, mayFail);
      AllConfinedAt(to0, copying, dest, |copying| - 1);
    } else {
      listing := [];
      ok, fault := to.CopyFile(from[p], dest, mayFail);
      if ok {
        CopiedFile(to0, from, p, dest);
      } else {
        FailedCopyConfined(to0, to.tree, dest, from[p]);
      }
      copying := [to.tree];
    }
  }

  lemma CopiedFile(to0: Tree, from: Tree, p: Path, dest: Path)
    requires WellFormed(to0) && dest != [] && dest !in to0 && NoFileAbove(to0, dest, |dest|)
    requires WellFormed(from) && IsFile(from, p)
    ensures Base(to0, dest)[dest := from[p]] == Graft(Base(to0, dest), from, p, dest)
    ensures Confined(to0, Base(to0, dest)[dest := from[p]], dest)
  {
    BaseFacts(to0, dest);
    FileGraft(Base(to0, dest), from, p, dest);
    GraftWellFormed(Base(to0, dest), from, p, dest);
    GraftKeeps(Base(to0, dest), from, p, dest);
    GraftConfined(to0, from, p, dest);
  }

  lemma FailedCopyConfined(t: Tree, u: Tree, p: Path, file: Node)
    requires OldOrWhole(t, u, p, file) && p !in t && WellFormed(u)
    ensures Confined(t, u, p)
  {
  }

  lemma FileGraft(base: Tree, from: Tree, p: Path, dest: Path)
    requires WellFormed(from) && IsFile(from, p)
    ensures Graft(base, from, p, dest) == base[dest := from[p]]
  {
    NothingBelowFile(from, p);
    AllPlaced(base, from, p, dest, []);
    PartOfRoot(from, p);
    GraftRoot(base, p, dest, from[p]);
  }

  /** `syseba_move_path` to a place that is free: a rename, or across devices a
      full copy followed by a removal. */
  method MovePath(from: Volume, to: Volume, p: Path, dest: Path, crossDevice: bool, mayFail: bool)
    returns (ok: bool, fault: bool, ghost copying: seq<Tree>, ghost removing: seq<Tree>, ghost listing: seq<Path>)
    requires from != to && WellFormed(from.tree) && WellFormed(to.tree)
    requires p in from.tree && p != [] && Canonical(from.root + p) && dest != [] && dest !in to.tree
    modifies from, to
    ensures ok && PlainBelow(old(from.tree), p) ==> Moved(old(from.tree), old(to.tree), from.tree, to.tree, p, dest)
    ensures MoveSafe(old(from.tree), old(to.tree), from.tree, to.tree, p, dest)
    ensures ok ==> from.tree == Without(old(from.tree), p)
    ensures !ok && !fault && PlainBelow(old(from.tree), p) ==> !NoFileAbove(old(to.tree), dest, |dest|)
    ensures fault ==> mayFail
    ensures crossDevice && ok ==> copying != [] && removing != []
    ensures MoveHistory(from.root + p, old(from.tree), old(to.tree), to.tree, p, dest, copying, removing, listing)
  {
    ghost var from0, to0 := from.tree, to.tree;
    copying, removing, listing := [], [], [];
    NoFileAboveParent(to0, dest);
    ok, fault := to.Mkdirs(Parent(dest), mayFail);
    ParentConfined(to0, to.tree, dest);
    if !ok {
      return;
    }
    RenameTarget(to0, dest);
    if !crossDevice {
      if to.tree[Parent(dest)].File? {
        // ENOTDIR
        return false, false, copying, removing, listing;
      }
      var refused := SystemRefuses(mayFail);
      if refused {
        return false, true, copying, removing, listing;
      }
      to.tree := Graft(to.tree, from.tree, p, dest);
      from.tree := Without(from.tree, p);
      MovedIsSafe(from0, to0, p, dest);
      return true, false, copying, removing, listing;
    }
    ghost var to1 := to.tree;
    ok, fault, copying, listing := CopyPath(from.tree, to, from.root + p, p, dest, mayFail);
    SecondMkdirs(to0, to1, dest);
    AllConfinedSince(to0, to1, copying, dest);
    AllConfinedAt(to0, copying, dest, |copying| - 1);
    if !ok {
      return;
    }
    assert FullCopy(from.root + p, from0, to0, to.tree, p, dest, listing);
    ok, removing := RemovePath(from, p, mayFail);
    AllPartlyRemovedAt(from0, removing, p, |removing| - 1);
    FullCopyIsSafe(from.root + p, from0, to0, from.tree, to.tree, p, dest, listing);
    fault := !ok;
  }

  /** `syseba_move_path` of a whole tree, its root included, to a name outside of all trees. */
  method MoveAside(from: Volume, crossDevice: bool, mayFail: bool) returns (ok: bool, ghost removing: seq<Tree>)
    requires WellFormed(from.tree)
    modifies from
    ensures ok ==> from.tree == map[]
    ensures !ok ==> mayFail
    ensures crossDevice && ok ==> removing != []
    ensures WellFormed(from.tree) && PartlyRemoved(old(from.tree), from.tree, [])
    ensures AllPartlyRemoved(old(from.tree), removing, [])
  {
    removing := [];
    var refused := SystemRefuses(mayFail);
    if refused {
      // the rename or the copy was refused
      return false, removing;
    }
    if !crossDevice {
      from.tree := map[];
      return true, removing;
    }
    ghost var from0 := from.tree;
    ok, removing := RemovePath(from, [], mayFail);
    AllPartlyRemovedAt(from0, removing, [], |removing| - 1);
    assert ok ==> from.tree == Without(from0, []) == map[];
  }

  lemma ParentConfined(to0: Tree, to: Tree, dest: Path)
    requires dest != [] && WellFormed(to) && OnlyDirsAdded(to0, to, Parent(dest))
    ensures Confined(to0, to, dest)
  {
  }

  lemma RenameTarget(to0: Tree, dest: Path)
    requires WellFormed(to0) && dest != [] && dest !in to0 && NoFileAbove(to0, Parent(dest), |dest| - 1)
    ensures Parent(dest) in Base(to0, dest) && dest !in Base(to0, dest)
    ensures Base(to0, dest)[Parent(dest)].File? <==> IsFile(to0, Parent(dest))
  {
    WithDirsAt(to0, Parent(dest), |dest| - 1, Parent(dest));
    WithDirsAt(to0, Parent(dest), |dest| - 1, dest);
  }

  /** Making the parents of the destination twice is making them once. */
  lemma SecondMkdirs(to0: Tree, to1: Tree, dest: Path)
    requires WellFormed(to0) && WellFormed(to1) && dest != [] && dest !in to0
    requires NoFileAbove(to0, Parent(dest), |dest| - 1) && to1 == Base(to0, dest)
    ensures NoFileAbove(to1, dest, |dest|) <==> NoFileAbove(to0, dest, |dest|)
    ensures NoFileAbove(to1, dest, |dest|) ==>
              Base(to1, dest) == to1 && WithDirs(to1, dest, |dest|) == WithDirs(to0, dest, |dest|)
  {
    RenameTarget(to0, dest);
    NoFileAboveParent(to0, dest);
    DirsInPlace(to1, Parent(dest));
    if NoFileAbove(to0, dest, |dest|) {
      NoFileAboveDir(to1, dest);
      BaseFacts(to0, dest);
      BaseFacts(to1, dest);
    } else {
      NoFileAboveParent(to1, dest);
    }
  }

  lemma {:induction false} AllConfinedSince(to0: Tree, to1: Tree, states: seq<Tree>, dest: Path)
    requires Confined(to0, to1, dest) && AllConfined(to1, states, dest)
    ensures AllConfined(to0, states, dest)
  {
    if states != [] {
      assert Keeps(to0, Last(states));
      AllConfinedSince(to0, to1, Front(states), dest);
    }
  }
}
