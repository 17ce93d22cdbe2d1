/**
 A directory tree as the backup engine sees it: a finite map from component
 paths, relative to the root of the tree, to directories and regular files.
 The functions below are the system calls the engine issues, reduced to their
 effect on the map; `Volume` is a tree on disk that is changed in place.
 */
module FileTree {

  type Name = string

  type Path = seq<Name>

  datatype Node = Dir | File(content: seq<bv8>, mtime: int)

  type Tree = map<Path, Node>

  function Parent(p: Path): Path
    requires p != []
  {
    p[..|p| - 1]
  }

  /** Whatever exists lies in an existing directory.  The root itself may be missing, and everything
      else with it, or be a file, and nothing else exists. */
  ghost predicate WellFormed(t: Tree) {
    forall p {:trigger Parent(p)} :: p in t && p != [] ==> Parent(p) in t && t[Parent(p)] == Dir
  }

  /** The root is there and is a directory. */
  predicate Rooted(t: Tree) {
    [] in t && t[[]] == Dir
  }

  predicate IsFile(t: Tree, p: Path) {
    p in t && t[p].File?
  }

  ghost predicate SameAt(t: Tree, u: Tree, q: Path) {
    (q in t <==> q in u) && (q in t ==> t[q] == u[q])
  }

  lemma SameTree(t: Tree, u: Tree)
    requires forall q :: SameAt(t, u, q)
    ensures t == u
  {
    forall q
      ensures q in t <==> q in u
      ensures q in t ==> t[q] == u[q]
    {
      assert SameAt(t, u, q);
    }
  }

  lemma {:induction false} AncestorIsDir(t: Tree, p: Path, k: nat)
    requires WellFormed(t) && p in t && k < |p|
    ensures p[..k] in t && t[p[..k]] == Dir
  {
    assert Parent(p) == p[..|p| - 1];
    if k < |p| - 1 {
      AncestorIsDir(t, Parent(p), k);
      assert Parent(p)[..k] == p[..k];
    }
  }

  lemma PrefixIsDir(t: Tree, q: Path, p: Path)
    requires WellFormed(t) && p in t && q <= p && q != p
    ensures q in t && t[q] == Dir
  {
    AncestorIsDir(t, p, |q|);
    assert p[..|q|] == q;
  }

  /** No proper ancestor of `p`, below depth `k`, is a regular file. */
  ghost predicate NoFileAbove(t: Tree, p: Path, k: nat)
    requires k <= |p|
  {
    forall i :: 0 <= i < k ==> !IsFile(t, p[..i])
  }

  function Prefixes(p: Path, k: nat): set<Path>
    requires k <= |p|
  {
    set i | 0 <= i <= k :: p[..i]
  }

  lemma InPrefixes(p: Path, k: nat, q: Path)
    requires k <= |p|
    ensures q in Prefixes(p, k) <==> q <= p && |q| <= k
  {
    if q <= p && |q| <= k {
      assert q == p[..|q|];
    }
  }

  /** `t` with the missing ones among the first `k` ancestors of `p` made directories. */
  function WithDirs(t: Tree, p: Path, k: nat): Tree
    requires k <= |p|
  {
    t + map q | q in Prefixes(p, k) && q !in t :: Dir
  }

  lemma WithDirsAt(t: Tree, p: Path, k: nat, q: Path)
    requires k <= |p|
    ensures q in WithDirs(t, p, k) <==> q in t || (q <= p && |q| <= k)
    ensures q in WithDirs(t, p, k) ==>
              WithDirs(t, p, k)[q] == if q in t then t[q] else Dir
  {
    InPrefixes(p, k, q);
  }

  lemma WithDirsWellFormed(t: Tree, p: Path, k: nat)
    requires WellFormed(t) && k <= |p| && NoFileAbove(t, p, k)
    ensures WellFormed(WithDirs(t, p, k))
  {
    var u := WithDirs(t, p, k);
    forall q | q in u && q != []
      ensures Parent(q) in u && u[Parent(q)] == Dir
    {
      WithDirsAt(t, p, k, q);
      WithDirsAt(t, p, k, Parent(q));
      if q !in t {
        assert Parent(q) == p[..|q| - 1];
      }
    }
  }

  lemma WithDirsStep(t: Tree, p: Path, k: nat)
    requires k < |p|
    ensures p[..k + 1] in t ==> WithDirs(t, p, k + 1) == WithDirs(t, p, k)
    ensures p[..k + 1] !in t ==> WithDirs(t, p, k + 1) == WithDirs(t, p, k)[p[..k + 1] := Dir]
  {
    var next := p[..k + 1];
    forall q
      ensures q in Prefixes(p, k + 1) <==> q in Prefixes(p, k) || q == next
    {
      InPrefixes(p, k, q);
      InPrefixes(p, k + 1, q);
    }
    assert Prefixes(p, k + 1) == Prefixes(p, k) + {next};
  }

  /** What one `mkdir` of the loop in `syseba_mkdirs` meets and leaves. */
  lemma NextDir(t: Tree, p: Path, k: nat)
    requires WellFormed(t) && k < |p| && NoFileAbove(t, p, k)
    ensures var u, next := WithDirs(t, p, k), p[..k + 1];
            && p[..k] in u && (u[p[..k]].File? <==> IsFile(t, p[..k]))
            && (next in u ==> u == WithDirs(t, p, k + 1) && !IsFile(t, p[..k]))
            && (next !in u ==> u[next := Dir] == WithDirs(t, p, k + 1))
  {
    var next := p[..k + 1];
    WithDirsAt(t, p, k, p[..k]);
    WithDirsAt(t, p, k, next);
    WithDirsStep(t, p, k);
    if next in t {
      AncestorIsDir(t, next, k);
      assert next[..k] == p[..k];
    }
  }

  /** Between `t` and `u` nothing changed except that ancestors of `p` may have been created. */
  ghost predicate OnlyDirsAdded(t: Tree, u: Tree, p: Path) {
    && t.Keys <= u.Keys
    && (forall q :: q in t ==> u[q] == t[q])
    && forall q :: q in u && q !in t ==> q <= p && u[q] == Dir
  }

  lemma WithDirsOnlyAdds(t: Tree, p: Path, k: nat, target: Path)
    requires k <= |p| && p <= target
    ensures OnlyDirsAdded(t, WithDirs(t, p, k), target)
  {
    forall q | q in WithDirs(t, p, k) {
      WithDirsAt(t, p, k, q);
    }
  }

  lemma OnlyRoot(t: Tree, p: Path)
    ensures WithDirs(t, p, 0) == if [] in t then t else t[[] := Dir]
  {
    forall q ensures q in Prefixes(p, 0) <==> q == [] {
      InPrefixes(p, 0, q);
    }
  }

  lemma AfterMkdirs(t: Tree, p: Path, k: nat)
    requires WellFormed(t) && k <= |p| && NoFileAbove(t, p, k)
    ensures WellFormed(WithDirs(t, p, k)) && OnlyDirsAdded(t, WithDirs(t, p, k), p)
  {
    WithDirsWellFormed(t, p, k);
    WithDirsOnlyAdds(t, p, k, p);
  }

  /** Everything at or below `p`. */
  function Subtree(t: Tree, p: Path): set<Path> {
    set q | q in t && p <= q
  }

  /** What `rename` away, or a complete removal, leaves behind. */
  function Without(t: Tree, p: Path): Tree {
    t - Subtree(t, p)
  }

  lemma WithoutWellFormed(t: Tree, p: Path)
    requires WellFormed(t)
    ensures WellFormed(Without(t, p))
  {
    forall q | q in Without(t, p) && q != []
      ensures Parent(q) in Without(t, p)
    {
      assert Parent(q) <= q;
    }
  }

  /** Where the entry `q` at or below `p` goes when `p` goes to `dest`. */
  function Rebase(p: Path, dest: Path, q: Path): (r: Path)
    requires p <= q
    ensures dest <= r
  {
    dest + q[|p|..]
  }

  lemma RebaseInverse(p: Path, dest: Path, q: Path, x: Path)
    requires p <= q && dest <= x
    ensures Rebase(dest, p, x) == q <==> x == Rebase(p, dest, q)
  {
    assert p + q[|p|..] == q && dest + x[|dest|..] == x;
    assert Rebase(dest, p, x)[|p|..] == x[|dest|..];
    assert Rebase(p, dest, q)[|dest|..] == q[|p|..];
  }

  lemma RebaseParent(p: Path, dest: Path, q: Path)
    requires p <= q && p != q
    ensures q != [] && p <= Parent(q) && Rebase(p, dest, q) != [] && Rebase(p, dest, q) != dest
    ensures Parent(Rebase(p, dest, q)) == Rebase(p, dest, Parent(q))
  {
  }

  /** Whether `q` is a place taken by `from`'s subtree `p` when it is put at `dest`. */
  predicate Grafted(from: Tree, p: Path, dest: Path, q: Path) {
    dest <= q && Rebase(dest, p, q) in from
  }

  /** `to` with the subtree of `from` at `p` placed at `dest`. */
  function Graft(to: Tree, from: Tree, p: Path, dest: Path): Tree {
    var places := set q | q in Subtree(from, p) :: Rebase(p, dest, q);
    to + map q | q in places && Grafted(from, p, dest, q) :: from[Rebase(dest, p, q)]
  }

  lemma GraftAt(to: Tree, from: Tree, p: Path, dest: Path, q: Path)
    ensures var g := Graft(to, from, p, dest);
            && (q in g <==> q in to || Grafted(from, p, dest, q))
            && (q in g ==> g[q] == if Grafted(from, p, dest, q) then from[Rebase(dest, p, q)] else to[q])
  {
    if Grafted(from, p, dest, q) {
      var s := Rebase(dest, p, q);
      RebaseInverse(p, dest, s, q);
      assert s in Subtree(from, p);
    }
  }

  lemma GraftWellFormed(to: Tree, from: Tree, p: Path, dest: Path)
    requires WellFormed(to) && WellFormed(from) && p in from
    requires dest != [] && dest !in to && Parent(dest) in to && to[Parent(dest)] == Dir
    ensures WellFormed(Graft(to, from, p, dest))
  {
    var g := Graft(to, from, p, dest);
    GraftAt(to, from, p, dest, []);
    forall q | q in g && q != []
      ensures Parent(q) in g && g[Parent(q)] == Dir
    {
      GraftAt(to, from, p, dest, q);
      GraftAt(to, from, p, dest, Parent(q));
      if q == dest {
        assert !(dest <= Parent(q));
      } else if Grafted(from, p, dest, q) {
        RebaseParent(dest, p, q);
      } else if dest <= Parent(q) {
        PrefixIsDir(to, dest, q);
      }
    }
  }

  /** A directory is empty when nothing has it as parent. */
  predicate EmptyDir(t: Tree, p: Path) {
    forall q :: q in t && q != [] ==> Parent(q) != p
  }

  /** After a copy of `file` to `p` was reported as failed: besides new ancestor
      directories only `p` may differ, and then it is the whole new file.  The
      rename may have happened before the failure was reported. */
  ghost predicate OldOrWhole(t: Tree, u: Tree, p: Path, file: Node) {
    && (forall q :: q in t ==> q in u)
    && (forall q :: q in t && q != p ==> u[q] == t[q])
    && (forall q :: q in u && q !in t && q != p ==> q <= p && u[q] == Dir)
    && (p in u ==> u[p] == file || (p in t && u[p] == t[p]))
    && (p in t && t[p] == Dir ==> u[p] == Dir)
  }

  /** Whether an entry can be put at `target`, system calls permitting. */
  ghost predicate CanPut(t: Tree, target: Path, node: Node) {
    NoFileAbove(t, target, |target|) && (node.File? && target in t ==> t[target].File?)
  }

  /** `t` with an entry put at `target`, and the missing directories above it; an entry that exists already
      is good enough for a directory. */
  ghost function Put(t: Tree, target: Path, node: Node): Tree {
    if node == Dir then WithDirs(t, target, |target|)
    else if target == [] then t[target := node]
    else WithDirs(t, Parent(target), |target| - 1)[target := node]
  }

  lemma PutAt(t: Tree, target: Path, node: Node, q: Path)
    ensures q in Put(t, target, node) <==> q in t || q <= target
    ensures q in Put(t, target, node) ==>
              Put(t, target, node)[q] == if q == target && node.File? then node else if q in t then t[q] else Dir
  {
    WithDirsAt(t, target, |target|, q);
    if target != [] {
      WithDirsAt(t, Parent(target), |target| - 1, q);
      assert q <= target <==> q == target || q <= Parent(target);
    }
  }

  lemma CopyFailsCleanly(t: Tree, u: Tree, p: Path, file: Node)
    requires p != [] && OnlyDirsAdded(t, u, Parent(p))
    ensures OldOrWhole(t, u, p, file)
    ensures !(p in t && t[p] == Dir) ==> OldOrWhole(t, u[p := file], p, file)
    ensures SameAt(t, u, p)
  {
    forall q | q in u && q <= Parent(p)
      ensures q <= p && q != p
    {
    }
  }

  /** The root has no parents that could be missing. */
  lemma CopyToRoot(t: Tree, file: Node)
    ensures OldOrWhole(t, t, [], file)
    ensures !([] in t && t[[]] == Dir) ==> OldOrWhole(t, t[[] := file], [], file)
  {
  }

  lemma ParentsMade(t: Tree, p: Path, file: Node)
    requires p != [] && file.File? && NoFileAbove(t, Parent(p), |p| - 1)
    ensures var u := WithDirs(t, Parent(p), |p| - 1);
            && u[p := file] == Put(t, p, file) && Parent(p) in u
            && (NoFileAbove(t, p, |p|) <==> u[Parent(p)] == Dir)
  {
    NoFileAboveParent(t, p);
    WithDirsAt(t, Parent(p), |p| - 1, Parent(p));
  }

  lemma NoFileAboveParent(t: Tree, p: Path)
    requires p != []
    ensures NoFileAbove(t, p, |p|) <==> NoFileAbove(t, Parent(p), |p| - 1) && !IsFile(t, Parent(p))
  {
    assert forall i :: 0 <= i < |p| - 1 ==> Parent(p)[..i] == p[..i];
    assert Parent(p) == p[..|p| - 1];
  }

  lemma DirsInPlace(t: Tree, p: Path)
    requires WellFormed(t) && p in t
    ensures WithDirs(t, p, |p|) == t
  {
    forall q
      ensures q in WithDirs(t, p, |p|) <==> q in t
      ensures q in t ==> WithDirs(t, p, |p|)[q] == t[q]
    {
      WithDirsAt(t, p, |p|, q);
      if q <= p && q != p {
        PrefixIsDir(t, q, p);
      }
    }
  }

  lemma PutWellFormed(t: Tree, p: Path, node: Node)
    requires WellFormed(t) && (p != [] ==> Parent(p) in t && t[Parent(p)] == Dir)
    requires p in t && t[p] == Dir ==> node == Dir
    ensures WellFormed(t[p := node])
  {
  }

  /** Whether the operating system refuses a call: it may, or it never does. */
  method SystemRefuses(mayFail: bool) returns (refused: bool)
    ensures refused ==> mayFail
  {
    refused := false;
    if mayFail {
      refused := *;
    }
  }

  /** A tree on disk, below the absolute path `root`.  At any call the operating system may
      report an error if `mayFail`; `fault` tells whether it did. */
  class Volume {
    const root: Path
    var tree: Tree

    constructor (root: Path, tree: Tree)
      ensures this.root == root && this.tree == tree
    {
      this.root, this.tree := root, tree;
    }

    /** One `mkdir` per ancestor, from the top; an entry that exists already,
        of either kind, is taken as success. */
    method Mkdirs(p: Path, mayFail: bool) returns (ok: bool, fault: bool)
      requires WellFormed(tree)
      modifies this
      ensures WellFormed(tree)
      ensures OnlyDirsAdded(old(tree), tree, p)
      ensures ok ==> NoFileAbove(old(tree), p, |p|) && tree == WithDirs(old(tree), p, |p|)
      ensures !ok && !fault ==> !NoFileAbove(old(tree), p, |p|)
      ensures fault ==> mayFail
    {
      ghost var t := tree;
      ok, fault := MakeRoot(p, mayFail);
      if !ok {
        return;
      }
      assert NoFileAbove(t, p, 0);
      var i := 0;
      while i < |p|
        invariant 0 <= i <= |p|
        invariant NoFileAbove(t, p, i)
        invariant tree == WithDirs(t, p, i)
      {
        ok, fault := MakeNext(p, i, t, mayFail);
        if !ok {
          return;
        }
        i := i + 1;
      }
      AfterMkdirs(t, p, |p|);
      return true, false;
    }

    method MakeRoot(ghost p: Path, mayFail: bool) returns (ok: bool, fault: bool)
      requires WellFormed(tree)
      modifies this
      ensures ok ==> tree == WithDirs(old(tree), p, 0)
      ensures !ok ==> fault && WellFormed(tree) && OnlyDirsAdded(old(tree), tree, p)
      ensures fault ==> mayFail
    {
      OnlyRoot(tree, p);
      if [] !in tree {
        var refused := SystemRefuses(mayFail);
        if refused {
          return false, true;
        }
        tree := tree[[] := Dir];
      }
      return true, false;
    }

    /** One `mkdir` of the loop. */
    method MakeNext(p: Path, i: nat, ghost t: Tree, mayFail: bool) returns (ok: bool, fault: bool)
      requires WellFormed(t) && i < |p| && NoFileAbove(t, p, i) && tree == WithDirs(t, p, i)
      modifies this
      ensures ok ==> NoFileAbove(t, p, i + 1) && tree == WithDirs(t, p, i + 1)
      ensures !ok ==> WellFormed(tree) && OnlyDirsAdded(t, tree, p)
      ensures !ok && !fault ==> !NoFileAbove(t, p, |p|)
      ensures fault ==> mayFail
    {
      NextDir(t, p, i);
      AfterMkdirs(t, p, i);
      var next := p[..i + 1];
      assert Parent(next) == p[..i];
      var refused := SystemRefuses(mayFail);
      if next in tree {
        // EEXIST
      } else if tree[Parent(next)].File? {
        // ENOTDIR
        return false, false;
      } else if refused {
        return false, true;
      } else {
        tree := tree[next := Dir];
      }
      return true, false;
    }

    /** `syseba_copy_file` seen from the outside while the source stands still:
        parents are made, the bytes go to a temporary sibling, and a rename puts
        the whole file in place. */
    method CopyFile(file: Node, p: Path, mayFail: bool) returns (ok: bool, fault: bool)
      requires WellFormed(tree) && file.File?
      modifies this
      ensures WellFormed(tree)
      ensures ok ==> CanPut(old(tree), p, file) && tree == Put(old(tree), p, file)
      ensures !ok ==> OldOrWhole(old(tree), tree, p, file)
      ensures !ok && !fault ==> !CanPut(old(tree), p, file)
      ensures fault ==> mayFail
    {
      ok, fault := MakeParents(file, p, mayFail);
      if !ok {
        return;
      }
      if p != [] && tree[Parent(p)].File? {
        // the temporary file cannot be created below a regular file
        return false, false;
      }
      if p in tree && tree[p] == Dir {
        // rename onto a directory
        return false, false;
      }
      var refused := SystemRefuses(mayFail);
      if refused {
        return false, true;
      }
      PutWellFormed(tree, p, file);
      tree := tree[p := file];
      refused := SystemRefuses(mayFail);
      if refused {
        // the parent directory could not be flushed
        return false, true;
      }
    }

    /** `syseba_prepare_destination`; the directory above the root is there. */
    method MakeParents(ghost file: Node, p: Path, mayFail: bool) returns (ok: bool, fault: bool)
      requires WellFormed(tree) && file.File?
      modifies this
      ensures WellFormed(tree) && OldOrWhole(old(tree), tree, p, file)
      ensures !(p in old(tree) && old(tree)[p] == Dir) ==> OldOrWhole(old(tree), tree[p := file], p, file)
      ensures SameAt(old(tree), tree, p)
      ensures ok ==> tree[p := file] == Put(old(tree), p, file)
      ensures ok && p != [] ==> Parent(p) in tree
      ensures ok ==> (NoFileAbove(old(tree), p, |p|) <==> p == [] || tree[Parent(p)] == Dir)
      ensures !ok && !fault ==> !NoFileAbove(old(tree), p, |p|)
      ensures fault ==> mayFail
    {
      ghost var t := tree;
      if p == [] {
        CopyToRoot(t, file);
        return true, false;
      }
      NoFileAboveParent(t, p);
      ok, fault := Mkdirs(Parent(p), mayFail);
      CopyFailsCleanly(t, tree, p, file);
      if ok {
        ParentsMade(t, p, file);
      }
    }

    method Unlink(p: Path, mayFail: bool) returns (ok: bool)
      requires WellFormed(tree) && IsFile(tree, p)
      modifies this
      ensures WellFormed(tree)
      ensures tree == if ok then old(tree) - {p} else old(tree)
      ensures !ok ==> mayFail
    {
      var refused := SystemRefuses(mayFail);
      if refused {
        return false;
      }
      tree := tree - {p};
      return true;
    }

    method Rmdir(p: Path, mayFail: bool) returns (ok: bool, fault: bool)
      requires WellFormed(tree) && p in tree && tree[p] == Dir
      modifies this
      ensures WellFormed(tree)
      ensures ok ==> EmptyDir(old(tree), p)
      ensures tree == if ok then old(tree) - {p} else old(tree)
      ensures !ok && !fault ==> !EmptyDir(old(tree), p)
      ensures fault ==> mayFail
    {
      var refused := SystemRefuses(mayFail);
      if !EmptyDir(tree, p) {
        return false, false;
      } else if refused {
        return false, true;
      }
      tree := tree - {p};
      return true, false;
    }
  }
}
