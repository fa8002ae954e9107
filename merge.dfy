/** What merge_copy does to the tree, as a value: the source tree is laid over
    the destination, file by file and directory by directory. */
module MergeSpec {
  import opened Tree

  /** The destination after merging `src` over it (`dst` is None when the
      destination does not exist yet). A file in the source replaces whatever
      is at its name; a directory in the source is merged into the directory
      of the same name, which is created when missing; every destination entry
      the source does not name is kept. */
  function Merge(src: Node, dst: Option<Node>): Node
  {
    match src
    case File(_) => src
    case Dir(m) =>
      var d := ChildrenIn(dst);
      Dir(map k | k in m.Keys + d.Keys :: if k in m then Merge(m[k], ChildIn(d, k)) else d[k])
  }

  /** merge_copy(src, dst) on the whole filesystem: the tree at `dst` is
      replaced by the merge of `src` over it, and the directories above `dst`
      are created as needed. */
  function MergeInto(root: Node, dst: Path, src: Node): Node
  {
    Put(root, dst, Merge(src, Get(root, dst)))
  }

  /** `src` says nothing about path `p`: following `p` through `src` leaves
      `src` at a directory that has no entry for the next name. */
  predicate Untouched(src: Node, p: Path)
    decreases p
  {
    p != [] && src.Dir? && (p[0] !in src.children || Untouched(src.children[p[0]], p[1..]))
  }

  /** Every regular file of the merged tree: where the source reaches a path,
      the file there (or its absence) comes from the source; elsewhere it is
      the destination's. Files of `src` land at the same relative paths with
      the same content, and no file appears from anywhere else. */
  lemma {:induction false} MergeFiles(src: Node, dst: Option<Node>, p: Path)
    ensures FileAt(Merge(src, dst), p) == if Untouched(src, p) then FileIn(dst, p) else FileAt(src, p)
    decreases p
  {
    if p != [] && src.Dir? {
      var d := ChildrenIn(dst);
      var k := p[0];
      var merged := Merge(src, dst);
      assert FileAt(merged, p) == FileIn(ChildIn(merged.children, k), p[1..]);
      assert FileIn(dst, p) == FileIn(ChildIn(d, k), p[1..]) by {
        if dst.Some? && dst.value.Dir? && k in d {
          assert FileIn(dst, p) == FileAt(d[k], p[1..]);
        }
      }
      if k in src.children {
        assert FileAt(src, p) == FileAt(src.children[k], p[1..]);
        MergeFiles(src.children[k], ChildIn(d, k), p[1..]);
      }
    }
  }

  /** Entries (files or whole directories) that the source does not name are
      exactly as they were: merge_copy never removes anything. */
  lemma {:induction false} MergeKeeps(src: Node, dst: Option<Node>, p: Path)
    requires Untouched(src, p)
    ensures Get(Merge(src, dst), p) == GetIn(dst, p)
    decreases p
  {
    var d := ChildrenIn(dst);
    var k := p[0];
    assert GetIn(dst, p) == GetIn(ChildIn(d, k), p[1..]) by {
      if dst.Some? && dst.value.Dir? && k in d {
        assert GetIn(dst, p) == Get(d[k], p[1..]);
      }
    }
    if k in src.children {
      MergeKeeps(src.children[k], ChildIn(d, k), p[1..]);
    }
  }

  /** Every directory of the source exists as a directory in the result,
      whether or not the destination had it. */
  lemma {:induction false} MergeCreatesDirs(src: Node, dst: Option<Node>, p: Path)
    requires IsDirAt(src, p)
    ensures IsDirAt(Merge(src, dst), p)
    decreases p
  {
    if p != [] {
      var d := ChildrenIn(dst);
      MergeCreatesDirs(src.children[p[0]], ChildIn(d, p[0]), p[1..]);
    }
  }

  /** Merging the same source a second time changes nothing. */
  lemma {:induction false} MergeIdempotent(src: Node, dst: Option<Node>)
    ensures Merge(src, Some(Merge(src, dst))) == Merge(src, dst)
    decreases src
  {
    match src
    case File(_) =>
    case Dir(m) =>
      var once := Merge(src, dst);
      var twice := Merge(src, Some(once));
      forall k | k in m
        ensures Merge(m[k], Some(Merge(m[k], ChildIn(ChildrenIn(dst), k)))) == Merge(m[k], ChildIn(ChildrenIn(dst), k))
      {
        MergeIdempotent(m[k], ChildIn(ChildrenIn(dst), k));
      }
      assert twice.children == once.children;
  }

  // ---------------------------------------------------------------------------
  // merge_copy on the whole filesystem

  /** Below the destination, each regular file is the source's where the
      source reaches and the old file otherwise. */
  lemma MergeIntoFiles(root: Node, dst: Path, src: Node, q: Path)
    ensures FileAt(MergeInto(root, dst, src), dst + q) ==
      if Untouched(src, q) then FileAt(root, dst + q) else FileAt(src, q)
  {
    var before := Get(root, dst);
    GetPutInside(root, dst, Merge(src, before), q);
    MergeFiles(src, before, q);
    GetConcat(root, dst, q);
    assert FileIn(before, q) == FileAt(root, dst + q);
  }

  /** Paths neither above nor below the destination are not affected. */
  lemma MergeIntoOutside(root: Node, dst: Path, src: Node, q: Path)
    requires !IsPrefix(dst, q) && !IsPrefix(q, dst)
    ensures Get(MergeInto(root, dst, src), q) == Get(root, q)
  {
    GetPutOutside(root, dst, Merge(src, Get(root, dst)), q);
  }

  /** The destination and every directory above it exist afterwards
      (os.makedirs). */
  lemma MergeIntoMakesDirs(root: Node, dst: Path, src: Node, k: nat)
    requires src.Dir? && k <= |dst|
    ensures IsDirAt(MergeInto(root, dst, src), dst[..k])
  {
    if k < |dst| {
      PutMakesAncestors(root, dst, Merge(src, Get(root, dst)), k);
    } else {
      assert dst[..k] == dst + [];
      GetPutInside(root, dst, Merge(src, Get(root, dst)), []);
    }
  }

  /** Running merge_copy twice with the same source leaves the filesystem as
      one run does. */
  lemma MergeIntoIdempotent(root: Node, dst: Path, src: Node)
    ensures MergeInto(MergeInto(root, dst, src), dst, src) == MergeInto(root, dst, src)
  {
    var once := Merge(src, Get(root, dst));
    GetPutInside(root, dst, once, []);
    assert dst + [] == dst;
    MergeIdempotent(src, Get(root, dst));
    PutPut(root, dst, once, once);
  }
}
