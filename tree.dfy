/** The filesystem as one tree value: the staging areas, the rule destinations,
    the archiver executable and the dropped archive all live in it. */
module Tree {

  type Bytes = seq<bv8>

  /** A path is the sequence of entry names from the root, `["D:", "X-Plane 12", "Custom Data"]`. */
  type Path = seq<string>

  datatype Option<T> = None | Some(value: T)

  /** A regular file holds bytes; a directory maps entry names to entries. */
  datatype Node = File(data: Bytes) | Dir(children: map<string, Node>)

  /** The entries a directory lists; a file lists none. */
  function Children(n: Node): map<string, Node>
  {
    if n.Dir? then n.children else map[]
  }

  /** The entries listed by an optional node (a missing directory lists none). */
  function ChildrenIn(o: Option<Node>): map<string, Node>
  {
    if o.Some? then Children(o.value) else map[]
  }

  /** The entry named `k` inside an optional directory, if there is one. */
  function ChildIn(m: map<string, Node>, k: string): Option<Node>
  {
    if k in m then Some(m[k]) else None
  }

  /** The entry found by following `p` from `t`. */
  function Get(t: Node, p: Path): Option<Node>
    decreases p
  {
    if p == [] then Some(t)
    else if t.Dir? && p[0] in t.children then Get(t.children[p[0]], p[1..])
    else None
  }

  /** `Get` from an entry that may not exist. */
  function GetIn(o: Option<Node>, p: Path): Option<Node>
  {
    if o.Some? then Get(o.value, p) else None
  }

  /** os.path.exists */
  predicate Exists(t: Node, p: Path)
  {
    Get(t, p).Some?
  }

  /** os.path.isdir */
  predicate IsDirAt(t: Node, p: Path)
  {
    Get(t, p).Some? && Get(t, p).value.Dir?
  }

  /** The content of the regular file at `p`, if `p` names one. */
  function FileAt(t: Node, p: Path): Option<Bytes>
  {
    match Get(t, p)
    case Some(File(d)) => Some(d)
    case _ => None
  }

  function FileIn(o: Option<Node>, p: Path): Option<Bytes>
  {
    if o.Some? then FileAt(o.value, p) else None
  }

  predicate IsPrefix(a: Path, b: Path)
  {
    |a| <= |b| && b[..|a|] == a
  }

  /** `t` with `n` stored at `p`. Every missing directory on the way is created,
      as os.makedirs does; an entry on the way that is a file is replaced by a
      directory (a kind clash the model resolves in favour of the write). */
  function Put(t: Node, p: Path, n: Node): Node
    decreases p
  {
    if p == [] then n
    else
      var m := Children(t);
      var child := if p[0] in m then m[p[0]] else Dir(map[]);
      Dir(m[p[0] := Put(child, p[1..], n)])
  }

  /** os.remove inside `try: ... except: pass`: the regular file at `p` is
      unlinked; anything else (nothing there, a directory, the root) is left
      as it is, since the exception is swallowed. */
  function RemoveFile(t: Node, p: Path): Node
    decreases p
  {
    if p == [] || !t.Dir? || p[0] !in t.children then t
    else if |p| == 1 then
      (if t.children[p[0]].File? then Dir(t.children - {p[0]}) else t)
    else Dir(t.children[p[0] := RemoveFile(t.children[p[0]], p[1..])])
  }

  predicate IsSeparator(c: char)
  {
    c == '\\' || c == '/'
  }

  /** The components of a path string, splitting at either separator and
      dropping empty components: `D:\X-Plane 12\Custom Data` names
      `["D:", "X-Plane 12", "Custom Data"]`. */
  function SplitPath(s: string): (p: Path)
    ensures forall i :: 0 <= i < |p| ==> p[i] != [] && forall c :: c in p[i] ==> !IsSeparator(c)
  {
    SplitFrom(s, [])
  }

  function SplitFrom(s: string, current: string): (p: Path)
    requires forall c :: c in current ==> !IsSeparator(c)
    ensures forall i :: 0 <= i < |p| ==> p[i] != [] && forall c :: c in p[i] ==> !IsSeparator(c)
    decreases |s|
  {
    if s == [] then (if current == [] then [] else [current])
    else if IsSeparator(s[0]) then (if current == [] then [] else [current]) + SplitFrom(s[1..], [])
    else SplitFrom(s[1..], current + [s[0]])
  }

  /** os.path.exists on a path string: the empty string names nothing. */
  predicate PathExists(t: Node, s: string)
  {
    s != "" && Exists(t, SplitPath(s))
  }

  /** A path written out with Windows separators. */
  function JoinPath(p: Path): string
  {
    if p == [] then []
    else if |p| == 1 then p[0]
    else p[0] + "\\" + JoinPath(p[1..])
  }

  predicate IsComponent(c: string)
  {
    c != [] && forall ch :: ch in c ==> !IsSeparator(ch)
  }

  lemma {:induction false} SplitFromComponent(c: string, rest: string, current: string)
    requires forall ch :: ch in c ==> !IsSeparator(ch)
    requires forall ch :: ch in current ==> !IsSeparator(ch)
    ensures SplitFrom(c + rest, current) == SplitFrom(rest, current + c)
    decreases |c|
  {
    if c == [] {
      assert c + rest == rest && current + c == current;
    } else {
      assert (c + rest)[0] == c[0] && (c + rest)[1..] == c[1..] + rest;
      assert c[0] in c;
      SplitFromComponent(c[1..], rest, current + [c[0]]);
      assert current + [c[0]] + c[1..] == current + c;
    }
  }

  /** Splitting a joined path gives back its components. */
  lemma {:induction false} SplitJoin(p: Path)
    requires forall i :: 0 <= i < |p| ==> IsComponent(p[i])
    ensures SplitPath(JoinPath(p)) == p
    decreases |p|
  {
    if |p| == 1 {
      SplitFromComponent(p[0], [], []);
      assert p[0] + [] == p[0] && [] + p[0] == p[0];
    } else if |p| > 1 {
      var rest := JoinPath(p[1..]);
      assert JoinPath(p) == p[0] + ("\\" + rest);
      SplitFromComponent(p[0], "\\" + rest, []);
      assert [] + p[0] == p[0];
      assert ("\\" + rest)[1..] == rest;
      assert SplitFrom("\\" + rest, p[0]) == [p[0]] + SplitFrom(rest, []);
      SplitJoin(p[1..]);
      assert p == [p[0]] + p[1..];
    }
  }

  // ---------------------------------------------------------------------------
  // Laws of Get and Put

  /** Following `p` and then `q` is following `p + q`. */
  lemma {:induction false} GetConcat(t: Node, p: Path, q: Path)
    ensures Get(t, p + q) == GetIn(Get(t, p), q)
    decreases p
  {
    if p == [] {
      assert p + q == q;
    } else {
      assert (p + q)[0] == p[0] && (p + q)[1..] == p[1..] + q;
      if t.Dir? && p[0] in t.children {
        GetConcat(t.children[p[0]], p[1..], q);
      }
    }
  }

  /** What was stored at `p` is found there, and below it. */
  lemma {:induction false} GetPutInside(t: Node, p: Path, n: Node, q: Path)
    ensures Get(Put(t, p, n), p + q) == Get(n, q)
    decreases p
  {
    if p == [] {
      assert p + q == q;
    } else {
      assert (p + q)[0] == p[0] && (p + q)[1..] == p[1..] + q;
      var m := Children(t);
      var child := if p[0] in m then m[p[0]] else Dir(map[]);
      GetPutInside(child, p[1..], n, q);
    }
  }

  /** Two paths that start with the same name are in prefix order exactly when their rests are. */
  lemma PrefixCons(a: Path, b: Path)
    requires a != [] && b != [] && a[0] == b[0]
    ensures IsPrefix(a, b) <==> IsPrefix(a[1..], b[1..])
  {
    if IsPrefix(a[1..], b[1..]) {
      assert b[..|a|] == [b[0]] + b[1..][..|a| - 1];
      assert a == [a[0]] + a[1..];
    }
  }

  /** A store at `p` leaves every path that is neither above nor below `p` alone. */
  lemma {:induction false} GetPutOutside(t: Node, p: Path, n: Node, q: Path)
    requires !IsPrefix(p, q) && !IsPrefix(q, p)
    ensures Get(Put(t, p, n), q) == Get(t, q)
    decreases p
  {
    assert p != [] && q != [];
    var m := Children(t);
    var child := if p[0] in m then m[p[0]] else Dir(map[]);
    if p[0] == q[0] {
      PrefixCons(p, q);
      PrefixCons(q, p);
      GetPutOutside(child, p[1..], n, q[1..]);
      if p[0] !in m {
        assert q[1..] != [];
        assert Get(Dir(map[]), q[1..]) == None;
      }
    }
  }

  /** Every directory above a stored entry exists after the store (os.makedirs). */
  lemma {:induction false} PutMakesAncestors(t: Node, p: Path, n: Node, k: nat)
    requires k < |p|
    ensures IsDirAt(Put(t, p, n), p[..k])
    decreases p
  {
    if k > 0 {
      var m := Children(t);
      var child := if p[0] in m then m[p[0]] else Dir(map[]);
      PutMakesAncestors(child, p[1..], n, k - 1);
      assert p[..k] == [p[0]] + p[1..][..k - 1];
    }
  }

  /** Storing what is already there changes nothing. */
  lemma {:induction false} PutGet(t: Node, p: Path, n: Node)
    requires Get(t, p) == Some(n)
    ensures Put(t, p, n) == t
    decreases p
  {
    if p != [] {
      PutGet(t.children[p[0]], p[1..], n);
      assert t.children[p[0] := t.children[p[0]]] == t.children;
    }
  }

  /** A store below `p` into a tree whose `p` was just stored is a store of the
      updated subtree at `p`. */
  lemma {:induction false} PutPutInside(t: Node, p: Path, a: Node, q: Path, b: Node)
    ensures Put(Put(t, p, a), p + q, b) == Put(t, p, Put(a, q, b))
    decreases p
  {
    if p == [] {
      assert p + q == q;
    } else {
      assert (p + q)[0] == p[0] && (p + q)[1..] == p[1..] + q;
      var m := Children(t);
      var child := if p[0] in m then m[p[0]] else Dir(map[]);
      PutPutInside(child, p[1..], a, q, b);
      assert m[p[0] := Put(child, p[1..], a)][p[0] := Put(Put(child, p[1..], a), p[1..] + q, b)]
          == m[p[0] := Put(child, p[1..], Put(a, q, b))];
    }
  }

  /** The second of two stores at the same path wins. */
  lemma PutPut(t: Node, p: Path, a: Node, b: Node)
    ensures Put(Put(t, p, a), p, b) == Put(t, p, b)
  {
    PutPutInside(t, p, a, [], b);
    assert p + [] == p;
  }

  /** What os.remove (with its failure swallowed) does: the file at `p`, if `p`
      names one, is gone, and every path that is not a strict ancestor of `p`
      keeps what it had. */
  lemma {:induction false} RemoveFileEffect(t: Node, p: Path, q: Path)
    requires !(IsPrefix(q, p) && q != p)
    ensures Get(RemoveFile(t, p), q) == if p != [] && IsPrefix(p, q) && FileAt(t, p).Some? then None else Get(t, q)
    decreases p
  {
    if p == [] || !t.Dir? || p[0] !in t.children {
      if p != [] && IsPrefix(p, q) {
        assert q != [] && q[0] == p[0];
      }
    } else {
      assert q != [];
      if q[0] == p[0] {
        var c := t.children[p[0]];
        assert FileAt(t, p) == FileAt(c, p[1..]);
        if |p| == 1 {
          assert IsPrefix(p, q) && p[1..] == [];
        } else {
          PrefixCons(q, p);
          PrefixCons(p, q);
          RemoveFileEffect(c, p[1..], q[1..]);
        }
      }
    }
  }
}
