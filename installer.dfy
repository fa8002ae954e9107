/** The installer's imperative core: merge_copy, process_archive and the
    drag-and-drop loop, each changing the one filesystem in place and proved
    against the functions of MergeSpec and Distribution. */
module Installer {
  import opened Tree
  import opened Names
  import opened Report
  import opened MergeSpec
  import opened Distribution

  /** Local view of a directory merge after the entries in `done` have been
      copied: those are merged, every other old entry is as it was. */
  ghost function Partial(src: map<string, Node>, existing: map<string, Node>, done: set<string>): map<string, Node>
    requires done <= src.Keys
  {
    map k | k in existing.Keys + done :: if k in done then Merge(src[k], ChildIn(existing, k)) else existing[k]
  }

  class FileSystem {
    /** The whole filesystem the installer sees. */
    var root: Node

    constructor (initial: Node)
      ensures root == initial
    {
      root := initial;
    }

    /** merge_copy(src, dst): creates `dst` when it is not a directory, then
        walks the entries of `src`, recursing into directories and copying
        files over whatever has the same name. */
    method MergeCopy(src: Node, dst: Path)
      requires src.Dir?
      modifies this
      ensures root == MergeInto(old(root), dst, src)
      decreases src
    {
      ghost var before := root;
      ghost var existing := ChildrenIn(Get(before, dst));
      if !IsDirAt(root, dst) {
        root := Put(root, dst, Dir(map[]));
      } else {
        PutGet(root, dst, Dir(existing));
      }
      var items := src.children.Keys;
      ghost var done: set<string> := {};
      assert Partial(src.children, existing, done) == existing;
      while items != {}
        invariant items <= src.children.Keys
        invariant done == src.children.Keys - items
        invariant root == Put(before, dst, Dir(Partial(src.children, existing, done)))
        decreases items
      {
        var item :| item in items;
        var s := src.children[item];
        ghost var partial := Partial(src.children, existing, done);
        GetPutInside(before, dst, Dir(partial), [item]);
        assert Get(root, dst + [item]) == ChildIn(existing, item);
        if s.Dir? {
          MergeCopy(s, dst + [item]);
        } else {
          root := Put(root, dst + [item], s);   // shutil.copy2
        }
        PutPutInside(before, dst, Dir(partial), [item], Merge(s, ChildIn(existing, item)));
        items := items - {item};
        done := done + {item};
        assert Partial(src.children, existing, done) == partial[item := Merge(s, ChildIn(existing, item))];
      }
      assert Partial(src.children, existing, done) == Merge(src, Get(before, dst)).children;
    }

    /** os.remove(path) with every failure swallowed. */
    method RemoveQuietly(path: Path)
      modifies this
      ensures root == RemoveFile(old(root), path)
    {
      root := RemoveFile(root, path);
    }

    /** process_archive(archive, config). */
    method ProcessArchive(archive: string, config: Config, env: Env) returns (outcome: Outcome)
      modifies this
      ensures Result(root, outcome) == Process(old(root), archive, config, env)
    {
      if !PathExists(root, config.bandizipPath) {
        return NoBandizip;
      }
      var stage1 := Stage(root, archive, env);
      var files := env.walk(stage1);
      var foundZips: seq<string> := [];
      var matchCount: nat := 0;
      ghost var start := Progress(root, [], 0);
      var i := 0;
      while i < |files|
        invariant 0 <= i <= |files|
        invariant Progress(root, foundZips, matchCount) == Distribute(start, files[..i], config.rules, env.extract)
      {
        var file := files[i];
        assert files[..i + 1][..i] == files[..i];
        if IsZipName(file.name) {
          var name := BaseName(file.name);
          foundZips := foundZips + [name];
          var rule := Lookup(config.rules, name);
          if rule.Some? {
            matchCount := matchCount + 1;
            var stage2 := env.extract(file.data);
            var actualSrc := EffectiveRoot(stage2);
            MergeCopy(actualSrc, SplitPath(rule.value));
          }
        }
        i := i + 1;
      }
      assert files[..|files|] == files;
      if matchCount == 0 {
        outcome := NoMatch(SortedSet(foundZips));
      } else {
        if config.autoDelete {
          RemoveQuietly(SplitPath(archive));
        }
        outcome := Installed(matchCount);
      }
    }

    /** The `__main__` loop in drag-and-drop mode: every argument that passes
        the outer filter is processed, in order. */
    method DragAndDrop(args: seq<string>, config: Config, env: Env) returns (outcomes: seq<Outcome>)
      modifies this
      ensures Batch(root, outcomes) == RunAll(old(root), args, config, env)
    {
      outcomes := [];
      ghost var start := root;
      var i := 0;
      while i < |args|
        invariant 0 <= i <= |args|
        invariant Batch(root, outcomes) == RunAll(start, args[..i], config, env)
      {
        var arg := args[i];
        assert args[..i + 1][..i] == args[..i];
        if IsAcceptedArchive(arg) {
          var outcome := ProcessArchive(arg, config, env);
          outcomes := outcomes + [outcome];
        }
        i := i + 1;
      }
      assert args[..|args|] == args;
    }
  }
}
