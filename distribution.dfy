/** The distribution pipeline of process_archive and the drag-and-drop entry
    point, as functions of the filesystem before and after. */
module Distribution {
  import opened Tree
  import opened Names
  import opened Report
  import opened MergeSpec

  /** One regular file yielded by os.walk over the first staging area: its
      name and the bytes the archiver reads when it is extracted. */
  datatype WalkEntry = WalkEntry(name: string, data: Bytes)

  /** What the installer cannot see into: the archiver (the entries it writes
      into a fresh, empty staging directory) and the order in which os.walk
      lists that directory's files. */
  datatype Env = Env(extract: Bytes -> map<string, Node>,
                     walk: map<string, Node> -> seq<WalkEntry>)

  /** The settings read from the configuration file. The rule table is the
      `RULES` section as configparser presents it, options inherited from
      `DEFAULT` included: sub-package name (lower-cased) to destination. */
  datatype Config = Config(bandizipPath: string, autoDelete: bool, rules: map<string, string>)

  /** What one call of process_archive reports to the user. */
  datatype Outcome =
    | NoBandizip                   // the archiver path does not exist
    | NoMatch(names: seq<string>)  // no sub-package matched; the distinct names found, sorted
    | Installed(matches: nat)      // this many nested archives were distributed

  /** `name in rules` and `rules[name]` on a configparser section: the name is
      lower-cased first (optionxform). */
  function Lookup(rules: map<string, string>, name: string): Option<string>
  {
    var key := Lower(name);
    if key in rules then Some(rules[key]) else None
  }

  /** Rule lookup ignores the case of ASCII letters: a name and its
      lower-cased form find the same rule. */
  lemma LookupIgnoresCase(rules: map<string, string>, name: string)
    ensures Lookup(rules, Lower(name)) == Lookup(rules, name)
  {
    LowerIdempotent(name);
  }

  /** The second staging area holds exactly one entry, and it is a directory. */
  predicate SingleFolder(out: map<string, Node>)
  {
    |out| == 1 && forall k :: k in out ==> out[k].Dir?
  }

  /** The directory merged into the destination: the sole top-level folder of
      the extracted archive when there is exactly one entry and it is a
      directory, the staging directory itself otherwise. */
  function EffectiveRoot(out: map<string, Node>): (r: Node)
    ensures r.Dir?
    ensures SingleFolder(out) ==> exists k :: k in out && out == map[k := r]
    ensures !SingleFolder(out) ==> r == Dir(out)
  {
    if |out| == 1 then
      var k :| k in out;
      assert out == map[k := out[k]] by {
        assert |out.Keys - {k}| == 0;
        assert out.Keys == {k};
      }
      if out[k].Dir? then out[k] else Dir(out)
    else Dir(out)
  }

  // ---------------------------------------------------------------------------
  // The loop over the walked files

  /** The loop's state: the filesystem, `found_zips` and `match_count`. */
  datatype Progress = Progress(root: Node, found: seq<string>, matches: nat)

  /** One walked file: a `.zip` has its base name appended to `found_zips`; if
      the name has a rule, `match_count` goes up, the nested archive is
      extracted into a fresh staging area, one wrapping folder is unwrapped and
      the result is merged into the rule's destination. */
  function Step(p: Progress, e: WalkEntry, rules: map<string, string>, extract: Bytes -> map<string, Node>): Progress
  {
    if !IsZipName(e.name) then p
    else
      var name := BaseName(e.name);
      match Lookup(rules, name)
      case None => p.(found := p.found + [name])
      case Some(dest) =>
        Progress(MergeInto(p.root, SplitPath(dest), EffectiveRoot(extract(e.data))),
                 p.found + [name], p.matches + 1)
  }

  /** The loop over all walked files in order. */
  function Distribute(p: Progress, ws: seq<WalkEntry>, rules: map<string, string>, extract: Bytes -> map<string, Node>): Progress
    decreases |ws|
  {
    if ws == [] then p
    else Step(Distribute(p, ws[..|ws| - 1], rules, extract), ws[|ws| - 1], rules, extract)
  }

  /** Reference definition: the base names of the `.zip` files, in walk order. */
  function ZipBaseNames(ws: seq<WalkEntry>): seq<string>
  {
    if ws == [] then []
    else (if IsZipName(ws[0].name) then [BaseName(ws[0].name)] else []) + ZipBaseNames(ws[1..])
  }

  /** Reference definition: how many of `names` have a rule, counted with repetition. */
  function MatchCount(names: seq<string>, rules: map<string, string>): nat
  {
    if names == [] then 0
    else (if Lookup(rules, names[0]).Some? then 1 else 0) + MatchCount(names[1..], rules)
  }

  lemma {:induction false} ZipBaseNamesAppend(ws: seq<WalkEntry>, e: WalkEntry)
    ensures ZipBaseNames(ws + [e]) == ZipBaseNames(ws) + ZipBaseNames([e])
    decreases |ws|
  {
    if ws == [] {
      assert ws + [e] == [e];
    } else {
      assert (ws + [e])[0] == ws[0] && (ws + [e])[1..] == ws[1..] + [e];
      ZipBaseNamesAppend(ws[1..], e);
    }
  }

  lemma {:induction false} MatchCountAppend(a: seq<string>, b: seq<string>, rules: map<string, string>)
    ensures MatchCount(a + b, rules) == MatchCount(a, rules) + MatchCount(b, rules)
    decreases |a|
  {
    if a == [] {
      assert a + b == b;
    } else {
      assert (a + b)[0] == a[0] && (a + b)[1..] == a[1..] + b;
      MatchCountAppend(a[1..], b, rules);
    }
  }

  /** `found_zips` receives the base name of every walked `.zip`, matched or
      not, and `match_count` counts those that have a rule, once per file. */
  lemma {:induction false} DistributeCounts(p: Progress, ws: seq<WalkEntry>, rules: map<string, string>, extract: Bytes -> map<string, Node>)
    ensures Distribute(p, ws, rules, extract).found == p.found + ZipBaseNames(ws)
    ensures Distribute(p, ws, rules, extract).matches == p.matches + MatchCount(ZipBaseNames(ws), rules)
    decreases |ws|
  {
    if ws != [] {
      var init := ws[..|ws| - 1];
      var e := ws[|ws| - 1];
      assert ws == init + [e];
      DistributeCounts(p, init, rules, extract);
      ZipBaseNamesAppend(init, e);
      MatchCountAppend(ZipBaseNames(init), ZipBaseNames([e]), rules);
      assert ZipBaseNames([e]) == if IsZipName(e.name) then [BaseName(e.name)] else [] by {
        assert [e][1..] == [];
      }
    }
  }

  /** A walk in which no name has a rule writes nothing anywhere. */
  lemma {:induction false} NoMatchNoWrite(p: Progress, ws: seq<WalkEntry>, rules: map<string, string>, extract: Bytes -> map<string, Node>)
    requires MatchCount(ZipBaseNames(ws), rules) == 0
    ensures Distribute(p, ws, rules, extract).root == p.root
    decreases |ws|
  {
    if ws != [] {
      var init := ws[..|ws| - 1];
      var e := ws[|ws| - 1];
      assert ws == init + [e];
      ZipBaseNamesAppend(init, e);
      MatchCountAppend(ZipBaseNames(init), ZipBaseNames([e]), rules);
      assert ZipBaseNames([e]) == if IsZipName(e.name) then [BaseName(e.name)] else [] by {
        assert [e][1..] == [];
      }
      NoMatchNoWrite(p, init, rules, extract);
    }
  }

  /** When the last walked file is a matched nested archive, every file it
      brings is at its destination afterwards, with its content: the archive
      processed last wins. */
  lemma LastMatchWins(p: Progress, ws: seq<WalkEntry>, e: WalkEntry, rules: map<string, string>,
                      extract: Bytes -> map<string, Node>, q: Path, content: Bytes)
    requires IsZipName(e.name) && Lookup(rules, BaseName(e.name)).Some?
    requires FileAt(EffectiveRoot(extract(e.data)), q) == Some(content)
    ensures FileAt(Distribute(p, ws + [e], rules, extract).root,
                   SplitPath(Lookup(rules, BaseName(e.name)).value) + q) == Some(content)
  {
    var ws' := ws + [e];
    assert ws'[..|ws'| - 1] == ws && ws'[|ws'| - 1] == e;
    var before := Distribute(p, ws, rules, extract);
    var src := EffectiveRoot(extract(e.data));
    var dest := SplitPath(Lookup(rules, BaseName(e.name)).value);
    MergeIntoFiles(before.root, dest, src, q);
    if Untouched(src, q) {
      UntouchedHasNoFile(src, q);
    }
  }

  lemma {:induction false} UntouchedHasNoFile(src: Node, q: Path)
    requires Untouched(src, q)
    ensures FileAt(src, q) == None
    decreases q
  {
    if q[0] in src.children {
      UntouchedHasNoFile(src.children[q[0]], q[1..]);
    }
  }

  // ---------------------------------------------------------------------------
  // process_archive

  /** The first staging area: what the archiver writes when given the dropped
      file (nothing, when the path is not a regular file). */
  function Stage(root: Node, archive: string, env: Env): map<string, Node>
  {
    match FileAt(root, SplitPath(archive))
    case Some(bytes) => env.extract(bytes)
    case None => map[]
  }

  /** The filesystem after a call, and what the call reported. */
  datatype Result = Result(root: Node, outcome: Outcome)

  function Process(root: Node, archive: string, config: Config, env: Env): Result
  {
    if !PathExists(root, config.bandizipPath) then Result(root, NoBandizip)
    else
      var p := Distribute(Progress(root, [], 0), env.walk(Stage(root, archive, env)), config.rules, env.extract);
      if p.matches == 0 then Result(p.root, NoMatch(SortedSet(p.found)))
      else
        Result(if config.autoDelete then RemoveFile(p.root, SplitPath(archive)) else p.root,
               Installed(p.matches))
  }

  /** The three ways process_archive ends. Without the archiver (an empty
      configured path included) nothing is extracted and nothing is written. With no match, the report lists the
      distinct base names of all walked `.zip` files in sorted order, nothing
      is written and the archive is kept. Otherwise the count is the number of
      matched nested archives, and the dropped archive is gone only when
      auto-delete is on. */
  lemma ProcessOutcome(root: Node, archive: string, config: Config, env: Env)
    ensures var r := Process(root, archive, config, env);
      var names := ZipBaseNames(env.walk(Stage(root, archive, env)));
      var n := MatchCount(names, config.rules);
      && (r.outcome.NoBandizip? <==> !PathExists(root, config.bandizipPath))
      && (config.bandizipPath == "" ==> r == Result(root, NoBandizip))
      && (r.outcome.NoBandizip? ==> r.root == root)
      && (r.outcome.NoMatch? <==> PathExists(root, config.bandizipPath) && n == 0)
      && (r.outcome.NoMatch? ==>
            && r.root == root
            && StrictlySorted(r.outcome.names)
            && (forall y :: y in r.outcome.names <==> y in names))
      && (r.outcome.Installed? ==> r.outcome.matches == n && n > 0)
  {
    var ws := env.walk(Stage(root, archive, env));
    var start := Progress(root, [], 0);
    DistributeCounts(start, ws, config.rules, env.extract);
    assert [] + ZipBaseNames(ws) == ZipBaseNames(ws);
    if MatchCount(ZipBaseNames(ws), config.rules) == 0 {
      NoMatchNoWrite(start, ws, config.rules, env.extract);
    }
  }

  /** The dropped archive is removed only after a successful run with
      auto-delete on; then no regular file is left at its path. In every other
      case the call leaves the filesystem as the distribution left it. */
  lemma ProcessDeletes(root: Node, archive: string, config: Config, env: Env)
    ensures var r := Process(root, archive, config, env);
      var p := Distribute(Progress(root, [], 0), env.walk(Stage(root, archive, env)), config.rules, env.extract);
      && (r.outcome.Installed? && config.autoDelete && SplitPath(archive) != [] ==> FileAt(r.root, SplitPath(archive)) == None)
      && (r.outcome.Installed? && config.autoDelete ==> forall q :: !IsPrefix(q, SplitPath(archive)) ==> Get(r.root, q) == Get(p.root, q))
      && (!(r.outcome.Installed? && config.autoDelete) ==> r.root == (if r.outcome.NoBandizip? then root else p.root))
  {
    var r := Process(root, archive, config, env);
    var p := Distribute(Progress(root, [], 0), env.walk(Stage(root, archive, env)), config.rules, env.extract);
    var a := SplitPath(archive);
    if r.outcome.Installed? && config.autoDelete {
      assert r.root == RemoveFile(p.root, a);
      RemoveFileEffect(p.root, a, a);
      assert IsPrefix(a, a);
      forall q | !IsPrefix(q, a) ensures Get(r.root, q) == Get(p.root, q) {
        RemoveFileEffect(p.root, a, q);
        if IsPrefix(a, q) && FileAt(p.root, a).Some? {
          var rest := q[|a|..];
          assert q == a + rest;
          GetConcat(p.root, a, rest);
          assert rest != [];
        }
      }
    }
  }

  // ---------------------------------------------------------------------------
  // The drag-and-drop entry point

  /** The arguments that pass the outer filter, in their order. */
  function Accepted(args: seq<string>): seq<string>
    decreases |args|
  {
    if args == [] then []
    else Accepted(args[..|args| - 1]) + (if IsAcceptedArchive(args[|args| - 1]) then [args[|args| - 1]] else [])
  }

  lemma {:induction false} AcceptedFilters(args: seq<string>)
    ensures forall a :: a in Accepted(args) <==> a in args && IsAcceptedArchive(a)
    ensures |Accepted(args)| <= |args|
    decreases |args|
  {
    if args != [] {
      var init := args[..|args| - 1];
      AcceptedFilters(init);
      assert args == init + [args[|args| - 1]];
    }
  }

  /** The filesystem after the run and the outcome of each processed archive. */
  datatype Batch = Batch(root: Node, outcomes: seq<Outcome>)

  /** The loop over the command-line arguments: each one that passes the
      filter is processed in turn on the filesystem the previous ones left. */
  function RunAll(root: Node, args: seq<string>, config: Config, env: Env): Batch
    decreases |args|
  {
    if args == [] then Batch(root, [])
    else
      var b := RunAll(root, args[..|args| - 1], config, env);
      var a := args[|args| - 1];
      if IsAcceptedArchive(a) then
        var r := Process(b.root, a, config, env);
        Batch(r.root, b.outcomes + [r.outcome])
      else b
  }

  /** Arguments the filter rejects have no effect: the run is the run over the
      accepted ones, and each of them yields one outcome. */
  lemma {:induction false} OnlyAcceptedProcessed(root: Node, args: seq<string>, config: Config, env: Env)
    ensures RunAll(root, args, config, env) == RunAll(root, Accepted(args), config, env)
    ensures |RunAll(root, args, config, env).outcomes| == |Accepted(args)|
    decreases |args|
  {
    if args != [] {
      var init := args[..|args| - 1];
      var a := args[|args| - 1];
      OnlyAcceptedProcessed(root, init, config, env);
      var acc := Accepted(args);
      if IsAcceptedArchive(a) {
        assert acc[..|acc| - 1] == Accepted(init) && acc[|acc| - 1] == a;
      } else {
        assert acc == Accepted(init);
      }
    }
  }
}
