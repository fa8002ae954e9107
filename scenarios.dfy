/** Two end-to-end runs of process_archive on concrete names. */
module Scenarios {
  import opened Tree
  import opened Names
  import opened Report
  import opened MergeSpec
  import opened Distribution

  /** Two- and three-component paths written with backslashes. */
  lemma SplitTwo(a: string, b: string)
    requires IsComponent(a) && IsComponent(b)
    ensures SplitPath(a + "\\" + b) == [a, b]
  {
    assert [a, b][1..] == [b];
    assert JoinPath([a, b]) == a + "\\" + b;
    SplitJoin([a, b]);
  }

  lemma SplitThree(a: string, b: string, c: string)
    requires IsComponent(a) && IsComponent(b) && IsComponent(c)
    ensures SplitPath(a + "\\" + b + "\\" + c) == [a, b, c]
  {
    assert [a, b, c][1..] == [b, c] && [b, c][1..] == [c];
    assert JoinPath([b, c]) == b + "\\" + c;
    assert JoinPath([a, b, c]) == a + "\\" + (b + "\\" + c);
    assert a + "\\" + (b + "\\" + c) == a + "\\" + b + "\\" + c;
    SplitJoin([a, b, c]);
  }

  /** The concrete path strings used below name the components one expects. */
  lemma BandizipPath()
    ensures SplitPath("C:\\Bandizip.exe") == ["C:", "Bandizip.exe"]
  {
    assert IsComponent("C:") && IsComponent("Bandizip.exe");
    SplitTwo("C:", "Bandizip.exe");
    assert "C:" + "\\" + "Bandizip.exe" == "C:\\Bandizip.exe";
  }

  lemma DownloadPaths()
    ensures SplitPath("D:\\downloads\\nav.rar") == ["D:", "downloads", "nav.rar"]
    ensures SplitPath("D:\\downloads\\nav.zip") == ["D:", "downloads", "nav.zip"]
  {
    assert IsComponent("D:") && IsComponent("downloads");
    assert IsComponent("nav.rar") && IsComponent("nav.zip");
    SplitThree("D:", "downloads", "nav.rar");
    assert "D:" + "\\" + "downloads" + "\\" + "nav.rar" == "D:\\downloads\\nav.rar";
    SplitThree("D:", "downloads", "nav.zip");
    assert "D:" + "\\" + "downloads" + "\\" + "nav.zip" == "D:\\downloads\\nav.zip";
  }

  lemma DestinationPath()
    ensures SplitPath("D:\\dest\\xp12") == ["D:", "dest", "xp12"]
  {
    assert IsComponent("D:") && IsComponent("dest") && IsComponent("xp12");
    SplitThree("D:", "dest", "xp12");
    assert "D:" + "\\" + "dest" + "\\" + "xp12" == "D:\\dest\\xp12";
  }

  /** With the archiver present and a walk of one matched nested archive,
      one match is reported, every file of the unwrapped contents is at the
      destination, and with auto-delete on the dropped archive is gone. */
  lemma SingleMatchInstalled(root: Node, archive: string, config: Config, env: Env,
                             e: WalkEntry, dest: string, q: Path, content: Bytes)
    requires PathExists(root, config.bandizipPath)
    requires env.walk(Stage(root, archive, env)) == [e]
    requires IsZipName(e.name) && Lookup(config.rules, BaseName(e.name)) == Some(dest)
    requires FileAt(EffectiveRoot(env.extract(e.data)), q) == Some(content)
    requires config.autoDelete && SplitPath(archive) != []
    requires !IsPrefix(SplitPath(dest) + q, SplitPath(archive))
    ensures var r := Process(root, archive, config, env);
      && r.outcome == Installed(1)
      && FileAt(r.root, SplitPath(dest) + q) == Some(content)
      && FileAt(r.root, SplitPath(archive)) == None
  {
    var start := Progress(root, [], 0);
    LastMatchWins(start, [], e, config.rules, env.extract, q, content);
    assert [] + [e] == [e];
    DistributeCounts(start, [e], config.rules, env.extract);
    assert ZipBaseNames([e]) == [BaseName(e.name)] by { assert [e][1..] == []; }
    assert MatchCount([BaseName(e.name)], config.rules) == 1 by { assert [BaseName(e.name)][1..] == []; }
    ProcessOutcome(root, archive, config, env);
    ProcessDeletes(root, archive, config, env);
  }

  lemma NavDataName()
    ensures IsZipName("NavDataXP12.zip")
    ensures Lookup(map["navdataxp12" := "D:\\dest\\xp12"], BaseName("NavDataXP12.zip")) == Some("D:\\dest\\xp12")
  {
    assert HasNonDot("NavDataXP12") by { assert "NavDataXP12"[0] != '.'; }
    assert Lower(".zip") == ".zip";
    BaseNameOfZip("NavDataXP12", ".zip");
    assert "NavDataXP12" + ".zip" == "NavDataXP12.zip";
    assert Lower("NavDataXP12") == "navdataxp12";
  }

  lemma UnwrapData(content: Bytes)
    ensures FileAt(EffectiveRoot(map["data" := Dir(map["file.dat" := File(content)])]), ["file.dat"]) == Some(content)
  {
    var out := map["data" := Dir(map["file.dat" := File(content)])];
    assert SingleFolder(out);
    assert EffectiveRoot(out) == Dir(map["file.dat" := File(content)]);
    assert ["file.dat"][1..] == [];
  }

  /** A rule for `NavDataXP12` (stored lower-cased, as configparser keeps its
      keys); the dropped archive holds `NavDataXP12.zip`, whose content is one
      folder `data` with `file.dat`. The folder is unwrapped, the file lands
      directly in the destination, one match is reported and, with
      auto-delete on, the dropped archive is gone. */
  lemma WrappedSubPackageInstalled(root: Node, env: Env, inner: Bytes, content: Bytes)
    requires Exists(root, ["C:", "Bandizip.exe"])
    requires env.walk(Stage(root, "D:\\downloads\\nav.rar", env)) == [WalkEntry("NavDataXP12.zip", inner)]
    requires env.extract(inner) == map["data" := Dir(map["file.dat" := File(content)])]
    ensures var r := Process(root, "D:\\downloads\\nav.rar",
                             Config("C:\\Bandizip.exe", true, map["navdataxp12" := "D:\\dest\\xp12"]), env);
      && r.outcome == Installed(1)
      && FileAt(r.root, ["D:", "dest", "xp12", "file.dat"]) == Some(content)
      && FileAt(r.root, ["D:", "downloads", "nav.rar"]) == None
  {
    BandizipPath();
    DownloadPaths();
    DestinationPath();
    NavDataName();
    UnwrapData(content);
    assert ["D:", "dest", "xp12"] + ["file.dat"] == ["D:", "dest", "xp12", "file.dat"];
    SingleMatchInstalled(root, "D:\\downloads\\nav.rar",
                         Config("C:\\Bandizip.exe", true, map["navdataxp12" := "D:\\dest\\xp12"]), env,
                         WalkEntry("NavDataXP12.zip", inner), "D:\\dest\\xp12", ["file.dat"], content);
  }

  lemma OtherNames(inner: Bytes)
    ensures ZipBaseNames([WalkEntry("OTHER.zip", inner)]) == ["OTHER"]
  {
    var e := WalkEntry("OTHER.zip", inner);
    assert HasNonDot("OTHER") by { assert "OTHER"[0] != '.'; }
    assert Lower(".zip") == ".zip";
    BaseNameOfZip("OTHER", ".zip");
    assert "OTHER" + ".zip" == e.name;
    assert [e][1..] == [];
  }

  lemma OtherUnmatched()
    ensures MatchCount(["OTHER"], map["fenix" := "D:\\dest\\fenix"]) == 0
  {
    assert Lower("OTHER") == "other";
    assert ["OTHER"][1..] == [];
  }

  /** With the archiver present and no walked name matching, the call reports
      exactly the sorted distinct names and writes nothing. */
  lemma NoMatchReport(root: Node, archive: string, config: Config, env: Env, expected: seq<string>)
    requires PathExists(root, config.bandizipPath)
    requires MatchCount(ZipBaseNames(env.walk(Stage(root, archive, env))), config.rules) == 0
    requires StrictlySorted(expected)
    requires forall y :: y in expected <==> y in ZipBaseNames(env.walk(Stage(root, archive, env)))
    ensures Process(root, archive, config, env) == Result(root, NoMatch(expected))
  {
    ProcessOutcome(root, archive, config, env);
    var r := Process(root, archive, config, env);
    SortedUnique(r.outcome.names, expected);
  }

  /** A rule for `fenix` only; the dropped archive holds `OTHER.zip`. Nothing
      is written, the archive is kept, and the report names `OTHER`. */
  lemma UnmatchedSubPackageReported(root: Node, env: Env, inner: Bytes)
    requires Exists(root, ["C:", "Bandizip.exe"])
    requires env.walk(Stage(root, "D:\\downloads\\nav.zip", env)) == [WalkEntry("OTHER.zip", inner)]
    ensures Process(root, "D:\\downloads\\nav.zip",
                    Config("C:\\Bandizip.exe", true, map["fenix" := "D:\\dest\\fenix"]), env)
         == Result(root, NoMatch(["OTHER"]))
  {
    BandizipPath();
    OtherNames(inner);
    OtherUnmatched();
    NoMatchReport(root, "D:\\downloads\\nav.zip",
                  Config("C:\\Bandizip.exe", true, map["fenix" := "D:\\dest\\fenix"]), env, ["OTHER"]);
  }
}
