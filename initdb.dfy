/**
 * The in-process bootstrapper (`pg_embedded_initdb_main` and its helpers):
 * the argument gate, the data-directory layout, the version and
 * configuration files, and the token-substituted copy of the bootstrap
 * catalog script handed to the bootstrap engine.
 */
module InitdbSimple {
  import opened Wrappers
  import opened Bki
  import opened FileSystem

  /** Constants fixed when the server is built. */
  datatype Build = Build(nameDataLen: int, pointerSize: int, majorVersion: string)

  /**
   * How a run of the bootstrapper ends: it returns a code to its caller, the
   * whole process exits with `status` after failing on `failed`, or the
   * bootstrap engine ends the process with `status`.
   */
  datatype Outcome = Returned(code: int) | Exited(status: int, failed: Path) | BootExited(status: int)

  /** How the call into the bootstrap engine ends: it returns, or it ends the process. */
  datatype Boot = BootReturns | BootExits(status: int)

  /** The subdirectories of a data directory, relative to it, in creation order. */
  const Subdirs: seq<Path> := [
    ["global"], ["pg_wal", "archive_status"], ["pg_commit_ts"], ["pg_dynshmem"],
    ["pg_notify"], ["pg_serial"], ["pg_snapshots"], ["pg_subtrans"], ["pg_twophase"],
    ["pg_multixact"], ["pg_multixact", "members"], ["pg_multixact", "offsets"],
    ["base"], ["base", "1"], ["pg_replslot"], ["pg_tblspc"], ["pg_stat"],
    ["pg_stat_tmp"], ["pg_xact"], ["pg_logical"], ["pg_logical", "snapshots"],
    ["pg_logical", "mappings"]
  ]

  /** Where the catalog script is read from, relative to the working directory. */
  const BkiSource: Path := ["src", "include", "catalog", "postgres.bki"]
  /** The scratch copy the bootstrap engine reads as its standard input. */
  const BkiScratch: Path := ["/tmp", "pg_bootstrap.bki"]

  /** Each relative path in `rs` placed under the data directory `d`. */
  function Under(d: string, rs: seq<Path>): (ps: seq<Path>)
    ensures |ps| == |rs|
    ensures forall k :: 0 <= k < |rs| ==> ps[k] == [d] + rs[k]
  {
    seq(|rs|, k requires 0 <= k < |rs| => [d] + rs[k])
  }

  function SubdirPaths(d: string): seq<Path> {
    Under(d, Subdirs)
  }

  function WalDir(d: string): Path { [d, "pg_wal"] }
  function VersionFile(d: string): Path { [d, "PG_VERSION"] }
  function ConfigFile(d: string): Path { [d, "postgresql.conf"] }

  /** Every directory of an initialised data directory, in creation order. */
  function Layout(d: string): seq<Path> {
    [[d], WalDir(d)] + SubdirPaths(d)
  }

  /** Each table entry's parent is the root, `pg_wal` or an earlier entry. */
  lemma SubdirParentEarlier(k: int)
    requires 0 <= k < |Subdirs|
    ensures |Subdirs[k]| >= 1
    ensures Parent(Subdirs[k]) in [[], ["pg_wal"]] + Subdirs[..k]
  {
    var before := [[], ["pg_wal"]] + Subdirs[..k];
    if k == 1 {
      assert Parent(Subdirs[k]) == ["pg_wal"] == before[1];
    } else if k == 10 || k == 11 {
      assert Parent(Subdirs[k]) == Subdirs[9] == before[11];
    } else if k == 13 {
      assert Parent(Subdirs[k]) == Subdirs[12] == before[14];
    } else if k == 20 || k == 21 {
      assert Parent(Subdirs[k]) == Subdirs[19] == before[21];
    } else {
      assert |Subdirs[k]| == 1;
      assert Parent(Subdirs[k]) == [] == before[0];
    }
  }

  /** No table entry repeats the root, `pg_wal` or an earlier entry. */
  lemma SubdirNotEarlier(k: int)
    requires 0 <= k < |Subdirs|
    ensures Subdirs[k] !in [[], ["pg_wal"]] + Subdirs[..k]
  {
  }

  lemma UnderMembership(d: string, rs: seq<Path>, r: Path)
    ensures r in rs <==> [d] + r in Under(d, rs)
  {
    if [d] + r in Under(d, rs) {
      var k :| 0 <= k < |rs| && Under(d, rs)[k] == [d] + r;
      assert rs[k] == ([d] + r)[1..] == r;
    }
  }

  /**
   * Under any data directory, the k-th subdirectory's parent is the root,
   * `pg_wal` or an earlier entry, and the entry itself is none of those.
   */
  lemma SubdirParentFirst(d: string, k: int)
    requires 0 <= k < |Subdirs|
    ensures |SubdirPaths(d)[k]| >= 2
    ensures Parent(SubdirPaths(d)[k]) in [[d], WalDir(d)] + SubdirPaths(d)[..k]
    ensures SubdirPaths(d)[k] !in [[d], WalDir(d)] + SubdirPaths(d)[..k]
  {
    var before := [[], ["pg_wal"]] + Subdirs[..k];
    SubdirParentEarlier(k);
    SubdirNotEarlier(k);
    assert [d] + [] == [d] && [d] + ["pg_wal"] == WalDir(d);
    assert Under(d, before) == [[d], WalDir(d)] + SubdirPaths(d)[..k];
    var r := Subdirs[k];
    assert Parent([d] + r) == [d] + Parent(r);
    UnderMembership(d, before, Parent(r));
    UnderMembership(d, before, r);
  }

  /** The script handed to the bootstrap engine: every line substituted on its own. */
  function Script(lines: seq<string>, env: Env): string {
    if lines == [] then "" else Script(lines[..|lines| - 1], env) + Subst(lines[|lines| - 1], env)
  }

  function Concat(lines: seq<string>): string {
    if lines == [] then "" else Concat(lines[..|lines| - 1]) + lines[|lines| - 1]
  }

  /** Substitution is line-local: splitting the input splits the script. */
  lemma {:induction false} ScriptAppend(a: seq<string>, b: seq<string>, env: Env)
    ensures Script(a + b, env) == Script(a, env) + Script(b, env)
    decreases |b|
  {
    if b != [] {
      var b' := b[..|b| - 1];
      assert (a + b)[..|a + b| - 1] == a + b';
      ScriptAppend(a, b', env);
    } else {
      assert a + b == a;
    }
  }

  /** Lines without any token reach the bootstrap engine unchanged. */
  lemma {:induction false} ScriptVerbatim(lines: seq<string>, env: Env)
    requires forall k, i :: 0 <= k < |lines| && 0 <= i <= |lines[k]| ==> !TokenAt(lines[k], i)
    ensures Script(lines, env) == Concat(lines)
    decreases |lines|
  {
    if lines != [] {
      var last := lines[|lines| - 1];
      ScriptVerbatim(lines[..|lines| - 1], env);
      forall i | 0 <= i <= |last| ensures !TokenAt(last, i) {
        assert !TokenAt(lines[|lines| - 1], i);
      }
      SubstNoTokens(last, env);
    }
  }

  /**
   * What makes the layout step succeed on data directory `d`: the root is a
   * directory or can be created, nothing else of the layout exists yet or is
   * refused, and the two files can be opened and written in full.
   */
  predicate LayoutReady(disk: Disk, d: string)
    reads disk
  {
    ([d] in disk.dirs || (!disk.Exists([d]) && [d] !in disk.refused)) &&
    (forall p | p in Layout(d)[1..] :: !disk.Exists(p) && p !in disk.refused) &&
    VersionFile(d) !in disk.dirs && VersionFile(d) !in disk.refused && VersionFile(d) !in disk.shortWrites &&
    ConfigFile(d) !in disk.dirs && ConfigFile(d) !in disk.refused && ConfigFile(d) !in disk.shortWrites
  }

  /** The scratch copy of the catalog script can be opened for writing. */
  predicate ScratchReady(disk: Disk)
    reads disk
  {
    Parent(BkiScratch) in disk.dirs && BkiScratch !in disk.dirs && BkiScratch !in disk.refused
  }

  /** No table entry is named like one of the files written beside the layout. */
  lemma FileNamesNotInTable(k: int)
    requires 0 <= k < |Subdirs|
    ensures Subdirs[k] != ["PG_VERSION"] && Subdirs[k] != ["postgresql.conf"] && Subdirs[k] != ["pg_bootstrap.bki"]
  {
  }

  /** `[d, x]` is not a directory of the layout when `x` names a file beside it. */
  lemma NotInLayout(d: string, x: string)
    requires x in {"PG_VERSION", "postgresql.conf", "pg_bootstrap.bki"}
    ensures [d, x] !in Layout(d)
  {
    forall k | 0 <= k < |Layout(d)| ensures Layout(d)[k] != [d, x] {
      if k >= 2 {
        FileNamesNotInTable(k - 2);
        assert Layout(d)[k][1..] == Subdirs[k - 2];
      }
    }
  }

  /** Every directory of the layout lies under `d`. */
  lemma LayoutUnder(d: string)
    ensures forall p | p in Layout(d) :: |p| >= 1 && p[0] == d
  {
  }

  /** Neither file nor the scratch copy is a directory of the layout. */
  lemma FilesOutsideLayout(d: string)
    ensures VersionFile(d) !in Layout(d) && ConfigFile(d) !in Layout(d) && BkiScratch !in Layout(d)
    ensures BkiScratch != VersionFile(d) && BkiScratch != ConfigFile(d)
  {
    NotInLayout(d, "PG_VERSION");
    NotInLayout(d, "postgresql.conf");
    NotInLayout(d, "pg_bootstrap.bki");
    LayoutUnder(d);
  }

  /** The table's paths are in the layout after the root and `pg_wal`, and are neither. */
  lemma SubdirsInLayout(d: string)
    ensures Layout(d)[1..] == [WalDir(d)] + SubdirPaths(d)
    ensures forall p | p in SubdirPaths(d) :: p != [d] && p != WalDir(d) && p in Layout(d)[1..]
  {
    assert Layout(d)[1..] == [WalDir(d)] + SubdirPaths(d);
    forall p | p in SubdirPaths(d) ensures p != [d] && p != WalDir(d) {
      var k :| 0 <= k < |SubdirPaths(d)| && SubdirPaths(d)[k] == p;
      SubdirParentFirst(d, k);
    }
  }

  /** The data directory `d` holds the whole layout and both files. */
  predicate Initialized(disk: Disk, d: string, build: Build)
    reads disk
  {
    (forall p | p in Layout(d) :: p in disk.dirs) &&
    VersionFile(d) in disk.files && disk.files[VersionFile(d)] == build.majorVersion + "\n" &&
    ConfigFile(d) in disk.files && disk.files[ConfigFile(d)] == ""
  }

  /** The directories `mkdir` created for the data directory `d` when root creation was `rootMade`. */
  function TreeMade(d: string, rootMade: seq<Path>): seq<Path> {
    rootMade + [WalDir(d)] + SubdirPaths(d)
  }

  /**
   * What building the tree leaves when it stops at `failed`: nothing new when
   * the root fails, otherwise the root if it was new (`rootMade`) and every
   * layout directory before the failing one.
   */
  ghost predicate TreeCut(disk: Disk, d: string, failed: Path, dirs0: set<Path>, made0: seq<Path>, rootMade: seq<Path>)
    reads disk
  {
    (failed == [d] && disk.dirs == dirs0 && disk.made == made0) ||
    exists k :: 1 <= k < |Layout(d)| && failed == Layout(d)[k] &&
      disk.made == made0 + rootMade + Layout(d)[1..k] && disk.dirs == dirs0 + Elems(rootMade) + Elems(Layout(d)[1..k])
  }

  /**
   * What a run that exits after failing on `failed` leaves on disk, from the
   * directories, files and creations `dirs0`, `files0`, `made0` it started
   * with: the partial tree; or the whole tree and, for `PG_VERSION`, what got
   * through of it once opened; or, for `postgresql.conf`, `PG_VERSION` and the
   * empty file once opened; or, for the catalog script and its scratch copy,
   * the whole layout with both files.
   */
  ghost predicate LeftBehind(disk: Disk, d: string, build: Build, failed: Path,
                             dirs0: set<Path>, files0: map<Path, string>, made0: seq<Path>, rootMade: seq<Path>)
    reads disk
  {
    var version := build.majorVersion + "\n";
    var tree := disk.dirs == dirs0 + {[d], WalDir(d)} + Elems(SubdirPaths(d)) && disk.made == made0 + TreeMade(d, rootMade);
    var versionOpens := VersionFile(d) !in dirs0 && VersionFile(d) !in disk.refused;
    var configOpens := ConfigFile(d) !in dirs0 && ConfigFile(d) !in disk.refused;
    (failed in Layout(d) && TreeCut(disk, d, failed, dirs0, made0, rootMade) && disk.files == files0) ||
    (failed == VersionFile(d) && tree && (versionOpens ==> VersionFile(d) in disk.shortWrites) &&
      disk.files == if versionOpens then files0[VersionFile(d) := disk.Stored(VersionFile(d), version)] else files0) ||
    (failed == ConfigFile(d) && tree && (configOpens ==> ConfigFile(d) in disk.shortWrites) &&
      disk.files == if configOpens then files0[VersionFile(d) := version][ConfigFile(d) := ""] else files0[VersionFile(d) := version]) ||
    ((failed == BkiSource || failed == BkiScratch) && tree &&
      disk.files == files0[VersionFile(d) := version][ConfigFile(d) := ""])
  }

  /** A failure at `pg_wal` leaves only the root, if it was new. */
  lemma WalCut(disk: Disk, d: string, dirs0: set<Path>, made0: seq<Path>, rootMade: seq<Path>)
    requires disk.dirs == dirs0 + Elems(rootMade) && disk.made == made0 + rootMade
    ensures TreeCut(disk, d, WalDir(d), dirs0, made0, rootMade)
  {
    assert Layout(d)[1..1] == [] && Layout(d)[1] == WalDir(d);
    assert Elems([]) == {};
  }

  /** The layout up to table entry `k`: `pg_wal`, then the entries before `k`. */
  lemma LayoutPrefix(d: string, k: int)
    requires 0 <= k < |SubdirPaths(d)|
    ensures Layout(d)[1..k + 2] == [WalDir(d)] + SubdirPaths(d)[..k]
    ensures Layout(d)[k + 2] == SubdirPaths(d)[k]
  {
    SubdirsInLayout(d);
    assert Layout(d)[1..][..k + 1] == Layout(d)[1..k + 2];
  }

  /** A failure at table entry `k` leaves the root if new, `pg_wal` and the entries before `k`. */
  lemma SubdirCut(disk: Disk, d: string, k: int, dirs0: set<Path>, made0: seq<Path>, rootMade: seq<Path>)
    requires 0 <= k < |SubdirPaths(d)|
    requires disk.made == made0 + rootMade + [WalDir(d)] + SubdirPaths(d)[..k]
    requires disk.dirs == dirs0 + Elems(rootMade) + {WalDir(d)} + Elems(SubdirPaths(d)[..k])
    ensures TreeCut(disk, d, SubdirPaths(d)[k], dirs0, made0, rootMade)
  {
    var done := SubdirPaths(d)[..k];
    var steps := Layout(d)[1..k + 2];
    LayoutPrefix(d, k);
    ElemsCons(WalDir(d), done);
    assert disk.made == made0 + rootMade + steps;
    assert disk.dirs == dirs0 + Elems(rootMade) + Elems(steps);
    assert 1 <= k + 2 < |Layout(d)| && SubdirPaths(d)[k] == Layout(d)[k + 2];
  }

  lemma ElemsCons(p: Path, ps: seq<Path>)
    ensures Elems([p] + ps) == {p} + Elems(ps)
  {
  }

  /** A path outside the layout is none of the tree's directories. */
  lemma OutsideTree(d: string, p: Path)
    requires p !in Layout(d)
    ensures p !in {[d], WalDir(d)} + Elems(SubdirPaths(d))
  {
    assert [d] == Layout(d)[0] && WalDir(d) == Layout(d)[1];
  }

  /** A failure inside the tree leaves the cut tree and the files as they were. */
  lemma TreeLeft(disk: Disk, d: string, build: Build, failed: Path,
                 dirs0: set<Path>, files0: map<Path, string>, made0: seq<Path>, rootMade: seq<Path>)
    requires failed in Layout(d) && TreeCut(disk, d, failed, dirs0, made0, rootMade) && disk.files == files0
    ensures LeftBehind(disk, d, build, failed, dirs0, files0, made0, rootMade)
  {
  }

  /** A failure on `PG_VERSION` after the whole tree keeps what got through of it. */
  lemma VersionLeft(disk: Disk, d: string, build: Build,
                    dirs0: set<Path>, files0: map<Path, string>, made0: seq<Path>, rootMade: seq<Path>)
    requires disk.dirs == dirs0 + {[d], WalDir(d)} + Elems(SubdirPaths(d))
    requires disk.made == made0 + rootMade + [WalDir(d)] + SubdirPaths(d)
    requires var p := VersionFile(d);
      var opens := p !in disk.dirs && [d] in disk.dirs && p !in disk.refused;
      !(opens && p !in disk.shortWrites) &&
      disk.files == if opens then files0[p := disk.Stored(p, build.majorVersion + "\n")] else files0
    ensures LeftBehind(disk, d, build, VersionFile(d), dirs0, files0, made0, rootMade)
  {
    FilesOutsideLayout(d);
    OutsideTree(d, VersionFile(d));
  }

  /** A failure on `postgresql.conf` keeps `PG_VERSION` and, once opened, the empty file. */
  lemma ConfigLeft(disk: Disk, d: string, build: Build,
                   dirs0: set<Path>, files0: map<Path, string>, made0: seq<Path>, rootMade: seq<Path>)
    requires disk.dirs == dirs0 + {[d], WalDir(d)} + Elems(SubdirPaths(d))
    requires disk.made == made0 + rootMade + [WalDir(d)] + SubdirPaths(d)
    requires var p := ConfigFile(d);
      var opens := p !in disk.dirs && [d] in disk.dirs && p !in disk.refused;
      var written := files0[VersionFile(d) := build.majorVersion + "\n"];
      !(opens && p !in disk.shortWrites) &&
      disk.files == if opens then written[p := ""] else written
    ensures LeftBehind(disk, d, build, ConfigFile(d), dirs0, files0, made0, rootMade)
  {
    FilesOutsideLayout(d);
    OutsideTree(d, ConfigFile(d));
  }

  /** A failure on the catalog script or its scratch copy leaves the whole layout. */
  lemma BkiLeft(disk: Disk, d: string, build: Build, failed: Path,
                dirs0: set<Path>, files0: map<Path, string>, made0: seq<Path>, rootMade: seq<Path>)
    requires failed == BkiSource || failed == BkiScratch
    requires disk.dirs == dirs0 + {[d], WalDir(d)} + Elems(SubdirPaths(d))
    requires disk.made == made0 + rootMade + [WalDir(d)] + SubdirPaths(d)
    requires disk.files == files0[VersionFile(d) := build.majorVersion + "\n"][ConfigFile(d) := ""]
    ensures LeftBehind(disk, d, build, failed, dirs0, files0, made0, rootMade)
  {
  }

  /**
   * A run that fails on a table entry keeps `pg_wal`, so the layout is no
   * longer ready for the next run, which stops at `pg_wal`.
   */
  lemma SubdirFailureBlocksRetry(disk: Disk, d: string, build: Build, failed: Path,
                                 dirs0: set<Path>, files0: map<Path, string>, made0: seq<Path>, rootMade: seq<Path>)
    requires failed in SubdirPaths(d)
    requires LeftBehind(disk, d, build, failed, dirs0, files0, made0, rootMade)
    ensures WalDir(d) in disk.dirs && !LayoutReady(disk, d)
  {
    SubdirsInLayout(d);
    if disk.dirs != dirs0 + {[d], WalDir(d)} + Elems(SubdirPaths(d)) {
      CutKeepsWal(disk, d, failed, dirs0, made0, rootMade);
    }
    assert disk.Exists(WalDir(d)) && WalDir(d) in Layout(d)[1..];
  }

  /** A cut at a table entry lies past `pg_wal`, which is then on disk. */
  lemma CutKeepsWal(disk: Disk, d: string, failed: Path, dirs0: set<Path>, made0: seq<Path>, rootMade: seq<Path>)
    requires failed in SubdirPaths(d) && TreeCut(disk, d, failed, dirs0, made0, rootMade)
    ensures WalDir(d) in disk.dirs
  {
    SubdirsInLayout(d);
    assert failed != [d] && failed != WalDir(d);
    var k :| 1 <= k < |Layout(d)| && failed == Layout(d)[k] &&
      disk.dirs == dirs0 + Elems(rootMade) + Elems(Layout(d)[1..k]);
    var before := Layout(d)[1..k];
    assert before[0] == WalDir(d);
    assert WalDir(d) in Elems(before);
  }

  /**
   * A run that fails writing `PG_VERSION` after opening it keeps a prefix of
   * the file, so the next run finds it and returns 0.
   */
  lemma VersionFailureEndsRetry(disk: Disk, d: string, build: Build,
                                dirs0: set<Path>, files0: map<Path, string>, made0: seq<Path>, rootMade: seq<Path>)
    requires LeftBehind(disk, d, build, VersionFile(d), dirs0, files0, made0, rootMade)
    requires VersionFile(d) !in dirs0 && VersionFile(d) !in disk.refused
    ensures VersionFile(d) in disk.files && disk.files[VersionFile(d)] <= build.majorVersion + "\n"
    ensures disk.Exists(VersionFile(d))
  {
    FilesOutsideLayout(d);
    assert VersionFile(d) != ConfigFile(d) by { assert VersionFile(d)[1] != ConfigFile(d)[1]; }
  }

  /** The arguments pass the gate and the data directory holds no `PG_VERSION` yet. */
  predicate Proceeds(disk: Disk, dataDir: Option<string>, username: Option<string>)
    reads disk
  {
    dataDir.Some? && username.Some? && !disk.Exists(VersionFile(dataDir.value))
  }

  /** The arguments pass the gate but `PG_VERSION` is already there. */
  predicate AlreadyInitialized(versionFound: bool, dataDir: Option<string>, username: Option<string>) {
    dataDir.Some? && username.Some? && versionFound
  }

  /**
   * `paths` can be created one after another on top of `roots`: every parent
   * is already there and no path comes twice.
   */
  predicate InOrder(roots: seq<Path>, paths: seq<Path>) {
    forall k :: 0 <= k < |paths| ==>
      |paths[k]| >= 1 && Parent(paths[k]) in roots + paths[..k] && paths[k] !in roots + paths[..k]
  }

  /** The subdirectory table can be created in order once the root and `pg_wal` exist. */
  lemma LayoutInOrder(d: string)
    ensures InOrder([[d], WalDir(d)], SubdirPaths(d))
  {
    forall k | 0 <= k < |SubdirPaths(d)|
      ensures |SubdirPaths(d)[k]| >= 1
      ensures Parent(SubdirPaths(d)[k]) in [[d], WalDir(d)] + SubdirPaths(d)[..k]
      ensures SubdirPaths(d)[k] !in [[d], WalDir(d)] + SubdirPaths(d)[..k]
    {
      SubdirParentFirst(d, k);
    }
  }

  /** The paths of a sequence, as a set. */
  function Elems(ps: seq<Path>): (s: set<Path>)
    ensures forall p :: p in s <==> p in ps
  {
    set p | p in ps
  }

  /** In a creatable order, the next path is new and its parent is already there. */
  lemma NextCreatable(roots: seq<Path>, paths: seq<Path>, i: int, dirs0: set<Path>, files0: map<Path, string>)
    requires InOrder(roots, paths) && 0 <= i < |paths|
    requires forall r | r in roots :: r in dirs0
    requires forall p | p in paths :: p !in dirs0 && p !in files0
    ensures paths[i] !in dirs0 + Elems(paths[..i]) && paths[i] !in files0
    ensures Parent(paths[i]) in dirs0 + Elems(paths[..i])
  {
    assert paths[i] in paths;
    if Parent(paths[i]) !in roots {
      assert Parent(paths[i]) in paths[..i];
    }
  }

  /** Whether every one of `paths` can be created in turn on `disk`. */
  predicate AllCreatable(disk: Disk, roots: seq<Path>, paths: seq<Path>)
    reads disk
  {
    InOrder(roots, paths) && (forall r | r in roots :: r in disk.dirs) &&
    (forall p | p in paths :: !disk.Exists(p) && p !in disk.refused)
  }

  /** `mkdir` each of `paths` in turn, stopping at the first failure. */
  method MakeDirs(disk: Disk, ghost roots: seq<Path>, paths: seq<Path>) returns (failed: Option<Path>)
    modifies disk
    ensures failed.None? ==>
      disk.dirs == old(disk.dirs) + Elems(paths) &&
      disk.made == old(disk.made) + paths &&
      forall p | p in paths :: !old(disk.Exists(p))
    ensures failed.Some? ==>
      (exists k :: 0 <= k < |paths| && failed.value == paths[k] &&
         disk.made == old(disk.made) + paths[..k] &&
         disk.dirs == old(disk.dirs) + Elems(paths[..k])) &&
      (disk.Exists(failed.value) || !disk.ParentPresent(failed.value) || failed.value in disk.refused)
    ensures old(AllCreatable(disk, roots, paths)) ==> failed.None?
    ensures disk.files == old(disk.files)
  {
    ghost var creatable := AllCreatable(disk, roots, paths);
    var i := 0;
    while i < |paths|
      invariant 0 <= i <= |paths|
      invariant disk.dirs == old(disk.dirs) + Elems(paths[..i])
      invariant disk.made == old(disk.made) + paths[..i]
      invariant disk.files == old(disk.files)
      invariant forall j :: 0 <= j < i ==> !old(disk.Exists(paths[j]))
    {
      if creatable {
        NextCreatable(roots, paths, i, old(disk.dirs), old(disk.files));
      }
      var _, created := disk.Mkdir(paths[i]);
      if !created {
        failed := Some(paths[i]);
        return;
      }
      assert paths[..i + 1] == paths[..i] + [paths[i]];
      i := i + 1;
    }
    assert paths[..i] == paths;
    failed := None;
  }

  /** The bootstrapper's file-level state: its build constants and its four settings. */
  class Initdb {
    const build: Build
    /** The server's encoding-name lookup (`pg_char_to_encoding`). */
    const charToEncoding: string -> int
    var pgData: Option<string>
    var usernameG: Option<string>
    var encodingG: Option<string>
    var localeG: Option<string>

    constructor (build: Build, charToEncoding: string -> int)
      ensures this.build == build && this.charToEncoding == charToEncoding
      ensures pgData == None && usernameG == None && encodingG == None && localeG == None
    {
      this.build, this.charToEncoding := build, charToEncoding;
      pgData, usernameG, encodingG, localeG := None, None, None, None;
    }

    predicate Configured()
      reads this
    {
      pgData.Some? && usernameG.Some? && encodingG.Some? && localeG.Some?
    }

    /** The values the catalog script's tokens stand for. */
    function BkiEnv(): Env
      reads this
      requires Configured()
    {
      Env(build.nameDataLen, build.pointerSize, usernameG.value, charToEncoding(encodingG.value), localeG.value)
    }

    /** Create the data directory; an existing one is only warned about. */
    method CreateDataDirectory(disk: Disk) returns (ok: bool)
      requires pgData.Some?
      modifies disk
      ensures var root := [pgData.value];
        ok == (old(disk.Exists(root)) || root !in disk.refused) &&
        disk.dirs == (if old(disk.Exists(root)) || !ok then old(disk.dirs) else old(disk.dirs) + {root}) &&
        disk.made == (if old(disk.Exists(root)) || !ok then old(disk.made) else old(disk.made) + [root])
      ensures disk.files == old(disk.files)
    {
      var err, created := disk.Mkdir([pgData.value]);
      ok := created || err == AlreadyExists;
    }

    /** Create `pg_wal` inside the data directory; any failure is fatal. */
    method CreateXlogSymlink(disk: Disk) returns (ok: bool)
      requires pgData.Some?
      modifies disk
      ensures var wal := WalDir(pgData.value);
        ok == (!old(disk.Exists(wal)) && [pgData.value] in old(disk.dirs) && wal !in disk.refused) &&
        disk.dirs == (if ok then old(disk.dirs) + {wal} else old(disk.dirs)) &&
        disk.made == (if ok then old(disk.made) + [wal] else old(disk.made))
      ensures disk.files == old(disk.files)
    {
      assert Parent(WalDir(pgData.value)) == [pgData.value];
      var _, created := disk.Mkdir(WalDir(pgData.value));
      ok := created;
    }

    /** Create every subdirectory in table order, stopping at the first failure. */
    method CreateSubdirectories(disk: Disk) returns (failed: Option<Path>)
      requires pgData.Some?
      modifies disk
      ensures var paths := SubdirPaths(pgData.value);
        failed.None? ==>
          disk.dirs == old(disk.dirs) + Elems(paths) &&
          disk.made == old(disk.made) + paths &&
          forall p | p in paths :: !old(disk.Exists(p))
      ensures var paths := SubdirPaths(pgData.value);
        failed.Some? ==>
          (exists k :: 0 <= k < |paths| && failed.value == paths[k] &&
             disk.made == old(disk.made) + paths[..k] &&
             disk.dirs == old(disk.dirs) + Elems(paths[..k])) &&
          (disk.Exists(failed.value) || !disk.ParentPresent(failed.value) || failed.value in disk.refused)
      ensures var d := pgData.value;
        [d] in old(disk.dirs) && WalDir(d) in old(disk.dirs) &&
        (forall p | p in SubdirPaths(d) :: !old(disk.Exists(p)) && p !in disk.refused)
        ==> failed.None?
      ensures disk.files == old(disk.files)
    {
      LayoutInOrder(pgData.value);
      failed := MakeDirs(disk, [[pgData.value], WalDir(pgData.value)], SubdirPaths(pgData.value));
    }

    /**
     * Write `PG_VERSION`: the major version and a newline. A failure after
     * the open leaves the file holding only the part that got through.
     */
    method WriteVersionFile(disk: Disk) returns (ok: bool)
      requires pgData.Some?
      modifies disk
      ensures var p := VersionFile(pgData.value);
        var openOk := p !in old(disk.dirs) && [pgData.value] in old(disk.dirs) && p !in disk.refused;
        ok == (openOk && p !in disk.shortWrites) &&
        disk.files == (if openOk then old(disk.files)[p := disk.Stored(p, build.majorVersion + "\n")] else old(disk.files))
      ensures ok ==> disk.files == old(disk.files)[VersionFile(pgData.value) := build.majorVersion + "\n"]
      ensures disk.dirs == old(disk.dirs) && disk.made == old(disk.made)
    {
      assert Parent(VersionFile(pgData.value)) == [pgData.value];
      var _, written := disk.WriteFile(VersionFile(pgData.value), build.majorVersion + "\n");
      ok := written;
    }

    /**
     * Write an empty `postgresql.conf`. Only the close can fail once the
     * file is open, and the empty file then stays behind.
     */
    method WriteEmptyConfigFile(disk: Disk) returns (ok: bool)
      requires pgData.Some?
      modifies disk
      ensures var p := ConfigFile(pgData.value);
        var openOk := p !in old(disk.dirs) && [pgData.value] in old(disk.dirs) && p !in disk.refused;
        ok == (openOk && p !in disk.shortWrites) &&
        disk.files == (if openOk then old(disk.files)[p := ""] else old(disk.files))
      ensures disk.dirs == old(disk.dirs) && disk.made == old(disk.made)
    {
      assert Parent(ConfigFile(pgData.value)) == [pgData.value];
      var _, written := disk.WriteFile(ConfigFile(pgData.value), "");
      ok := written;
    }

    /** Substitute every line of the catalog script, in order. */
    method CopyBki(lines: seq<string>) returns (script: string)
      requires Configured()
      ensures script == Script(lines, BkiEnv())
    {
      script := "";
      var i := 0;
      while i < |lines|
        invariant 0 <= i <= |lines|
        invariant script == Script(lines[..i], BkiEnv())
      {
        var output := SubstituteLine(lines[i], BkiEnv());
        assert lines[..i + 1][..i] == lines[..i];
        script := script + output;
        i := i + 1;
      }
      assert lines[..i] == lines;
    }

    /** Build the directory tree: the root, `pg_wal`, then the table. */
    method CreateTree(disk: Disk) returns (failed: Option<Path>)
      requires pgData.Some?
      modifies disk
      ensures var d := pgData.value;
        failed.None? ==>
          disk.dirs == old(disk.dirs) + {[d], WalDir(d)} + Elems(SubdirPaths(d)) &&
          disk.made == old(disk.made) + (if old(disk.Exists([d])) then [] else [[d]]) + [WalDir(d)] + SubdirPaths(d) &&
          !old(disk.Exists(WalDir(d))) && forall p | p in SubdirPaths(d) :: !old(disk.Exists(p))
      ensures failed.Some? ==> failed.value in Layout(pgData.value)
      ensures failed.Some? ==> TreeCut(disk, pgData.value, failed.value, old(disk.dirs), old(disk.made),
                                       if old(disk.Exists([pgData.value])) then [] else [[pgData.value]])
      ensures old(LayoutReady(disk, pgData.value)) ==> failed.None?
      ensures old(disk.dirs) <= disk.dirs && disk.files == old(disk.files)
    {
      var d := pgData.value;
      ghost var ready := LayoutReady(disk, d);
      ghost var rootMade: seq<Path> := if disk.Exists([d]) then [] else [[d]];
      SubdirsInLayout(d);
      var ok := CreateDataDirectory(disk);
      if !ok {
        return Some([d]);
      }
      assert disk.dirs == old(disk.dirs) + Elems(rootMade) && disk.made == old(disk.made) + rootMade;
      if ready {
        assert WalDir(d) in Layout(d)[1..];
        assert [d] in disk.dirs && !disk.Exists(WalDir(d));
      }
      ok := CreateXlogSymlink(disk);
      if !ok {
        WalCut(disk, d, old(disk.dirs), old(disk.made), rootMade);
        return Some(WalDir(d));
      }
      if ready {
        forall p | p in SubdirPaths(d) ensures !disk.Exists(p) && p !in disk.refused {
          assert p in Layout(d)[1..];
        }
      }
      ghost var dirs1, made1 := disk.dirs, disk.made;
      failed := CreateSubdirectories(disk);
      if failed.Some? {
        ghost var paths := SubdirPaths(d);
        ghost var k :| 0 <= k < |paths| && failed.value == paths[k] &&
          disk.made == made1 + paths[..k] && disk.dirs == dirs1 + Elems(paths[..k]);
        SubdirCut(disk, d, k, old(disk.dirs), old(disk.made), rootMade);
      }
    }

    /** Build the directory tree, then write `PG_VERSION` and `postgresql.conf`. */
    method CreateLayout(disk: Disk) returns (failed: Option<Path>)
      requires pgData.Some?
      modifies disk
      ensures var d := pgData.value;
        failed.None? ==>
          disk.dirs == old(disk.dirs) + {[d], WalDir(d)} + Elems(SubdirPaths(d)) &&
          disk.files == old(disk.files)[VersionFile(d) := build.majorVersion + "\n"][ConfigFile(d) := ""] &&
          disk.made == old(disk.made) + (if old(disk.Exists([d])) then [] else [[d]]) + [WalDir(d)] + SubdirPaths(d) &&
          !old(disk.Exists(WalDir(d))) && (forall p | p in SubdirPaths(d) :: !old(disk.Exists(p))) &&
          Initialized(disk, d, build)
      ensures failed.Some? ==> failed.value in Layout(pgData.value) + [VersionFile(pgData.value), ConfigFile(pgData.value)]
      ensures failed.Some? ==> LeftBehind(disk, pgData.value, build, failed.value, old(disk.dirs), old(disk.files), old(disk.made),
                                          if old(disk.Exists([pgData.value])) then [] else [[pgData.value]])
      ensures old(LayoutReady(disk, pgData.value)) ==> failed.None?
      ensures old(disk.dirs) <= disk.dirs
    {
      var d := pgData.value;
      FilesOutsideLayout(d);
      ghost var rootMade: seq<Path> := if disk.Exists([d]) then [] else [[d]];
      failed := CreateTree(disk);
      if failed.Some? {
        TreeLeft(disk, d, build, failed.value, old(disk.dirs), old(disk.files), old(disk.made), rootMade);
        return;
      }
      var ok := WriteVersionFile(disk);
      if !ok {
        VersionLeft(disk, d, build, old(disk.dirs), old(disk.files), old(disk.made), rootMade);
        return Some(VersionFile(d));
      }
      ok := WriteEmptyConfigFile(disk);
      if !ok {
        ConfigLeft(disk, d, build, old(disk.dirs), old(disk.files), old(disk.made), rootMade);
        return Some(ConfigFile(d));
      }
    }

    /**
     * One run. `bki` is the catalog script's lines, or `None` when it cannot
     * be opened; `boot` is how the call into the bootstrap engine ends.
     * `script` is what the engine reads: the scratch copy as it stands on
     * disk, since the copy's own write errors go unchecked.
     */
    method InitdbMain(disk: Disk, dataDir: Option<string>, username: Option<string>,
                      encoding: Option<string>, locale: Option<string>, bki: Option<seq<string>>, boot: Boot)
      returns (outcome: Outcome, script: string)
      modifies this, disk
      ensures outcome.Returned? ==> outcome.code == 0 || outcome.code == -1
      ensures outcome == Returned(-1) <==> dataDir.None? || username.None?
      ensures dataDir.None? || username.None? ==> unchanged(this) && unchanged(disk)
      ensures AlreadyInitialized(old(disk.Exists(VersionFile(dataDir.GetOr("")))), dataDir, username) ==>
        outcome == Returned(0) && unchanged(this) && unchanged(disk)
      ensures old(Proceeds(disk, dataDir, username)) ==>
        pgData == dataDir && usernameG == username &&
        encodingG == Some(encoding.GetOr("UTF8")) && localeG == Some(locale.GetOr("C"))
      ensures outcome.Exited? ==>
        outcome.status == 1 && dataDir.Some? &&
        outcome.failed in Layout(dataDir.value) + [VersionFile(dataDir.value), ConfigFile(dataDir.value), BkiSource, BkiScratch]
      ensures outcome.Exited? ==>
        LeftBehind(disk, dataDir.value, build, outcome.failed, old(disk.dirs), old(disk.files), old(disk.made),
                   if old(disk.Exists([dataDir.value])) then [] else [[dataDir.value]])
      ensures old(disk.dirs) <= disk.dirs
      ensures outcome.BootExited? ==> boot == BootExits(outcome.status)
      ensures old(Proceeds(disk, dataDir, username)) && outcome == Returned(0) ==> boot == BootReturns
      ensures old(Proceeds(disk, dataDir, username)) && (outcome == Returned(0) || outcome.BootExited?) ==>
        var d := dataDir.value;
        bki.Some? && Configured() && script == disk.Stored(BkiScratch, Script(bki.value, BkiEnv())) &&
        disk.dirs == old(disk.dirs) + {[d], WalDir(d)} + Elems(SubdirPaths(d)) &&
        disk.files == old(disk.files)[VersionFile(d) := build.majorVersion + "\n"][ConfigFile(d) := ""][BkiScratch := script]
          - (if outcome.BootExited? then {} else {BkiScratch}) &&
        disk.made == old(disk.made) + (if old(disk.Exists([d])) then [] else [[d]]) + [WalDir(d)] + SubdirPaths(d) &&
        !old(disk.Exists(WalDir(d))) && (forall p | p in SubdirPaths(d) :: !old(disk.Exists(p))) &&
        Initialized(disk, d, build)
      ensures old(Proceeds(disk, dataDir, username)) && old(LayoutReady(disk, dataDir.value)) &&
        old(ScratchReady(disk)) && bki.Some?
        ==> outcome == (if boot.BootReturns? then Returned(0) else BootExited(boot.status))
    {
      script := "";
      if dataDir.None? || username.None? {
        return Returned(-1), script;
      }
      var d := dataDir.value;
      var found := disk.Stat(VersionFile(d));
      if found {
        return Returned(0), script;
      }
      pgData, usernameG := dataDir, username;
      encodingG, localeG := Some(encoding.GetOr("UTF8")), Some(locale.GetOr("C"));

      outcome, script := Populate(disk, bki, boot);
    }

    /**
     * Everything after the gate: build the layout, then, given the catalog
     * script, copy it and run the bootstrap engine on the copy.
     */
    method Populate(disk: Disk, bki: Option<seq<string>>, boot: Boot) returns (outcome: Outcome, script: string)
      requires Configured()
      modifies disk
      ensures outcome.Returned? ==> outcome.code == 0 && boot == BootReturns
      ensures outcome.Exited? ==>
        outcome.status == 1 &&
        outcome.failed in Layout(pgData.value) + [VersionFile(pgData.value), ConfigFile(pgData.value), BkiSource, BkiScratch] &&
        LeftBehind(disk, pgData.value, build, outcome.failed, old(disk.dirs), old(disk.files), old(disk.made),
                   if old(disk.Exists([pgData.value])) then [] else [[pgData.value]])
      ensures old(disk.dirs) <= disk.dirs
      ensures outcome.BootExited? ==> boot == BootExits(outcome.status)
      ensures outcome == Returned(0) || outcome.BootExited? ==>
        var d := pgData.value;
        bki.Some? && script == disk.Stored(BkiScratch, Script(bki.value, BkiEnv())) &&
        disk.dirs == old(disk.dirs) + {[d], WalDir(d)} + Elems(SubdirPaths(d)) &&
        disk.files == old(disk.files)[VersionFile(d) := build.majorVersion + "\n"][ConfigFile(d) := ""][BkiScratch := script]
          - (if outcome.BootExited? then {} else {BkiScratch}) &&
        disk.made == old(disk.made) + (if old(disk.Exists([d])) then [] else [[d]]) + [WalDir(d)] + SubdirPaths(d) &&
        !old(disk.Exists(WalDir(d))) && (forall p | p in SubdirPaths(d) :: !old(disk.Exists(p))) &&
        Initialized(disk, d, build)
      ensures old(LayoutReady(disk, pgData.value)) && old(ScratchReady(disk)) && bki.Some?
        ==> outcome == (if boot.BootReturns? then Returned(0) else BootExited(boot.status))
    {
      script := "";
      var d := pgData.value;
      ghost var rootMade: seq<Path> := if disk.Exists([d]) then [] else [[d]];
      var failed := CreateLayout(disk);
      if failed.Some? {
        return Exited(1, failed.value), script;
      }
      if bki.None? {
        BkiLeft(disk, d, build, BkiSource, old(disk.dirs), old(disk.files), old(disk.made), rootMade);
        return Exited(1, BkiSource), script;
      }
      FilesOutsideLayout(d);
      outcome, script := Bootstrap(disk, bki.value, boot);
      if outcome.Exited? {
        BkiLeft(disk, d, build, BkiScratch, old(disk.dirs), old(disk.files), old(disk.made), rootMade);
      }
    }

    /**
     * Copy the substituted catalog script to the scratch file, run the
     * bootstrap engine on it and, when the engine returns, remove the file.
     * The copy's write errors go unchecked: `script` is what reached the file.
     */
    method Bootstrap(disk: Disk, lines: seq<string>, boot: Boot) returns (outcome: Outcome, script: string)
      requires Configured()
      modifies disk
      ensures disk.dirs == old(disk.dirs) && disk.made == old(disk.made)
      ensures outcome.Exited? ==> outcome == Exited(1, BkiScratch) && disk.files == old(disk.files)
      ensures outcome.Returned? ==> outcome.code == 0 && boot == BootReturns
      ensures outcome.BootExited? ==> boot == BootExits(outcome.status)
      ensures !outcome.Exited? ==>
        script == disk.Stored(BkiScratch, Script(lines, BkiEnv())) &&
        disk.files == old(disk.files)[BkiScratch := script] - (if outcome.BootExited? then {} else {BkiScratch})
      ensures old(ScratchReady(disk)) ==> outcome == (if boot.BootReturns? then Returned(0) else BootExited(boot.status))
    {
      script := "";
      var text := CopyBki(lines);
      var openOk, _ := disk.WriteFile(BkiScratch, text);
      if !openOk {
        return Exited(1, BkiScratch), script;
      }
      script := disk.files[BkiScratch];
      match boot
      case BootExits(status) =>
        outcome := BootExited(status);
      case BootReturns =>
        disk.Unlink(BkiScratch);
        outcome := Returned(0);
    }
  }
}
