/**
 * The part of the filesystem the bootstrapper touches: a set of directories
 * and a map of regular files, with `stat`, `mkdir`, "open for writing,
 * write, flush, sync, close" and `unlink` as the only operations.
 */
module FileSystem {

  /**
   * A path as its components: `[dataDir]` is the data directory exactly as
   * the caller spelled it, and `[dataDir, "base", "1"]` is `<dataDir>/base/1`.
   */
  type Path = seq<string>

  /** The directory that holds `p`. */
  function Parent(p: Path): Path
    requires |p| >= 1
  {
    p[..|p| - 1]
  }

  /** Why a `mkdir` fails: EEXIST, ENOENT, or any other errno (permissions, space, a read-only mount). */
  datatype MkdirError = AlreadyExists | NoParent | Refused

  class Disk {
    var dirs: set<Path>
    var files: map<Path, string>
    /** The paths the environment refuses to create, for reasons outside this model. */
    const refused: set<Path>
    /**
     * The files whose write, flush, sync or close fails once they are open
     * (a full disk, an I/O error): only the first `shortWrites[p]` characters
     * of what is written reach the file.
     */
    const shortWrites: map<Path, nat>
    /** The directories this process created, in order. */
    ghost var made: seq<Path>

    /** `stat` succeeds: something, a directory or a file, is there. */
    predicate Exists(p: Path)
      reads this
    {
      p in dirs || p in files
    }

    /**
     * The directory that would hold `p` is present. The parent of a
     * one-component path lies outside the model; its absence shows up as a
     * refusal.
     */
    predicate ParentPresent(p: Path)
      reads this
    {
      |p| <= 1 || Parent(p) in dirs
    }

    constructor (dirs: set<Path>, files: map<Path, string>, refused: set<Path>, shortWrites: map<Path, nat>)
      ensures this.dirs == dirs && this.files == files && this.refused == refused && this.shortWrites == shortWrites
      ensures made == []
    {
      this.dirs, this.files, this.refused, this.shortWrites := dirs, files, refused, shortWrites;
      made := [];
    }

    /** What `p` holds after `content` was written to it: all of it, or the part that got through. */
    function Stored(p: Path, content: string): (stored: string)
      ensures stored <= content
      ensures p !in shortWrites ==> stored == content
      ensures p in shortWrites ==> |stored| == if shortWrites[p] < |content| then shortWrites[p] else |content|
    {
      if p in shortWrites && shortWrites[p] < |content| then content[..shortWrites[p]] else content
    }

    method Stat(p: Path) returns (found: bool)
      ensures found == Exists(p)
    {
      found := p in dirs || p in files;
    }

    /** `mkdir`: fails on an existing path, then on a missing parent, then on a refusal. */
    method Mkdir(p: Path) returns (err: MkdirError, ok: bool)
      modifies this
      ensures ok == (!old(Exists(p)) && old(ParentPresent(p)) && p !in refused)
      ensures !ok ==> err == (if old(Exists(p)) then AlreadyExists else if !old(ParentPresent(p)) then NoParent else Refused)
      ensures dirs == (if ok then old(dirs) + {p} else old(dirs))
      ensures made == (if ok then old(made) + [p] else old(made))
      ensures files == old(files)
    {
      err, ok := Refused, false;
      if p in dirs || p in files {
        err := AlreadyExists;
      } else if |p| > 1 && Parent(p) !in dirs {
        err := NoParent;
      } else if p !in refused {
        ok := true;
        dirs := dirs + {p};
        made := made + [p];
      }
    }

    /**
     * Open `p` for writing, which creates or truncates it, then write
     * `content` through to disk. `openOk` tells whether the open succeeded,
     * `ok` whether every later step did as well; once open, the file holds
     * whatever part of `content` got through.
     */
    method WriteFile(p: Path, content: string) returns (openOk: bool, ok: bool)
      modifies this
      ensures openOk == (p !in old(dirs) && old(ParentPresent(p)) && p !in refused)
      ensures ok == (openOk && p !in shortWrites)
      ensures files == (if openOk then old(files)[p := Stored(p, content)] else old(files))
      ensures dirs == old(dirs) && made == old(made)
    {
      openOk := p !in dirs && (|p| <= 1 || Parent(p) in dirs) && p !in refused;
      ok := false;
      if openOk {
        files := files[p := ""];
        var written := if p in shortWrites && shortWrites[p] < |content| then shortWrites[p] else |content|;
        assert content[..|content|] == content;
        files := files[p := content[..written]];
        ok := p !in shortWrites;
      }
    }

    /** `unlink` a file; nothing happens when `p` is not a file. */
    method Unlink(p: Path)
      modifies this
      ensures files == old(files) - {p}
      ensures dirs == old(dirs) && made == old(made)
    {
      files := files - {p};
    }
  }
}
