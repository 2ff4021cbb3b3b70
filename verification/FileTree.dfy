/** A file tree whose every operation may be refused, and which remembers every state it has been in. */
module FileTree {

  type Bytes = seq<bv8>

  /** The components of a path, case already folded; the empty path is the root. */
  type Path = seq<string>

  type Files = map<Path, Bytes>

  function Parent(p: Path): Path {
    if p == [] then [] else p[..|p| - 1]
  }

  predicate Same(m: Files, n: Files, p: Path) {
    (p in m <==> p in n) && (p in m ==> m[p] == n[p])
  }

  /** Whatever m has at p is what n has there. */
  predicate Within(m: Files, n: Files, p: Path) {
    p in m ==> p in n && m[p] == n[p]
  }

  /** Folders contain everything: files and folders lie in folders, and no name is both. */
  ghost predicate IsTree(files: Files, dirs: set<Path>) {
    && [] in dirs && (forall d :: d in dirs ==> Parent(d) in dirs)
    && (forall p :: p in files ==> p != [] && p !in dirs && Parent(p) in dirs)
  }

  datatype Creation = Made | AlreadyThere | Denied

  class FileSystem {
    const allows: nat -> bool
    var clock: nat
    var files: Files
    var dirs: set<Path>
    ghost var past: seq<Files>

    ghost predicate Valid()
      reads this
    {
      IsTree(files, dirs)
    }

    constructor (allows: nat -> bool, files: Files, dirs: set<Path>)
      requires IsTree(files, dirs)
      ensures Valid() && this.allows == allows && this.files == files && this.dirs == dirs && clock == 0
      ensures past == [files]
    {
      this.allows, clock, this.files, this.dirs, past := allows, 0, files, dirs, [files];
    }

    predicate Exists(p: Path)
      reads this
    {
      p in files || p in dirs
    }

    method Ask() returns (yes: bool)
      modifies `clock
      ensures yes == allows(old(clock)) && clock == old(clock) + 1
    {
      yes := allows(clock);
      clock := clock + 1;
    }

    method CreateDirectory(p: Path) returns (r: Creation)
      requires Valid() && p != []
      modifies `clock, `dirs
      ensures Valid() && clock == old(clock) + 1
      ensures r == if old(Exists(p)) then AlreadyThere
                   else if old(Parent(p) in dirs && allows(clock)) then Made else Denied
      ensures dirs == if r == Made then old(dirs) + {p} else old(dirs)
    {
      var yes := Ask();
      if Exists(p) {
        return AlreadyThere;
      }
      if Parent(p) !in dirs || !yes {
        return Denied;
      }
      dirs := dirs + {p};
      return Made;
    }

    /** A folder that still holds anything stays. */
    method RemoveDirectory(p: Path) returns (ok: bool)
      requires Valid() && p != []
      modifies `clock, `dirs
      ensures Valid() && clock == old(clock) + 1
      ensures ok == old(p in dirs && allows(clock) && p !in Parents(files.Keys + dirs))
      ensures dirs == if ok then old(dirs) - {p} else old(dirs)
    {
      var yes := Ask();
      ok := p in dirs && yes && p !in Parents(files.Keys + dirs);
      if ok {
        ghost var before := dirs;
        dirs := dirs - {p};
        ParentsKept(files.Keys + before, p);
      }
    }

    method DeleteFile(p: Path) returns (ok: bool)
      requires Valid()
      modifies `clock, `files, `past
      ensures Valid() && clock == old(clock) + 1 && past == old(past) + [files]
      ensures ok == old(p in files && allows(clock))
      ensures files == if ok then old(files) - {p} else old(files)
    {
      var yes := Ask();
      ok := p in files && yes;
      if ok {
        files := files - {p};
      }
      past := past + [files];
    }

    /** Neither replaces an existing name nor creates a folder. */
    method MoveFile(p: Path, q: Path) returns (ok: bool)
      requires Valid() && q != []
      modifies `clock, `files, `past
      ensures Valid() && clock == old(clock) + 1 && past == old(past) + [files]
      ensures ok == old(p in files && !Exists(q) && Parent(q) in dirs && allows(clock))
      ensures files == if ok then (old(files) - {p})[q := old(files)[p]] else old(files)
    {
      var yes := Ask();
      ok := p in files && !Exists(q) && Parent(q) in dirs && yes;
      if ok {
        files := (files - {p})[q := files[p]];
      }
      past := past + [files];
    }

    /**
     Creates a new file with the given content. A failure half-way removes what was written, if that is not
     refused as well.
     */
    method Extract(p: Path, content: Bytes) returns (ok: bool)
      requires Valid() && p != []
      modifies `clock, `files, `past
      ensures Valid() && clock > old(clock)
      ensures ok ==> files == old(files)[p := content] && p !in old(files)
      ensures !ok ==> forall q :: q != p ==> Same(old(files), files, q)
      ensures !ok && p in old(files) ==> files == old(files)
      ensures old(past) <= past
      ensures if |past| == old(|past|) then files == old(files) else past[|past| - 1] == files
      ensures forall k :: |old(past)| <= k < |past| ==> forall q :: q != p ==> Same(old(files), past[k], q)
      ensures old(p in files || p in dirs || Parent(p) !in dirs) ==> !ok && files == old(files)
      ensures !old(Exists(p)) && Parent(p) in dirs && (forall n :: old(clock) <= n < clock ==> allows(n)) ==> ok
    {
      ghost var before := files;
      var created := Ask();
      if Exists(p) || Parent(p) !in dirs || !created {
        return false;
      }
      var written := Ask();
      if written {
        files := files[p := content];
        past := past + [files];
        return true;
      }
      files := files[p := []];
      past := past + [files];
      var _ := DeleteFile(p);
      return false;
    }
  }

  function Parents(s: set<Path>): set<Path> {
    set p | p in s && p != [] :: Parent(p)
  }

  lemma ParentsKept(s: set<Path>, d: Path)
    ensures forall p :: p in s && p != [] ==> Parent(p) in Parents(s)
  {
  }
}
