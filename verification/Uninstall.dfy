/**
 Uninstalling: the listed files go, and then, deepest first, the folders that held them, as far as they are empty.
 User data is never touched, and of what is not listed at most an earlier leftover beside a file in use.
 */
module Uninstall {
  import opened FileTree
  import InstallTransaction

  const DATA_DIRECTORIES: set<string> := {"logs", "captures", "screenshots", "benchmarks"}

  /** config.ini, and everything in the data folders; names are already in lower case. */
  predicate IsUserData(relative: Path) {
    relative == ["config.ini"] || (relative != [] && relative[0] in DATA_DIRECTORIES)
  }

  lemma UserDataMeans(r: Path)
    ensures IsUserData(r) <==>
              || r == ["config.ini"]
              || (r != [] && (r[0] == "logs" || r[0] == "captures" || r[0] == "screenshots" || r[0] == "benchmarks"))
  {
  }

  predicate Above(d: Path, p: Path) {
    |d| < |p| && p[..|d|] == d
  }

  /** The folders, below the installation folder, that a relative path passes through. */
  function FoldersOf(p: Path): (s: set<Path>)
    ensures forall d :: d in s <==> d != [] && Above(d, p)
  {
    set k | 0 < k < |p| :: p[..k]
  }

  function ParentDirectories(files: seq<Path>): set<Path> {
    if files == [] then {} else FoldersOf(files[0]) + ParentDirectories(files[1..])
  }

  lemma {:induction false} ParentDirectoriesMeans(files: seq<Path>, d: Path)
    ensures d in ParentDirectories(files) <==> d != [] && exists i :: 0 <= i < |files| && Above(d, files[i])
  {
    if files != [] {
      ParentDirectoriesMeans(files[1..], d);
      if i :| 0 <= i < |files| && Above(d, files[i]) {
        assert i > 0 ==> files[1..][i - 1] == files[i];
      }
    }
  }

  /** An order of the folders in which deeper ones come first. */
  ghost predicate DeepestFirst(order: seq<Path>, folders: set<Path>) {
    && (forall d :: d in order <==> d in folders)
    && (forall i, j :: 0 <= i < j < |order| ==> order[i] != order[j] && |order[i]| >= |order[j]|)
  }

  // ---------------------------------------------------------------------------------------------
  // What one pass removes
  // ---------------------------------------------------------------------------------------------

  /** Folders the pass may remove: listed, and not user data. */
  ghost predicate Removable(folders: set<Path>, base: Path, d: Path) {
    Above(base, d) && d[|base|..] in folders && !IsUserData(d[|base|..])
  }

  /** Nothing below d but removable folders. */
  ghost predicate Clear(files: set<Path>, dirs: set<Path>, folders: set<Path>, base: Path, d: Path) {
    && (forall p :: p in files ==> !Above(d, p))
    && (forall p :: p in dirs && Above(d, p) ==> Removable(folders, base, p))
  }

  /** The folders one pass takes away, of those whose relative path has been visited. */
  ghost predicate Goes(files: set<Path>, dirs: set<Path>, folders: set<Path>, base: Path, visited: seq<Path>, d: Path) {
    && d in dirs && Removable(folders, base, d) && Clear(files, dirs, folders, base, d)
    && d[|base|..] in visited
  }

  lemma {:induction false} PathUp(files: set<Path>, dirs: set<Path>, d: Path, p: Path)
    requires (forall x :: x in dirs ==> Parent(x) in dirs) && (forall x :: x in files ==> Parent(x) in dirs)
    requires (p in files || p in dirs) && Above(d, p)
    ensures p[..|d| + 1] in files + dirs && Parent(p[..|d| + 1]) == d
    ensures |p| > |d| + 1 ==> p[..|d| + 1] in dirs
    decreases |p|
  {
    if |p| == |d| + 1 {
      assert p[..|d| + 1] == p;
    } else {
      var q := Parent(p);
      assert q[..|d|] == d && q[..|d| + 1] == p[..|d| + 1];
      PathUp(files, dirs, d, q);
    }
  }

  /** A folder is clear when its entries are removable folders that are clear themselves. */
  lemma ClearByChildren(files: set<Path>, dirs: set<Path>, folders: set<Path>, base: Path, d: Path)
    requires IsTreeOf(files, dirs)
    ensures Clear(files, dirs, folders, base, d)
            <==> forall c :: c in files + dirs && c != [] && Parent(c) == d ==>
                   c in dirs && Removable(folders, base, c) && Clear(files, dirs, folders, base, c)
  {
    if Clear(files, dirs, folders, base, d) {
      forall c | c in files + dirs && c != [] && Parent(c) == d
        ensures c in dirs && Removable(folders, base, c) && Clear(files, dirs, folders, base, c)
      {
        assert Above(d, c);
        forall p | p in files + dirs && Above(c, p)
          ensures Above(d, p)
        {
          assert p[..|d|] == p[..|c|][..|d|];
        }
      }
    }
    if forall c :: c in files + dirs && c != [] && Parent(c) == d ==>
         c in dirs && Removable(folders, base, c) && Clear(files, dirs, folders, base, c) {
      forall p | p in files + dirs && Above(d, p)
        ensures p in dirs && Removable(folders, base, p)
      {
        PathUp(files, dirs, d, p);
        var c := p[..|d| + 1];
        if c != p {
          assert Above(c, p);
        }
      }
    }
  }

  ghost predicate IsTreeOf(files: set<Path>, dirs: set<Path>) {
    && (forall x :: x in dirs ==> Parent(x) in dirs)
    && (forall x :: x in files ==> x != [] && x !in dirs && Parent(x) in dirs)
  }

  /** Deeper folders have been visited before. */
  lemma DeeperVisited(order: seq<Path>, folders: set<Path>, k: nat, c: Path)
    requires DeepestFirst(order, folders) && k < |order| && c in folders && |c| > |order[k]|
    ensures c in order[..k]
  {
    var i :| 0 <= i < |order| && order[i] == c;
    assert i < k;
    assert order[..k][i] == c;
  }

  /** The folders that are left once the first k have been visited. */
  ghost function Left(files: set<Path>, dirs: set<Path>, folders: set<Path>, base: Path, visited: seq<Path>): set<Path>
  {
    set d | d in dirs && !Goes(files, dirs, folders, base, visited, d)
  }

  /** When a folder's turn comes it is empty exactly if nothing foreign is below it. */
  lemma EmptyWhenClear(files: set<Path>, dirs: set<Path>, folders: set<Path>, base: Path, order: seq<Path>, k: nat)
    requires IsTreeOf(files, dirs) && DeepestFirst(order, folders) && k < |order|
    requires order[k] != [] && base + order[k] in dirs
    ensures var d := base + order[k];
            d !in Parents(files + Left(files, dirs, folders, base, order[..k]))
            <==> Clear(files, dirs, folders, base, d)
  {
    var d := base + order[k];
    var left := Left(files, dirs, folders, base, order[..k]);
    ClearByChildren(files, dirs, folders, base, d);
    forall c | c in files + dirs && c != [] && Parent(c) == d
      ensures c !in files + left <==> c in dirs && Removable(folders, base, c) && Clear(files, dirs, folders, base, c)
    {
      assert c[..|d|] == d;
      assert Above(base, c) by {
        assert c[..|base|] == d[..|base|] == base;
      }
      assert |c[|base|..]| > |order[k]|;
      if Removable(folders, base, c) {
        DeeperVisited(order, folders, k, c[|base|..]);
      }
    }
    if d in Parents(files + left) {
      var c :| c in files + left && c != [] && Parent(c) == d;
    }
  }

  lemma VisitOne(files: set<Path>, dirs: set<Path>, folders: set<Path>, base: Path, order: seq<Path>, k: nat)
    requires DeepestFirst(order, folders) && k < |order| && order[k] != []
    ensures var d := base + order[k];
            var now := Left(files, dirs, folders, base, order[..k]);
            var next := Left(files, dirs, folders, base, order[..k + 1]);
            && (d in dirs ==> d in now)
            && next == if d in dirs && !IsUserData(order[k]) && Clear(files, dirs, folders, base, d) then now - {d}
                       else now
  {
    var d := base + order[k];
    assert d[|base|..] == order[k] && d[..|base|] == base;
    assert order[..k + 1] == order[..k] + [order[k]];
    hide Clear;
    forall x | x in dirs && Above(base, x) && x[|base|..] == order[k]
      ensures x == d
    {
      assert x == x[..|base|] + x[|base|..];
    }
    assert order[k] !in order[..k];
  }

  method RemoveEmptyDirectories(fs: FileSystem, base: Path, order: seq<Path>, ghost folders: set<Path>)
    requires fs.Valid() && DeepestFirst(order, folders) && [] !in folders
    modifies fs`clock, fs`dirs
    ensures fs.Valid() && fs.clock >= old(fs.clock) && fs.dirs <= old(fs.dirs)
    ensures forall d :: d in old(fs.dirs) && d !in fs.dirs ==> Removable(folders, base, d)
    ensures (forall n :: old(fs.clock) <= n < fs.clock ==> fs.allows(n)) ==>
              fs.dirs == Left(fs.files.Keys, old(fs.dirs), folders, base, order)
  {
    ghost var files, dirs := fs.files.Keys, fs.dirs;
    assert Left(files, dirs, folders, base, order[..0]) == dirs;
    var k := 0;
    while k < |order|
      invariant 0 <= k <= |order| && fs.Valid() && fs.clock >= old(fs.clock) && fs.dirs <= dirs
      invariant forall d :: d in dirs && d !in fs.dirs ==> Removable(folders, base, d)
      invariant (forall n :: old(fs.clock) <= n < fs.clock ==> fs.allows(n)) ==>
                  fs.dirs == Left(files, dirs, folders, base, order[..k])
    {
      hide Left, IsUserData, Clear;
      assert order[k] != [] by {
        assert order[k] in order;
      }
      VisitOne(files, dirs, folders, base, order, k);
      if !IsUserData(order[k]) {
        ghost var now := fs.dirs;
        if base + order[k] in dirs {
          EmptyWhenClear(files, dirs, folders, base, order, k);
        }
        var _ := fs.RemoveDirectory(base + order[k]);
      }
      k := k + 1;
    }
    assert order[..k] == order;
  }

  // ---------------------------------------------------------------------------------------------
  // Files
  // ---------------------------------------------------------------------------------------------

  const ATTEMPTS: nat := 100
  const ASIDE := InstallTransaction.BACKUP

  /** Where a file in use may be moved: a longer name beside it. */
  function Aside(p: Path, middle: string): (q: Path)
    requires p != []
    ensures q != [] && IsAside(p, q)
  {
    assert (p[|p| - 1] + middle + ASIDE)[..|p[|p| - 1]|] == p[|p| - 1];
    assert (p[|p| - 1] + middle + ASIDE)[|p[|p| - 1] + middle|..] == ASIDE;
    p[..|p| - 1] + [p[|p| - 1] + middle + ASIDE]
  }

  predicate IsAside(p: Path, q: Path) {
    && p != [] && |q| == |p| && q[..|q| - 1] == p[..|p| - 1]
    && var name, aside := p[|p| - 1], q[|q| - 1];
       |aside| >= |name| + |ASIDE| && aside[..|name|] == name && aside[|aside| - |ASIDE|..] == ASIDE
  }

  /** The names beside p that are tried, one after the other. */
  function AsideName(p: Path, stamp: nat -> string, attempt: nat): (q: Path)
    requires p != []
    ensures q != [] && IsAside(p, q)
  {
    Aside(p, if attempt == 0 then "" else "." + stamp(attempt - 1))
  }

  predicate Granted(fs: FileSystem, since: nat)
    reads fs
  {
    forall n :: since <= n < fs.clock ==> fs.allows(n)
  }

  /** At most p is gone, or is now at a name beside it, and leftovers beside it are gone. */
  ghost predicate OnlyMoved(m: Files, n: Files, p: Path) {
    && (forall q :: q != p && !IsAside(p, q) ==> Same(m, n, q))
    && (forall q :: q in n ==> Within(n, m, q) || (IsAside(p, q) && p in m && n[q] == m[p]))
  }

  /**
   Deletes a file, or moves one that cannot be deleted aside. The name beside it may be taken by an earlier leftover,
   which goes if it can; else another name is tried. `stamp`: what the clock adds to the name at each attempt.
   */
  method RemoveOrRenameAway(fs: FileSystem, p: Path, stamp: nat -> string) returns (gone: bool)
    requires fs.Valid() && p != []
    modifies fs`clock, fs`files, fs`past
    ensures fs.Valid() && fs.clock >= old(fs.clock) && gone == !fs.Exists(p)
    ensures OnlyMoved(old(fs.files), fs.files, p) && fs.clock <= old(fs.clock) + 102
    ensures Granted(fs, old(fs.clock)) ==> fs.files == old(fs.files) - {p}
    // a file that cannot be deleted is still moved aside if that is granted and a name is free
    ensures old(p in fs.files && exists n :: 0 <= n <= 100 && !fs.Exists(AsideName(p, stamp, n))) ==>
              old(fs.clock) < fs.clock && (gone <==> fs.allows(old(fs.clock)) || fs.allows(fs.clock - 1))
    ensures gone && old(p in fs.files) && !fs.allows(old(fs.clock)) ==>
              exists q :: IsAside(p, q) && q in fs.files && fs.files[q] == old(fs.files)[p]
  {
    if p !in fs.files {
      return p !in fs.dirs;
    }
    gone := fs.DeleteFile(p);
    if gone {
      return;
    }
    var aside := FreeName(fs, p, stamp);
    gone := fs.MoveFile(p, aside);
  }

  /** Only leftovers beside the file go on the way. */
  method FreeName(fs: FileSystem, p: Path, stamp: nat -> string) returns (aside: Path)
    requires fs.Valid() && p != []
    modifies fs`clock, fs`files, fs`past
    ensures fs.Valid() && fs.clock >= old(fs.clock) && IsAside(p, aside) && aside != []
    ensures fs.files.Keys <= old(fs.files).Keys
    ensures forall q :: q in old(fs.files) && !IsAside(p, q) ==> q in fs.files
    ensures forall q :: q in fs.files ==> fs.files[q] == old(fs.files)[q]
    ensures fs.dirs == old(fs.dirs)
    ensures fs.clock <= old(fs.clock) + 100
    ensures (exists n :: 0 <= n <= 100 && !old(fs.Exists(AsideName(p, stamp, n)))) ==> !fs.Exists(aside)
  {
    aside := Aside(p, "");
    var attempt := 0;
    while fs.Exists(aside) && attempt < ATTEMPTS
      invariant fs.Valid() && fs.clock >= old(fs.clock) && IsAside(p, aside) && aside != []
      invariant fs.files.Keys <= old(fs.files).Keys
      invariant forall q :: q in old(fs.files) && !IsAside(p, q) ==> q in fs.files
      invariant forall q :: q in fs.files ==> fs.files[q] == old(fs.files)[q]
      invariant attempt <= ATTEMPTS && fs.clock == old(fs.clock) + attempt
      invariant aside == AsideName(p, stamp, attempt) && fs.dirs == old(fs.dirs)
      invariant forall n :: 0 <= n < attempt ==> old(fs.Exists(AsideName(p, stamp, n)))
      decreases ATTEMPTS - attempt
    {
      hide IsAside;
      var deleted := fs.DeleteFile(aside);
      if deleted {
        break;
      }
      aside := Aside(p, "." + stamp(attempt));
      attempt := attempt + 1;
    }
  }

  /** p is the path of a listed file that is not user data. */
  predicate Named(base: Path, relative: Path, p: Path) {
    p == base + relative && relative != [] && !IsUserData(relative)
  }

  /** p is a name such a file may be moved to. */
  predicate NamedAside(base: Path, relative: Path, p: Path) {
    IsAside(base + relative, p) && relative != [] && !IsUserData(relative)
  }

  ghost predicate AnyNamed(base: Path, listed: seq<Path>, p: Path) {
    exists i :: 0 <= i < |listed| && Named(base, listed[i], p)
  }

  ghost predicate AnyAside(base: Path, listed: seq<Path>, p: Path) {
    exists i :: 0 <= i < |listed| && NamedAside(base, listed[i], p)
  }

  ghost predicate Affected(base: Path, listed: seq<Path>, p: Path) {
    AnyNamed(base, listed, p) || AnyAside(base, listed, p)
  }

  /** Neither the listed files nor the names they may be moved to are user data. */
  lemma AffectedIsNoUserData(base: Path, relative: Path, p: Path)
    requires Named(base, relative, p) || NamedAside(base, relative, p)
    ensures |p| > |base| && p[..|base|] == base && !IsUserData(p[|base|..])
  {
    var q := base + relative;
    assert q[..|q| - 1][..|base|] == base && p[..|p| - 1][..|base|] == base;
    var r := p[|base|..];
    if |relative| > 1 {
      assert r[0] == p[..|p| - 1][|base|] == q[..|q| - 1][|base|] == relative[0];
    } else if p != q {
      assert r[0] == p[|p| - 1] && r[0][|r[0]| - 1] == ASIDE[|ASIDE| - 1];
    }
  }

  /** Nothing but the listed files is gone or new, and what is new is a listed file under another name. */
  ghost predicate OnlyListed(before: Files, now: Files, base: Path, listed: seq<Path>) {
    && (forall p :: !Affected(base, listed, p) ==> Same(before, now, p))
    && (forall p :: p in now ==> Within(now, before, p) || AnyAside(base, listed, p))
  }

  /** Exactly the listed files are gone. */
  ghost predicate ListedGone(before: Files, now: Files, base: Path, listed: seq<Path>) {
    forall p :: if AnyNamed(base, listed, p) then p !in now else Same(before, now, p)
  }

  lemma OneMore(base: Path, listed: seq<Path>, k: nat, p: Path)
    requires k < |listed|
    ensures AnyNamed(base, listed[..k + 1], p) <==> AnyNamed(base, listed[..k], p) || Named(base, listed[k], p)
    ensures AnyAside(base, listed[..k + 1], p) <==> AnyAside(base, listed[..k], p) || NamedAside(base, listed[k], p)
  {
    hide Named, NamedAside;
    assert forall i :: 0 <= i <= k ==> listed[..k + 1][i] == listed[i];
    assert forall i :: 0 <= i < k ==> listed[..k][i] == listed[i];
  }

  lemma RemoveOne(before: Files, m: Files, n: Files, base: Path, listed: seq<Path>, k: nat)
    requires k < |listed| && listed[k] != [] && !IsUserData(listed[k])
    requires OnlyListed(before, m, base, listed[..k]) && OnlyMoved(m, n, base + listed[k])
    ensures OnlyListed(before, n, base, listed[..k + 1])
    ensures ListedGone(before, m, base, listed[..k]) && n == m - {base + listed[k]} ==>
              ListedGone(before, n, base, listed[..k + 1])
  {
    hide IsUserData, IsAside, AnyNamed, AnyAside;
    forall p
      ensures !Affected(base, listed[..k + 1], p) ==> Same(before, n, p)
      ensures p in n ==> Within(n, before, p) || AnyAside(base, listed[..k + 1], p)
    {
      OneMore(base, listed, k, p);
      assert Affected(base, listed[..k], p) || Same(before, m, p);
    }
    forall p | ListedGone(before, m, base, listed[..k]) && n == m - {base + listed[k]}
      ensures if AnyNamed(base, listed[..k + 1], p) then p !in n else Same(before, n, p)
    {
      OneMore(base, listed, k, p);
    }
  }

  lemma PassOver(before: Files, m: Files, base: Path, listed: seq<Path>, k: nat)
    requires k < |listed| && (listed[k] == [] || IsUserData(listed[k]))
    ensures OnlyListed(before, m, base, listed[..k + 1]) <==> OnlyListed(before, m, base, listed[..k])
    ensures ListedGone(before, m, base, listed[..k + 1]) <==> ListedGone(before, m, base, listed[..k])
  {
    hide IsUserData, IsAside, AnyNamed, AnyAside;
    forall p
      ensures AnyNamed(base, listed[..k + 1], p) <==> AnyNamed(base, listed[..k], p)
      ensures AnyAside(base, listed[..k + 1], p) <==> AnyAside(base, listed[..k], p)
    {
      OneMore(base, listed, k, p);
    }
  }

  /** Listed files go, unless they are user data; one in use is moved aside. */
  method RemoveManifestFiles(fs: FileSystem, base: Path, listed: seq<Path>, stamp: nat -> string)
    requires fs.Valid()
    modifies fs`clock, fs`files, fs`past
    ensures fs.Valid() && fs.clock >= old(fs.clock)
    ensures OnlyListed(old(fs.files), fs.files, base, listed)
    ensures Granted(fs, old(fs.clock)) ==> ListedGone(old(fs.files), fs.files, base, listed)
  {
    var k := 0;
    while k < |listed|
      invariant 0 <= k <= |listed| && fs.Valid() && fs.clock >= old(fs.clock)
      invariant OnlyListed(old(fs.files), fs.files, base, listed[..k])
      invariant Granted(fs, old(fs.clock)) ==> ListedGone(old(fs.files), fs.files, base, listed[..k])
    {
      hide IsUserData, OnlyListed, ListedGone, OnlyMoved;
      if listed[k] != [] && !IsUserData(listed[k]) {
        ghost var m := fs.files;
        var _ := RemoveOrRenameAway(fs, base + listed[k], stamp);
        RemoveOne(old(fs.files), m, fs.files, base, listed, k);
      } else {
        PassOver(old(fs.files), fs.files, base, listed, k);
      }
      k := k + 1;
    }
    assert listed[..k] == listed;
  }

  lemma UserDataStays(before: Files, after: Files, base: Path, listed: seq<Path>)
    requires OnlyListed(before, after, base, listed)
    ensures forall r :: IsUserData(r) ==> Same(before, after, base + r)
  {
    hide Same, IsUserData, Named, NamedAside;
    forall r | IsUserData(r)
      ensures Same(before, after, base + r)
    {
      if Affected(base, listed, base + r) {
        var i :| 0 <= i < |listed| && (Named(base, listed[i], base + r) || NamedAside(base, listed[i], base + r));
        assert (base + r)[|base|..] == r;
        AffectedIsNoUserData(base, listed[i], base + r);
      }
    }
  }

  lemma UserFoldersStay(base: Path, folders: set<Path>, before: set<Path>, after: set<Path>)
    requires forall d :: d in before && d !in after ==> Removable(folders, base, d)
    ensures forall r :: IsUserData(r) && base + r in before ==> base + r in after
  {
    hide IsUserData;
    forall r | IsUserData(r) && base + r in before
      ensures base + r in after
    {
      assert (base + r)[|base|..] == r;
    }
  }

  lemma ListedAreGone(before: Files, now: Files, base: Path, listed: seq<Path>)
    ensures ListedGone(before, now, base, listed) ==>
              forall i :: 0 <= i < |listed| && listed[i] != [] && !IsUserData(listed[i]) ==> base + listed[i] !in now
  {
    hide IsUserData;
    forall i | ListedGone(before, now, base, listed) && 0 <= i < |listed| && listed[i] != [] && !IsUserData(listed[i])
      ensures base + listed[i] !in now
    {
      assert Named(base, listed[i], base + listed[i]);
      assert AnyNamed(base, listed, base + listed[i]);
    }
  }

  /**
   Whatever is refused, only listed files and the folders that held them ever go, a listed file in use may be left
   under a longer name, and user data stays. An uninstall that is refused nothing deletes exactly the listed files
   that are not user data, and removes exactly the folders that held listed files, are not user data, and have nothing
   else left below them.
   */
  method UninstallFiles(fs: FileSystem, base: Path, listed: seq<Path>, order: seq<Path>, stamp: nat -> string)
    requires fs.Valid() && DeepestFirst(order, ParentDirectories(listed))
    modifies fs`clock, fs`files, fs`past, fs`dirs
    ensures Granted(fs, old(fs.clock)) ==> forall i :: 0 <= i < |listed| ==>
              || listed[i] == [] || listed[i] == ["config.ini"]
              || listed[i][0] in ["logs", "captures", "screenshots", "benchmarks"]
              || base + listed[i] !in fs.files
    ensures Granted(fs, old(fs.clock)) ==>
              && ListedGone(old(fs.files), fs.files, base, listed)
              && (forall d :: d in fs.dirs <==>
                    d in old(fs.dirs) && !(Removable(ParentDirectories(listed), base, d)
                                           && Clear(fs.files.Keys, old(fs.dirs), ParentDirectories(listed), base, d)))
    // whatever is refused
    ensures forall r ::
              r == ["config.ini"] || (r != [] && r[0] in ["logs", "captures", "screenshots", "benchmarks"]) ==>
              && Same(old(fs.files), fs.files, base + r)
              && (base + r in old(fs.dirs) ==> base + r in fs.dirs)
    ensures OnlyListed(old(fs.files), fs.files, base, listed)
    ensures fs.dirs <= old(fs.dirs)
    ensures forall d :: d in old(fs.dirs) && d !in fs.dirs ==> Removable(ParentDirectories(listed), base, d)
  {
    ghost var folders := ParentDirectories(listed);
    ParentDirectoriesMeans(listed, []);
    RemoveManifestFiles(fs, base, listed, stamp);
    UserDataStays(old(fs.files), fs.files, base, listed);
    ghost var files, dirs := fs.files.Keys, fs.dirs;
    RemoveEmptyDirectories(fs, base, order, folders);
    UserFoldersStay(base, folders, dirs, fs.dirs);
    ListedAreGone(old(fs.files), fs.files, base, listed);
    forall r: Path
      ensures IsUserData(r)
              <==> r == ["config.ini"] || (r != [] && r[0] in ["logs", "captures", "screenshots", "benchmarks"])
    {
      UserDataMeans(r);
    }
    hide IsUserData, Clear, ParentDirectories;
    forall d | d in dirs
      ensures Goes(files, dirs, folders, base, order, d)
              <==> Removable(folders, base, d) && Clear(files, dirs, folders, base, d)
    {
      assert Removable(folders, base, d) ==> d[|base|..] in order;
    }
  }
}
