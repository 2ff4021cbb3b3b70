/**
 The installer replaces its files as one unit: everything is extracted beside its destination, each old file is
 renamed aside and the new one renamed into place, and a failure anywhere is rolled back. The file tree may refuse
 any single operation, those of the rollback included.
 */
module InstallTransaction {
  import opened FileTree

  const STAGING := ".cenew"
  const BACKUP := ".cebak"

  datatype Entry = Entry(path: Path, content: Bytes)

  /** A name beside p. */
  function Beside(p: Path, suffix: string): (q: Path)
    requires p != []
    ensures q != [] && Parent(q) == Parent(p)
  {
    p[..|p| - 1] + [p[|p| - 1] + suffix]
  }

  datatype StagedFile = StagedFile(destination: Path, content: Bytes, hadOriginal: bool, swapped: bool) {
    function Staging(): Path
      requires destination != []
    {
      Beside(destination, STAGING)
    }

    function Backup(): Path
      requires destination != []
    {
      Beside(destination, BACKUP)
    }

    function Names(): set<Path>
      requires destination != []
    {
      {destination, Staging(), Backup()}
    }
  }

  // ---------------------------------------------------------------------------------------------
  // Names that do not collide
  // ---------------------------------------------------------------------------------------------

  predicate EndsWith(s: string, suffix: string) {
    |s| >= |suffix| && s[|s| - |suffix|..] == suffix
  }

  predicate IsTemporaryName(name: string) {
    (EndsWith(name, STAGING) && |name| > |STAGING|) || (EndsWith(name, BACKUP) && |name| > |BACKUP|)
  }

  predicate IsPrefix(p: Path, q: Path) {
    |p| <= |q| && q[..|p|] == p
  }

  /** What the transaction needs of the shipped paths; the container parser checks only that they are distinct. */
  ghost predicate WellNamed(entries: seq<Entry>) {
    && (forall i :: 0 <= i < |entries| ==>
          var p := entries[i].path;
          p != [] && !EndsWith(p[|p| - 1], STAGING) && !EndsWith(p[|p| - 1], BACKUP))
    && (forall i, j :: 0 <= i < |entries| && 0 <= j < |entries| && i != j ==>
          !IsPrefix(entries[i].path, entries[j].path))
  }

  /** All the names in play are different, and no destination is a folder of another. */
  ghost predicate Apart(staged: seq<StagedFile>) {
    && (forall i :: 0 <= i < |staged| ==> staged[i].destination != [])
    && (forall i, j :: 0 <= i < |staged| && 0 <= j < |staged| ==>
          && staged[i].destination != staged[j].Staging() && staged[i].destination != staged[j].Backup()
          && staged[i].Staging() != staged[j].Backup()
          && (i != j ==>
                && staged[i].destination != staged[j].destination && staged[i].Staging() != staged[j].Staging()
                && staged[i].Backup() != staged[j].Backup()
                && !IsPrefix(staged[i].destination, staged[j].destination)))
  }

  function Plan(directory: Path, entries: seq<Entry>): (staged: seq<StagedFile>)
    ensures |staged| == |entries|
    ensures forall i :: 0 <= i < |entries| ==>
              staged[i] == StagedFile(directory + entries[i].path, entries[i].content, false, false)
  {
    seq(|entries|, i requires 0 <= i < |entries| =>
      StagedFile(directory + entries[i].path, entries[i].content, false, false))
  }

  lemma BesideMeans(p: Path, q: Path, s: string, t: string)
    requires p != [] && q != []
    ensures Beside(p, s)[|p| - 1] == p[|p| - 1] + s
    ensures s != t && |s| == |t| ==> Beside(p, s) != Beside(q, t)
    ensures p != q ==> Beside(p, s) != Beside(q, s)
    ensures !EndsWith(q[|q| - 1], s) ==> Beside(p, s) != q
  {
    var a, b := Beside(p, s), Beside(q, t);
    assert a[..|p| - 1] == p[..|p| - 1] && b[..|q| - 1] == q[..|q| - 1];
    var u, v := p[|p| - 1], q[|q| - 1];
    assert (u + s)[|u|..] == s && (u + s)[..|u|] == u;
    assert (v + t)[|v|..] == t;
    assert (v + s)[..|v|] == v;
    assert Beside(q, s)[|q| - 1] == v + s && Beside(q, s)[..|q| - 1] == q[..|q| - 1];
    assert p == p[..|p| - 1] + [u] && q == q[..|q| - 1] + [v];
    if a == Beside(q, s) {
      assert |u + s| == |v + s|;
    }
  }

  lemma PrefixUnder(d: Path, p: Path, q: Path)
    ensures IsPrefix(d + p, d + q) <==> IsPrefix(p, q)
  {
    if IsPrefix(p, q) {
      assert (d + q)[..|d + p|] == d + q[..|p|];
    }
    if IsPrefix(d + p, d + q) {
      assert q[..|p|] == (d + q)[..|d + p|][|d|..] == p;
    }
  }

  lemma PlannedApart(directory: Path, entries: seq<Entry>)
    requires WellNamed(entries)
    ensures Apart(Plan(directory, entries))
  {
    var staged := Plan(directory, entries);
    forall i, j | 0 <= i < |staged| && 0 <= j < |staged|
      ensures var p, q := staged[i].destination, staged[j].destination;
              && p != [] && q != [] && !EndsWith(q[|q| - 1], STAGING) && !EndsWith(q[|q| - 1], BACKUP)
              && (i != j ==> !IsPrefix(p, q) && p != q)
    {
      var p, q := staged[i].destination, staged[j].destination;
      assert p[|p| - 1] == entries[i].path[|entries[i].path| - 1];
      assert q[|q| - 1] == entries[j].path[|entries[j].path| - 1];
      PrefixUnder(directory, entries[i].path, entries[j].path);
    }
    forall i, j | 0 <= i < |staged| && 0 <= j < |staged|
      ensures staged[j].destination != staged[i].Staging() && staged[j].destination != staged[i].Backup()
      ensures staged[i].Staging() != staged[j].Backup()
      ensures i != j ==> staged[i].Staging() != staged[j].Staging() && staged[i].Backup() != staged[j].Backup()
    {
      BesideMeans(staged[i].destination, staged[j].destination, STAGING, BACKUP);
      BesideMeans(staged[i].destination, staged[j].destination, BACKUP, STAGING);
    }
  }

  /** The same files, whatever their flags. */
  ghost predicate SamePlan(a: seq<StagedFile>, b: seq<StagedFile>) {
    |a| == |b| && forall i :: 0 <= i < |a| ==> a[i].destination == b[i].destination && a[i].content == b[i].content
  }

  ghost predicate NoBackupIsFolder(dirs: set<Path>, staged: seq<StagedFile>) {
    forall i :: 0 <= i < |staged| && staged[i].destination != [] ==> staged[i].Backup() !in dirs
  }

  lemma SamePlanAsSelf(a: seq<StagedFile>)
    ensures SamePlan(a, a)
  {
  }

  /** What only reads the plan survives a change of flags. */
  lemma PlanStays(dirs: set<Path>, a: seq<StagedFile>, b: seq<StagedFile>, c: seq<StagedFile>)
    requires SamePlan(b, a) && SamePlan(c, b)
    ensures SamePlan(c, a) && |c| == |b| && (NoBackupIsFolder(dirs, b) ==> NoBackupIsFolder(dirs, c))
  {
  }

  lemma SameNames(a: seq<StagedFile>, b: seq<StagedFile>)
    requires Apart(a) && |a| == |b| && forall i :: 0 <= i < |a| ==> a[i].destination == b[i].destination
    ensures Apart(b)
  {
    forall i, j | 0 <= i < |b| && 0 <= j < |b|
      ensures b[i].destination != [] && b[j].destination != []
      ensures b[i].destination != b[j].Staging() && b[i].destination != b[j].Backup() && b[i].Staging() != b[j].Backup()
      ensures i != j ==>
                && b[i].destination != b[j].destination && b[i].Staging() != b[j].Staging()
                && b[i].Backup() != b[j].Backup() && !IsPrefix(b[i].destination, b[j].destination)
    {
      assert a[i].destination == b[i].destination && a[j].destination == b[j].destination;
    }
  }

  // ---------------------------------------------------------------------------------------------
  // What can be recovered
  // ---------------------------------------------------------------------------------------------

  ghost predicate Touched(staged: seq<StagedFile>, p: Path)
    requires Apart(staged)
  {
    exists i :: 0 <= i < |staged| && p in staged[i].Names()
  }

  ghost predicate Temporary(staged: seq<StagedFile>, p: Path)
    requires Apart(staged)
  {
    exists i :: 0 <= i < |staged| && (p == staged[i].Staging() || p == staged[i].Backup())
  }

  /** Nothing of an old file is lost: it is at its destination or at its backup. */
  ghost predicate OldFileSafe(m: Files, was: Files, s: StagedFile)
    requires s.destination != []
  {
    s.destination in was ==>
      (s.destination in m && m[s.destination] == was[s.destination])
      || (s.Backup() in m && m[s.Backup()] == was[s.destination])
  }

  ghost predicate OldFilesSafe(m: Files, was: Files, staged: seq<StagedFile>)
    requires Apart(staged)
  {
    forall i :: 0 <= i < |staged| ==> OldFileSafe(m, was, staged[i])
  }

  /** One file's part of a state that the rollback can undo, as its two flags record it. */
  predicate Recoverable(m: Files, was: Files, s: StagedFile)
    requires s.destination != []
  {
    if s.swapped then
      && (s.hadOriginal <==> s.destination in was)
      && (if s.hadOriginal then s.Backup() in m && m[s.Backup()] == was[s.destination] else Within(m, was, s.Backup()))
    else Same(m, was, s.destination) && Within(m, was, s.Backup())
  }

  /** One file as it was before, with nothing of the transaction left beside it. */
  predicate Restored(m: Files, was: Files, s: StagedFile)
    requires s.destination != []
  {
    Same(m, was, s.destination) && s.Staging() !in m && Within(m, was, s.Backup())
  }

  predicate IsStaged(m: Files, s: StagedFile)
    requires s.destination != []
  {
    s.Staging() in m && m[s.Staging()] == s.content
  }

  predicate InPlace(m: Files, s: StagedFile) {
    s.destination in m && m[s.destination] == s.content && s.swapped
  }

  ghost predicate OthersKept(m: Files, was: Files, staged: seq<StagedFile>)
    requires Apart(staged)
  {
    forall p :: !Touched(staged, p) ==> Same(m, was, p)
  }

  ghost predicate AllRecoverable(m: Files, was: Files, staged: seq<StagedFile>)
    requires Apart(staged)
  {
    OthersKept(m, was, staged) && forall i :: 0 <= i < |staged| ==> Recoverable(m, was, staged[i])
  }

  lemma SameNamesSameSafety(m: Files, was: Files, a: seq<StagedFile>, b: seq<StagedFile>)
    requires Apart(a) && Apart(b) && |a| == |b| && forall i :: 0 <= i < |a| ==> a[i].destination == b[i].destination
    ensures OldFilesSafe(m, was, a) ==> OldFilesSafe(m, was, b)
  {
    assert forall i :: 0 <= i < |a| && OldFileSafe(m, was, a[i]) ==> OldFileSafe(m, was, b[i]);
  }

  /** Two states differ at most in one staged file's three names. */
  ghost predicate AgreeBut(m: Files, n: Files, s: StagedFile)
    requires s.destination != []
  {
    forall p :: p !in s.Names() ==> Same(m, n, p)
  }

  /** A step at one file's names leaves every other file's standing alone. */
  lemma FrameOne(m: Files, n: Files, was: Files, staged: seq<StagedFile>, i: nat)
    requires Apart(staged) && i < |staged| && AgreeBut(m, n, staged[i])
    ensures OthersKept(m, was, staged) ==> OthersKept(n, was, staged)
    ensures forall j :: 0 <= j < |staged| && j != i ==>
              && Same(m, n, staged[j].destination) && Same(m, n, staged[j].Staging()) && Same(m, n, staged[j].Backup())
              && (Recoverable(m, was, staged[j]) <==> Recoverable(n, was, staged[j]))
              && (Restored(m, was, staged[j]) <==> Restored(n, was, staged[j]))
              && (OldFileSafe(m, was, staged[j]) <==> OldFileSafe(n, was, staged[j]))
  {
    assert forall p :: !Touched(staged, p) ==> Same(m, n, p);
    assert OthersKept(m, was, staged) ==> OthersKept(n, was, staged);
    hide Recoverable, Restored, OldFileSafe, OthersKept, Touched;
    forall j | 0 <= j < |staged| && j != i
      ensures Same(m, n, staged[j].destination) && Same(m, n, staged[j].Staging()) && Same(m, n, staged[j].Backup())
      ensures Recoverable(m, was, staged[j]) <==> Recoverable(n, was, staged[j])
      ensures Restored(m, was, staged[j]) <==> Restored(n, was, staged[j])
      ensures OldFileSafe(m, was, staged[j]) <==> OldFileSafe(n, was, staged[j])
    {
      NamesApart(staged, i, j);
      FrameFile(m, n, was, staged[j]);
    }
  }

  lemma FrameFile(m: Files, n: Files, was: Files, s: StagedFile)
    requires s.destination != []
    requires Same(m, n, s.destination) && Same(m, n, s.Staging()) && Same(m, n, s.Backup())
    ensures Recoverable(m, was, s) <==> Recoverable(n, was, s)
    ensures Restored(m, was, s) <==> Restored(n, was, s)
    ensures OldFileSafe(m, was, s) <==> OldFileSafe(n, was, s)
  {
  }

  lemma NamesApart(staged: seq<StagedFile>, i: nat, j: nat)
    requires Apart(staged) && i < |staged| && j < |staged| && i != j
    ensures staged[i].Names() !! staged[j].Names()
  {
  }

  lemma SafeStep(m: Files, n: Files, was: Files, staged: seq<StagedFile>, i: nat)
    requires Apart(staged) && i < |staged| && AgreeBut(m, n, staged[i])
    requires OldFilesSafe(m, was, staged) && OldFileSafe(n, was, staged[i])
    ensures OldFilesSafe(n, was, staged)
  {
    FrameOne(m, n, was, staged, i);
  }

  /** Whatever happens at a staging name changes nothing that matters. */
  lemma StagingOnly(m: Files, n: Files, was: Files, staged: seq<StagedFile>, i: nat)
    requires Apart(staged) && i < |staged| && forall p :: p != staged[i].Staging() ==> Same(m, n, p)
    ensures AgreeBut(m, n, staged[i])
    ensures OldFilesSafe(m, was, staged) ==> OldFilesSafe(n, was, staged)
    ensures AllRecoverable(m, was, staged) ==> AllRecoverable(n, was, staged)
    ensures forall j :: 0 <= j < |staged| ==>
              Same(m, n, staged[j].destination) && (j != i ==> Same(m, n, staged[j].Staging()))
  {
    assert Same(m, n, staged[i].destination) && Same(m, n, staged[i].Backup());
    FrameOne(m, n, was, staged, i);
    hide Apart;
    if AllRecoverable(m, was, staged) {
      assert Recoverable(m, was, staged[i]);
    }
  }

  /** A step at file k's names that leaves it recoverable leaves everything recoverable, whatever its flags became. */
  lemma StepKeepsOthers(m: Files, n: Files, was: Files, a: seq<StagedFile>, b: seq<StagedFile>, k: nat)
    requires Apart(a) && Apart(b) && |a| == |b| && k < |a| && AllRecoverable(m, was, a)
    requires forall i :: 0 <= i < |a| ==> a[i].destination == b[i].destination && (i != k ==> a[i] == b[i])
    requires AgreeBut(m, n, b[k]) && Recoverable(n, was, b[k])
    ensures AllRecoverable(n, was, b)
    ensures forall i :: 0 <= i < |b| && i != k ==>
              (InPlace(m, a[i]) ==> InPlace(n, b[i])) && (IsStaged(m, a[i]) ==> IsStaged(n, b[i]))
  {
    assert forall p :: Touched(b, p) ==> Touched(a, p);
    assert OthersKept(m, was, b);
    FrameOne(m, n, was, b, k);
    forall i | 0 <= i < |b|
      ensures Recoverable(n, was, b[i])
    {
      if i != k {
        assert Recoverable(m, was, a[i]);
      }
    }
  }

  lemma NothingDone(was: Files, staged: seq<StagedFile>)
    requires Apart(staged) && forall i :: 0 <= i < |staged| ==> !staged[i].swapped
    ensures AllRecoverable(was, was, staged) && OldFilesSafe(was, was, staged)
  {
  }

  /** The first k files are in place, the others wait at their staging names, and everything can be undone. */
  ghost predicate Between(m: Files, was: Files, dirs: set<Path>, staged: seq<StagedFile>, k: nat) {
    && Apart(staged) && AllRecoverable(m, was, staged)
    && (forall i :: 0 <= i < |staged| ==>
          staged[i].destination !in dirs && if i < k then InPlace(m, staged[i]) else IsStaged(m, staged[i]))
  }

  lemma BetweenStays(m: Files, n: Files, was: Files, dirs: set<Path>, a: seq<StagedFile>, b: seq<StagedFile>, k: nat)
    requires Between(m, was, dirs, a, k) && Apart(b) && |a| == |b| && k < |a|
    requires forall i :: 0 <= i < |a| ==> a[i].destination == b[i].destination && (i != k ==> a[i] == b[i])
    requires AgreeBut(m, n, b[k]) && Recoverable(n, was, b[k]) && IsStaged(n, b[k])
    ensures Between(n, was, dirs, b, k)
  {
    hide AllRecoverable, Recoverable, Apart, AgreeBut;
    StepKeepsOthers(m, n, was, a, b, k);
  }

  // ---------------------------------------------------------------------------------------------
  // Folders
  // ---------------------------------------------------------------------------------------------

  /** The folders made so far: none was there, each was made in one that was, or in an earlier one. */
  ghost predicate MadeInOrder(roots: set<Path>, created: seq<Path>) {
    forall k :: 0 <= k < |created| ==>
      && created[k] != [] && created[k] !in roots && created[k] !in created[..k]
      && (Parent(created[k]) in roots || Parent(created[k]) in created[..k])
  }

  function Elements(s: seq<Path>): set<Path> {
    set p | p in s
  }

  lemma NoteMade(roots: set<Path>, created: seq<Path>, p: Path)
    requires MadeInOrder(roots, created) && p != [] && p !in roots + Elements(created)
    requires Parent(p) in roots + Elements(created)
    ensures MadeInOrder(roots, created + [p]) && Elements(created + [p]) == Elements(created) + {p}
  {
    var c := created + [p];
    assert Elements(c) == Elements(created) + {p};
    assert p !in created && (Parent(p) in roots || Parent(p) in created);
    hide Elements, Parent;
    forall k | 0 <= k < |c|
      ensures c[k] != [] && c[k] !in roots && c[k] !in c[..k] && (Parent(c[k]) in roots || Parent(c[k]) in c[..k])
    {
      if k < |created| {
        assert c[..k] == created[..k] && c[k] == created[k];
      } else {
        assert c[..k] == created;
      }
    }
  }

  /** Every file as it was, and nothing of the transaction left. */
  ghost predicate Undone(m: Files, was: Files, staged: seq<StagedFile>)
    requires Apart(staged)
  {
    OthersKept(m, was, staged) && forall i :: 0 <= i < |staged| ==> Restored(m, was, staged[i])
  }

  lemma RestoredName(m: Files, was: Files, s: StagedFile, p: Path)
    requires s.destination != [] && Restored(m, was, s) && p in s.Names()
    ensures if p == s.Staging() || p == s.Backup() then Within(m, was, p) else Same(m, was, p)
  {
  }

  lemma UndoneAt(m: Files, was: Files, staged: seq<StagedFile>, p: Path)
    requires Apart(staged) && Undone(m, was, staged)
    ensures if Temporary(staged, p) then Within(m, was, p) else Same(m, was, p)
  {
    hide Same, Within, Restored, Beside;
    if Temporary(staged, p) {
      var i :| 0 <= i < |staged| && (p == staged[i].Staging() || p == staged[i].Backup());
      RestoredName(m, was, staged[i], p);
    } else if Touched(staged, p) {
      var i :| 0 <= i < |staged| && p in staged[i].Names();
      RestoredName(m, was, staged[i], p);
    }
  }

  /** What an undone transaction means for each path, and for the whole tree when no leftovers were there before. */
  lemma UndoneMeans(m: Files, was: Files, staged: seq<StagedFile>)
    requires Apart(staged) && Undone(m, was, staged)
    ensures forall p :: if Temporary(staged, p) then Within(m, was, p) else Same(m, was, p)
    ensures m.Keys <= was.Keys
    ensures (forall p :: Temporary(staged, p) ==> p !in was) ==> m == was
  {
    forall p
      ensures if Temporary(staged, p) then Within(m, was, p) else Same(m, was, p)
    {
      UndoneAt(m, was, staged, p);
    }
    hide Undone;
    forall p | p in m
      ensures p in was
    {
      assert Within(m, was, p) || Same(m, was, p);
    }
    if forall p :: Temporary(staged, p) ==> p !in was {
      assert forall p :: p in was ==> Same(m, was, p);
    }
  }

  /** The last folder made is empty once only old files and earlier folders are left. */
  lemma LastMadeIsEmpty(files: set<Path>, roots: set<Path>, created: seq<Path>, k: nat)
    requires MadeInOrder(roots, created) && 0 < k <= |created|
    requires [] in roots && forall d :: d in roots ==> Parent(d) in roots
    requires forall p :: p in files ==> Parent(p) in roots
    ensures created[k - 1] !in Parents(files + (roots + Elements(created[..k])))
  {
    var last := created[k - 1];
    forall p | p in files + (roots + Elements(created[..k])) && p != []
      ensures Parent(p) != last
    {
      if p !in files && p !in roots {
        var j :| 0 <= j < k && created[j] == p;
        if Parent(p) in created[..j] {
          var h :| 0 <= h < j && created[h] == Parent(p);
          assert created[h] in created[..k - 1];
        }
      }
    }
  }

  /** No file has the name of a folder that p needs. */
  ghost predicate NoFileOnTheWay(files: Files, p: Path) {
    forall q :: IsPrefix(q, p) ==> q !in files
  }

  ghost predicate IsFolderOf(staged: seq<StagedFile>, q: Path) {
    exists i :: 0 <= i < |staged| && staged[i].destination != [] && IsPrefix(q, Parent(staged[i].destination))
  }

  /** Nothing is in the way: no file where a folder is needed, no folder at any of the names in play. */
  ghost predicate Open(files: Files, dirs: set<Path>, staged: seq<StagedFile>) {
    && Apart(staged)
    && (forall q :: IsFolderOf(staged, q) ==> q !in files && !Touched(staged, q))
    && (forall q :: Touched(staged, q) ==> q !in dirs)
  }

  lemma OpenStays(was: Files, dirs: set<Path>, more: set<Path>, staged: seq<StagedFile>, k: nat)
    requires Open(was, dirs, staged) && k < |staged|
    requires forall d :: d in more && d !in dirs ==> IsPrefix(d, Parent(staged[k].destination))
    ensures Open(was, more, staged)
  {
    forall q | Touched(staged, q)
      ensures q !in more
    {
      assert IsFolderOf(staged, q) || q !in more;
    }
  }

  lemma WayIsClear(files: Files, was: Files, dirs: set<Path>, staged: seq<StagedFile>, k: nat)
    requires Open(was, dirs, staged) && k < |staged| && OthersKept(files, was, staged)
    ensures NoFileOnTheWay(files, Parent(staged[k].destination))
    ensures forall p :: p in staged[k].Names() ==> p !in dirs
  {
    forall q | IsPrefix(q, Parent(staged[k].destination))
      ensures q !in files
    {
      assert IsFolderOf(staged, q);
      assert Same(files, was, q);
    }
    assert forall p :: p in staged[k].Names() ==> Touched(staged, p);
  }

  predicate IsLeftover(p: Path) {
    p != [] && IsTemporaryName(p[|p| - 1])
  }

  /** p is named after another file: a name that is not empty, and one of the two suffixes. */
  ghost predicate NamedAfter(p: Path, name: string) {
    name != "" && p != [] && (p[|p| - 1] == name + ".cenew" || p[|p| - 1] == name + ".cebak")
  }

  lemma LeftoverMeans(p: Path)
    ensures IsLeftover(p) <==> exists name :: NamedAfter(p, name)
  {
    if IsLeftover(p) {
      var last := p[|p| - 1];
      var suffix := if EndsWith(last, STAGING) then ".cenew" else ".cebak";
      assert last == last[..|last| - |suffix|] + suffix;
      assert NamedAfter(p, last[..|last| - |suffix|]);
    }
    if name :| NamedAfter(p, name) {
      assert p[|p| - 1][|name|..] == ".cenew" || p[|p| - 1][|name|..] == ".cebak";
    }
  }

  /** Files that are named after no other stay. */
  ghost predicate OthersStay(before: Files, now: Files) {
    forall p :: p in before && !(exists name :: NamedAfter(p, name)) ==> Same(before, now, p)
  }

  /** What was found and is named after another file is gone. */
  ghost predicate FoundGone(now: Files, found: seq<Path>) {
    forall k, name :: 0 <= k < |found| && NamedAfter(found[k], name) ==> found[k] !in now
  }

  /** Only leftovers of earlier runs are gone, and nothing is new. */
  ghost predicate Cleaned(m: Files, before: Files) {
    (forall p :: p in m ==> Same(m, before, p)) && (forall p :: p in before && !IsLeftover(p) ==> p in m)
  }

  /** From this state on no old file was ever lost. */
  ghost predicate NothingLost(past: seq<Files>, first: nat, was: Files, staged: seq<StagedFile>) {
    Apart(staged) && forall k :: first <= k < |past| ==> OldFilesSafe(past[k], was, staged)
  }

  lemma CleanedSelf(m: Files)
    ensures Cleaned(m, m)
  {
  }

  lemma CleanedStays(m: Files, before: Files, p: Path)
    requires Cleaned(m, before) && IsLeftover(p)
    ensures Cleaned(m - {p}, before)
  {
  }

  lemma CleanedMeans(m: Files, before: Files)
    requires Cleaned(m, before)
    ensures m.Keys <= before.Keys
  {
  }

  /** Shipped names are no leftovers, so the clean-up has lost none of the files about to be replaced. */
  lemma CleanedIsSafe(m: Files, was: Files, before: Files, directory: Path, entries: seq<Entry>)
    requires WellNamed(entries) && Cleaned(m, before) && Cleaned(was, before)
    ensures var plan := Plan(directory, entries);
            Apart(plan) && OldFilesSafe(m, was, plan) && OldFilesSafe(m, before, plan)
  {
    var plan := Plan(directory, entries);
    PlannedApart(directory, entries);
    forall i | 0 <= i < |plan|
      ensures OldFileSafe(m, was, plan[i]) && OldFileSafe(m, before, plan[i])
    {
      ShippedIsNoLeftover(directory, entries, i);
    }
  }

  lemma ShippedIsNoLeftover(directory: Path, entries: seq<Entry>, i: nat)
    requires WellNamed(entries) && i < |entries|
    ensures !IsLeftover(Plan(directory, entries)[i].destination)
  {
    var p := Plan(directory, entries)[i].destination;
    assert p[|p| - 1] == entries[i].path[|entries[i].path| - 1];
  }

  /** Safety is the same whether measured from before the clean-up or from after it. */
  lemma SafeSinceBefore(m: Files, was: Files, before: Files, directory: Path, entries: seq<Entry>,
                        staged: seq<StagedFile>)
    requires WellNamed(entries) && Cleaned(was, before) && SamePlan(staged, Plan(directory, entries)) && Apart(staged)
    requires OldFilesSafe(m, was, staged)
    ensures Apart(Plan(directory, entries)) && OldFilesSafe(m, before, Plan(directory, entries))
  {
    var plan := Plan(directory, entries);
    PlannedApart(directory, entries);
    forall i | 0 <= i < |plan|
      ensures OldFileSafe(m, before, plan[i])
    {
      ShippedIsNoLeftover(directory, entries, i);
      assert OldFileSafe(m, was, staged[i]);
    }
  }

  /** Once the clean-up is refused nothing, no leftover it found is beside a destination. */
  ghost predicate NoneBeside(was: Files, found: seq<Path>, plan: seq<StagedFile>) {
    forall i :: 0 <= i < |plan| && plan[i].destination != [] && plan[i].destination[|plan[i].destination| - 1] != "" ==>
      && (plan[i].Staging() in found ==> plan[i].Staging() !in was)
      && (plan[i].Backup() in found ==> plan[i].Backup() !in was)
  }

  lemma CleanedBeside(was: Files, found: seq<Path>, plan: seq<StagedFile>)
    requires FoundGone(was, found)
    ensures NoneBeside(was, found, plan)
  {
    forall i | 0 <= i < |plan| && plan[i].destination != [] && plan[i].destination[|plan[i].destination| - 1] != ""
      ensures plan[i].Staging() in found ==> plan[i].Staging() !in was
      ensures plan[i].Backup() in found ==> plan[i].Backup() !in was
    {
      var d := plan[i].destination;
      assert NamedAfter(plan[i].Staging(), d[|d| - 1]);
      assert NamedAfter(plan[i].Backup(), d[|d| - 1]);
    }
  }

  /** How many folders have to be made for p. */
  function Missing(dirs: set<Path>, p: Path): nat
    decreases |p|
  {
    if p in dirs || p == [] then 0 else Missing(dirs, Parent(p)) + 1
  }

  datatype Outcome =
    | NoFolder                // the installation folder could not be made; nothing else was tried
    | RolledBack(from: nat)   // undone, from this point in time on
    | Committed

  ghost predicate RefusedBetween(fs: FileSystem, since: nat, until: nat) {
    exists n: nat :: since <= n < until && !fs.allows(n)
  }

  lemma NothingRefused(fs: FileSystem, since: nat)
    ensures !RefusedBetween(fs, since, since)
  {
  }

  lemma OneMore(fs: FileSystem, since: nat, steps: nat)
    ensures RefusedBetween(fs, since, since + (steps + 1))
            <==> RefusedBetween(fs, since, since + steps) || !fs.allows(since + steps)
  {
  }

  lemma WayUp(files: Files, dirs: set<Path>, p: Path)
    requires IsTree(files, dirs)
    ensures NoFileOnTheWay(files, p) ==> NoFileOnTheWay(files, Parent(p)) && p !in files && Parent(p) !in files
    ensures p !in dirs ==> p != [] && Parent(p) != p && |Parent(p)| < |p|
  {
  }

  class Transaction {
    const fs: FileSystem
    var staged: seq<StagedFile>
    var created: seq<Path>
    ghost const origin: seq<Files>
    ghost const roots: set<Path>
    ghost var was: Files
    ghost var begun: nat

    constructor (fs: FileSystem)
      requires fs.Valid() && fs.past != [] && fs.past[|fs.past| - 1] == fs.files
      ensures Core() && this.fs == fs && staged == [] && created == [] && was == fs.files && roots == fs.dirs
      ensures origin == fs.past && begun == fs.clock
    {
      this.fs, staged, created := fs, [], [];
      origin, roots, was, begun := fs.past, fs.dirs, fs.files, fs.clock;
    }

    /** The folders are accounted for, and no old file has been lost. */
    ghost predicate Core()
      reads this, fs
    {
      && fs.Valid() && Apart(staged) && IsTree(was, roots)
      && MadeInOrder(roots, created) && fs.dirs == roots + Elements(created)
      && PastIsSafe()
    }

    /** No state since the transaction was set up has lost an old file. */
    ghost predicate PastIsSafe()
      reads `staged, `was, fs`past, fs`files
    {
      && origin != [] && origin <= fs.past && fs.past[|fs.past| - 1] == fs.files
      && NothingLost(fs.past, |origin| - 1, was, staged)
    }

    /** No replaced destination is a folder. */
    predicate NoneIsFolder()
      reads this, fs
    {
      forall i :: 0 <= i < |staged| && staged[i].swapped ==> staged[i].destination !in fs.dirs
    }

    /** Every operation since the given time was granted. */
    predicate Granted(since: nat)
      reads fs
    {
      forall n :: since <= n < fs.clock ==> fs.allows(n)
    }

    method Delete(i: nat, p: Path) returns (ok: bool)
      requires Core() && i < |staged| && p in staged[i].Names() && OldFileSafe(fs.files - {p}, was, staged[i])
      modifies fs
      ensures Core() && fs.dirs == old(fs.dirs) && fs.clock == old(fs.clock) + 1
      ensures ok == (p in old(fs.files) && fs.allows(old(fs.clock)))
      ensures fs.files == if ok then old(fs.files) - {p} else old(fs.files)
      ensures AgreeBut(old(fs.files), fs.files, staged[i])
    {
      ghost var m := fs.files;
      ok := fs.DeleteFile(p);
      SafeStep(m, fs.files, was, staged, i);
    }

    method Rename(i: nat, p: Path, q: Path) returns (ok: bool)
      requires Core() && i < |staged| && p in staged[i].Names() && q in staged[i].Names()
      requires p in fs.files ==> OldFileSafe((fs.files - {p})[q := fs.files[p]], was, staged[i])
      modifies fs
      ensures Core() && fs.dirs == old(fs.dirs) && fs.clock == old(fs.clock) + 1
      ensures ok == (p in old(fs.files) && !old(fs.Exists(q)) && Parent(q) in fs.dirs && fs.allows(old(fs.clock)))
      ensures fs.files == if ok then (old(fs.files) - {p})[q := old(fs.files)[p]] else old(fs.files)
      ensures AgreeBut(old(fs.files), fs.files, staged[i])
    {
      ghost var m := fs.files;
      ok := fs.MoveFile(p, q);
      SafeStep(m, fs.files, was, staged, i);
    }

    lemma SafeNow(i: nat)
      requires Core() && i < |staged|
      ensures staged[i].destination != [] && OldFileSafe(fs.files, was, staged[i])
      ensures fs.Valid() && Apart(staged)
    {
    }

    /** Puts the old file back in the new one's place. */
    method PutBack(i: nat)
      requires Core() && i < |staged| && staged[i].destination != [] && Recoverable(fs.files, was, staged[i])
      requires (staged[i].swapped ==> staged[i].destination !in fs.dirs) && Parent(staged[i].destination) in fs.dirs
      modifies fs
      ensures Core() && fs.dirs == old(fs.dirs) && fs.clock >= old(fs.clock)
      ensures AgreeBut(old(fs.files), fs.files, staged[i])
      ensures Granted(old(fs.clock)) ==>
                Same(fs.files, was, staged[i].destination) && Within(fs.files, was, staged[i].Backup())
    {
      SafeNow(i);
      hide Core;
      var s := staged[i];
      if !s.swapped {
        return;
      }
      var _ := Delete(i, s.destination);
      if s.hadOriginal {
        var _ := Rename(i, s.Backup(), s.destination);
      }
    }

    method RollbackOne(i: nat)
      requires Core() && i < |staged| && staged[i].destination != [] && Recoverable(fs.files, was, staged[i])
      requires staged[i].swapped ==> staged[i].destination !in fs.dirs
      modifies fs
      ensures Core() && fs.dirs == old(fs.dirs) && fs.clock >= old(fs.clock)
      ensures AgreeBut(old(fs.files), fs.files, staged[i])
      ensures Granted(old(fs.clock)) ==> Restored(fs.files, was, staged[i])
    {
      SafeNow(i);
      hide Core;
      var guard := Guard(staged[i].destination);
      if !guard {
        return;
      }
      PutBack(i);
      SafeNow(i);
      var _ := Delete(i, staged[i].Staging());
    }

    /** Opening the folder a file is in. */
    method Guard(p: Path) returns (ok: bool)
      requires Core()
      modifies fs`clock
      ensures Core() && fs.clock == old(fs.clock) + 1
      ensures ok == (fs.allows(old(fs.clock)) && Parent(p) in fs.dirs)
    {
      var granted := fs.Ask();
      ok := granted && Parent(p) in fs.dirs;
    }

    method RollbackFiles()
      requires Core() && AllRecoverable(fs.files, was, staged) && NoneIsFolder()
      modifies fs
      ensures Core() && fs.dirs == old(fs.dirs) && fs.clock >= old(fs.clock)
      ensures Apart(staged) && OthersKept(fs.files, was, staged)
      ensures Granted(old(fs.clock)) ==> Undone(fs.files, was, staged)
    {
      var i := |staged|;
      while i > 0
        invariant 0 <= i <= |staged| && Core() && fs.dirs == old(fs.dirs) && fs.clock >= old(fs.clock)
        invariant OthersKept(fs.files, was, staged)
        invariant forall j :: 0 <= j < i ==> Recoverable(fs.files, was, staged[j])
        invariant Granted(old(fs.clock)) ==> forall j :: i <= j < |staged| ==> Restored(fs.files, was, staged[j])
      {
        SafeNow(i - 1);
        hide Core, Recoverable, Restored, OthersKept, OldFileSafe;
        ghost var m, clock := fs.files, fs.clock;
        i := i - 1;
        RollbackOne(i);
        FrameOne(m, fs.files, was, staged, i);
      }
    }

    method RemoveLast(k: nat)
      requires fs.Valid() && PastIsSafe() && IsTree(was, roots) && MadeInOrder(roots, created) && k < |created|
      modifies fs`clock, fs`dirs
      ensures fs.Valid() && PastIsSafe() && fs.clock == old(fs.clock) + 1
      ensures fs.allows(old(fs.clock)) && fs.files.Keys <= was.Keys
              && old(fs.dirs) == roots + Elements(created[..k + 1]) ==>
                fs.dirs == roots + Elements(created[..k])
    {
      hide PastIsSafe;
      assert created[..k + 1] == created[..k] + [created[k]];
      if fs.files.Keys <= was.Keys {
        LastMadeIsEmpty(fs.files.Keys, roots, created, k + 1);
      }
      var _ := fs.RemoveDirectory(created[k]);
    }

    /** Only the folders this run made, the latest first. */
    method RemoveCreated()
      requires Core()
      modifies fs`clock, fs`dirs
      ensures fs.Valid() && PastIsSafe() && fs.clock >= old(fs.clock)
      ensures Granted(old(fs.clock)) && fs.files.Keys <= was.Keys ==> fs.dirs == roots
    {
      var k := |created|;
      assert created[..k] == created;
      while k > 0
        invariant 0 <= k <= |created| && fs.Valid() && PastIsSafe() && fs.clock >= old(fs.clock)
        invariant Granted(old(fs.clock)) && fs.files.Keys <= was.Keys ==> fs.dirs == roots + Elements(created[..k])
      {
        hide PastIsSafe, MadeInOrder, IsTree;
        k := k - 1;
        RemoveLast(k);
      }
      assert Elements(created[..0]) == {};
    }

    /**
     Undoes the transaction as far as the file tree lets it. Whatever is refused, no old file is lost; when
     nothing is refused, the files and the folders are as they were.
     */
    method Rollback()
      requires Core() && AllRecoverable(fs.files, was, staged) && NoneIsFolder()
      modifies fs
      ensures fs.Valid() && PastIsSafe() && fs.clock >= old(fs.clock)
      ensures OthersKept(fs.files, was, staged)
      ensures Granted(old(fs.clock)) ==> fs.dirs == roots && Undone(fs.files, was, staged)
    {
      hide Core;
      RollbackFiles();
      SafeAll();
      if Undone(fs.files, was, staged) {
        UndoneMeans(fs.files, was, staged);
      }
      RemoveCreated();
    }

    lemma SafeAll()
      requires Core()
      ensures Apart(staged)
    {
    }

    // -------------------------------------------------------------------------------------------
    // Staging
    // -------------------------------------------------------------------------------------------

    /** Makes a folder and the folders above it, noting each one made. A file in the way counts as made. */
    method CreateDirectoryTracked(p: Path) returns (ok: bool)
      requires Core()
      modifies fs`clock, fs`dirs, `created
      ensures Core() && fs.clock >= old(fs.clock) && old(fs.dirs) <= fs.dirs
      ensures ok ==> fs.Exists(p)
      ensures forall d :: d in fs.dirs && d !in old(fs.dirs) ==> IsPrefix(d, p)
      ensures Granted(old(fs.clock)) && NoFileOnTheWay(fs.files, p) ==> ok && p in fs.dirs
      ensures NoFileOnTheWay(fs.files, p) ==>
                ok == !RefusedBetween(fs, old(fs.clock), old(fs.clock) + Missing(old(fs.dirs), p))
      ensures ok ==> fs.clock == old(fs.clock) + Missing(old(fs.dirs), p)
      decreases |p|
    {
      hide MadeInOrder, PastIsSafe, RefusedBetween, NoFileOnTheWay, IsTree;
      WayUp(fs.files, fs.dirs, p);
      NothingRefused(fs, fs.clock);
      if p in fs.dirs {
        return true;
      }
      OneMore(fs, fs.clock, Missing(fs.dirs, Parent(p)));
      ok := CreateDirectoryTracked(Parent(p));
      if !ok {
        return false;
      }
      var r := fs.CreateDirectory(p);
      if r == Made {
        NoteMade(roots, created, p);
        created := created + [p];
        return true;
      }
      return r == AlreadyThere;
    }

    /** States that differ from a safe one only at a staging name are safe. */
    lemma StagingSafe(i: nat, m: Files, past: seq<Files>)
      requires fs.Valid() && Apart(staged) && i < |staged| && IsTree(was, roots) && MadeInOrder(roots, created)
      requires fs.dirs == roots + Elements(created)
      requires origin != [] && origin <= past <= fs.past && past[|past| - 1] == m && fs.past[|fs.past| - 1] == fs.files
      requires NothingLost(past, |origin| - 1, was, staged)
      requires forall k :: |past| <= k < |fs.past| ==> forall p :: p != staged[i].Staging() ==> Same(m, fs.past[k], p)
      ensures Core()
    {
      hide IsTree, MadeInOrder, Elements, Same;
      forall k | |past| <= k < |fs.past|
        ensures OldFilesSafe(fs.past[k], was, staged)
      {
        StagingOnly(m, fs.past[k], was, staged, i);
      }
      hide OldFilesSafe, Apart;
    }

    /** The staging file gets the new content; nothing but this file's staging name is touched. */
    method ExtractStaging(i: nat) returns (ok: bool)
      requires Core() && i < |staged|
      modifies fs
      ensures Core() && fs.dirs == old(fs.dirs) && fs.clock >= old(fs.clock)
      ensures staged[i].destination != []
      ensures forall p :: p != staged[i].Staging() ==> Same(old(fs.files), fs.files, p)
      ensures ok ==> IsStaged(fs.files, staged[i])
      ensures Granted(old(fs.clock)) && !old(fs.Exists(staged[i].Staging()))
              && Parent(staged[i].destination) in fs.dirs ==>
                ok
    {
      SafeNow(i);
      var p := staged[i].Staging();
      ghost var m, past := fs.files, fs.past;
      ok := fs.Extract(p, staged[i].content);
      StagingSafe(i, m, past);
    }

    /** How far staging has come: the first files are extracted and none of their destinations is a folder. */
    ghost predicate StagedUpTo(k: nat)
      reads this, fs
    {
      && Core() && k <= |staged| && AllRecoverable(fs.files, was, staged)
      && (forall i :: 0 <= i < |staged| ==> !staged[i].swapped)
      && (forall i :: 0 <= i < k ==>
            && staged[i].destination !in fs.dirs
            && IsStaged(fs.files, staged[i]))
    }

    /** Whether nothing was in the way when the transaction began, nor came in the way since. */
    ghost predicate Unobstructed()
      reads this, fs
    {
      Open(was, fs.dirs, staged)
    }

    method MakeWay(k: nat) returns (ok: bool)
      requires StagedUpTo(k) && k < |staged|
      modifies fs`clock, fs`dirs, `created
      ensures fs.clock >= old(fs.clock) && StagedUpTo(k)
      ensures ok ==> staged[k].destination !in fs.dirs
      ensures old(Unobstructed()) ==> Unobstructed()
      ensures Granted(old(fs.clock)) && old(Unobstructed()) ==> ok && Parent(staged[k].destination) in fs.dirs
    {
      SafeNow(k);
      var d := staged[k].destination;
      ghost var dirs := fs.dirs;
      ok := CreateDirectoryTracked(Parent(d));
      SafeNow(k);
      FoldersAbove(k);
      if Open(was, dirs, staged) {
        WayIsClear(fs.files, was, dirs, staged, k);
        OpenStays(was, dirs, fs.dirs, staged, k);
        WayIsClear(fs.files, was, fs.dirs, staged, k);
      }
      hide Open;
      ok := ok && d !in fs.dirs;
    }

    method ReplaceStaging(k: nat) returns (ok: bool)
      requires StagedUpTo(k) && k < |staged| && staged[k].destination !in fs.dirs
      modifies fs
      ensures fs.clock >= old(fs.clock) && fs.dirs == old(fs.dirs)
      ensures StagedUpTo(if ok then k + 1 else 0)
      ensures staged[k].destination != []
      ensures Granted(old(fs.clock)) && staged[k].Staging() !in fs.dirs && Parent(staged[k].destination) in fs.dirs ==>
                ok
    {
      SafeNow(k);
      ghost var m := fs.files;
      var _ := Delete(k, staged[k].Staging());
      StagingOnly(m, fs.files, was, staged, k);
      m := fs.files;
      ok := ExtractStaging(k);
      StagingOnly(m, fs.files, was, staged, k);
    }

    method StageOne(k: nat) returns (ok: bool)
      requires StagedUpTo(k) && k < |staged|
      modifies fs, `created
      ensures fs.clock >= old(fs.clock)
      ensures StagedUpTo(if ok then k + 1 else 0)
      ensures old(Unobstructed()) ==> Unobstructed()
      ensures Granted(old(fs.clock)) && old(Unobstructed()) ==> ok
    {
      ok := MakeWay(k);
      if !ok {
        StagedFewer(k);
        return;
      }
      if Unobstructed() {
        WayIsClear(fs.files, was, fs.dirs, staged, k);
      }
      ok := ReplaceStaging(k);
    }

    lemma StagedFewer(k: nat)
      requires StagedUpTo(k)
      ensures StagedUpTo(0)
    {
    }

    /** A folder above one destination is not another destination. */
    lemma FoldersAbove(k: nat)
      requires Apart(staged) && k < |staged|
      ensures forall i :: 0 <= i < |staged| ==> !IsPrefix(staged[i].destination, Parent(staged[k].destination))
    {
      forall i | 0 <= i < |staged| && IsPrefix(staged[i].destination, Parent(staged[k].destination))
        ensures false
      {
        assert IsPrefix(staged[i].destination, staged[k].destination);
      }
    }

    // -------------------------------------------------------------------------------------------
    // Committing
    // -------------------------------------------------------------------------------------------

    /** The flags record progress; nothing the transaction relies on reads them but the rollback. */
    method SetFlags(i: nat, hadOriginal: bool, swapped: bool)
      requires Core() && i < |staged|
      modifies `staged
      ensures Core() && staged == old(staged)[i := old(staged[i]).(hadOriginal := hadOriginal, swapped := swapped)]
    {
      ghost var before := staged;
      var after := staged[i := staged[i].(hadOriginal := hadOriginal, swapped := swapped)];
      SameNames(before, after);
      forall k | |origin| - 1 <= k < |fs.past|
        ensures OldFilesSafe(fs.past[k], was, after)
      {
        SameNamesSameSafety(fs.past[k], was, before, after);
      }
      hide Apart, OldFilesSafe;
      staged := after;
    }

    /** How far the commit has come. */
    ghost predicate CommittedUpTo(k: nat)
      reads this, fs
    {
      && Core() && k <= |staged| && Between(fs.files, was, fs.dirs, staged, k)
      && (forall i :: k <= i < |staged| ==> !staged[i].swapped)
    }

    /** A leftover backup goes, and the old file takes its name. */
    method MoveAside(i: nat) returns (ok: bool)
      requires Core() && i < |staged| && staged[i].destination in fs.files && !staged[i].swapped
      requires staged[i].destination != [] && Recoverable(fs.files, was, staged[i])
      modifies fs
      ensures Core() && fs.dirs == old(fs.dirs) && fs.clock >= old(fs.clock)
      ensures Recoverable(fs.files, was, staged[i].(hadOriginal := true, swapped := ok))
      ensures AgreeBut(old(fs.files), fs.files, staged[i]) && Same(old(fs.files), fs.files, staged[i].Staging())
      ensures ok ==> staged[i].destination !in fs.files
      ensures Granted(old(fs.clock)) && staged[i].Backup() !in fs.dirs ==> ok
    {
      SafeNow(i);
      hide Core;
      var s := staged[i];
      var _ := Delete(i, s.Backup());
      ok := Rename(i, s.destination, s.Backup());
    }

    /** The old file, if there is one, moves aside. */
    method SetAside(i: nat) returns (ok: bool)
      requires Core() && i < |staged| && staged[i].destination != [] && !staged[i].swapped
      requires Recoverable(fs.files, was, staged[i]) && staged[i].destination !in fs.dirs
      modifies fs, `staged
      ensures Core() && fs.dirs == old(fs.dirs) && fs.clock >= old(fs.clock)
      ensures |staged| == old(|staged|)
      ensures staged == old(staged)[i := old(staged[i]).(hadOriginal := staged[i].hadOriginal, swapped := ok)]
      ensures Recoverable(fs.files, was, staged[i]) && AgreeBut(old(fs.files), fs.files, staged[i])
      ensures IsStaged(old(fs.files), old(staged[i])) ==> IsStaged(fs.files, staged[i])
      ensures ok ==> staged[i].destination !in fs.files
      ensures Granted(old(fs.clock)) && old(staged[i]).Backup() !in fs.dirs ==> ok
    {
      SafeNow(i);
      hide Core;
      var s := staged[i];
      var had := fs.Exists(s.destination);
      if !had {
        SetFlags(i, false, true);
        return true;
      }
      SetFlags(i, true, false);
      ok := MoveAside(i);
      if ok {
        SetFlags(i, true, true);
      }
    }

    /** The old file is aside, and the new one about to take its name. */
    ghost predicate Ready(k: nat)
      reads this, fs
    {
      && Core() && k < |staged| && Between(fs.files, was, fs.dirs, staged, k)
      && (forall i :: k < i < |staged| ==> !staged[i].swapped)
      && staged[k].swapped && staged[k].destination !in fs.files
    }

    method MoveIn(k: nat) returns (ok: bool)
      requires Ready(k)
      modifies fs
      ensures fs.clock >= old(fs.clock) && fs.dirs == old(fs.dirs) && (Granted(old(fs.clock)) ==> ok)
      ensures if ok then CommittedUpTo(k + 1) else Core() && AllRecoverable(fs.files, was, staged) && NoneIsFolder()
    {
      SafeNow(k);
      RecoveredIsSafe(k);
      hide Core, AllRecoverable, Apart;
      ghost var m := fs.files;
      ok := Rename(k, staged[k].Staging(), staged[k].destination);
      SafeNow(k);
      StepKeepsOthers(m, fs.files, was, staged, staged, k);
    }

    method MakeReady(k: nat) returns (ok: bool)
      requires CommittedUpTo(k) && k < |staged|
      modifies fs, `staged
      ensures fs.clock >= old(fs.clock) && fs.dirs == old(fs.dirs) && SamePlan(staged, old(staged))
      ensures Granted(old(fs.clock)) && old(staged[k].destination != [] && staged[k].Backup() !in fs.dirs) ==> ok
      ensures if ok then Ready(k) else Core() && AllRecoverable(fs.files, was, staged) && NoneIsFolder()
    {
      SafeNow(k);
      hide Core, Between, AllRecoverable, Recoverable, Apart, IsStaged, AgreeBut, Beside, Parent, Granted;
      ghost var m, before := fs.files, staged;
      KnownRecoverable(k);
      ok := SetAside(k);
      SafeNow(k);
      BetweenStays(m, fs.files, was, fs.dirs, before, staged, k);
      BetweenMeans(k);
    }

    method CommitOne(k: nat) returns (ok: bool)
      requires CommittedUpTo(k) && k < |staged|
      modifies fs, `staged
      ensures fs.clock >= old(fs.clock) && fs.dirs == old(fs.dirs) && SamePlan(staged, old(staged))
      ensures Granted(old(fs.clock)) && old(staged[k].destination != [] && staged[k].Backup() !in fs.dirs) ==> ok
      ensures if ok then CommittedUpTo(k + 1) else Core() && AllRecoverable(fs.files, was, staged) && NoneIsFolder()
    {
      hide Core, CommittedUpTo, Ready, NoneIsFolder, AllRecoverable;
      ok := MakeReady(k);
      if ok {
        ok := MoveIn(k);
      }
    }

    lemma KnownRecoverable(k: nat)
      requires CommittedUpTo(k) && k < |staged|
      ensures staged[k].destination != [] && Recoverable(fs.files, was, staged[k]) && IsStaged(fs.files, staged[k])
      ensures staged[k].destination !in fs.dirs && Between(fs.files, was, fs.dirs, staged, k)
    {
    }

    lemma BetweenMeans(k: nat)
      requires Between(fs.files, was, fs.dirs, staged, k)
      ensures Apart(staged) && AllRecoverable(fs.files, was, staged) && NoneIsFolder()
    {
    }

    lemma RecoveredIsSafe(k: nat)
      requires Ready(k)
      ensures staged[k].destination != [] && staged[k].Staging() in fs.files
      ensures var s := staged[k];
              OldFileSafe((fs.files - {s.Staging()})[s.destination := fs.files[s.Staging()]], was, s)
    {
    }

    // -------------------------------------------------------------------------------------------
    // The transaction
    // -------------------------------------------------------------------------------------------

    /** The leftovers of earlier runs go, as far as they can be deleted, and nothing else does at any moment. */
    method CleanTemporaryFiles(found: seq<Path>)
      requires Core() && staged == [] && fs.files == was
      modifies fs, `was, `begun
      ensures Core() && fs.dirs == old(fs.dirs) && fs.clock >= old(fs.clock)
      ensures was == fs.files && Cleaned(fs.files, old(fs.files)) && old(fs.past) <= fs.past && begun == fs.clock
      ensures forall k :: |old(fs.past)| - 1 <= k < |fs.past| ==> Cleaned(fs.past[k], old(fs.files))
      // by name: exactly what is named after another file
      ensures OthersStay(old(fs.files), fs.files) && (Granted(old(fs.clock)) ==> FoundGone(fs.files, found))
    {
      hide Cleaned, OthersStay, FoundGone;
      NothingStaged();
      DeleteLeftovers(found);
      ByName(old(fs.files), fs.files, found);
      CleanedMeans(fs.files, old(fs.files));
      was, begun := fs.files, fs.clock;
    }

    method DeleteLeftovers(found: seq<Path>)
      requires fs.Valid() && fs.past != [] && fs.past[|fs.past| - 1] == fs.files
      modifies fs
      ensures fs.Valid() && fs.dirs == old(fs.dirs) && fs.clock >= old(fs.clock) && Cleaned(fs.files, old(fs.files))
      ensures old(fs.past) <= fs.past && fs.past[|fs.past| - 1] == fs.files
      ensures forall k :: |old(fs.past)| - 1 <= k < |fs.past| ==> Cleaned(fs.past[k], old(fs.files))
      ensures Granted(old(fs.clock)) ==> forall k :: 0 <= k < |found| && IsLeftover(found[k]) ==> found[k] !in fs.files
    {
      CleanedSelf(fs.files);
      var k := 0;
      while k < |found|
        invariant 0 <= k <= |found| && fs.Valid() && fs.dirs == old(fs.dirs) && fs.clock >= old(fs.clock)
        invariant old(fs.past) <= fs.past && fs.past[|fs.past| - 1] == fs.files && Cleaned(fs.files, old(fs.files))
        invariant forall j :: |old(fs.past)| - 1 <= j < |fs.past| ==> Cleaned(fs.past[j], old(fs.files))
        invariant Granted(old(fs.clock)) ==> forall j :: 0 <= j < k && IsLeftover(found[j]) ==> found[j] !in fs.files
      {
        hide Cleaned, IsTemporaryName;
        if found[k] != [] && IsTemporaryName(found[k][|found[k]| - 1]) {
          CleanedStays(fs.files, old(fs.files), found[k]);
          var _ := fs.DeleteFile(found[k]);
        }
        k := k + 1;
      }
    }

    lemma ByName(before: Files, now: Files, found: seq<Path>)
      requires Cleaned(now, before)
      ensures OthersStay(before, now)
      ensures (forall k :: 0 <= k < |found| && IsLeftover(found[k]) ==> found[k] !in now) ==> FoundGone(now, found)
    {
      forall p: Path
        ensures IsLeftover(p) <==> exists name :: NamedAfter(p, name)
      {
        LeftoverMeans(p);
      }
      hide IsLeftover, NamedAfter;
    }

    /** `from`: when the rollback began, if there was one. */
    method StageAll() returns (ok: bool, from: nat)
      requires StagedUpTo(0)
      modifies fs, `created
      ensures fs.clock >= old(fs.clock)
      ensures ok ==> StagedUpTo(|staged|)
      ensures old(Unobstructed()) ==> if ok then Unobstructed() else RefusedBetween(fs, old(fs.clock), from)
      ensures !ok ==> fs.Valid() && PastIsSafe() && OthersKept(fs.files, was, staged)
      ensures !ok ==> old(fs.clock) <= from <= fs.clock
      ensures !ok && Granted(from) ==> fs.dirs == roots && Undone(fs.files, was, staged)
    {
      from := 0;
      var k := 0;
      while k < |staged|
        invariant 0 <= k <= |staged| && StagedUpTo(k) && fs.clock >= old(fs.clock)
        invariant old(Unobstructed()) ==> Unobstructed()
      {
        hide StagedUpTo;
        ok := StageOne(k);
        if !ok {
          from := fs.clock;
          StagedIsRecoverable();
          Rollback();
          return;
        }
        k := k + 1;
      }
      ok := true;
    }

    lemma StagedIsRecoverable()
      requires StagedUpTo(0)
      ensures Core() && AllRecoverable(fs.files, was, staged) && NoneIsFolder()
    {
    }

    method CommitAll() returns (ok: bool, from: nat)
      requires CommittedUpTo(0)
      modifies fs, `staged
      ensures fs.clock >= old(fs.clock) && SamePlan(staged, old(staged))
      ensures ok ==> CommittedUpTo(|staged|)
      ensures !ok && old(NoBackupIsFolder(fs.dirs, staged)) ==> RefusedBetween(fs, old(fs.clock), from)
      ensures !ok ==> fs.Valid() && PastIsSafe() && OthersKept(fs.files, was, staged)
      ensures !ok ==> old(fs.clock) <= from <= fs.clock
      ensures !ok && Granted(from) ==> fs.dirs == roots && Undone(fs.files, was, staged)
    {
      hide *;
      ok, from := true, 0;
      SamePlanAsSelf(staged);
      var k := 0;
      while k < |staged|
        invariant 0 <= k <= |staged| && CommittedUpTo(k) && fs.clock >= old(fs.clock) && ok
        invariant SamePlan(staged, old(staged))
        invariant old(NoBackupIsFolder(fs.dirs, staged)) ==> NoBackupIsFolder(fs.dirs, staged)
      {
        ghost var before, clock := staged, fs.clock;
        ok, from := CommitOrRollBack(k);
        PlanStays(fs.dirs, old(staged), before, staged);
        Longer(old(fs.clock), clock, from);
        if !ok {
          return;
        }
        k := k + 1;
      }
    }

    lemma AllGranted(since: nat, later: nat)
      requires since <= later
      ensures Granted(since) <==> forall n :: since <= n < fs.clock ==> fs.allows(n)
      ensures Granted(since) ==> Granted(later)
    {
    }

    lemma Ungranted(since: nat)
      ensures Granted(since) || RefusedBetween(fs, since, fs.clock)
    {
    }

    lemma Longer(since: nat, later: nat, until: nat)
      requires since <= later
      ensures RefusedBetween(fs, later, until) ==> RefusedBetween(fs, since, until)
    {
    }

    method CommitOrRollBack(k: nat) returns (ok: bool, from: nat)
      requires CommittedUpTo(k) && k < |staged|
      modifies fs, `staged
      ensures fs.clock >= old(fs.clock) && SamePlan(staged, old(staged))
      ensures ok ==> CommittedUpTo(k + 1) && fs.dirs == old(fs.dirs)
      ensures !ok && old(NoBackupIsFolder(fs.dirs, staged)) ==> RefusedBetween(fs, old(fs.clock), from)
      ensures !ok ==> fs.Valid() && PastIsSafe() && OthersKept(fs.files, was, staged)
      ensures !ok ==> old(fs.clock) <= from <= fs.clock
      ensures !ok && Granted(from) ==> fs.dirs == roots && Undone(fs.files, was, staged)
    {
      KnownRecoverable(k);
      hide Core, CommittedUpTo, AllRecoverable, NoneIsFolder, PastIsSafe, Undone, SamePlan;
      ok := CommitOne(k);
      from := fs.clock;
      if !ok {
        Rollback();
      }
    }

    /** The staged list is drawn up; every old file is still where it was, and has been all along. */
    method Begin(directory: Path, entries: seq<Entry>, ghost before: Files)
      requires Core() && staged == [] && WellNamed(entries) && fs.files == was && Cleaned(was, before)
      requires forall k :: |origin| - 1 <= k < |fs.past| ==> Cleaned(fs.past[k], before)
      modifies `staged
      ensures StagedUpTo(0) && staged == Plan(directory, entries)
    {
      PlannedApart(directory, entries);
      NothingDone(was, Plan(directory, entries));
      NothingStaged();
      forall k | |origin| - 1 <= k < |fs.past|
        ensures OldFilesSafe(fs.past[k], was, Plan(directory, entries))
      {
        CleanedIsSafe(fs.past[k], was, before, directory, entries);
      }
      hide Core, StagedUpTo, PastIsSafe, Apart, AllRecoverable, OldFilesSafe, IsTree, MadeInOrder, Elements, Cleaned;
      staged := Plan(directory, entries);
      Begun();
    }

    lemma NothingStaged()
      requires Core()
      ensures fs.Valid() && IsTree(was, roots) && MadeInOrder(roots, created) && fs.dirs == roots + Elements(created)
      ensures origin != [] && origin <= fs.past && fs.past[|fs.past| - 1] == fs.files
    {
    }

    lemma Begun()
      requires fs.Valid() && IsTree(was, roots) && MadeInOrder(roots, created) && fs.dirs == roots + Elements(created)
      requires origin != [] && origin <= fs.past && fs.past[|fs.past| - 1] == fs.files == was
      requires NothingLost(fs.past, |origin| - 1, was, staged) && AllRecoverable(was, was, staged)
      requires forall i :: 0 <= i < |staged| ==> !staged[i].swapped
      ensures StagedUpTo(0)
    {
      hide Apart, AllRecoverable, OldFilesSafe, IsTree, MadeInOrder, Elements;
    }

    /** Stages and commits, or rolls back. */
    method Run() returns (outcome: Outcome)
      requires StagedUpTo(0)
      modifies fs, this
      ensures fs.Valid() && PastIsSafe() && SamePlan(staged, old(staged)) && fs.clock >= old(fs.clock)
      ensures was == old(was) && begun == old(begun)
      ensures !outcome.NoFolder?
      ensures outcome.RolledBack? ==> old(fs.clock) <= outcome.from <= fs.clock
      ensures outcome.RolledBack? && Granted(outcome.from) ==> fs.dirs == roots && Undone(fs.files, was, staged)
      ensures outcome.RolledBack? && old(Open(was, fs.dirs, staged)) ==> RefusedBetween(fs, old(fs.clock), outcome.from)
      ensures OthersKept(fs.files, was, staged)
      ensures outcome.Committed? ==> forall i :: 0 <= i < |staged| ==> InPlace(fs.files, staged[i])
    {
      hide Core, PastIsSafe, Open, Undone, OthersKept;
      var ok, from := StageAll();
      if !ok {
        return RolledBack(from);
      }
      StagedToCommit();
      ok, from := CommitAll();
      if !ok {
        return RolledBack(from);
      }
      CommittedMeans();
      return Committed;
    }

    lemma StagedToCommit()
      requires StagedUpTo(|staged|)
      ensures CommittedUpTo(0) && (Unobstructed() ==> NoBackupIsFolder(fs.dirs, staged))
    {
      forall i | 0 <= i < |staged| && Unobstructed()
        ensures staged[i].destination != [] && staged[i].Backup() !in fs.dirs
      {
        assert Touched(staged, staged[i].Backup());
      }
    }

    lemma CommittedMeans()
      requires CommittedUpTo(|staged|)
      ensures fs.Valid() && PastIsSafe() && Apart(staged) && OthersKept(fs.files, was, staged)
      ensures forall i :: 0 <= i < |staged| ==> InPlace(fs.files, staged[i])
    {
    }
  }

  lemma StillOpen(files: Files, dirs: set<Path>, was: Files, more: set<Path>, directory: Path, entries: seq<Entry>)
    requires Open(files, dirs, Plan(directory, entries)) && was.Keys <= files.Keys
    requires forall i :: 0 <= i < |entries| ==> entries[i].path != []
    requires forall d :: d in more && d !in dirs ==> IsPrefix(d, directory)
    ensures Open(was, more, Plan(directory, entries))
  {
    var staged := Plan(directory, entries);
    forall q | q in more
      ensures !Touched(staged, q)
    {
      if q !in dirs && staged != [] {
        assert IsPrefix(q, Parent(staged[0].destination)) by {
          assert staged[0].destination[..|directory|] == directory;
        }
        assert IsFolderOf(staged, q);
      }
    }
  }

  /**
   Installs the entries under the directory. At every moment since the call each old file is intact at its
   destination or at its backup, whatever the tree refuses, and files that are neither shipped nor leftovers stay
   as they are. A failure after the folder exists is undone, and exactly undone if nothing is refused from then on;
   a success puts every entry's content at its path.
   */
  method Install(fs: FileSystem, directory: Path, entries: seq<Entry>, found: seq<Path>)
    returns (outcome: Outcome, tx: Transaction)
    requires fs.Valid() && fs.past != [] && fs.past[|fs.past| - 1] == fs.files && WellNamed(entries)
    modifies fs
    ensures fresh(tx) && tx.fs == fs && tx.roots == old(fs.dirs) && fs.Valid()
    // what no refusal can spoil
    ensures old(fs.past) <= fs.past && fs.past[|fs.past| - 1] == fs.files
    ensures NothingLost(fs.past, |old(fs.past)| - 1, old(fs.files), Plan(directory, entries))
    ensures Cleaned(tx.was, old(fs.files))
    ensures outcome.NoFolder? ==> fs.files == old(fs.files)
    ensures NoFileOnTheWay(old(fs.files), directory) ==>
              outcome.NoFolder?
              == RefusedBetween(fs, old(fs.clock), old(fs.clock) + Missing(old(fs.dirs), directory))
    // the clean-up, from the start until `begun`
    ensures !outcome.NoFolder? ==> old(fs.clock) <= tx.begun <= fs.clock
    ensures !outcome.NoFolder? && (forall n :: old(fs.clock) <= n < tx.begun ==> fs.allows(n)) ==>
              NoneBeside(tx.was, found, Plan(directory, entries))
    ensures !outcome.NoFolder? ==>
              && Apart(tx.staged) && SamePlan(tx.staged, Plan(directory, entries))
              && OthersKept(fs.files, tx.was, tx.staged)
    ensures outcome.RolledBack? && tx.Granted(outcome.from) ==>
              fs.dirs == old(fs.dirs) && Undone(fs.files, tx.was, tx.staged)
    // nothing stops it but something in the way, or a refusal before the rollback
    ensures NoFileOnTheWay(old(fs.files), directory) && Open(old(fs.files), old(fs.dirs), Plan(directory, entries)) ==>
              match outcome
              case NoFolder => RefusedBetween(fs, old(fs.clock), fs.clock)
              case RolledBack(from) => RefusedBetween(fs, old(fs.clock), from)
              case Committed => true
    ensures outcome.Committed? ==> forall i :: 0 <= i < |entries| ==>
              var p := directory + entries[i].path;
              p in fs.files && fs.files[p] == entries[i].content
  {
    hide *;
    tx := new Transaction(fs);
    ghost var files, dirs := fs.files, fs.dirs;
    ghost var began := fs.clock;
    tx.NothingStaged();
    var made := tx.CreateDirectoryTracked(directory);
    tx.NothingStaged();
    tx.Ungranted(began);
    if !made {
      UntouchedIsSafe(fs.past, files, directory, entries);
      return NoFolder, tx;
    }
    ghost var cleans := fs.clock;
    tx.CleanTemporaryFiles(found);
    tx.AllGranted(began, cleans);
    if tx.Granted(began) {
      CleanedBeside(tx.was, found, Plan(directory, entries));
    }
    tx.Begin(directory, entries, files);
    CleanedMeans(tx.was, files);
    ShippedHaveNames(entries);
    if Open(files, dirs, tx.staged) {
      StillOpen(files, dirs, tx.was, fs.dirs, directory, entries);
    }
    ghost var ran := fs.clock;
    outcome := tx.Run();
    if outcome.RolledBack? {
      tx.Longer(began, ran, outcome.from);
    }
    SafeAllAlong(tx, files, directory, entries);
    if outcome.Committed? {
      PlacedMeans(fs.files, tx.staged, directory, entries);
    }
  }

  lemma ShippedHaveNames(entries: seq<Entry>)
    requires WellNamed(entries)
    ensures forall i :: 0 <= i < |entries| ==> entries[i].path != []
  {
  }

  lemma UntouchedIsSafe(past: seq<Files>, files: Files, directory: Path, entries: seq<Entry>)
    requires WellNamed(entries) && past != [] && past[|past| - 1] == files
    ensures NothingLost(past, |past| - 1, files, Plan(directory, entries)) && Cleaned(files, files)
  {
    CleanedIsSafe(files, files, files, directory, entries);
  }

  lemma PlacedMeans(m: Files, staged: seq<StagedFile>, directory: Path, entries: seq<Entry>)
    requires SamePlan(staged, Plan(directory, entries)) && forall i :: 0 <= i < |staged| ==> InPlace(m, staged[i])
    ensures forall i :: 0 <= i < |entries| ==>
              var p := directory + entries[i].path;
              p in m && m[p] == entries[i].content
  {
    forall i | 0 <= i < |entries|
      ensures var p := directory + entries[i].path; p in m && m[p] == entries[i].content
    {
      assert InPlace(m, staged[i]);
    }
  }

  lemma SafeAllAlong(tx: Transaction, before: Files, directory: Path, entries: seq<Entry>)
    requires tx.PastIsSafe() && WellNamed(entries) && Cleaned(tx.was, before)
    requires SamePlan(tx.staged, Plan(directory, entries))
    ensures Apart(tx.staged) && tx.origin <= tx.fs.past && tx.fs.past[|tx.fs.past| - 1] == tx.fs.files
    ensures NothingLost(tx.fs.past, |tx.origin| - 1, before, Plan(directory, entries))
  {
    PlannedApart(directory, entries);
    forall k | |tx.origin| - 1 <= k < |tx.fs.past|
      ensures OldFilesSafe(tx.fs.past[k], before, Plan(directory, entries))
    {
      SafeSinceBefore(tx.fs.past[k], tx.was, before, directory, entries, tx.staged);
    }
  }
}
