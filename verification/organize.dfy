/**
 The apply phase, `organize_files`: create one subdirectory per table row, then
 rename every match, in scan order, stopping at the first call the file system
 rejects. The file system is replaced by the list of calls issued and a predicate
 saying which calls it rejects.
 */
module Organize {
  import opened Wrappers
  import opened Paths
  import opened Categories
  import opened Scan
  import opened Filtering

  /** A file-system call: `create_dir_all(path)` or `rename(from, to)`. */
  datatype Action = CreateDirAll(path: Path) | Rename(from: Path, to: Path)

  /** How the destination of a move is built. */
  datatype DestinationRule =
    | AsWritten       // `<subdirectory>/<file name>`, without the organized directory
    | UnderDirectory  // `<directory>/<subdirectory>/<file name>`, inside the created subdirectory

  /**
   The path of a category's subdirectory under `dir`, as the create loop builds it:
   one level below `dir`, named by the category.
   */
  function SubdirPath(dir: Path, s: Subdirectory): (r: Path)
    ensures dir < r && |r| == |dir| + 1
    ensures ToStr(r[|dir|]).Some? && FromName(ToStr(r[|dir|]).value) == Some(s)
  {
    NameRoundTrip(s);
    ToStrFromStr(Name(s));
    Join(dir, FromStr(Name(s)))
  }

  /**
   Where a file named `fileName` that matched `s` is renamed to: as written, a
   two-component relative path that ignores `dir`; as intended, the file name inside
   the subdirectory the create loop makes for `s`.
   */
  function Destination(rule: DestinationRule, dir: Path, s: Subdirectory, fileName: OsString): (r: Path)
    ensures |r| > 0 && r[|r| - 1] == fileName
    ensures rule.AsWritten? ==> |r| == 2 && r[0] == FromStr(Name(s))
    ensures rule.UnderDirectory? ==> r[..|r| - 1] == SubdirPath(dir, s) && dir < r
  {
    match rule
    case AsWritten => Join([FromStr(Name(s))], fileName)
    case UnderDirectory => Join(SubdirPath(dir, s), fileName)
  }

  /** One `create_dir_all` per table row, in row order, each for a path directly below `dir`. */
  function CreateActions(dir: Path, t: Table): (r: seq<Action>)
    ensures |r| == |t|
    ensures forall i :: 0 <= i < |r| ==> r[i].CreateDirAll? && dir < r[i].path && |r[i].path| == |dir| + 1
  {
    seq(|t|, i requires 0 <= i < |t| => CreateDirAll(SubdirPath(dir, t[i].subdirectory)))
  }

  /**
   The rename of one match: from `directory/<name>` to the destination of the name,
   or none when the entry's path has no file name (`continue`).
   */
  function RenameOf(rule: DestinationRule, dir: Path, m: FileMatch): (r: Option<Action>)
    ensures r.Some? <==> m.entry.name != DotDot
    ensures r.Some? ==> r.value.Rename? && r.value.from == Join(dir, m.entry.name)
    ensures r.Some? ==> r.value.to == Destination(rule, dir, m.subdirectory, m.entry.name)
  {
    match FileName(m.entry.name)
    case None => None
    case Some(n) => Some(Rename(Join(dir, m.entry.name), Destination(rule, dir, m.subdirectory, n)))
  }

  /** The outcome of the rename loop's body for every match, position by position. */
  function RenameAll(rule: DestinationRule, dir: Path, ms: seq<FileMatch>): seq<Option<Action>>
  {
    seq(|ms|, k requires 0 <= k < |ms| => RenameOf(rule, dir, ms[k]))
  }

  /** The renames of the matches, in scan order. */
  function RenameActions(rule: DestinationRule, dir: Path, ms: seq<FileMatch>): seq<Action>
  {
    Somes(RenameAll(rule, dir, ms))
  }

  /**
   Every call `organize_files` would issue if none failed, in issue order: the
   creates, then at most one rename per match.
   */
  function Plan(rule: DestinationRule, dir: Path, t: Table, ms: seq<FileMatch>): (r: seq<Action>)
    ensures |t| <= |r| <= |t| + |ms|
    ensures r[..|t|] == CreateActions(dir, t)
    ensures forall j :: |t| <= j < |r| ==> r[j].Rename?
  {
    RenamesComeFromMatches(rule, dir, ms);
    CreateActions(dir, t) + RenameActions(rule, dir, ms)
  }

  /** What a run did: the calls that succeeded, and the call that failed, if one did. */
  datatype Report = Report(done: seq<Action>, failed: Option<Action>)

  /** The position of the first call at or after `k` that the file system rejects. */
  function FirstRejected(plan: seq<Action>, rejects: Action -> bool, k: nat): (r: Option<nat>)
    requires k <= |plan|
    requires forall x :: 0 <= x < k ==> !rejects(plan[x])
    ensures r.None? ==> forall x :: 0 <= x < |plan| ==> !rejects(plan[x])
    ensures r.Some? ==> r.value < |plan| && rejects(plan[r.value])
    ensures r.Some? ==> forall x :: 0 <= x < r.value ==> !rejects(plan[x])
    decreases |plan| - k
  {
    if k == |plan| then None
    else if rejects(plan[k]) then Some(k)
    else FirstRejected(plan, rejects, k + 1)
  }

  /**
   Issue the calls of `plan` in order and stop at the first one the file system
   rejects (the `?` operator): the calls done are the longest prefix of accepted
   calls, and the failing call, if any, is the next one.
   */
  function Run(plan: seq<Action>, rejects: Action -> bool): (r: Report)
    ensures r.done <= plan
    ensures forall x :: 0 <= x < |r.done| ==> !rejects(r.done[x])
    ensures r.failed.None? ==> r.done == plan
    ensures r.failed.Some? ==> |r.done| < |plan| && r.failed.value == plan[|r.done|] && rejects(r.failed.value)
  {
    match FirstRejected(plan, rejects, 0)
    case None => Report(plan, None)
    case Some(k) => Report(plan[..k], Some(plan[k]))
  }

  /** `organize_files` on the matches `ms` of directory `dir` under table `t`. */
  function OrganizeFiles(rule: DestinationRule, dir: Path, t: Table, ms: seq<FileMatch>,
                         rejects: Action -> bool): (r: Report)
    ensures r.done <= Plan(rule, dir, t, ms)
    ensures forall x :: 0 <= x < |r.done| ==> !rejects(r.done[x])
    ensures r.failed.None? ==> r.done == Plan(rule, dir, t, ms)
    ensures r.failed.Some? ==>
      |r.done| < |Plan(rule, dir, t, ms)| && rejects(r.failed.value) && r.failed.value == Plan(rule, dir, t, ms)[|r.done|]
  {
    Run(Plan(rule, dir, t, ms), rejects)
  }

  /**
   `organize_files` as written: the create loop, returning at its first failure,
   then the rename loop.
   */
  method OrganizeFilesLoop(rule: DestinationRule, dir: Path, t: Table, ms: seq<FileMatch>,
                           rejects: Action -> bool) returns (r: Report)
    ensures r == OrganizeFiles(rule, dir, t, ms, rejects)
  {
    var created := RunEach(CreateActions(dir, t), rejects);
    RunAppend(CreateActions(dir, t), RenameActions(rule, dir, ms), rejects);
    if created.failed.Some? {
      return created;
    }
    var moved := RunPresent(RenameAll(rule, dir, ms), rejects);
    return Report(created.done + moved.done, moved.failed);
  }

  /**
   The create loop's control flow: issue each call in order and return at the
   first one the file system rejects.
   */
  method RunEach(plan: seq<Action>, rejects: Action -> bool) returns (r: Report)
    ensures r == Run(plan, rejects)
  {
    var done: seq<Action> := [];
    var i := 0;
    while i < |plan|
      invariant 0 <= i <= |plan|
      invariant done == plan[..i]
      invariant forall x :: 0 <= x < i ==> !rejects(plan[x])
    {
      if rejects(plan[i]) {
        FirstRejectedIs(plan, rejects, i);
        return Report(done, Some(plan[i]));
      }
      done := done + [plan[i]];
      i := i + 1;
    }
    AllAccepted(plan, rejects);
    return Report(done, None);
  }

  /**
   The rename loop's control flow: skip the positions without a call (`continue`),
   issue the others in order, and return at the first one the file system rejects.
   */
  method RunPresent(os: seq<Option<Action>>, rejects: Action -> bool) returns (r: Report)
    ensures r == Run(Somes(os), rejects)
  {
    ghost var plan := Somes(os);
    var done: seq<Action> := [];
    var k := 0;
    while k < |os|
      invariant 0 <= k <= |os|
      invariant done == Somes(os[..k])
      invariant forall x :: 0 <= x < |done| ==> !rejects(done[x])
    {
      SomesStep(os, k);
      if os[k].Some? {
        var a := os[k].value;
        if rejects(a) {
          SomesOfPrefix(os, k + 1);
          RejectedAfter(plan, done, a, rejects);
          return Report(done, Some(a));
        }
        done := done + [a];
      }
      k := k + 1;
    }
    assert os[..k] == os;
    AllAccepted(plan, rejects);
    return Report(done, None);
  }

  /** A run stops at a rejected call that follows only accepted ones. */
  lemma RejectedAfter(plan: seq<Action>, done: seq<Action>, a: Action, rejects: Action -> bool)
    requires done + [a] <= plan && rejects(a)
    requires forall x :: 0 <= x < |done| ==> !rejects(done[x])
    ensures Run(plan, rejects) == Report(done, Some(a))
  {
    assert plan[|done|] == a;
    assert plan[..|done|] == done;
    FirstRejectedIs(plan, rejects, |done|);
  }

  /**
   Running two plans back to back is running their concatenation: the second plan
   starts only when every call of the first succeeded.
   */
  lemma RunAppend(p: seq<Action>, q: seq<Action>, rejects: Action -> bool)
    ensures Run(p, rejects).failed.Some? ==> Run(p + q, rejects) == Run(p, rejects)
    ensures Run(p, rejects).failed.None? ==>
      Run(p + q, rejects) == Report(p + Run(q, rejects).done, Run(q, rejects).failed)
  {
    var pq := p + q;
    var rp := Run(p, rejects);
    var r := Run(pq, rejects);
    if rp.failed.Some? {
      var k := |rp.done|;
      assert pq[..k] == rp.done;
      FirstRejectedIs(pq, rejects, k);
    } else {
      var rq := Run(q, rejects);
      var k := |p| + |rq.done|;
      if rq.failed.Some? {
        assert pq[..k] == p + rq.done;
        FirstRejectedIs(pq, rejects, k);
      } else {
        assert forall x :: 0 <= x < |pq| ==> !rejects(pq[x]) by {
          forall x | 0 <= x < |pq|
            ensures !rejects(pq[x])
          {
            if x >= |p| {
              assert pq[x] == q[x - |p|];
            }
          }
        }
      }
    }
  }

  /** A plan whose every call is accepted runs to completion. */
  lemma AllAccepted(plan: seq<Action>, rejects: Action -> bool)
    requires forall x :: 0 <= x < |plan| ==> !rejects(plan[x])
    ensures Run(plan, rejects) == Report(plan, None)
  {
  }

  /** A rejected call after only accepted ones is where the run stops. */
  lemma FirstRejectedIs(plan: seq<Action>, rejects: Action -> bool, k: nat)
    requires k < |plan| && rejects(plan[k])
    requires forall x :: 0 <= x < k ==> !rejects(plan[x])
    ensures Run(plan, rejects) == Report(plan[..k], Some(plan[k]))
  {
  }

  /**
   Every call the rename loop issues is a rename of a match, and there is at most one
   per match: the k-th rename is the rename of the match at the k-th position of the
   strictly increasing `SomeIndices(RenameAll(rule, dir, ms))`.
   */
  lemma RenamesComeFromMatches(rule: DestinationRule, dir: Path, ms: seq<FileMatch>)
    ensures |RenameActions(rule, dir, ms)| <= |ms|
    ensures forall a :: a in RenameActions(rule, dir, ms) ==>
              exists m :: m in ms && RenameOf(rule, dir, m) == Some(a)
    ensures |RenameActions(rule, dir, ms)| == |SomeIndices(RenameAll(rule, dir, ms))|
    ensures forall k :: 0 <= k < |RenameActions(rule, dir, ms)| ==>
              RenameOf(rule, dir, ms[SomeIndices(RenameAll(rule, dir, ms))[k]]) == Some(RenameActions(rule, dir, ms)[k])
  {
    var os := RenameAll(rule, dir, ms);
    SomesAtIndices(os);
    forall a | a in RenameActions(rule, dir, ms)
      ensures exists m :: m in ms && RenameOf(rule, dir, m) == Some(a)
    {
      SomesMembership(os, a);
      var k :| 0 <= k < |os| && os[k] == Some(a);
      assert ms[k] in ms;
    }
  }

  /**
   When no matched name is `..`, the rename loop issues exactly one rename per match,
   in scan order, from `directory/<name>` to the match's destination.
   */
  lemma RenamesFollowScanOrder(rule: DestinationRule, dir: Path, ms: seq<FileMatch>)
    requires forall k :: 0 <= k < |ms| ==> ms[k].entry.name != DotDot
    ensures |RenameActions(rule, dir, ms)| == |ms|
    ensures forall k :: 0 <= k < |ms| ==> RenameOf(rule, dir, ms[k]) == Some(RenameActions(rule, dir, ms)[k])
  {
    var os := RenameAll(rule, dir, ms);
    assert forall k :: 0 <= k < |os| ==> os[k] == RenameOf(rule, dir, ms[k]);
    SomesAllPresent(os);
  }

  /**
   The plan creates one subdirectory per table row, each under `dir` and in row
   order, whatever matched; every later call is a rename. The first and last
   ensures restate `Plan`'s own contract; the middle two spell out its create prefix.
   */
  lemma CreatesPrecedeRenames(rule: DestinationRule, dir: Path, t: Table, ms: seq<FileMatch>)
    ensures |t| <= |Plan(rule, dir, t, ms)|
    ensures forall i :: 0 <= i < |t| ==>
              Plan(rule, dir, t, ms)[i] == CreateDirAll(SubdirPath(dir, t[i].subdirectory))
    ensures forall i :: 0 <= i < |t| ==> dir <= Plan(rule, dir, t, ms)[i].path
    ensures forall j :: |t| <= j < |Plan(rule, dir, t, ms)| ==> Plan(rule, dir, t, ms)[j].Rename?
  {
    var plan := Plan(rule, dir, t, ms);
    RenamesComeFromMatches(rule, dir, ms);
    forall j | |t| <= j < |plan|
      ensures plan[j].Rename?
    {
      assert plan[j] in RenameActions(rule, dir, ms);
    }
  }

  /**
   Fail-fast: when a `create_dir_all` fails no file has been moved, and when a rename
   fails every subdirectory was created first and the renames before it stay done.
   */
  lemma FailFastOrdering(rule: DestinationRule, dir: Path, t: Table, ms: seq<FileMatch>,
                         rejects: Action -> bool)
    ensures var r := OrganizeFiles(rule, dir, t, ms, rejects);
      r.failed.Some? && r.failed.value.CreateDirAll? ==>
        |r.done| < |t| && forall x :: 0 <= x < |r.done| ==> r.done[x].CreateDirAll?
    ensures var r := OrganizeFiles(rule, dir, t, ms, rejects);
      r.failed.Some? && r.failed.value.Rename? ==>
        |t| <= |r.done| && r.done[..|t|] == CreateActions(dir, t) &&
        r.done[|t|..] < RenameActions(rule, dir, ms)
    ensures var r := OrganizeFiles(rule, dir, t, ms, rejects);
      r.failed.None? ==> r.done == Plan(rule, dir, t, ms)
  {
    var plan := Plan(rule, dir, t, ms);
    var r := OrganizeFiles(rule, dir, t, ms, rejects);
    CreatesPrecedeRenames(rule, dir, t, ms);
    if r.failed.Some? {
      assert plan[|r.done|] == r.failed.value;
      assert r.done == plan[..|r.done|];
      if r.failed.value.Rename? {
        assert plan[..|t|] == CreateActions(dir, t);
      }
    }
  }

  /** A scanned match never has the file name `..`, so every match is renamed. */
  lemma ScannedNamesHaveFileNames(t: Table, items: seq<EntryRead>)
    ensures forall k :: 0 <= k < |Matches(t, items)| ==> Matches(t, items)[k].entry.name != DotDot
  {
    var ms := Matches(t, items);
    forall k | 0 <= k < |ms|
      ensures ms[k].entry.name != DotDot
    {
      MatchesSoundAndComplete(t, items, ms[k]);
      var i :| 0 <= i < |items| && MatchItem(t, items[i]) == Some(ms[k]);
      assert Extension(DotDot).None?;
    }
  }

  /** No two entries of a listing share a name, as in any directory. */
  predicate DistinctNames(items: seq<EntryRead>)
  {
    forall j, k :: 0 <= j < k < |items| && items[j].Read? && items[k].Read? ==>
      items[j].entry.name != items[k].entry.name
  }

  /** Every rename of a scan's plan moves a kept entry of the listing. */
  lemma RenameSourceIsKept(rule: DestinationRule, dir: Path, t: Table, items: seq<EntryRead>, a: Action)
    requires a in RenameActions(rule, dir, Matches(t, items))
    ensures exists j :: 0 <= j < |items| && items[j].Read? && MatchEntry(t, items[j].entry).Some? &&
                        a.Rename? && a.from == Join(dir, items[j].entry.name)
  {
    var ms := Matches(t, items);
    RenamesComeFromMatches(rule, dir, ms);
    var m :| m in ms && RenameOf(rule, dir, m) == Some(a);
    MatchesSoundAndComplete(t, items, m);
    var j :| 0 <= j < |items| && MatchItem(t, items[j]) == Some(m);
    assert items[j].Read? && items[j].entry == m.entry;
  }

  /**
   An entry the scan does not keep (not a regular file, no UTF-8 extension, or an
   extension no row lists) is never the source of a rename.
   */
  lemma UnmatchedNeverMoved(rule: DestinationRule, dir: Path, t: Table, items: seq<EntryRead>, i: nat)
    requires DistinctNames(items)
    requires i < |items| && items[i].Read? && MatchEntry(t, items[i].entry).None?
    ensures forall a :: a in Plan(rule, dir, t, Matches(t, items)) && a.Rename? ==>
              a.from != Join(dir, items[i].entry.name)
  {
    var ms := Matches(t, items);
    RenamesComeFromMatches(rule, dir, ms);
    forall a | a in Plan(rule, dir, t, ms) && a.Rename?
      ensures a.from != Join(dir, items[i].entry.name)
    {
      assert a in RenameActions(rule, dir, ms);
      RenameSourceIsKept(rule, dir, t, items, a);
      var j :| 0 <= j < |items| && items[j].Read? && MatchEntry(t, items[j].entry).Some? &&
               a.Rename? && a.from == Join(dir, items[j].entry.name);
      assert j != i;
      if a.from == Join(dir, items[i].entry.name) {
        JoinInjective(dir, items[j].entry.name, items[i].entry.name);
      }
    }
  }

  /** The rename at position `j` of `plan` puts `name` directly inside a directory the plan created earlier. */
  predicate LandsInCreatedDir(plan: seq<Action>, j: nat, name: OsString)
  {
    j < |plan| && plan[j].Rename? &&
    exists i :: 0 <= i < j && plan[i].CreateDirAll? && plan[j].to == Join(plan[i].path, name)
  }

  /**
   With the destination joined under the organized directory, every match's rename
   lands inside the subdirectory created for it earlier, and stays within `dir`.
   */
  lemma UnderDirectoryLandsInCreatedDir(dir: Path, t: Table, ms: seq<FileMatch>, k: nat)
    requires Covers(t)
    requires forall j :: 0 <= j < |ms| ==> ms[j].entry.name != DotDot
    requires k < |ms|
    ensures LandsInCreatedDir(Plan(UnderDirectory, dir, t, ms), |t| + k, ms[k].entry.name)
    ensures dir <= Plan(UnderDirectory, dir, t, ms)[|t| + k].to
  {
    var m := ms[k];
    var i := RowOf(t, m.subdirectory);
    RenamesFollowScanOrder(UnderDirectory, dir, ms);
    PlanParts(UnderDirectory, dir, t, ms, i, k);
  }

  /** A row of a covering table for category `s`. */
  lemma RowOf(t: Table, s: Subdirectory) returns (i: nat)
    requires Covers(t)
    ensures i < |t| && t[i].subdirectory == s
  {
    assert s in RowSubdirectories(t);
    i :| 0 <= i < |t| && t[i].subdirectory == s;
  }

  /** Position `i < |t|` of a plan is row `i`'s create and position `|t| + k` the `k`-th rename. */
  lemma PlanParts(rule: DestinationRule, dir: Path, t: Table, ms: seq<FileMatch>, i: nat, k: nat)
    requires i < |t| && k < |RenameActions(rule, dir, ms)|
    ensures Plan(rule, dir, t, ms)[i] == CreateDirAll(SubdirPath(dir, t[i].subdirectory))
    ensures Plan(rule, dir, t, ms)[|t| + k] == RenameActions(rule, dir, ms)[k]
  {
  }

  /**
   As written, the destination ignores the organized directory: organizing `/data`
   holding the music file `a.mp3` renames `/data/a.mp3` to `Music/a.mp3`, relative
   to the working directory, which is outside `/data` and in none of the
   subdirectories just created.
   */
  lemma AsWrittenEscapesDirectory()
    ensures var dir := [FromStr("/"), FromStr("data")];
      var e := DirEntry(FromStr("a.mp3"), true);
      var ms := [FileMatch(Music, e)];
      var plan := Plan(AsWritten, dir, DirFileMapTable, ms);
      && |plan| == 7
      && plan[6] == Rename(Join(dir, e.name), [FromStr("Music"), e.name])
      && !LandsInCreatedDir(plan, 6, e.name)
      && !(dir <= plan[6].to)
  {
    var dir := [FromStr("/"), FromStr("data")];
    var e := DirEntry(FromStr("a.mp3"), true);
    var ms := [FileMatch(Music, e)];
    var plan := Plan(AsWritten, dir, DirFileMapTable, ms);
    RenamesFollowScanOrder(AsWritten, dir, ms);
    CreatesPrecedeRenames(AsWritten, dir, DirFileMapTable, ms);
    assert plan[6] == RenameOf(AsWritten, dir, ms[0]).value;
    assert |plan[6].to| == 2;
    assert plan[6].to[0] != dir[0] by {
      assert |FromStr("Music")| != |FromStr("/")|;
    }
  }
}
