/** The migration checker over a linear history: what it reports, and when it reports nothing. */
module MigrationImmutability {
  import opened Sequences
  import opened Strings

  datatype Kind = Regular | SymbolicLink

  /** A file's kind and what is compared within it: its contents and mode. */
  datatype Blob = Blob(kind: Kind, data: nat)

  type Tree = map<string, Blob>

  predicate Watched(path: string) {
    (StartsWith(path, "migrations/versions/") || StartsWith(path, "migrations/postgresql_versions/"))
      && EndsWith(path, ".py")
  }

  // ---- Differences between trees, without rename detection ----

  datatype Status = Added | Modified | Deleted | TypeChanged

  datatype Entry = Entry(status: Status, path: string)

  predicate Changed(before: Tree, after: Tree, path: string) {
    (path in before || path in after) && !(path in before && path in after && before[path] == after[path])
  }

  function StatusOf(before: Tree, after: Tree, path: string): Status
    requires Changed(before, after, path)
  {
    if path !in before then Added
    else if path !in after then Deleted
    else if before[path].kind != after[path].kind then TypeChanged
    else Modified
  }

  /** A listing of the differences: every changed path once, with its status. */
  ghost predicate IsDiff(entries: seq<Entry>, before: Tree, after: Tree) {
    && (forall e :: e in entries ==> Changed(before, after, e.path) && e.status == StatusOf(before, after, e.path))
    && (forall path :: Changed(before, after, path) ==> exists e :: e in entries && e.path == path)
    && (forall i, j :: 0 <= i < j < |entries| ==> entries[i].path != entries[j].path)
  }

  /** The later tree keeps every watched file of the earlier one as it is; it may add others. */
  ghost predicate Extends(before: Tree, after: Tree) {
    forall path :: path in before && Watched(path) ==> path in after && after[path] == before[path]
  }

  method NameStatus(raw: seq<Entry>) returns (entries: seq<Entry>)
    ensures entries == Keep(raw, (e: Entry) => Watched(e.path))
  {
    entries := [];
    for i := 0 to |raw|
      invariant entries == Keep(raw[..i], (e: Entry) => Watched(e.path))
    {
      assert raw[..i + 1][..i] == raw[..i];
      if Watched(raw[i].path) {
        entries := entries + [raw[i]];
      }
    }
    assert raw[..|raw|] == raw;
  }

  function WatchedEntries(raw: seq<Entry>): seq<Entry> { Keep(raw, (e: Entry) => Watched(e.path)) }

  /** No watched entry but additions, exactly when the one tree extends the other. */
  lemma OnlyAdditions(raw: seq<Entry>, before: Tree, after: Tree)
    requires IsDiff(raw, before, after)
    ensures (forall e :: e in WatchedEntries(raw) ==> e.status.Added?) <==> Extends(before, after)
  {
    hide IsDiff, Keep;
    forall path | Watched(path) && Changed(before, after, path)
      ensures exists e :: e in WatchedEntries(raw) && e.path == path
    {
      ChangeListed(raw, before, after, path);
    }
    forall e | e in WatchedEntries(raw)
      ensures Watched(e.path) && Changed(before, after, e.path) && e.status == StatusOf(before, after, e.path)
    {
      ListedChange(raw, before, after, e);
    }
  }

  lemma ChangeListed(raw: seq<Entry>, before: Tree, after: Tree, path: string)
    requires IsDiff(raw, before, after) && Watched(path) && Changed(before, after, path)
    ensures exists e :: e in WatchedEntries(raw) && e.path == path
  {
    hide Changed, Watched;
    var e :| e in raw && e.path == path;
    assert e in WatchedEntries(raw);
  }

  lemma ListedChange(raw: seq<Entry>, before: Tree, after: Tree, e: Entry)
    requires IsDiff(raw, before, after) && e in WatchedEntries(raw)
    ensures Watched(e.path) && Changed(before, after, e.path) && e.status == StatusOf(before, after, e.path)
  {
    hide Changed, Watched;
  }

  // ---- The staged check ----

  datatype StagedViolation = StagedViolation(status: Status, path: string)

  /** What is staged of a file the head has: changed, deleted or of another type. */
  ghost predicate StagedChange(head: Tree, index: Tree, v: StagedViolation) {
    Watched(v.path) && v.path in head && Changed(head, index, v.path) && v.status == StatusOf(head, index, v.path)
  }

  lemma StagedEntry(raw: seq<Entry>, head: Tree, index: Tree, v: StagedViolation)
    requires IsDiff(raw, head, index)
    ensures StagedChange(head, index, v) <==> Entry(v.status, v.path) in WatchedEntries(raw) && !v.status.Added?
  {
    hide IsDiff, Keep;
    if StagedChange(head, index, v) {
      ChangeListed(raw, head, index, v.path);
      var e :| e in WatchedEntries(raw) && e.path == v.path;
      ListedChange(raw, head, index, e);
    } else if Entry(v.status, v.path) in WatchedEntries(raw) {
      ListedChange(raw, head, index, Entry(v.status, v.path));
    }
  }

  method CheckStaged(raw: seq<Entry>, head: Tree, index: Tree) returns (violations: seq<StagedViolation>)
    requires IsDiff(raw, head, index)
    ensures violations == [] <==> Extends(head, index)
    ensures forall v :: v in violations <==> StagedChange(head, index, v)
  {
    hide IsDiff, Extends, Keep, StagedChange, Watched;
    var entries := NameStatus(raw);
    violations := [];
    for i := 0 to |entries|
      invariant violations == [] <==> forall e :: e in entries[..i] ==> e.status.Added?
      invariant forall v :: v in violations <==> !v.status.Added? && Entry(v.status, v.path) in entries[..i]
    {
      assert entries[..i + 1] == entries[..i] + [entries[i]];
      if entries[i].status.Added? {
        continue;
      }
      violations := violations + [StagedViolation(entries[i].status, entries[i].path)];
    }
    assert entries[..|entries|] == entries;
    OnlyAdditions(raw, head, index);
    forall v
      ensures v in violations <==> StagedChange(head, index, v)
    {
      StagedEntry(raw, head, index, v);
    }
  }

  // ---- The history check ----

  /** The range's commits: each its tree and the listing of its differences from its parent. */
  datatype Commit = Commit(id: nat, tree: Tree, diff: seq<Entry>)

  function TreeBefore(base: Tree, commits: seq<Commit>, i: nat): Tree
    requires i < |commits|
  {
    if i == 0 then base else commits[i - 1].tree
  }

  ghost predicate Linear(base: Tree, commits: seq<Commit>) {
    forall i :: 0 <= i < |commits| ==> IsDiff(commits[i].diff, TreeBefore(base, commits, i), commits[i].tree)
  }

  datatype Reason = ReAdded | ModifiedCommitted | ModifiedWithoutAdd | DeletedCommitted | Unexpected

  datatype Violation = Violation(reason: Reason, path: string, commit: nat)

  /**
   What is reported of one entry.  A re-addition counts only for a file of the merge base: one that was added and
   deleted within the range has been reported as deleted.
   */
  function Verdict(base: Tree, commit: nat, e: Entry): seq<Violation> {
    match e.status
    case Added => if e.path in base then [Violation(ReAdded, e.path, commit)] else []
    case Modified => [Violation(ModifiedCommitted, e.path, commit)]
    case Deleted => [Violation(DeletedCommitted, e.path, commit)]
    case TypeChanged => [Violation(Unexpected, e.path, commit)]
  }

  function Verdicts(base: Tree, commit: nat, entries: seq<Entry>): seq<Violation> {
    if entries == [] then []
    else Verdicts(base, commit, entries[..|entries| - 1]) + Verdict(base, commit, entries[|entries| - 1])
  }

  function Report(base: Tree, commits: seq<Commit>): seq<Violation> {
    if commits == [] then []
    else
      var last := commits[|commits| - 1];
      Report(base, commits[..|commits| - 1]) + Verdicts(base, last.id, WatchedEntries(last.diff))
  }

  function WatchedPaths(t: Tree): set<string> { set path | path in t && Watched(path) }

  /** Midway through a diff: the paths whose entries are still to come are as before, the others as after. */
  ghost predicate AddedSoFar(added: set<string>, base: Tree, before: Tree, after: Tree, entries: seq<Entry>, n: nat)
    requires n <= |entries|
  {
    forall path :: path in added <==>
      Watched(path) && path !in base && (if Entered(entries, n, path) then path in after else path in before)
  }

  ghost predicate Entered(entries: seq<Entry>, n: nat, path: string)
    requires n <= |entries|
  {
    exists i :: 0 <= i < n && entries[i].path == path
  }

  /** Files added in the range are exactly those present that the merge base does not have. */
  ghost predicate AddedIs(added: set<string>, base: Tree, tree: Tree) {
    forall path :: path in added <==> Watched(path) && path !in base && path in tree
  }

  ghost predicate IsWatchedDiff(entries: seq<Entry>, before: Tree, after: Tree) {
    && (forall e :: e in entries ==>
          Watched(e.path) && Changed(before, after, e.path) && e.status == StatusOf(before, after, e.path))
    && (forall path :: Watched(path) && Changed(before, after, path) ==> Entered(entries, |entries|, path))
    && (forall i, j :: 0 <= i < j < |entries| ==> entries[i].path != entries[j].path)
  }

  lemma {:induction false} KeepPathsApart(s: seq<Entry>, f: Entry -> bool)
    requires forall i, j :: 0 <= i < j < |s| ==> s[i].path != s[j].path
    ensures forall i, j :: 0 <= i < j < |Keep(s, f)| ==> Keep(s, f)[i].path != Keep(s, f)[j].path
  {
    if s == [] {
    } else {
      var front := s[..|s| - 1];
      KeepPathsApart(front, f);
      forall x | x in Keep(front, f)
        ensures x.path != s[|s| - 1].path
      {
        var i :| 0 <= i < |front| && front[i] == x;
      }
    }
  }

  lemma WatchedDiff(raw: seq<Entry>, before: Tree, after: Tree)
    requires IsDiff(raw, before, after)
    ensures IsWatchedDiff(WatchedEntries(raw), before, after)
  {
    var entries := WatchedEntries(raw);
    KeepPathsApart(raw, (e: Entry) => Watched(e.path));
    forall path | Watched(path) && Changed(before, after, path)
      ensures Entered(entries, |entries|, path)
    {
      var e :| e in raw && e.path == path;
      assert e in entries;
      var i :| 0 <= i < |entries| && entries[i] == e;
    }
  }

  lemma AddedAtStart(added: set<string>, base: Tree, before: Tree, after: Tree, entries: seq<Entry>)
    requires AddedIs(added, base, before)
    ensures AddedSoFar(added, base, before, after, entries, 0)
  {
  }

  lemma AddedAtEnd(added: set<string>, base: Tree, before: Tree, after: Tree, entries: seq<Entry>)
    requires IsWatchedDiff(entries, before, after) && AddedSoFar(added, base, before, after, entries, |entries|)
    ensures AddedIs(added, base, after)
  {
  }

  lemma EnteredNext(entries: seq<Entry>, n: nat, path: string)
    requires n < |entries|
    ensures Entered(entries, n + 1, path) <==> Entered(entries, n, path) || path == entries[n].path
  {
    if Entered(entries, n, path) {
      var i :| 0 <= i < n && entries[i].path == path;
    }
    assert path == entries[n].path ==> entries[n].path == path;
  }

  lemma NotYetEntered(entries: seq<Entry>, n: nat)
    requires n < |entries| && forall i, j :: 0 <= i < j < |entries| ==> entries[i].path != entries[j].path
    ensures !Entered(entries, n, entries[n].path)
  {
  }

  /** What the checker knows when it meets an entry, and what it must remember after it. */
  lemma EntryMet(added: set<string>, base: Tree, before: Tree, after: Tree, entries: seq<Entry>, n: nat)
    requires n < |entries| && IsWatchedDiff(entries, before, after)
      && AddedSoFar(added, base, before, after, entries, n)
    ensures var e := entries[n];
            var known := e.path in WatchedPaths(base) || e.path in added;
            && (!e.status.Added? ==> known)
            && (e.status.Added? ==> (known <==> e.path in base))
            && AddedSoFar(if e.status.Added? && !known then added + {e.path}
                          else if e.status.Deleted? then added - {e.path}
                          else added,
                          base, before, after, entries, n + 1)
  {
    hide Watched, Entered;
    var e := entries[n];
    assert e in entries;
    NotYetEntered(entries, n);
    forall path: string
      ensures Entered(entries, n + 1, path) <==> Entered(entries, n, path) || path == e.path
    {
      EnteredNext(entries, n, path);
    }
  }

  method CheckHistory(base: Tree, commits: seq<Commit>) returns (violations: seq<Violation>)
    requires Linear(base, commits)
    ensures violations == Report(base, commits)
  {
    hide IsDiff, IsWatchedDiff, AddedIs, Keep, WatchedEntries, Verdicts;
    var protectedAtBase := WatchedPaths(base);
    var addedInRange: set<string> := {};
    violations := [];
    AddedAtBase(base);
    for c := 0 to |commits|
      invariant AddedIs(addedInRange, base, if c == 0 then base else commits[c - 1].tree)
      invariant violations == Report(base, commits[..c])
    {
      var part;
      part, addedInRange := CheckCommit(base, TreeBefore(base, commits, c), commits[c], protectedAtBase, addedInRange);
      violations := violations + part;
      assert commits[..c + 1][..c] == commits[..c];
    }
    assert commits[..|commits|] == commits;
  }

  lemma AddedAtBase(base: Tree)
    ensures AddedIs({}, base, base)
  {
  }

  /** One commit: its entries in turn, against what was protected or added before each. */
  method CheckCommit(base: Tree, before: Tree, commit: Commit, protectedAtBase: set<string>, added: set<string>)
    returns (violations: seq<Violation>, addedInRange: set<string>)
    requires protectedAtBase == WatchedPaths(base) && IsDiff(commit.diff, before, commit.tree)
      && AddedIs(added, base, before)
    ensures violations == Verdicts(base, commit.id, WatchedEntries(commit.diff))
    ensures AddedIs(addedInRange, base, commit.tree)
  {
    hide IsDiff, IsWatchedDiff, AddedIs, Keep, AddedSoFar, WatchedPaths, Verdicts;
    var entries := NameStatus(commit.diff);
    WatchedDiff(commit.diff, before, commit.tree);
    AddedAtStart(added, base, before, commit.tree, entries);
    addedInRange, violations := added, [];
    NoVerdicts(base, commit.id);
    for i := 0 to |entries|
      invariant AddedSoFar(addedInRange, base, before, commit.tree, entries, i)
      invariant violations == Verdicts(base, commit.id, entries[..i])
    {
      EntryMet(addedInRange, base, before, commit.tree, entries, i);
      NextVerdict(base, commit.id, entries, i);
      var e := entries[i];
      var known := e.path in protectedAtBase || e.path in addedInRange;
      if e.status.Added? {
        if known {
          violations := violations + [Violation(ReAdded, e.path, commit.id)];
        } else {
          addedInRange := addedInRange + {e.path};
        }
      } else if e.status.Modified? {
        violations := violations
          + [Violation(if known then ModifiedCommitted else ModifiedWithoutAdd, e.path, commit.id)];
      } else if e.status.Deleted? {
        if known {
          violations := violations + [Violation(DeletedCommitted, e.path, commit.id)];
          addedInRange := addedInRange - {e.path};
        }
      } else {
        violations := violations + [Violation(Unexpected, e.path, commit.id)];
      }
    }
    AddedAtEnd(addedInRange, base, before, commit.tree, entries);
    assert entries[..|entries|] == entries;
  }

  lemma NoVerdicts(base: Tree, commit: nat)
    ensures Verdicts(base, commit, []) == []
  {
  }

  lemma NextVerdict(base: Tree, commit: nat, entries: seq<Entry>, i: nat)
    requires i < |entries|
    ensures Verdicts(base, commit, entries[..i + 1])
      == Verdicts(base, commit, entries[..i]) + Verdict(base, commit, entries[i])
  {
    assert entries[..i + 1][..i] == entries[..i];
  }

  // ---- When nothing is reported ----

  ghost predicate Frozen(base: Tree, commits: seq<Commit>) {
    forall i :: 0 <= i < |commits| ==> Extends(TreeBefore(base, commits, i), commits[i].tree)
  }

  lemma {:induction false} VerdictsEmpty(base: Tree, commit: nat, entries: seq<Entry>)
    ensures Verdicts(base, commit, entries) == [] <==> forall e :: e in entries ==> e.status.Added? && e.path !in base
  {
    if entries == [] {
    } else {
      var front, last := entries[..|entries| - 1], entries[|entries| - 1];
      VerdictsEmpty(base, commit, front);
      assert entries == front + [last];
    }
  }

  lemma ExtendsTransitive(a: Tree, b: Tree, c: Tree)
    requires Extends(a, b) && Extends(b, c)
    ensures Extends(a, c)
  {
  }

  /** In a frozen history every tree extends every earlier one. */
  lemma {:induction false} FrozenForEver(base: Tree, commits: seq<Commit>, i: nat, j: nat)
    requires Frozen(base, commits) && i <= j < |commits|
    ensures Extends(TreeBefore(base, commits, i), commits[j].tree)
    decreases j - i
  {
    hide Extends;
    if i == j {
    } else {
      FrozenForEver(base, commits, i, j - 1);
      assert TreeBefore(base, commits, j) == commits[j - 1].tree;
      ExtendsTransitive(TreeBefore(base, commits, i), commits[j - 1].tree, commits[j].tree);
    }
  }

  /** In a history that starts frozen, a commit that only adds cannot add a file of the merge base again. */
  lemma AddsAreNew(base: Tree, before: Tree, after: Tree, raw: seq<Entry>)
    requires IsDiff(raw, before, after) && Extends(base, before)
    ensures Extends(before, after) <==> forall e :: e in WatchedEntries(raw) ==> e.status.Added? && e.path !in base
  {
    OnlyAdditions(raw, before, after);
  }

  /** The check reports nothing exactly when every commit leaves all earlier migrations as they were. */
  lemma {:induction false} CleanExactlyWhenFrozen(base: Tree, commits: seq<Commit>)
    requires Linear(base, commits)
    ensures Report(base, commits) == [] <==> Frozen(base, commits)
  {
    hide IsDiff, Extends, Verdicts, WatchedEntries;
    if commits == [] {
    } else {
      var n := |commits| - 1;
      var front, last := commits[..n], commits[n];
      LinearPrefix(base, commits);
      CleanExactlyWhenFrozen(base, front);
      FrozenPrefix(base, commits);
      if Frozen(base, front) {
        if n == 0 {
          ExtendsItself(base);
        } else {
          FrozenForEver(base, front, 0, n - 1);
        }
        AddsAreNew(base, TreeBefore(base, commits, n), last.tree, last.diff);
        VerdictsEmpty(base, last.id, WatchedEntries(last.diff));
      }
    }
  }

  lemma ExtendsItself(t: Tree)
    ensures Extends(t, t)
  {
  }

  lemma LinearPrefix(base: Tree, commits: seq<Commit>)
    requires commits != [] && Linear(base, commits)
    ensures Linear(base, commits[..|commits| - 1])
  {
    hide IsDiff;
    var front := commits[..|commits| - 1];
    forall i | 0 <= i < |front|
      ensures IsDiff(front[i].diff, TreeBefore(base, front, i), front[i].tree)
    {
      assert IsDiff(commits[i].diff, TreeBefore(base, commits, i), commits[i].tree);
    }
  }

  lemma FrozenPrefix(base: Tree, commits: seq<Commit>)
    requires commits != []
    ensures var n := |commits| - 1;
            Frozen(base, commits) <==>
              Frozen(base, commits[..n]) && Extends(TreeBefore(base, commits, n), commits[n].tree)
  {
    hide Extends;
    var front := commits[..|commits| - 1];
    if Frozen(base, commits) {
      forall i | 0 <= i < |front|
        ensures Extends(TreeBefore(base, front, i), front[i].tree)
      {
        assert Extends(TreeBefore(base, commits, i), commits[i].tree);
      }
    }
    if Frozen(base, front) && Extends(TreeBefore(base, commits, |front|), commits[|front|].tree) {
      forall i | 0 <= i < |commits|
        ensures Extends(TreeBefore(base, commits, i), commits[i].tree)
      {
        assert i < |front| ==> Extends(TreeBefore(base, front, i), front[i].tree);
      }
    }
  }

  /** Both checks over a range: each commit's staged check passed exactly when the history check passes. */
  method CheckBoth(base: Tree, commits: seq<Commit>) returns (everyCommitPassed: bool, historyPassed: bool)
    requires Linear(base, commits)
    ensures everyCommitPassed == historyPassed
    ensures historyPassed <==> Frozen(base, commits)
  {
    hide IsDiff, Extends, Report;
    everyCommitPassed := true;
    for i := 0 to |commits|
      invariant everyCommitPassed <==> forall j :: 0 <= j < i ==> Extends(TreeBefore(base, commits, j), commits[j].tree)
    {
      var staged := CheckStaged(commits[i].diff, TreeBefore(base, commits, i), commits[i].tree);
      everyCommitPassed := everyCommitPassed && staged == [];
    }
    var violations := CheckHistory(base, commits);
    historyPassed := violations == [];
    CleanExactlyWhenFrozen(base, commits);
  }

  // ---- What exactly is reported ----

  /** Watched are the Python files under either directory of migrations. */
  lemma WatchedMeans(path: string)
    ensures Watched(path) <==>
              && 3 <= |path| && path[|path| - 3..] == ".py"
              && ((20 <= |path| && path[..20] == "migrations/versions/")
                  || (31 <= |path| && path[..31] == "migrations/postgresql_versions/"))
  {
  }

  /** What one commit does to a watched file that it must not. */
  ghost predicate Tells(base: Tree, before: Tree, after: Tree, v: Violation) {
    && Watched(v.path)
    && match v.reason
       case ReAdded => v.path in base && v.path !in before && v.path in after
       case ModifiedCommitted =>
         v.path in before && v.path in after && before[v.path].kind == after[v.path].kind
         && before[v.path] != after[v.path]
       case DeletedCommitted => v.path in before && v.path !in after
       case Unexpected => v.path in before && v.path in after && before[v.path].kind != after[v.path].kind
       case ModifiedWithoutAdd => false
  }

  lemma {:induction false} VerdictsMean(base: Tree, commit: nat, entries: seq<Entry>, v: Violation)
    ensures v in Verdicts(base, commit, entries) <==> exists e :: e in entries && v in Verdict(base, commit, e)
  {
    hide Verdict;
    if entries == [] {
    } else {
      var n := |entries| - 1;
      VerdictsMean(base, commit, entries[..n], v);
      assert entries == entries[..n] + [entries[n]];
    }
  }

  lemma CommitTells(base: Tree, before: Tree, c: Commit, v: Violation)
    requires IsDiff(c.diff, before, c.tree)
    ensures v in Verdicts(base, c.id, WatchedEntries(c.diff)) <==>
              c.id == v.commit && Tells(base, before, c.tree, v)
  {
    hide IsDiff, WatchedEntries, Verdicts, Watched;
    VerdictsMean(base, c.id, WatchedEntries(c.diff), v);
    forall e | e in WatchedEntries(c.diff)
      ensures Watched(e.path) && Changed(before, c.tree, e.path) && e.status == StatusOf(before, c.tree, e.path)
    {
      ListedChange(c.diff, before, c.tree, e);
    }
    if c.id == v.commit && Tells(base, before, c.tree, v) {
      ChangeListed(c.diff, before, c.tree, v.path);
    }
  }

  ghost predicate TellsAt(base: Tree, commits: seq<Commit>, i: int, v: Violation) {
    && 0 <= i < |commits| && commits[i].id == v.commit
    && Tells(base, TreeBefore(base, commits, i), commits[i].tree, v)
  }

  lemma TellsInPrefix(base: Tree, commits: seq<Commit>, i: int, v: Violation)
    requires 0 <= i < |commits| - 1
    ensures TellsAt(base, commits[..|commits| - 1], i, v) <==> TellsAt(base, commits, i, v)
  {
    hide Tells;
  }

  /** The history check reports exactly what some commit of the range does to a file it must not touch. */
  lemma {:induction false} ReportedExactly(base: Tree, commits: seq<Commit>, v: Violation)
    requires Linear(base, commits)
    ensures v in Report(base, commits) <==> exists i :: TellsAt(base, commits, i, v)
  {
    hide IsDiff, Verdicts, WatchedEntries, Tells, TreeBefore;
    if commits == [] {
    } else {
      var n := |commits| - 1;
      LinearPrefix(base, commits);
      ReportedExactly(base, commits[..n], v);
      LastTells(base, commits, v);
      hide TellsAt;
      forall i | 0 <= i < n
        ensures TellsAt(base, commits[..n], i, v) <==> TellsAt(base, commits, i, v)
      {
        TellsInPrefix(base, commits, i, v);
      }
      PlacesTold(base, commits, v);
      PlacesTold(base, commits[..n], v);
    }
  }

  lemma PlacesTold(base: Tree, commits: seq<Commit>, v: Violation)
    ensures forall i :: TellsAt(base, commits, i, v) ==> 0 <= i < |commits|
  {
  }

  lemma LastTells(base: Tree, commits: seq<Commit>, v: Violation)
    requires commits != [] && Linear(base, commits)
    ensures var n := |commits| - 1;
            v in Verdicts(base, commits[n].id, WatchedEntries(commits[n].diff)) <==> TellsAt(base, commits, n, v)
  {
    hide IsDiff, Verdicts, WatchedEntries, Tells;
    var n := |commits| - 1;
    CommitTells(base, TreeBefore(base, commits, n), commits[n], v);
  }

  // ---- What only the commit-by-commit check sees ----

  const FILE := "migrations/versions/1.py"
  const ADDS := Commit(1, map[FILE := Blob(Regular, 1)], [Entry(Added, FILE)])
  const EDITS := Commit(2, map[FILE := Blob(Regular, 2)], [Entry(Modified, FILE)])

  /** Added by one commit and edited by the next: the range's own diff shows a single addition. */
  lemma FinalDiffHidesEdit()
    ensures Linear(map[], [ADDS, EDITS]) && Extends(map[], EDITS.tree) && !Frozen(map[], [ADDS, EDITS])
    ensures Report(map[], [ADDS, EDITS]) == [Violation(ModifiedCommitted, FILE, 2)]
  {
    var none: Tree := map[];
    var commits := [ADDS, EDITS];
    assert EndsWith(FILE, ".py") && "migrations/versions/" == FILE[..20];
    assert Watched(FILE);
    assert ADDS.diff[0] in ADDS.diff && EDITS.diff[0] in EDITS.diff;
    assert IsDiff(ADDS.diff, none, ADDS.tree) && IsDiff(EDITS.diff, ADDS.tree, EDITS.tree);
    assert TreeBefore(none, commits, 0) == none && TreeBefore(none, commits, 1) == ADDS.tree;
    assert Linear(none, commits);
    assert !Extends(TreeBefore(none, commits, 1), commits[1].tree);
    assert commits[..1] == [ADDS] && [ADDS][..0] == [];
    assert ADDS.diff[..0] == [] && EDITS.diff[..0] == [];
    assert WatchedEntries(ADDS.diff) == ADDS.diff && WatchedEntries(EDITS.diff) == EDITS.diff;
    assert Verdicts(none, 1, ADDS.diff) == [];
    assert Verdicts(none, 2, EDITS.diff) == [Violation(ModifiedCommitted, FILE, 2)];
    assert Report(none, [ADDS]) == [];
  }
}
