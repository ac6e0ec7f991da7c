/**
 * The incremental scan planner: which files must be scanned again, and why skipping the others is sound.
 * Hashes, paths and module paths are strings; the clock and the collected file information are parameters.
 */
module IncrementalScan {
  import opened Foundations

  /** What one pass over the project directory collects for a file. */
  datatype SourceFile = SourceFile(hash: string, dependencies: seq<string>)

  type Project = map<string, SourceFile>

  datatype FileInfo = FileInfo(hash: string, dependencies: seq<string>, lastScanTimestamp: nat)

  datatype ScanPlan = ScanPlan(filesToScan: set<string>, filesToSkip: set<string>, totalFiles: nat, estimatedFullScanSeconds: real)

  // ---------------------------------------------------------------- module paths

  /** Replaces every `::`, from the left. */
  function ColonsToSlashes(s: string): string {
    if |s| < 2 then s
    else if s[..2] == "::" then "/" + ColonsToSlashes(s[2..])
    else [s[0]] + ColonsToSlashes(s[1..])
  }

  function RelativePath(modulePath: string): string {
    ColonsToSlashes(if StartsWith(modulePath, "crate::") || StartsWith(modulePath, "super::")
                    then modulePath[7..] else modulePath)
  }

  function RsCandidate(modulePath: string): string {
    "src/" + RelativePath(modulePath) + ".rs"
  }

  function ModCandidate(modulePath: string): string {
    "src/" + RelativePath(modulePath) + "/mod.rs"
  }

  function Resolve(modulePath: string, paths: set<string>): (r: Option<string>)
    ensures r.Some? ==> r.value in paths
  {
    if RsCandidate(modulePath) in paths then Some(RsCandidate(modulePath))
    else if ModCandidate(modulePath) in paths then Some(ModCandidate(modulePath))
    else None
  }

  /** A module path resolves alike in two projects unless one of them holds a target the other lacks. */
  lemma ResolveAgrees(modulePath: string, before: set<string>, after: set<string>)
    ensures Resolve(modulePath, before) == Resolve(modulePath, after) <==>
            && (Resolve(modulePath, before).Some? ==> Resolve(modulePath, before).value in after)
            && (Resolve(modulePath, after).Some? ==> Resolve(modulePath, after).value in before)
  {
  }

  /** A new `src/x.rs` takes over from `src/x/mod.rs`; nothing else redirects a resolved module path. */
  lemma NewFileTakesOver(modulePath: string, before: set<string>, added: string)
    ensures Resolve(modulePath, before + {added}) ==
            if added == RsCandidate(modulePath) || (added == ModCandidate(modulePath) && Resolve(modulePath, before).None?)
            then Some(added) else Resolve(modulePath, before)
  {
  }

  // ---------------------------------------------------------------- what the resolver misses

  predicate StartsWithColons(s: string) {
    |s| >= 2 && s[0] == ':' && s[1] == ':'
  }

  lemma ColonsUnfold(s: string)
    requires s != ""
    ensures StartsWithColons(s) ==> ColonsToSlashes(s) == "/" + ColonsToSlashes(s[2..])
    ensures !StartsWithColons(s) ==> ColonsToSlashes(s) == [s[0]] + ColonsToSlashes(s[1..])
  {
    assert |s| >= 2 ==> s[..2] == [s[0], s[1]];
    if |s| == 1 {
      assert s[1..] == "" && s == [s[0]];
    }
  }

  lemma {:induction false} ColonsBefore(p: string, tail: string)
    requires (p == "" || p[|p| - 1] != ':') && StartsWithColons(tail)
    ensures ColonsToSlashes(p + tail) == ColonsToSlashes(p) + ColonsToSlashes(tail)
  {
    hide ColonsToSlashes;
    if p == "" {
      assert p + tail == tail;
      assert ColonsToSlashes("") == "" by {
        NoColons();
      }
    } else {
      ColonsUnfold(p);
      ColonsUnfold(p + tail);
      assert StartsWithColons(p + tail) <==> StartsWithColons(p);
      if StartsWithColons(p) {
        assert (p + tail)[2..] == p[2..] + tail;
        ColonsBefore(p[2..], tail);
        Rejoined("/", ColonsToSlashes(p[2..]), ColonsToSlashes(tail));
      } else {
        assert (p + tail)[1..] == p[1..] + tail;
        ColonsBefore(p[1..], tail);
        Rejoined([p[0]], ColonsToSlashes(p[1..]), ColonsToSlashes(tail));
      }
    }
  }

  lemma NoColons()
    ensures ColonsToSlashes("") == ""
  {
  }

  lemma Rejoined(s: string, t: string, u: string)
    ensures s + (t + u) == (s + t) + u
  {
  }

  lemma ColonsBetween(p: string, item: string)
    requires p != "" && p[|p| - 1] != ':'
    ensures ColonsToSlashes(p + "::" + item) == ColonsToSlashes(p) + "/" + ColonsToSlashes(item)
  {
    var tail := "::" + item;
    hide ColonsToSlashes;
    assert tail[2..] == item;
    assert p + "::" + item == p + tail;
    ColonsBefore(p, tail);
    ColonsUnfold(tail);
    Rejoined(ColonsToSlashes(p), "/", ColonsToSlashes(item));
  }

  /** A module path that has more than a root, and ends in a name. */
  predicate NamesModule(p: string) {
    p != "" && p[|p| - 1] != ':' && p != "crate" && p != "super"
  }

  lemma RootSurvives(p: string, item: string, root: string)
    requires NamesModule(p) && root in {"crate::", "super::"}
    ensures StartsWith(p + "::" + item, root) <==> StartsWith(p, root)
  {
    var whole := p + "::" + item;
    if |p| >= 7 {
      assert whole[..7] == p[..7];
    } else {
      ShortPath(p, whole, root);
    }
  }

  lemma ShortPath(p: string, whole: string, root: string)
    requires NamesModule(p) && root in {"crate::", "super::"} && |p| < 7
    requires |whole| > |p| && whole[..|p|] == p && whole[|p|] == ':'
    ensures !StartsWith(whole, root)
  {
    if |p| == 5 {
      assert "crate::"[..5] == "crate" && "super::"[..5] == "super";
      assert |whole| >= 7 ==> whole[..7][..5] == p;
    } else if |p| == 6 {
      assert whole[..6][5] == p[5];
      assert |whole| >= 7 ==> whole[..7][5] == p[5];
    } else {
      assert |whole| >= 7 ==> whole[..7][|p|] == ':' != root[|p|];
    }
  }

  lemma ItemPath(p: string, item: string)
    requires NamesModule(p)
    ensures RelativePath(p + "::" + item) == RelativePath(p) + "/" + ColonsToSlashes(item)
  {
    hide ColonsToSlashes, StartsWith;
    var whole := p + "::" + item;
    RootSurvives(p, item, "crate::");
    RootSurvives(p, item, "super::");
    if StartsWith(p, "crate::") || StartsWith(p, "super::") {
      RootLength(p);
      assert whole[7..] == p[7..] + "::" + item;
      ColonsBetween(p[7..], item);
    } else {
      ColonsBetween(p, item);
    }
  }

  lemma RootLength(p: string)
    requires NamesModule(p) && (StartsWith(p, "crate::") || StartsWith(p, "super::"))
    ensures |p| > 7 && p[7..] != "" && p[7..][|p[7..]| - 1] != ':'
  {
    assert p[..7][6] == ':';
  }

  /**
   * A path to an item of a module resolves only to a file or directory of the item's own name: that the module itself
   * resolves plays no part.
   */
  lemma ItemResolvesIff(p: string, item: string, paths: set<string>)
    requires NamesModule(p)
    ensures Resolve(p + "::" + item, paths).Some? <==>
            || "src/" + (RelativePath(p) + "/" + ColonsToSlashes(item)) + ".rs" in paths
            || "src/" + (RelativePath(p) + "/" + ColonsToSlashes(item)) + "/mod.rs" in paths
  {
    hide RelativePath;
    ItemPath(p, item);
  }

  /** `super` is taken for `crate`, whatever file the path stands in. */
  lemma SuperMeansCrate(path: string, paths: set<string>)
    ensures Resolve("super::" + path, paths) == Resolve("crate::" + path, paths)
  {
    assert ("super::" + path)[..7] == "super::" && ("crate::" + path)[..7] == "crate::";
    assert ("super::" + path)[7..] == path && ("crate::" + path)[7..] == path;
  }

  // ---------------------------------------------------------------- the dependency graph

  ghost predicate DependsOnUpTo(c: Project, p: string, q: string, n: nat)
    requires p in c && n <= |c[p].dependencies|
  {
    exists i :: 0 <= i < n && Resolve(c[p].dependencies[i], c.Keys) == Some(q)
  }

  /** File `p` names a module that resolves to file `q`. */
  ghost predicate DependsOn(c: Project, p: string, q: string) {
    p in c && DependsOnUpTo(c, p, q, |c[p].dependencies|)
  }

  ghost predicate ReachesIn(c: Project, p: string, q: string, n: nat)
    decreases n
  {
    if n == 0 then p == q
    else exists r :: DependsOn(c, p, r) && ReachesIn(c, r, q, n - 1)
  }

  ghost predicate Reaches(c: Project, p: string, q: string) {
    exists n: nat :: ReachesIn(c, p, q, n)
  }

  /** A file together with all its transitive dependencies. */
  ghost function Closure(c: Project, p: string): set<string> {
    set q | q in c.Keys && Reaches(c, p, q)
  }

  lemma ReachesSelf(c: Project, p: string)
    ensures Reaches(c, p, p)
  {
    assert ReachesIn(c, p, p, 0);
  }

  lemma ReachesPrepend(c: Project, p: string, r: string, q: string)
    requires DependsOn(c, p, r) && Reaches(c, r, q)
    ensures Reaches(c, p, q)
  {
    var n: nat :| ReachesIn(c, r, q, n);
    assert ReachesIn(c, p, q, n + 1);
  }

  lemma {:induction false} ReachesInAppend(c: Project, p: string, r: string, q: string, n: nat)
    requires ReachesIn(c, p, r, n) && DependsOn(c, r, q)
    ensures ReachesIn(c, p, q, n + 1)
    decreases n
  {
    if n == 0 {
      assert ReachesIn(c, q, q, 0);
    } else {
      var s :| DependsOn(c, p, s) && ReachesIn(c, s, r, n - 1);
      ReachesInAppend(c, s, r, q, n - 1);
    }
  }

  lemma ReachesAppend(c: Project, p: string, r: string, q: string)
    requires Reaches(c, p, r) && DependsOn(c, r, q)
    ensures Reaches(c, p, q)
  {
    var n: nat :| ReachesIn(c, p, r, n);
    ReachesInAppend(c, p, r, q, n);
  }

  lemma {:induction false} ReachesInProject(c: Project, p: string, q: string, n: nat)
    requires p in c && ReachesIn(c, p, q, n)
    ensures q in c
    decreases n
  {
    if n > 0 {
      var r :| DependsOn(c, p, r) && ReachesIn(c, r, q, n - 1);
      ReachesInProject(c, r, q, n - 1);
    }
  }

  // ---------------------------------------------------------------- the set to scan

  /** New files and files whose hash differs from the manifest's. Deleted files are not among them. */
  ghost function Changed(files: map<string, FileInfo>, c: Project): set<string> {
    set p | p in c.Keys && !(p in files && files[p].hash == c[p].hash)
  }

  /** The files from which a changed file can be reached along dependencies. */
  ghost function ScanSet(files: map<string, FileInfo>, c: Project): set<string> {
    set p | p in c.Keys && exists q :: q in Changed(files, c) && Reaches(c, p, q)
  }

  ghost predicate ClosedUnderDependents(c: Project, s: set<string>) {
    forall p, q :: q in s && DependsOn(c, p, q) ==> p in s
  }

  lemma {:induction false} ClosedAbsorbs(c: Project, s: set<string>, p: string, q: string, n: nat)
    requires ClosedUnderDependents(c, s) && q in s && ReachesIn(c, p, q, n)
    ensures p in s
    decreases n
  {
    if n > 0 {
      var r :| DependsOn(c, p, r) && ReachesIn(c, r, q, n - 1);
      ClosedAbsorbs(c, s, r, q, n - 1);
    }
  }

  /** The scan set is the least set that holds the changed files and, with a file, everything depending on it. */
  lemma ScanSetIsLeast(files: map<string, FileInfo>, c: Project)
    ensures Changed(files, c) <= ScanSet(files, c)
    ensures ClosedUnderDependents(c, ScanSet(files, c))
    ensures forall s :: Changed(files, c) <= s && ClosedUnderDependents(c, s) ==> ScanSet(files, c) <= s
  {
    forall p | p in Changed(files, c)
      ensures p in ScanSet(files, c)
    {
      ReachesSelf(c, p);
    }
    forall p, q | q in ScanSet(files, c) && DependsOn(c, p, q)
      ensures p in ScanSet(files, c)
    {
      var r :| r in Changed(files, c) && Reaches(c, q, r);
      ReachesPrepend(c, p, q, r);
    }
    forall s, p | Changed(files, c) <= s && ClosedUnderDependents(c, s) && p in ScanSet(files, c)
      ensures p in s
    {
      var q :| q in Changed(files, c) && Reaches(c, p, q);
      var n: nat :| ReachesIn(c, p, q, n);
      ClosedAbsorbs(c, s, p, q, n);
    }
  }

  ghost function UpdatedEntry(files: map<string, FileInfo>, scanned: set<string>, c: Project, now: nat, p: string): FileInfo
    requires p in c
  {
    FileInfo(c[p].hash, c[p].dependencies, if p !in scanned && p in files then files[p].lastScanTimestamp else now)
  }

  /** The manifest's file table after a scan of `scanned`: entries of files no longer present stay as they were. */
  ghost function UpdatedFiles(files: map<string, FileInfo>, scanned: set<string>, c: Project, now: nat): map<string, FileInfo> {
    files + map p | p in c :: UpdatedEntry(files, scanned, c, now, p)
  }

  /** Updating one more file inserts exactly its entry. */
  lemma UpdatedFilesInsert(files: map<string, FileInfo>, scanned: set<string>, c: Project, now: nat,
                           todo: set<string>, p: string)
    requires todo <= c.Keys && p in todo
    ensures p in UpdatedFiles(files, scanned, c - todo, now) <==> p in files
    ensures p in files ==> UpdatedFiles(files, scanned, c - todo, now)[p] == files[p]
    ensures UpdatedFiles(files, scanned, c - (todo - {p}), now) ==
            UpdatedFiles(files, scanned, c - todo, now)[p := UpdatedEntry(files, scanned, c, now, p)]
  {
  }

  /** Hash and dependencies are those of now; the scan time is new for scanned and new files; absent files stay as they were. */
  lemma UpdatedMeans(files: map<string, FileInfo>, scanned: set<string>, c: Project, now: nat)
    ensures var after := UpdatedFiles(files, scanned, c, now);
            && after.Keys == files.Keys + c.Keys
            && (forall p :: p in c ==>
                  && after[p].hash == c[p].hash && after[p].dependencies == c[p].dependencies
                  && after[p].lastScanTimestamp == if p in scanned || p !in files then now else files[p].lastScanTimestamp)
            && forall p :: p in after && p !in c ==> after[p] == files[p]
  {
  }

  lemma NothingUpdated(files: map<string, FileInfo>, scanned: set<string>, c: Project, now: nat)
    ensures UpdatedFiles(files, scanned, c - c.Keys, now) == files
    ensures c - {} == c
  {
  }

  /** Planning again right after an update finds nothing to do, whatever was scanned. */
  lemma ReplanScansNothing(files: map<string, FileInfo>, scanned: set<string>, c: Project, now: nat)
    ensures ScanSet(UpdatedFiles(files, scanned, c, now), c) == {}
  {
    assert Changed(UpdatedFiles(files, scanned, c, now), c) == {};
  }

  /** Every marked file whose dependents are not all marked is still queued. */
  ghost predicate Frontier(c: Project, marked: set<string>, queue: seq<string>) {
    forall p, q :: q in marked && q !in queue && DependsOn(c, p, q) ==> p in marked
  }

  /** Handling the head of the queue keeps the frontier, and either marks a new file or shortens the queue. */
  lemma FrontierStep(c: Project, marked: set<string>, queue: seq<string>, dependents: set<string>, newlyMarked: seq<string>)
    requires queue != [] && Elements(queue) <= marked && Frontier(c, marked, queue)
    requires forall p :: p in dependents <==> DependsOn(c, p, queue[0])
    requires forall p :: p in newlyMarked <==> p in dependents && p !in marked
    ensures Frontier(c, marked + Elements(newlyMarked), queue[1..] + newlyMarked)
    ensures Elements(queue[1..] + newlyMarked) <= marked + Elements(newlyMarked)
    ensures if newlyMarked == [] then marked + Elements(newlyMarked) == marked && |queue[1..] + newlyMarked| < |queue|
            else c.Keys - (marked + Elements(newlyMarked)) < c.Keys - marked
  {
    assert queue == [queue[0]] + queue[1..];
    if newlyMarked != [] {
      assert newlyMarked[0] in newlyMarked;
      assert newlyMarked[0] in (c.Keys - marked) - (c.Keys - (marked + Elements(newlyMarked)));
    }
  }

  lemma FrontierStart(c: Project, marked: set<string>, queue: seq<string>)
    requires forall p :: p in queue <==> p in marked
    ensures Elements(queue) <= marked && Frontier(c, marked, queue)
  {
  }

  lemma FrontierDone(c: Project, marked: set<string>)
    ensures Frontier(c, marked, []) <==> ClosedUnderDependents(c, marked)
  {
  }

  lemma HeadIsMarked(queue: seq<string>, marked: set<string>)
    requires queue != [] && Elements(queue) <= marked
    ensures queue[0] in marked
  {
    assert queue[0] in Elements(queue);
  }

  lemma NewMarksInside(dependents: set<string>, newlyMarked: seq<string>, goal: set<string>)
    requires dependents <= goal && forall p :: p in newlyMarked ==> p in dependents
    ensures Elements(newlyMarked) <= goal
  {
  }

  /** What depends on a member of a closed set is a member. */
  lemma DependentsStayInside(c: Project, s: set<string>, dependents: set<string>, q: string)
    requires ClosedUnderDependents(c, s) && q in s
    requires forall p :: p in dependents <==> DependsOn(c, p, q)
    ensures dependents <= s
  {
  }

  /** A file that imports an item of `src/a.rs` is skipped when that file changes. */
  lemma ItemImportIsMissed()
    ensures var c := map["main" := SourceFile("1", ["crate::a::B"]), "src/a.rs" := SourceFile("2", [])];
            var d := map["main" := SourceFile("1", ["crate::a::B"]), "src/a.rs" := SourceFile("3", [])];
            && Resolve("crate::a", d.Keys) == Some("src/a.rs") && Resolve("crate::a::B", d.Keys) == None
            && ScanSet(UpdatedFiles(map[], c.Keys, c, 0), d) == {"src/a.rs"}
  {
    var c := map["main" := SourceFile("1", ["crate::a::B"]), "src/a.rs" := SourceFile("2", [])];
    var d := map["main" := SourceFile("1", ["crate::a::B"]), "src/a.rs" := SourceFile("3", [])];
    var files := UpdatedFiles(map[], c.Keys, c, 0);
    ItemOfA(d.Keys);
    assert Changed(files, d) == {"src/a.rs"};
    assert ClosedUnderDependents(d, {"src/a.rs"}) by {
      assert forall p, q :: !DependsOn(d, p, q);
    }
    ScanSetIsLeast(files, d);
  }

  lemma ItemOfA(paths: set<string>)
    requires paths == {"main", "src/a.rs"}
    ensures Resolve("crate::a", paths) == Some("src/a.rs") && Resolve("crate::a::B", paths) == None
  {
    assert "crate::a"[..7] == "crate::" && "crate::a"[7..] == "a";
    assert RelativePath("crate::a") == "a" && RsCandidate("crate::a") == "src/a.rs";
    assert "crate::a::B" == "crate::a" + "::" + "B";
    ItemPath("crate::a", "B");
    assert RelativePath("crate::a::B") == "a/B";
    assert RsCandidate("crate::a::B") == "src/a/B.rs" && ModCandidate("crate::a::B") == "src/a/B/mod.rs";
  }

  // ---------------------------------------------------------------- the estimate

  /** The last scan's milliseconds for each of the files known then, or five seconds a file. */
  function EstimatedSeconds(previousMs: nat, previousFiles: nat, files: nat): real {
    if previousMs > 0 && previousFiles > 0 then previousMs as real / previousFiles as real * files as real / 1000.0
    else files as real * 5.0
  }

  /**
   * For as many files as at the last update the estimated full scan takes just as long as the last scan did, however
   * few files that scanned; without a record it grows by five seconds a file.
   */
  lemma EstimateIsLastDuration(previousMs: nat, files: nat)
    ensures previousMs > 0 && files > 0 ==> EstimatedSeconds(previousMs, files, files) == previousMs as real / 1000.0
    ensures EstimatedSeconds(0, files, files + 1) == EstimatedSeconds(0, files, files) + 5.0
    ensures EstimatedSeconds(0, files, 0) == 0.0
  {
    if files > 0 {
      var perFile := previousMs as real / files as real;
      assert perFile * files as real == previousMs as real;
    }
  }

  /** The estimate grows in proportion to the files: so many files take so many times what one takes. */
  lemma EstimateIsProportional(previousMs: nat, previousFiles: nat, files: nat)
    ensures EstimatedSeconds(previousMs, previousFiles, files) == files as real * EstimatedSeconds(previousMs, previousFiles, 1)
    ensures previousMs > 0 && previousFiles > 0 ==>
              EstimatedSeconds(previousMs, previousFiles, files) * (previousFiles as real * 1000.0) == previousMs as real * files as real
  {
    if previousMs > 0 && previousFiles > 0 {
      var perFile := previousMs as real / previousFiles as real;
      Scaled(perFile, previousFiles as real, files as real);
      assert perFile * previousFiles as real == previousMs as real;
    }
  }

  lemma Scaled(perFile: real, previous: real, files: real)
    ensures (perFile * files / 1000.0) * (previous * 1000.0) == (perFile * previous) * files
    ensures perFile * files / 1000.0 == files * (perFile / 1000.0)
  {
    var x := perFile * files;
    assert x / 1000.0 * (previous * 1000.0) == x * previous;
  }

  // ---------------------------------------------------------------- the manifest

  class ScanManifest {
    var lastScanTimestamp: nat
    var totalFiles: nat
    var previousScanDurationMs: nat
    var files: map<string, FileInfo>

    constructor (now: nat)
      ensures lastScanTimestamp == now && totalFiles == 0 && previousScanDurationMs == 0 && files == map[]
    {
      lastScanTimestamp, totalFiles, previousScanDurationMs := now, 0, 0;
      files := map[];
    }

    method Update(scannedFiles: set<string>, allFileInfo: Project, scanDurationMs: nat, now: nat)
      modifies this
      ensures lastScanTimestamp == now
      ensures previousScanDurationMs == scanDurationMs
      ensures totalFiles == |allFileInfo|
      ensures files == UpdatedFiles(old(files), scannedFiles, allFileInfo, now)
      ensures files.Keys == old(files).Keys + allFileInfo.Keys
      ensures forall p :: p in allFileInfo ==>
                && files[p].hash == allFileInfo[p].hash && files[p].dependencies == allFileInfo[p].dependencies
                && files[p].lastScanTimestamp ==
                   if p in scannedFiles || p !in old(files) then now else old(files)[p].lastScanTimestamp
      ensures forall p :: p in files && p !in allFileInfo ==> files[p] == old(files)[p]
    {
      lastScanTimestamp := now;
      previousScanDurationMs := scanDurationMs;
      totalFiles := |allFileInfo|;
      ghost var before := files;
      var todo := allFileInfo.Keys;
      NothingUpdated(files, scannedFiles, allFileInfo, now);
      UpdatedMeans(files, scannedFiles, allFileInfo, now);
      hide UpdatedFiles;
      while todo != {}
        invariant todo <= allFileInfo.Keys
        invariant lastScanTimestamp == now && previousScanDurationMs == scanDurationMs && totalFiles == |allFileInfo|
        invariant files == UpdatedFiles(before, scannedFiles, allFileInfo - todo, now)
        decreases todo
      {
        var path :| path in todo;
        var wasScanned := path in scannedFiles;
        var stamp := if wasScanned then now
                     else if path in files then files[path].lastScanTimestamp
                     else now;
        UpdatedFilesInsert(before, scannedFiles, allFileInfo, now, todo, path);
        files := files[path := FileInfo(allFileInfo[path].hash, allFileInfo[path].dependencies, stamp)];
        todo := todo - {path};
      }
    }

    /** The inverse dependency graph: for each file, the files that depend on it. */
    static method InvertDependencies(c: Project) returns (dependentsOf: map<string, set<string>>)
      ensures forall p, q :: q in dependentsOf && p in dependentsOf[q] <==> DependsOn(c, p, q)
    {
      dependentsOf := map[];
      var todo := c.Keys;
      while todo != {}
        invariant todo <= c.Keys
        invariant forall p, q :: q in dependentsOf && p in dependentsOf[q] <==> p !in todo && DependsOn(c, p, q)
        decreases todo
      {
        var path :| path in todo;
        var deps := c[path].dependencies;
        for i := 0 to |deps|
          invariant forall p, q :: q in dependentsOf && p in dependentsOf[q] <==>
            if p == path then DependsOnUpTo(c, path, q, i) else p !in todo && DependsOn(c, p, q)
        {
          var target := Resolve(deps[i], c.Keys);
          if target.Some? {
            var known := if target.value in dependentsOf then dependentsOf[target.value] else {};
            dependentsOf := dependentsOf[target.value := known + {path}];
          }
        }
        todo := todo - {path};
      }
    }

    method ComputeAffectedFiles(current: Project) returns (plan: ScanPlan)
      ensures plan.filesToScan == ScanSet(files, current)
      ensures plan.filesToSkip == current.Keys - plan.filesToScan
      ensures plan.totalFiles == |current|
      ensures plan.estimatedFullScanSeconds == EstimatedSeconds(previousScanDurationMs, totalFiles, |current|)
    {
      var directlyChanged := {};
      var todo := current.Keys;
      while todo != {}
        invariant todo <= current.Keys
        invariant directlyChanged == Changed(files, current) - todo
        decreases todo
      {
        var path :| path in todo;
        if !(path in files && files[path].hash == current[path].hash) {
          directlyChanged := directlyChanged + {path};
        }
        todo := todo - {path};
      }
      var dependentsOf := InvertDependencies(current);
      var filesToScan := Propagate(current, directlyChanged, dependentsOf);
      plan := ScanPlan(filesToScan, set p | p in current.Keys && p !in filesToScan, |current|,
                       EstimatedSeconds(previousScanDurationMs, totalFiles, |current|));
    }

    /** The worklist: every dependent of a file to scan is itself marked and queued once. */
    method Propagate(current: Project, directlyChanged: set<string>, dependentsOf: map<string, set<string>>)
      returns (filesToScan: set<string>)
      requires directlyChanged == Changed(files, current)
      requires forall p, q :: q in dependentsOf && p in dependentsOf[q] <==> DependsOn(current, p, q)
      ensures filesToScan == ScanSet(files, current)
    {
      ghost var goal := ScanSet(files, current);
      ScanSetIsLeast(files, current);
      filesToScan := directlyChanged;
      var queue := SetToSeq(directlyChanged);
      FrontierStart(current, filesToScan, queue);
      hide Frontier, ScanSet, Changed, ClosedUnderDependents, DependsOn, Elements;
      while queue != []
        invariant directlyChanged <= filesToScan <= goal
        invariant Elements(queue) <= filesToScan
        invariant Frontier(current, filesToScan, queue)
        decreases current.Keys - filesToScan, |queue|
      {
        var changedFile := queue[0];
        HeadIsMarked(queue, filesToScan);
        var dependents := if changedFile in dependentsOf then dependentsOf[changedFile] else {};
        assert forall p :: p in dependents <==> DependsOn(current, p, changedFile);
        var newlyMarked := MarkDependents(dependents, filesToScan);
        FrontierStep(current, filesToScan, queue, dependents, newlyMarked);
        DependentsStayInside(current, goal, dependents, changedFile);
        NewMarksInside(dependents, newlyMarked, goal);
        filesToScan, queue := filesToScan + Elements(newlyMarked), queue[1..] + newlyMarked;
      }
      FrontierDone(current, filesToScan);
    }

    /** The dependents not marked before, each once, in the order the hash set yields them. */
    static method MarkDependents(dependents: set<string>, marked: set<string>) returns (newlyMarked: seq<string>)
      ensures forall p :: p in newlyMarked <==> p in dependents && p !in marked
      ensures NoDuplicates(newlyMarked)
    {
      newlyMarked := [];
      var left := dependents;
      while left != {}
        invariant left <= dependents
        invariant forall p :: p in newlyMarked <==> p in dependents && p !in left && p !in marked
        invariant NoDuplicates(newlyMarked)
        decreases left
      {
        var dependent :| dependent in left;
        if dependent !in marked {
          newlyMarked := newlyMarked + [dependent];
        }
        left := left - {dependent};
      }
    }
  }

  /** The elements of a hash set in the unspecified order of its iterator. */
  method SetToSeq(s: set<string>) returns (xs: seq<string>)
    ensures forall x :: x in xs <==> x in s
  {
    xs := [];
    var left := s;
    while left != {}
      invariant forall x :: x in s <==> x in left || x in xs
      decreases left
    {
      var x :| x in left;
      xs := xs + [x];
      left := left - {x};
    }
  }
}
