/**
 * Whole runs of edit, plan, scan and update: a file that is skipped still has the dependency closure it was
 * last scanned with, so the accumulated results are those of a full scan.
 */
module IncrementalRuns {
  import opened Foundations
  import opened IncrementalScan

  /** Equal hashes stand for equal contents, hence for equal dependency lists. */
  ghost predicate SameHashSameDependencies(c: Project, d: Project) {
    forall p, q :: p in c && q in d && c[p].hash == d[q].hash ==> c[p].dependencies == d[q].dependencies
  }

  ghost predicate Unmodified(c: Project, d: Project, p: string) {
    p in c && p in d && c[p].hash == d[p].hash
  }

  /** What a scanner sees of `p` is the same in both projects: the same closure, every file in it unmodified. */
  ghost predicate SameView(c: Project, d: Project, p: string) {
    && p in c && p in d
    && Closure(c, p) == Closure(d, p)
    && forall q :: q in Closure(c, p) ==> Unmodified(c, d, q)
  }

  lemma SameViewTransitive(c: Project, d: Project, e: Project, p: string)
    requires SameView(c, d, p) && SameView(d, e, p)
    ensures SameView(c, e, p)
  {
    assert forall q :: q in Closure(c, p) ==> Unmodified(c, d, q) && Unmodified(d, e, q);
  }

  // ---------------------------------------------------------------- one change of the project

  /** `c` and `d` have the same edges out of every file that `p` reaches in both. */
  ghost predicate EdgesAgree(c: Project, d: Project, p: string) {
    forall r, s :: Reaches(c, p, r) && Reaches(d, p, r) ==> (DependsOn(c, r, s) <==> DependsOn(d, r, s))
  }

  lemma {:induction false} PathTransfers(c: Project, d: Project, p: string, r: string, q: string, n: nat)
    requires EdgesAgree(c, d, p)
    requires Reaches(c, p, r) && Reaches(d, p, r)
    requires ReachesIn(c, r, q, n)
    ensures Reaches(d, p, q)
    decreases n
  {
    hide DependsOn;
    if n > 0 {
      var s :| DependsOn(c, r, s) && ReachesIn(c, s, q, n - 1);
      ReachesAppend(c, p, r, s);
      ReachesAppend(d, p, r, s);
      PathTransfers(c, d, p, s, q, n - 1);
    }
  }

  lemma ClosureTransfers(c: Project, d: Project, p: string, q: string)
    requires EdgesAgree(c, d, p) && Reaches(c, p, q)
    ensures Reaches(d, p, q)
  {
    ReachesSelf(c, p);
    ReachesSelf(d, p);
    var n: nat :| ReachesIn(c, p, q, n);
    PathTransfers(c, d, p, p, q, n);
  }

  lemma ReachedIsInClosure(c: Project, p: string, q: string)
    requires p in c && Reaches(c, p, q)
    ensures q in Closure(c, p)
  {
    var n: nat :| ReachesIn(c, p, q, n);
    ReachesInProject(c, p, q, n);
  }

  /** Every file that `p` reaches in both projects is unmodified. */
  ghost predicate CommonReachUnmodified(c: Project, d: Project, p: string) {
    forall q :: q in Closure(c, p) && q in Closure(d, p) ==> Unmodified(c, d, q)
  }

  /** One edge out of a commonly reached file exists in both projects or in neither. */
  lemma EdgeTransfers(c: Project, d: Project, p: string, r: string, s: string)
    requires p in c && p in d && SameHashSameDependencies(c, d)
    requires CommonReachUnmodified(c, d, p)
    requires Closure(c, p) <= d.Keys && Closure(d, p) <= c.Keys
    requires Reaches(c, p, r) && Reaches(d, p, r)
    ensures DependsOn(c, r, s) <==> DependsOn(d, r, s)
  {
    ReachedIsInClosure(c, p, r);
    ReachedIsInClosure(d, p, r);
    assert Unmodified(c, d, r);
    var deps := c[r].dependencies;
    assert deps == d[r].dependencies;
    forall i | 0 <= i < |deps|
      ensures Resolve(deps[i], c.Keys) == Resolve(deps[i], d.Keys)
    {
      var before, after := Resolve(deps[i], c.Keys), Resolve(deps[i], d.Keys);
      if before.Some? {
        assert DependsOn(c, r, before.value);
        ReachesAppend(c, p, r, before.value);
        ReachedIsInClosure(c, p, before.value);
      }
      if after.Some? {
        assert DependsOn(d, r, after.value);
        ReachesAppend(d, p, r, after.value);
        ReachedIsInClosure(d, p, after.value);
      }
      ResolveAgrees(deps[i], c.Keys, d.Keys);
    }
  }

  /**
   * When nothing a file reaches both before and now was modified, the file is seen as before exactly if everything
   * it reached is still there and everything it reaches was there already.
   */
  lemma CommonClosure(c: Project, d: Project, p: string)
    requires p in c && p in d && SameHashSameDependencies(c, d)
    requires CommonReachUnmodified(c, d, p)
    ensures SameView(c, d, p) <==> Closure(c, p) <= d.Keys && Closure(d, p) <= c.Keys
  {
    if Closure(c, p) <= d.Keys && Closure(d, p) <= c.Keys {
      forall r, s | Reaches(c, p, r) && Reaches(d, p, r)
        ensures DependsOn(c, r, s) <==> DependsOn(d, r, s)
      {
        EdgeTransfers(c, d, p, r, s);
      }
      assert EdgesAgree(c, d, p) && EdgesAgree(d, c, p);
      forall q
        ensures q in Closure(c, p) <==> q in Closure(d, p)
      {
        if q in Closure(c, p) {
          ClosureTransfers(c, d, p, q);
          ReachedIsInClosure(d, p, q);
        }
        if q in Closure(d, p) {
          ClosureTransfers(d, c, p, q);
          ReachedIsInClosure(c, p, q);
        }
      }
    }
  }

  /**
   * When nothing a file now reaches was modified, the file is seen as before exactly when no file of its
   * previous closure was deleted. Added files, `src/x.rs` beside `src/x/mod.rs` included, do no harm.
   */
  lemma UnmodifiedClosure(c: Project, d: Project, p: string)
    requires p in c && p in d && SameHashSameDependencies(c, d)
    requires forall q :: q in Closure(d, p) ==> Unmodified(c, d, q)
    ensures SameView(c, d, p) <==> Closure(c, p) <= d.Keys
  {
    assert Closure(d, p) <= c.Keys by {
      assert forall q :: q in Closure(d, p) ==> Unmodified(c, d, q);
    }
    CommonClosure(c, d, p);
  }

  /** The manifest knows every file of project `c` by its hash; it may know files deleted earlier as well. */
  ghost predicate Remembers(files: map<string, FileInfo>, c: Project) {
    forall p :: p in c ==> p in files && files[p].hash == c[p].hash
  }

  /** After any update, whatever the manifest held before and whatever was scanned. */
  lemma UpdateRemembers(files: map<string, FileInfo>, scanned: set<string>, c: Project, now: nat)
    ensures Remembers(UpdatedFiles(files, scanned, c, now), c)
  {
  }

  lemma SkippedReachesNothingChanged(files: map<string, FileInfo>, d: Project, p: string)
    requires p in d && p !in ScanSet(files, d)
    ensures forall q :: q in Closure(d, p) ==> q in files && files[q].hash == d[q].hash
  {
    forall q | q in Closure(d, p)
      ensures q in files && files[q].hash == d[q].hash
    {
      assert q !in Changed(files, d);
    }
  }

  /**
   * Exactly when skipping is sound, in whatever state earlier deletions have left the manifest: the file was there
   * at the last update, no file of its closure then went away, and it reaches none that was away then.
   */
  lemma SkipIsSoundIff(files: map<string, FileInfo>, c: Project, d: Project, p: string)
    requires Remembers(files, c) && SameHashSameDependencies(c, d)
    requires p in d && p !in ScanSet(files, d)
    ensures SameView(c, d, p) <==> p in c && Closure(c, p) <= d.Keys && Closure(d, p) <= c.Keys
  {
    if p in c {
      SkippedReachesNothingChanged(files, d, p);
      CommonClosure(c, d, p);
    }
  }

  // ---------------------------------------------------------------- whole runs

  /** The project as one invocation of the tool finds it. */
  datatype Visit = Visit(project: Project, now: nat)

  /** The manifest's file table, which visit last scanned each file, and the result stored then. */
  datatype ScanState<V> = ScanState(files: map<string, FileInfo>, scannedAt: map<string, nat>, results: map<string, V>)

  /** One invocation: plan against the manifest, scan the planned files, update the manifest. */
  ghost function Invoke<V>(st: ScanState<V>, visit: Visit, index: nat, scanner: (Project, string) -> V): ScanState<V> {
    var scan := ScanSet(st.files, visit.project);
    ScanState(UpdatedFiles(st.files, scan, visit.project, visit.now),
              st.scannedAt + map p | p in scan :: index,
              st.results + map p | p in scan :: scanner(visit.project, p))
  }

  ghost function Run<V>(visits: seq<Visit>, scanner: (Project, string) -> V): ScanState<V> {
    if visits == [] then ScanState(map[], map[], map[])
    else
      var n := |visits| - 1;
      Invoke(Run(visits[..n], scanner), visits[n], n, scanner)
  }

  ghost predicate NoDeletions(visits: seq<Visit>) {
    forall i :: 0 < i < |visits| ==> visits[i - 1].project.Keys <= visits[i].project.Keys
  }

  ghost predicate FaithfulHashes(visits: seq<Visit>) {
    forall i, j :: 0 <= i < |visits| && 0 <= j < |visits| ==>
      SameHashSameDependencies(visits[i].project, visits[j].project)
  }

  /** The scanner's result for a file depends only on the file and its transitive dependencies. */
  ghost predicate LocalScanner<V(!new)>(scanner: (Project, string) -> V) {
    forall c, d, p :: SameView(c, d, p) ==> scanner(c, p) == scanner(d, p)
  }

  /** The last scan of `p` is recorded truthfully, and `p` looks today as it did then. */
  ghost predicate TruthfulRecord<V>(visits: seq<Visit>, st: ScanState<V>, scanner: (Project, string) -> V, p: string) {
    && visits != []
    && p in st.files && p in st.scannedAt && p in st.results
    && var i := st.scannedAt[p];
       && i < |visits|
       && st.files[p].lastScanTimestamp == visits[i].now
       && st.results[p] == scanner(visits[i].project, p)
       && SameView(visits[i].project, visits[|visits| - 1].project, p)
  }

  ghost function PresentFiles(visits: seq<Visit>): set<string> {
    if visits == [] then {} else visits[|visits| - 1].project.Keys
  }

  ghost predicate TablesMatch<V>(visits: seq<Visit>, st: ScanState<V>) {
    && st.files.Keys == st.scannedAt.Keys == st.results.Keys == PresentFiles(visits)
    && (visits != [] ==> Remembers(st.files, visits[|visits| - 1].project))
  }

  ghost predicate RunInvariant<V>(visits: seq<Visit>, st: ScanState<V>, scanner: (Project, string) -> V) {
    && TablesMatch(visits, st)
    && forall p :: p in st.files ==> TruthfulRecord(visits, st, scanner, p)
  }

  /** A file skipped by a visit is seen by it as by the visit before. */
  lemma SkippedInRun(files: map<string, FileInfo>, c: Project, d: Project, p: string)
    requires Remembers(files, c) && files.Keys == c.Keys && SameHashSameDependencies(c, d) && c.Keys <= d.Keys
    requires p in d && p !in ScanSet(files, d)
    ensures p in c && SameView(c, d, p)
  {
    SkippedReachesNothingChanged(files, d, p);
    ReachesSelf(d, p);
    assert p in Closure(d, p);
    SkipIsSoundIff(files, c, d, p);
  }

  lemma ScannedRecord<V>(visits: seq<Visit>, st: ScanState<V>, scanner: (Project, string) -> V, p: string)
    requires visits != []
    requires p in ScanSet(st.files, visits[|visits| - 1].project)
    ensures TruthfulRecord(visits, Invoke(st, visits[|visits| - 1], |visits| - 1, scanner), scanner, p)
  {
  }

  lemma SkippedRecord<V>(visits: seq<Visit>, st: ScanState<V>, scanner: (Project, string) -> V, p: string)
    requires |visits| > 1
    requires p in visits[|visits| - 1].project && p !in ScanSet(st.files, visits[|visits| - 1].project)
    requires TruthfulRecord(visits[..|visits| - 1], st, scanner, p)
    requires SameView(visits[|visits| - 2].project, visits[|visits| - 1].project, p)
    ensures TruthfulRecord(visits, Invoke(st, visits[|visits| - 1], |visits| - 1, scanner), scanner, p)
  {
    SameViewTransitive(visits[st.scannedAt[p]].project, visits[|visits| - 2].project, visits[|visits| - 1].project, p);
  }

  lemma NewFilesAreScanned(files: map<string, FileInfo>, c: Project)
    ensures c.Keys - files.Keys <= ScanSet(files, c)
  {
    ScanSetIsLeast(files, c);
    assert c.Keys - files.Keys <= Changed(files, c);
  }

  /** What one invocation does to the record of one path. */
  lemma InvokeOne<V>(st: ScanState<V>, visit: Visit, index: nat, scanner: (Project, string) -> V, p: string)
    ensures var after, scan := Invoke(st, visit, index, scanner), ScanSet(st.files, visit.project);
            && (p in after.files <==> p in st.files || p in visit.project)
            && (p in after.scannedAt <==> p in st.scannedAt || p in scan)
            && (p in after.results <==> p in st.results || p in scan)
            && (p in scan ==> p in visit.project && after.scannedAt[p] == index && after.results[p] == scanner(visit.project, p)
                              && after.files[p].lastScanTimestamp == visit.now)
            && (p !in scan && p in visit.project ==> p in st.files)
            && (p !in scan && p in st.scannedAt ==> after.scannedAt[p] == st.scannedAt[p])
            && (p !in scan && p in st.results ==> after.results[p] == st.results[p])
            && (p !in scan && p in st.files ==> after.files[p].lastScanTimestamp == st.files[p].lastScanTimestamp)
            && (p in visit.project ==> after.files[p].hash == visit.project[p].hash)
            && (p !in visit.project && p in st.files ==> after.files[p] == st.files[p])
  {
    NewFilesAreScanned(st.files, visit.project);
    assert p in ScanSet(st.files, visit.project) ==> p in visit.project;
    hide ScanSet;
  }

  lemma InvokeRemembers<V>(st: ScanState<V>, visit: Visit, index: nat, scanner: (Project, string) -> V)
    ensures Remembers(Invoke(st, visit, index, scanner).files, visit.project)
  {
    UpdateRemembers(st.files, ScanSet(st.files, visit.project), visit.project, visit.now);
  }

  lemma InvokeKeys<V>(st: ScanState<V>, visit: Visit, index: nat, scanner: (Project, string) -> V)
    requires st.files.Keys == st.scannedAt.Keys == st.results.Keys <= visit.project.Keys
    ensures var after := Invoke(st, visit, index, scanner);
            after.files.Keys == after.scannedAt.Keys == after.results.Keys == visit.project.Keys
  {
    hide Invoke, ScanSet;
    var after := Invoke(st, visit, index, scanner);
    forall p
      ensures p in after.files.Keys <==> p in visit.project.Keys
      ensures p in after.scannedAt.Keys <==> p in visit.project.Keys
      ensures p in after.results.Keys <==> p in visit.project.Keys
    {
      assert p in st.files <==> p in st.files.Keys;
      InvokeOne(st, visit, index, scanner, p);
    }
  }

  lemma InvokeKeepsTables<V>(visits: seq<Visit>, st: ScanState<V>, scanner: (Project, string) -> V)
    requires visits != [] && NoDeletions(visits)
    requires TablesMatch(visits[..|visits| - 1], st)
    ensures TablesMatch(visits, Invoke(st, visits[|visits| - 1], |visits| - 1, scanner))
  {
    hide Invoke, Remembers;
    var n := |visits| - 1;
    assert PresentFiles(visits[..n]) <= PresentFiles(visits);
    InvokeKeys(st, visits[n], n, scanner);
    InvokeRemembers(st, visits[n], n, scanner);
  }

  lemma {:induction false} RunKeepsInvariant<V>(visits: seq<Visit>, scanner: (Project, string) -> V)
    requires NoDeletions(visits) && FaithfulHashes(visits)
    ensures RunInvariant(visits, Run(visits, scanner), scanner)
  {
    if visits != [] {
      var n := |visits| - 1;
      RunKeepsInvariant(visits[..n], scanner);
      var st := Run(visits[..n], scanner);
      InvokeKeepsTables(visits, st, scanner);
      NewFilesAreScanned(st.files, visits[n].project);
      forall p | p in visits[n].project
        ensures TruthfulRecord(visits, Run(visits, scanner), scanner, p)
      {
        if p in ScanSet(st.files, visits[n].project) {
          ScannedRecord(visits, st, scanner, p);
        } else {
          assert TruthfulRecord(visits[..n], st, scanner, p);
          SkippedInRun(st.files, visits[n - 1].project, visits[n].project, p);
          SkippedRecord(visits, st, scanner, p);
        }
      }
    }
  }

  lemma TruthfulIsCurrent<V(!new)>(visits: seq<Visit>, st: ScanState<V>, scanner: (Project, string) -> V, p: string)
    requires TruthfulRecord(visits, st, scanner, p) && LocalScanner(scanner)
    ensures st.results[p] == scanner(visits[|visits| - 1].project, p)
    ensures LastScanStillValid(visits, st.files, p)
  {
  }

  /** The record of a present file is that of a visit at which the file and its closure were as they are now. */
  lemma SkippedFilesAreUnaffected<V(!new)>(visits: seq<Visit>, scanner: (Project, string) -> V, p: string)
    requires visits != [] && NoDeletions(visits) && FaithfulHashes(visits)
    requires LocalScanner(scanner) && p in visits[|visits| - 1].project
    ensures p in Run(visits, scanner).results
    ensures Run(visits, scanner).results[p] == scanner(visits[|visits| - 1].project, p)
    ensures LastScanStillValid(visits, Run(visits, scanner).files, p)
  {
    RunKeepsInvariant(visits, scanner);
    TruthfulIsCurrent(visits, Run(visits, scanner), scanner, p);
  }

  /** After any run without deletions, the stored results are those of a full scan of the present project. */
  lemma IncrementalEqualsFullScan<V(!new)>(visits: seq<Visit>, scanner: (Project, string) -> V)
    requires visits != [] && NoDeletions(visits) && FaithfulHashes(visits)
    requires LocalScanner(scanner)
    ensures Run(visits, scanner).results == FullScan(visits[|visits| - 1].project, scanner)
  {
    var results, last := Run(visits, scanner).results, visits[|visits| - 1].project;
    assert results.Keys == last.Keys by {
      RunKeepsInvariant(visits, scanner);
    }
    forall p | p in last
      ensures results[p] == scanner(last, p)
    {
      SkippedFilesAreUnaffected(visits, scanner, p);
    }
  }

  ghost function FullScan<V>(c: Project, scanner: (Project, string) -> V): map<string, V> {
    map p | p in c :: scanner(c, p)
  }

  /** The recorded scan time is that of a visit at which the file and its closure were as they are now. */
  ghost predicate LastScanStillValid(visits: seq<Visit>, files: map<string, FileInfo>, p: string) {
    && p in files
    && exists i :: 0 <= i < |visits| && files[p].lastScanTimestamp == visits[i].now
                   && SameView(visits[i].project, visits[|visits| - 1].project, p)
  }
}
