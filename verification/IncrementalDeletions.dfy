/**
 * Runs in which files are deleted and restored. The planner does not treat either as a change: exactly when the
 * stored results hold nevertheless, and runs in which they do not.
 */
module IncrementalDeletions {
  import opened Foundations
  import opened IncrementalScan
  import opened IncrementalRuns

  // ---------------------------------------------------------------- what the manifest keeps

  /** What is stored for `p` stems from its last scan. */
  ghost predicate RecordOfScan<V>(visits: seq<Visit>, st: ScanState<V>, scanner: (Project, string) -> V, p: string) {
    && p in st.files && p in st.scannedAt && p in st.results
    && var i := st.scannedAt[p];
       && i < |visits| && p in visits[i].project
       && st.files[p].lastScanTimestamp == visits[i].now
       && st.results[p] == scanner(visits[i].project, p)
  }

  ghost predicate RecordsInOrder<V>(visits: seq<Visit>, st: ScanState<V>, scanner: (Project, string) -> V) {
    && (visits != [] ==> Remembers(st.files, visits[|visits| - 1].project))
    && forall p :: p in st.files || p in st.scannedAt || p in st.results ==> RecordOfScan(visits, st, scanner, p)
  }

  lemma InvokeKeepsRecord<V>(visits: seq<Visit>, st: ScanState<V>, scanner: (Project, string) -> V, p: string)
    requires visits != []
    requires p in st.files || p in st.scannedAt || p in st.results ==> RecordOfScan(visits[..|visits| - 1], st, scanner, p)
    ensures var n := |visits| - 1;
            var after := Invoke(st, visits[n], n, scanner);
            p in after.files || p in after.scannedAt || p in after.results ==> RecordOfScan(visits, after, scanner, p)
  {
    var n := |visits| - 1;
    hide ScanSet, Invoke;
    InvokeOne(st, visits[n], n, scanner, p);
  }

  /** Every run, deletions included, keeps the last known hash and the last scan of every file it ever saw. */
  lemma {:induction false} RunKeepsRecords<V>(visits: seq<Visit>, scanner: (Project, string) -> V)
    ensures RecordsInOrder(visits, Run(visits, scanner), scanner)
  {
    if visits != [] {
      var n := |visits| - 1;
      RunKeepsRecords(visits[..n], scanner);
      var st := Run(visits[..n], scanner);
      hide RecordOfScan, Invoke;
      InvokeRemembers(st, visits[n], n, scanner);
      forall p | p in Run(visits, scanner).files || p in Run(visits, scanner).scannedAt || p in Run(visits, scanner).results
        ensures RecordOfScan(visits, Run(visits, scanner), scanner, p)
      {
        InvokeKeepsRecord(visits, st, scanner, p);
      }
    }
  }

  /** No file that `p` reached at visit `i` is absent from that visit on. */
  ghost predicate ClosureStaysPresent(visits: seq<Visit>, i: nat, p: string)
    requires i < |visits|
  {
    forall j :: i <= j < |visits| ==> Closure(visits[i].project, p) <= visits[j].project.Keys
  }

  /** From visit `i` on, `p` reaches no file that was absent at visit `i`. */
  ghost predicate ReachesNothingRestored(visits: seq<Visit>, i: nat, p: string)
    requires i < |visits|
  {
    forall j :: i <= j < |visits| ==> Closure(visits[j].project, p) <= visits[i].project.Keys
  }

  /** At every visit from `i` on, `p` looks as it did at visit `i`. */
  ghost predicate SeenAlikeSince(visits: seq<Visit>, i: nat, p: string)
    requires i < |visits|
  {
    forall j :: i <= j < |visits| ==> SameView(visits[i].project, visits[j].project, p)
  }

  /** A visit that does not scan `p` leaves unmodified what `p` reached at the visit before. */
  lemma SkippedCommonReach(files: map<string, FileInfo>, first: Project, before: Project, now: Project, p: string)
    requires Remembers(files, before) && SameView(first, before, p)
    requires p in now && p !in ScanSet(files, now)
    ensures CommonReachUnmodified(first, now, p)
  {
    SkippedReachesNothingChanged(files, now, p);
    forall q | q in Closure(first, p) && q in Closure(now, p)
      ensures Unmodified(first, now, q)
    {
      assert Unmodified(first, before, q);
    }
  }

  lemma SelfInClosure(c: Project, p: string)
    requires p in c
    ensures p in Closure(c, p) && SameView(c, c, p)
  {
    ReachesSelf(c, p);
  }

  lemma AlikeOnceMore(visits: seq<Visit>, files: map<string, FileInfo>, i: nat, p: string)
    requires FaithfulHashes(visits) && i < |visits| - 1
    requires ClosureStaysPresent(visits, i, p) && ReachesNothingRestored(visits, i, p)
    requires p in visits[i].project && p !in ScanSet(files, visits[|visits| - 1].project)
    requires Remembers(files, visits[|visits| - 2].project)
    requires SeenAlikeSince(visits[..|visits| - 1], i, p)
    ensures SeenAlikeSince(visits, i, p)
  {
    hide ScanSet, Closure, CommonReachUnmodified, SameView, Remembers, SameHashSameDependencies;
    var n := |visits| - 1;
    var first, before, now := visits[i].project, visits[n - 1].project, visits[n].project;
    SelfInClosure(first, p);
    assert visits[..n][n - 1] == visits[n - 1];
    assert Closure(first, p) <= now.Keys && Closure(now, p) <= first.Keys;
    SkippedCommonReach(files, first, before, now, p);
    CommonClosure(first, now, p);
    forall j | i <= j < |visits|
      ensures SameView(first, visits[j].project, p)
    {
      assert j < n ==> visits[..n][j] == visits[j];
    }
  }

  lemma ConditionsOfPrefix(visits: seq<Visit>, i: nat, p: string)
    requires i < |visits| - 1 && FaithfulHashes(visits)
    requires ClosureStaysPresent(visits, i, p) && ReachesNothingRestored(visits, i, p)
    ensures FaithfulHashes(visits[..|visits| - 1])
    ensures ClosureStaysPresent(visits[..|visits| - 1], i, p) && ReachesNothingRestored(visits[..|visits| - 1], i, p)
  {
    hide Closure, SameHashSameDependencies;
  }

  lemma {:induction false} UnscannedStaysAlike<V>(visits: seq<Visit>, scanner: (Project, string) -> V, p: string, i: nat)
    requires FaithfulHashes(visits) && i < |visits|
    requires p in Run(visits, scanner).scannedAt && Run(visits, scanner).scannedAt[p] == i
    requires ClosureStaysPresent(visits, i, p) && ReachesNothingRestored(visits, i, p)
    ensures SeenAlikeSince(visits, i, p)
  {
    hide ScanSet, Invoke, Remembers, ClosureStaysPresent, ReachesNothingRestored, FaithfulHashes;
    var n := |visits| - 1;
    RunKeepsRecords(visits, scanner);
    assert RecordOfScan(visits, Run(visits, scanner), scanner, p);
    SelfInClosure(visits[i].project, p);
    if i < n {
      var st := Run(visits[..n], scanner);
      RunKeepsRecords(visits[..n], scanner);
      InvokeOne(st, visits[n], n, scanner, p);
      ConditionsOfPrefix(visits, i, p);
      UnscannedStaysAlike(visits[..n], scanner, p, i);
      assert visits[..n][n - 1] == visits[n - 1];
      AlikeOnceMore(visits, st.files, i, p);
    }
  }

  /**
   * Exactly when a record holds through a run with deletions: since the file's last scan, no file of the closure
   * scanned then was ever absent, and the file never reached one that was absent at that scan.
   */
  lemma RecordHoldsIff<V>(visits: seq<Visit>, scanner: (Project, string) -> V, p: string)
    requires visits != [] && FaithfulHashes(visits) && p in visits[|visits| - 1].project
    ensures p in Run(visits, scanner).scannedAt && Run(visits, scanner).scannedAt[p] < |visits|
    ensures var i := Run(visits, scanner).scannedAt[p];
            SeenAlikeSince(visits, i, p) <==> ClosureStaysPresent(visits, i, p) && ReachesNothingRestored(visits, i, p)
  {
    RunKeepsRecords(visits, scanner);
    assert RecordOfScan(visits, Run(visits, scanner), scanner, p);
    var i := Run(visits, scanner).scannedAt[p];
    if SeenAlikeSince(visits, i, p) {
      forall j | i <= j < |visits|
        ensures Closure(visits[i].project, p) <= visits[j].project.Keys
        ensures Closure(visits[j].project, p) <= visits[i].project.Keys
      {
        assert SameView(visits[i].project, visits[j].project, p);
      }
    }
    if ClosureStaysPresent(visits, i, p) && ReachesNothingRestored(visits, i, p) {
      UnscannedStaysAlike(visits, scanner, p, i);
    }
  }

  /** A record that holds gives what a full scan would. */
  lemma HeldRecordIsCurrent<V(!new)>(visits: seq<Visit>, scanner: (Project, string) -> V, p: string)
    requires visits != [] && FaithfulHashes(visits) && p in visits[|visits| - 1].project && LocalScanner(scanner)
    requires p in Run(visits, scanner).scannedAt && Run(visits, scanner).scannedAt[p] < |visits|
    requires var i := Run(visits, scanner).scannedAt[p];
             ClosureStaysPresent(visits, i, p) && ReachesNothingRestored(visits, i, p)
    ensures p in Run(visits, scanner).results
    ensures Run(visits, scanner).results[p] == scanner(visits[|visits| - 1].project, p)
  {
    RunKeepsRecords(visits, scanner);
    assert RecordOfScan(visits, Run(visits, scanner), scanner, p);
    RecordHoldsIff(visits, scanner, p);
  }

  /** When and what is scanned does not depend on the scanner. */
  lemma {:induction false} PlanIgnoresScanner<V, W>(visits: seq<Visit>, a: (Project, string) -> V, b: (Project, string) -> W)
    ensures Run(visits, a).files == Run(visits, b).files && Run(visits, a).scannedAt == Run(visits, b).scannedAt
  {
    if visits != [] {
      PlanIgnoresScanner(visits[..|visits| - 1], a, b);
    }
  }

  /** The sharpest scanner that looks at a file's closure only: it tells `d` from everything that looks different. */
  ghost function Recogniser(d: Project): (Project, string) -> bool {
    (c: Project, p: string) => SameView(d, c, p)
  }

  lemma RecogniserIsLocal(d: Project)
    ensures LocalScanner(Recogniser(d))
  {
    forall a, b, p | SameView(a, b, p)
      ensures Recogniser(d)(a, p) == Recogniser(d)(b, p)
    {
      if SameView(d, a, p) {
        SameViewTransitive(d, a, b, p);
      }
      if SameView(d, b, p) {
        SameViewTransitive(d, b, a, p);
      }
    }
  }

  /** A stored result is right for every scanner exactly if the file looks now as it did at its last scan. */
  lemma ResultRightIffSeenAlike(visits: seq<Visit>, i: nat, p: string)
    requires visits != [] && p in visits[|visits| - 1].project
    requires var st := Run(visits, Recogniser(visits[|visits| - 1].project)); p in st.scannedAt && st.scannedAt[p] == i
    ensures i < |visits|
    ensures (forall scanner: (Project, string) -> bool :: LocalScanner(scanner) ==>
               && p in Run(visits, scanner).results
               && Run(visits, scanner).results[p] == scanner(visits[|visits| - 1].project, p)) <==>
            SameView(visits[i].project, visits[|visits| - 1].project, p)
  {
    var last := visits[|visits| - 1].project;
    var sharpest := Recogniser(last);
    RunKeepsRecords(visits, sharpest);
    assert RecordOfScan(visits, Run(visits, sharpest), sharpest, p);
    RecogniserIsLocal(last);
    SelfInClosure(last, p);
    forall scanner: (Project, string) -> bool | LocalScanner(scanner)
      ensures p in Run(visits, scanner).results
      ensures Run(visits, scanner).results[p] == scanner(visits[i].project, p)
    {
      RunKeepsRecords(visits, scanner);
      PlanIgnoresScanner(visits, scanner, sharpest);
      assert RecordOfScan(visits, Run(visits, scanner), scanner, p);
    }
  }

  // ---------------------------------------------------------------- runs in which a record goes stale

  lemma RunUnfolds<V>(visits: seq<Visit>, scanner: (Project, string) -> V)
    ensures visits == [] ==> Run(visits, scanner) == ScanState(map[], map[], map[])
    ensures visits != [] ==>
              var n := |visits| - 1;
              Run(visits, scanner) == Invoke(Run(visits[..n], scanner), visits[n], n, scanner)
  {
  }

  lemma NothingChangedNothingScanned(files: map<string, FileInfo>, c: Project)
    requires Remembers(files, c)
    ensures ScanSet(files, c) == {}
  {
    assert Changed(files, c) == {};
  }

  /** A deletion the planner misses: `main` names module `a`, `src/a.rs` goes away, and `main` is still skipped. */
  lemma DeletedDependencyIsMissed()
    ensures var c := map["main" := SourceFile("1", ["a"]), "src/a.rs" := SourceFile("2", [])];
            var d := map["main" := SourceFile("1", ["a"])];
            var files := UpdatedFiles(map[], c.Keys, c, 0);
            && Remembers(files, c) && SameHashSameDependencies(c, d)
            && "main" in d && "main" !in ScanSet(files, d) && !SameView(c, d, "main")
  {
    var c := map["main" := SourceFile("1", ["a"]), "src/a.rs" := SourceFile("2", [])];
    var d := map["main" := SourceFile("1", ["a"])];
    var files := UpdatedFiles(map[], c.Keys, c, 0);
    DependencyOnA(c);
    assert "src/a.rs" in Closure(c, "main");
    assert Changed(files, d) == {};
  }

  lemma DependencyOnA(c: Project)
    requires "main" in c && c["main"].dependencies == ["a"] && "src/a.rs" in c
    ensures "src/a.rs" in Closure(c, "main")
    ensures forall q :: DependsOn(c, "main", q) ==> q == "src/a.rs"
  {
    assert RelativePath("a") == "a";
    assert RsCandidate("a") == "src/a.rs";
    assert Resolve(c["main"].dependencies[0], c.Keys) == Some("src/a.rs");
    assert DependsOn(c, "main", "src/a.rs");
    ReachesSelf(c, "src/a.rs");
    ReachesPrepend(c, "main", "src/a.rs", "src/a.rs");
  }

  const MAIN: SourceFile := SourceFile("1", ["a"])

  lemma RunOfThree<V>(visits: seq<Visit>, scanner: (Project, string) -> V)
    requires |visits| == 3
    ensures Run(visits[..1], scanner) == Invoke(ScanState(map[], map[], map[]), visits[0], 0, scanner)
    ensures Run(visits[..2], scanner) == Invoke(Run(visits[..1], scanner), visits[1], 1, scanner)
    ensures Run(visits, scanner) == Invoke(Run(visits[..2], scanner), visits[2], 2, scanner)
  {
    hide Invoke;
    assert visits[..2][..1] == visits[..1] && visits[..1][..0] == [];
    RunUnfolds(visits[..1], scanner);
    RunUnfolds(visits[..2], scanner);
    RunUnfolds(visits, scanner);
    RunUnfolds<V>([], scanner);
  }

  /** A file on record as `hash` is not scanned at a visit at which nothing is changed, nor at one without it. */
  lemma UnscannedAt<V>(st: ScanState<V>, visit: Visit, index: nat, scanner: (Project, string) -> V, p: string)
    requires p in st.scannedAt && (p !in visit.project || Remembers(st.files, visit.project))
    ensures p in Invoke(st, visit, index, scanner).scannedAt
    ensures Invoke(st, visit, index, scanner).scannedAt[p] == st.scannedAt[p]
  {
    hide Invoke, Remembers;
    InvokeOne(st, visit, index, scanner, p);
    if p in visit.project {
      NothingChangedNothingScanned(st.files, visit.project);
    }
  }

  lemma ScannedAt<V>(st: ScanState<V>, visit: Visit, index: nat, scanner: (Project, string) -> V, p: string)
    requires p in visit.project && !(p in st.files && st.files[p].hash == visit.project[p].hash)
    ensures p in Invoke(st, visit, index, scanner).scannedAt && Invoke(st, visit, index, scanner).scannedAt[p] == index
  {
    hide Invoke, ScanSet;
    ScanSetIsLeast(st.files, visit.project);
    assert p in Changed(st.files, visit.project);
    InvokeOne(st, visit, index, scanner, p);
  }

  /** The hash on record after a visit: the present one, or the former one of a file that is away. */
  lemma HashAt<V>(st: ScanState<V>, visit: Visit, index: nat, scanner: (Project, string) -> V, p: string)
    requires p in visit.project || p in st.files
    ensures p in Invoke(st, visit, index, scanner).files
    ensures Invoke(st, visit, index, scanner).files[p].hash ==
            if p in visit.project then visit.project[p].hash else st.files[p].hash
  {
    hide Invoke, ScanSet;
    InvokeOne(st, visit, index, scanner, p);
  }

  /**
   * A file that goes away and comes back as it was keeps its result, though a dependency changed in the meantime and
   * nothing of its former closure is missing now.
   */
  lemma RestoredFileKeepsStaleResult<V>(scanner: (Project, string) -> V) returns (visits: seq<Visit>)
    ensures |visits| == 3 && FaithfulHashes(visits)
    ensures var c, d, st := visits[0].project, visits[2].project, Run(visits, scanner);
            && "main" in d && "main" in st.scannedAt && st.scannedAt["main"] == 0
            && Closure(c, "main") <= d.Keys && Closure(d, "main") <= c.Keys && !SameView(c, d, "main")
  {
    hide Run, Invoke, ScanSet;
    var c := map["main" := MAIN, "src/a.rs" := SourceFile("2", [])];
    var gone := map["src/a.rs" := SourceFile("3", [])];
    var d := map["main" := MAIN, "src/a.rs" := SourceFile("3", [])];
    visits := [Visit(c, 0), Visit(gone, 1), Visit(d, 2)];
    var st0: ScanState<V> := ScanState(map[], map[], map[]);
    var st1, st2 := Run(visits[..1], scanner), Run(visits[..2], scanner);
    RunOfThree(visits, scanner);
    ScannedAt(st0, visits[0], 0, scanner, "main");
    HashAt(st0, visits[0], 0, scanner, "main");
    UnscannedAt(st1, visits[1], 1, scanner, "main");
    HashAt(st1, visits[1], 1, scanner, "main");
    HashAt(st1, visits[1], 1, scanner, "src/a.rs");
    assert Remembers(st2.files, d);
    UnscannedAt(st2, visits[2], 2, scanner, "main");
    DependencyOnA(c);
  }

  /**
   * A restored `src/a.rs` takes over from `src/a/mod.rs` unnoticed, because the manifest still knows it: `main` is
   * skipped, though nothing went away since it was last scanned.
   */
  lemma RestoredFileTakesOverUnnoticed<V>(scanner: (Project, string) -> V) returns (visits: seq<Visit>)
    ensures |visits| == 3 && FaithfulHashes(visits)
    ensures var c, d, st := visits[1].project, visits[2].project, Run(visits, scanner);
            && "main" in d && "main" in st.scannedAt && st.scannedAt["main"] == 1
            && c.Keys <= d.Keys && !SameView(c, d, "main")
  {
    hide Run, Invoke, ScanSet;
    var edited := MAIN.(hash := "4");
    var first := map["main" := MAIN, "src/a.rs" := SourceFile("2", [])];
    var c := map["main" := edited, "src/a/mod.rs" := SourceFile("3", [])];
    var d := map["main" := edited, "src/a/mod.rs" := SourceFile("3", []), "src/a.rs" := SourceFile("2", [])];
    visits := [Visit(first, 0), Visit(c, 1), Visit(d, 2)];
    var st0: ScanState<V> := ScanState(map[], map[], map[]);
    var st1, st2 := Run(visits[..1], scanner), Run(visits[..2], scanner);
    RunOfThree(visits, scanner);
    HashAt(st0, visits[0], 0, scanner, "main");
    HashAt(st0, visits[0], 0, scanner, "src/a.rs");
    ScannedAt(st1, visits[1], 1, scanner, "main");
    HashAt(st1, visits[1], 1, scanner, "main");
    HashAt(st1, visits[1], 1, scanner, "src/a.rs");
    HashAt(st1, visits[1], 1, scanner, "src/a/mod.rs");
    assert Remembers(st2.files, d);
    UnscannedAt(st2, visits[2], 2, scanner, "main");
    DependencyOnA(d);
    assert "src/a.rs" !in Closure(c, "main");
  }
}
