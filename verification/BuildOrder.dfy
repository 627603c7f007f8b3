/** What `require` guarantees: order, closure and termination of the builds it starts. */
module BuildOrder {
  import opened PackageRepo
  import opened PackageGraph

  /** A file that is in the repository at the start or may be built. */
  ghost predicate Known(w: World, files: set<Deb>, f: Deb) {
    f in files || exists i :: 0 <= i < |w.groups| && f in w.groups[i].products
  }

  /** Looking up a declared package lists no file of another one. */
  ghost predicate Exact(w: World, files: set<Deb>) {
    forall p, f :: Declared(w, p) && Known(w, files, f) && Listed(p, f) ==> f.id == p
  }

  ghost predicate ValidLog(w: World, log: seq<nat>) {
    forall k :: 0 <= k < |log| ==> log[k] < |w.groups|
  }

  ghost function LogIds(w: World, log: seq<nat>): set<PkgId>
    requires ValidLog(w, log)
  {
    if log == [] then {} else LogIds(w, log[..|log| - 1]) + GroupIds(w.groups[log[|log| - 1]])
  }

  /** Whenever a group was built, everything its prerequisites reach was in the repository. */
  ghost predicate Topological(w: World, files: set<Deb>, log: seq<nat>)
    requires ValidLog(w, log)
  {
    forall k, p, q :: 0 <= k < |log| && p in w.groups[log[k]].prereqs && Reaches(w, p, q) ==>
      q in Ids(files) + LogIds(w, log[..k])
  }

  /** The trace accounts for the repository, over a run that starts with `files` in it. */
  ghost predicate Inv(w: World, files: set<Deb>, st: Progress) {
    && ValidLog(w, st.log)
    && (forall f :: f in st.repo.files ==> Known(w, files, f))
    && Ids(st.repo.files) == Ids(files) + LogIds(w, st.log)
  }

  ghost predicate Reached(w: World, ps: seq<PkgId>, q: PkgId) {
    exists p :: p in ps && Reaches(w, p, q)
  }

  ghost predicate Within(w: World, ps: seq<PkgId>, ps': seq<PkgId>) {
    forall q :: Reached(w, ps, q) ==> Reached(w, ps', q)
  }

  /** There is a reason to build group `k`: it declares one of `asked`, or what `ps` reach and `s` lacks. */
  ghost predicate Due(w: World, s: State, ps: seq<PkgId>, asked: set<PkgId>, k: nat) {
    exists q :: Declares(w, k, q) && (q in asked || (Reached(w, ps, q) && q !in Ids(s.files)))
  }

  /** Every group built from the one trace to the other was due. */
  ghost predicate AllDue(w: World, s: State, ps: seq<PkgId>, asked: set<PkgId>, log: seq<nat>, log': seq<nat>) {
    log <= log' && forall k :: |log| <= k < |log'| ==> Due(w, s, ps, asked, log'[k])
  }

  /** The package itself, if it is asked for whether or not it is there. */
  function Asked(p: PkgId, asked: bool): set<PkgId> {
    if asked then {p} else {}
  }

  /** A step that required `ps` built only groups that were due. */
  ghost predicate Kept(w: World, files: set<Deb>, st: Progress, ps: seq<PkgId>, asked: set<PkgId>,
                       r: Outcome, st': Progress) {
    && Inv(w, files, st')
    && AllDue(w, st.repo, ps, asked, st.log, st'.log)
    && (r.BuildFailed? ==> r.group in w.broken && Due(w, st.repo, ps, asked, r.group))
  }

  /** All that `p` reaches is declared, and no prerequisite chain from `p` is as long as the recursion limit. */
  ghost predicate CanFinish(w: World, p: PkgId, depth: nat) {
    FullyDeclared(w, p) && !Deep(w, p, depth)
  }

  ghost predicate AllFinish(w: World, ps: seq<PkgId>, depth: nat) {
    forall p :: p in ps ==> CanFinish(w, p, depth)
  }

  /** The prerequisites of the groups from `i` on that declare `p` can all be required. */
  ghost predicate PrereqsFinish(w: World, p: PkgId, i: nat, depth: nat) {
    forall g :: i <= g < |w.groups| && Declares(w, g, p) ==> AllFinish(w, w.groups[g].prereqs, depth)
  }

  ghost predicate ClosureIn(w: World, s: State, p: PkgId) {
    forall q :: Reaches(w, p, q) ==> q in Ids(s.files)
  }

  ghost predicate AllIn(w: World, s: State, ps: seq<PkgId>) {
    forall p :: p in ps ==> ClosureIn(w, s, p)
  }

  /** All that the groups from `i` on that declare `p` require is present. */
  ghost predicate PrereqsIn(w: World, s: State, p: PkgId, i: nat) {
    forall g :: i <= g < |w.groups| && Declares(w, g, p) ==> AllIn(w, s, w.groups[g].prereqs)
  }

  /** The groups from `i` on that declare `p` were all built. */
  ghost predicate BuiltFrom(w: World, p: PkgId, i: nat, log: seq<nat>, log': seq<nat>) {
    log <= log' && forall g :: i <= g < |w.groups| && Declares(w, g, p) ==> g in log'[|log|..]
  }

  lemma {:induction false} LogIdsGrow(w: World, log: seq<nat>, log': seq<nat>)
    requires ValidLog(w, log') && log <= log'
    ensures ValidLog(w, log) && LogIds(w, log) <= LogIds(w, log')
    decreases |log'|
  {
    if log != log' {
      LogIdsGrow(w, log, log'[..|log'| - 1]);
    }
  }

  lemma {:induction false} LoggedIds(w: World, log: seq<nat>, g: nat)
    requires ValidLog(w, log) && g in log
    ensures g < |w.groups| && GroupIds(w.groups[g]) <= LogIds(w, log)
  {
    var k :| 0 <= k < |log| && log[k] == g;
    LogIdsGrow(w, log[..k + 1], log);
    assert log[..k + 1][..k] == log[..k];
  }

  lemma InRepoIfPresent(s: State, p: PkgId)
    requires p in Ids(s.files)
    ensures InRepo(s, p)
  {
    var f :| f in s.files && f.id == p;
    ListsItself(f);
    assert f in LookupAll(s.files, p);
  }

  /** For declared packages, the look-up tells the truth. */
  lemma InRepoIsExact(w: World, files: set<Deb>, st: Progress, p: PkgId)
    requires Exact(w, files) && Inv(w, files, st) && Declared(w, p)
    ensures InRepo(st.repo, p) <==> p in Ids(st.repo.files)
  {
    if InRepo(st.repo, p) {
      var f :| f in LookupAll(st.repo.files, p);
      assert Known(w, files, f);
    }
    if p in Ids(st.repo.files) {
      InRepoIfPresent(st.repo, p);
    }
  }

  lemma {:induction false} AddAllFiles(s: State, fs: seq<Deb>)
    ensures Ids(AddAll(s, fs).files) == Ids(s.files) + (set i | 0 <= i < |fs| :: fs[i].id)
    ensures forall f :: f in AddAll(s, fs).files ==> f in s.files || f in fs
  {
    if fs != [] {
      var n := |fs| - 1;
      AddAllFiles(s, fs[..n]);
      var s' := AddAll(s, fs[..n]);
      var s'' := Add(s', fs[n]);
      assert (set i | 0 <= i < |fs| :: fs[i].id) == (set i | 0 <= i < n :: fs[..n][i].id) + {fs[n].id};
      forall q | q in Ids(s'.files) + {fs[n].id}
        ensures q in Ids(s''.files)
      {
        if q == fs[n].id {
          assert fs[n] in s''.files;
        } else {
          var f :| f in s'.files && f.id == q;
          assert f in s''.files;
        }
      }
      assert Ids(s''.files) == Ids(s'.files) + {fs[n].id};
    }
  }

  /** The state after building group `i`. */
  ghost function WithGroup(w: World, st: Progress, i: nat): Progress
    requires i < |w.groups|
  {
    Progress(AddAll(st.repo, w.groups[i].products), st.log + [i])
  }

  lemma WithGroupInv(w: World, files: set<Deb>, st: Progress, i: nat)
    requires Inv(w, files, st) && i < |w.groups|
    ensures Inv(w, files, WithGroup(w, st, i)) && GroupIds(w.groups[i]) <= Ids(WithGroup(w, st, i).repo.files)
  {
    var log := st.log + [i];
    AddAllFiles(st.repo, w.groups[i].products);
    assert log[..|log| - 1] == st.log;
  }

  /** Building a group, with all that its prerequisites reach in the repository, keeps the order. */
  lemma BuiltInOrder(w: World, files: set<Deb>, st: Progress, i: nat)
    requires Inv(w, files, st) && i < |w.groups| && Topological(w, files, st.log)
    requires AllIn(w, st.repo, w.groups[i].prereqs)
    ensures Inv(w, files, WithGroup(w, st, i)) && Topological(w, files, WithGroup(w, st, i).log)
  {
    var log := st.log + [i];
    WithGroupInv(w, files, st, i);
    forall k, p, q | 0 <= k < |log| && p in w.groups[log[k]].prereqs && Reaches(w, p, q)
      ensures q in Ids(files) + LogIds(w, log[..k])
    {
      if k < |st.log| {
        assert log[..k] == st.log[..k] && log[k] == st.log[k];
      } else {
        assert log[..k] == st.log;
      }
    }
  }

  /** A group declares nothing that its own prerequisites reach, if requiring them came to an end. */
  lemma NotBelowItself(w: World, i: nat, x: PkgId, depth: nat)
    requires Declares(w, i, x) && AllFinish(w, w.groups[i].prereqs, depth)
    ensures !Reached(w, w.groups[i].prereqs, x)
  {
    if Reached(w, w.groups[i].prereqs, x) {
      var p :| p in w.groups[i].prereqs && Reaches(w, p, x);
      var n: nat :| ReachesIn(w, p, x, n);
      assert Edge(w, x, p) && ReachesIn(w, p, p, 0);
      assert ReachesIn(w, x, p, 1);
      ReachesInTransitive(w, p, x, p, n, 1);
      CycleIsDeep(w, p, n + 1, depth);
    }
  }

  /** What a group's prerequisites reach is reached from its packages. */
  lemma PrereqsWithin(w: World, p: PkgId, i: nat)
    requires Declares(w, i, p)
    ensures Within(w, w.groups[i].prereqs, [p])
  {
    forall q | Reached(w, w.groups[i].prereqs, q)
      ensures Reached(w, [p], q)
    {
      var m :| m in w.groups[i].prereqs && Reaches(w, m, q);
      assert Edge(w, p, m);
      ReachesStep(w, p, m, q);
    }
  }

  lemma ReachedBelow(w: World, p: PkgId, g: nat, m: PkgId)
    requires Declares(w, g, p) && m in w.groups[g].prereqs
    ensures forall q :: Reaches(w, m, q) ==> Reaches(w, p, q)
  {
    assert Edge(w, p, m);
    forall q | Reaches(w, m, q)
      ensures Reaches(w, p, q)
    {
      ReachesStep(w, p, m, q);
    }
  }

  /** A declared package can be required if and only if its prerequisites can, one frame further down. */
  lemma CanFinishByPrereqs(w: World, p: PkgId, depth: nat)
    requires Declared(w, p) && depth > 0
    ensures CanFinish(w, p, depth) <==> PrereqsFinish(w, p, 0, depth - 1)
  {
    if CanFinish(w, p, depth) {
      forall g, m | 0 <= g < |w.groups| && Declares(w, g, p) && m in w.groups[g].prereqs
        ensures CanFinish(w, m, depth - 1)
      {
        ReachedBelow(w, p, g, m);
        assert Edge(w, p, m);
      }
    }
    if PrereqsFinish(w, p, 0, depth - 1) {
      forall q | Reaches(w, p, q) && q != p
        ensures Declared(w, q)
      {
        var m := ReachesFirst(w, p, q);
        assert CanFinish(w, m, depth - 1);
      }
      forall m | Edge(w, p, m)
        ensures !Deep(w, m, depth - 1)
      {
        assert CanFinish(w, m, depth - 1);
      }
    }
  }

  lemma ClosureByPrereqs(w: World, s: State, p: PkgId)
    ensures p in Ids(s.files) && PrereqsIn(w, s, p, 0) ==> ClosureIn(w, s, p)
    ensures ClosureIn(w, s, p) ==> p in Ids(s.files) && PrereqsIn(w, s, p, 0)
  {
    ReachesSelf(w, p);
    if p in Ids(s.files) && PrereqsIn(w, s, p, 0) {
      forall q | Reaches(w, p, q) && q != p
        ensures q in Ids(s.files)
      {
        var m := ReachesFirst(w, p, q);
        assert ClosureIn(w, s, m);
      }
    }
    if ClosureIn(w, s, p) {
      forall g, m | 0 <= g < |w.groups| && Declares(w, g, p) && m in w.groups[g].prereqs
        ensures ClosureIn(w, s, m)
      {
        ReachedBelow(w, p, g, m);
      }
    }
  }

  /** A package that is missing is declared by no group built so far. */
  lemma MissingIsUnbuilt(w: World, files: set<Deb>, st: Progress, p: PkgId, i: nat)
    requires Inv(w, files, st) && p !in Ids(st.repo.files) && Declares(w, i, p)
    ensures i !in st.log
  {
    if i in st.log {
      LoggedIds(w, st.log, i);
    }
  }

  lemma DueMore(w: World, s: State, ps: seq<PkgId>, asked: set<PkgId>, s': State, ps': seq<PkgId>, asked': set<PkgId>)
    requires Within(w, ps', ps) && Ids(s.files) <= Ids(s'.files)
    requires forall q :: q in asked' ==> q in asked || (Reached(w, ps, q) && q !in Ids(s.files))
    ensures forall k :: Due(w, s', ps', asked', k) ==> Due(w, s, ps, asked, k)
  {
  }

  lemma KeptMore(w: World, files: set<Deb>, st: Progress, ps: seq<PkgId>, asked: set<PkgId>, r: Outcome, st': Progress,
                 ps': seq<PkgId>, asked': set<PkgId>)
    requires Kept(w, files, st, ps, asked, r, st') && Within(w, ps, ps')
    requires forall q :: q in asked ==> q in asked' || (Reached(w, ps', q) && q !in Ids(st.repo.files))
    ensures Kept(w, files, st, ps', asked', r, st')
  {
    DueMore(w, st.repo, ps', asked', st.repo, ps, asked);
  }

  lemma KeptInTurn(w: World, files: set<Deb>, st: Progress, st': Progress, ps: seq<PkgId>, asked: set<PkgId>,
                   r: Outcome, st'': Progress)
    requires Inv(w, files, st) && Kept(w, files, st, ps, asked, Done, st') && Kept(w, files, st', ps, asked, r, st'')
    ensures Kept(w, files, st, ps, asked, r, st'')
  {
    LogIdsGrow(w, st.log, st'.log);
    DueMore(w, st.repo, ps, asked, st'.repo, ps, asked);
  }

  // What holds of every run, whatever the look-up finds.

  /** Requiring a declared package comes down to building its groups, or only what they require, and a last look. */
  lemma RequireIsBuild(w: World, st: Progress, p: PkgId, mode: Mode, depth: nat, building: bool)
    requires Declared(w, p) && depth > 0 && building == (mode.force || (!InRepo(st.repo, p) && mode.buildMissing))
    requires building || InRepo(st.repo, p)
    ensures var (r, st') := Build(w, st, p, !building, depth - 1, 0, false);
            Require(w, st, p, mode, depth) ==
            (if r == Done && !InRepo(st'.repo, p) then NotBuilt(p) else r, st')
  {
  }

  lemma {:induction false} RequireRuns(w: World, files: set<Deb>, st: Progress, p: PkgId, mode: Mode, depth: nat)
    requires Inv(w, files, st)
    ensures var (r, st') := Require(w, st, p, mode, depth);
            && Kept(w, files, st, [p], Asked(p, mode.force), r, st')
            && (r == Done && Declared(w, p) ==> CanFinish(w, p, depth))
    decreases depth, 0, 0
  {
    if Declared(w, p) && depth > 0 {
      CanFinishByPrereqs(w, p, depth);
      var building := mode.force || (!InRepo(st.repo, p) && mode.buildMissing);
      if building || InRepo(st.repo, p) {
        var (r, st') := Build(w, st, p, !building, depth - 1, 0, false);
        RequireIsBuild(w, st, p, mode, depth, building);
        BuildRuns(w, files, st, p, !building, depth - 1, 0, false);
        if building && !mode.force {
          KeptMissing(w, files, st, p, r, st');
        }
      } else {
        assert Require(w, st, p, mode, depth) == (NotBuilt(p), st);
      }
    } else {
      assert Require(w, st, p, mode, depth).1 == st;
    }
  }

  /** A package that is not found is due without being asked for. */
  lemma KeptMissing(w: World, files: set<Deb>, st: Progress, p: PkgId, r: Outcome, st': Progress)
    requires Kept(w, files, st, [p], {p}, r, st') && !InRepo(st.repo, p)
    ensures Kept(w, files, st, [p], {}, r, st')
  {
    ReachesSelf(w, p);
    if p in Ids(st.repo.files) {
      InRepoIfPresent(st.repo, p);
    }
    KeptMore(w, files, st, [p], {p}, r, st', [p], {});
  }

  lemma {:induction false} RequireAllRuns(w: World, files: set<Deb>, st: Progress, ps: seq<PkgId>, depth: nat)
    requires Inv(w, files, st)
    ensures var (r, st') := RequireAll(w, st, ps, depth);
            && Kept(w, files, st, ps, {}, r, st')
            && (r == Done ==> AllFinish(w, ps, depth))
    decreases depth, 1, |ps|
  {
    if ps != [] {
      var mode := Mode(false, true, false);
      var (r, st') := Require(w, st, ps[0], mode, depth);
      RequireRuns(w, files, st, ps[0], mode, depth);
      KeptMore(w, files, st, [ps[0]], {}, r, st', ps, {});
      if r == Done {
        var (r', st'') := RequireAll(w, st', ps[1..], depth);
        RequireAllRuns(w, files, st', ps[1..], depth);
        KeptMore(w, files, st', ps[1..], {}, r', st'', ps, {});
        KeptInTurn(w, files, st, st', ps, {}, r', st'');
      }
    }
  }

  /** What it takes to build group `i`, or only its prerequisites, and return normally. */
  ghost predicate GroupRan(w: World, i: nat, prereqsOnly: bool, depth: nat, log: seq<nat>, log': seq<nat>)
    requires i < |w.groups|
  {
    && AllFinish(w, w.groups[i].prereqs, depth)
    && (!prereqsOnly ==> |log| < |log'| && log'[|log'| - 1] == i)
  }

  /** The same for the loop over the groups from `i` on. */
  ghost predicate BuildRan(w: World, p: PkgId, i: nat, prereqsOnly: bool, depth: nat, log: seq<nat>, log': seq<nat>) {
    PrereqsFinish(w, p, i, depth) && (!prereqsOnly ==> BuiltFrom(w, p, i, log, log'))
  }

  lemma {:induction false} BuildGroupRuns(w: World, files: set<Deb>, st: Progress, p: PkgId, i: nat,
                                          prereqsOnly: bool, depth: nat)
    requires Inv(w, files, st) && Declares(w, i, p)
    ensures var (r, st') := BuildGroup(w, st, i, prereqsOnly, depth);
            && Kept(w, files, st, [p], Asked(p, !prereqsOnly), r, st')
            && (r == Done ==> GroupRan(w, i, prereqsOnly, depth, st.log, st'.log))
    decreases depth, 2, 0
  {
    var ps := w.groups[i].prereqs;
    var (r, st') := RequireAll(w, st, ps, depth);
    RequireAllRuns(w, files, st, ps, depth);
    PrereqsWithin(w, p, i);
    KeptMore(w, files, st, ps, {}, r, st', [p], Asked(p, !prereqsOnly));
    if r == Done && !prereqsOnly && i !in w.broken {
      WithGroupInv(w, files, st', i);
    }
  }

  lemma {:induction false} BuildRuns(w: World, files: set<Deb>, st: Progress, p: PkgId, prereqsOnly: bool, depth: nat,
                                     i: nat, built: bool)
    requires Inv(w, files, st) && i <= |w.groups|
    ensures var (r, st') := Build(w, st, p, prereqsOnly, depth, i, built);
            && Kept(w, files, st, [p], Asked(p, !prereqsOnly), r, st')
            && (r == Done ==> BuildRan(w, p, i, prereqsOnly, depth, st.log, st'.log))
    decreases depth, 3, |w.groups| - i
  {
    if i < |w.groups| {
      if Declares(w, i, p) {
        var (r, st') := BuildGroup(w, st, i, prereqsOnly, depth);
        BuildGroupRuns(w, files, st, p, i, prereqsOnly, depth);
        if r == Done {
          BuildRuns(w, files, st', p, prereqsOnly, depth, i + 1, true);
          BuildRunsOn(w, files, st, st', p, prereqsOnly, depth, i, built);
        }
      } else {
        BuildRuns(w, files, st, p, prereqsOnly, depth, i + 1, built);
        BuildRunsPast(w, st, p, prereqsOnly, depth, i, built);
      }
    }
  }

  /** A group that does not declare the package makes no difference. */
  lemma BuildRunsPast(w: World, st: Progress, p: PkgId, prereqsOnly: bool, depth: nat, i: nat, built: bool)
    requires i < |w.groups| && !Declares(w, i, p)
    ensures Build(w, st, p, prereqsOnly, depth, i, built) == Build(w, st, p, prereqsOnly, depth, i + 1, built)
    ensures forall log, log' :: BuildRan(w, p, i + 1, prereqsOnly, depth, log, log') ==>
              BuildRan(w, p, i, prereqsOnly, depth, log, log')
  {
  }

  /** One group that declares the package, and then the rest of the loop. */
  lemma BuildRunsOn(w: World, files: set<Deb>, st: Progress, st': Progress, p: PkgId, prereqsOnly: bool, depth: nat,
                    i: nat, built: bool)
    requires Inv(w, files, st) && Declares(w, i, p) && BuildGroup(w, st, i, prereqsOnly, depth) == (Done, st')
    requires Kept(w, files, st, [p], Asked(p, !prereqsOnly), Done, st')
    requires GroupRan(w, i, prereqsOnly, depth, st.log, st'.log)
    requires var (r, st'') := Build(w, st', p, prereqsOnly, depth, i + 1, true);
             && Kept(w, files, st', [p], Asked(p, !prereqsOnly), r, st'')
             && (r == Done ==> BuildRan(w, p, i + 1, prereqsOnly, depth, st'.log, st''.log))
    ensures var (r, st'') := Build(w, st, p, prereqsOnly, depth, i, built);
            && Kept(w, files, st, [p], Asked(p, !prereqsOnly), r, st'')
            && (r == Done ==> BuildRan(w, p, i, prereqsOnly, depth, st.log, st''.log))
  {
    var (r, st'') := Build(w, st', p, prereqsOnly, depth, i + 1, true);
    assert Build(w, st, p, prereqsOnly, depth, i, built) == (r, st'');
    KeptInTurn(w, files, st, st', [p], Asked(p, !prereqsOnly), r, st'');
    if r == Done {
      BuildRanFrom(w, p, i, prereqsOnly, depth, st.log, st'.log, st''.log);
    }
  }

  lemma BuildRanFrom(w: World, p: PkgId, i: nat, prereqsOnly: bool, depth: nat,
                     log: seq<nat>, log': seq<nat>, log'': seq<nat>)
    requires log <= log' && i < |w.groups| && GroupRan(w, i, prereqsOnly, depth, log, log')
    requires BuildRan(w, p, i + 1, prereqsOnly, depth, log', log'')
    ensures BuildRan(w, p, i, prereqsOnly, depth, log, log'')
  {
    if !prereqsOnly {
      BuiltFromHere(w, p, i, log, log', log'');
    }
  }

  lemma BuiltFromHere(w: World, p: PkgId, i: nat, log: seq<nat>, log': seq<nat>, log'': seq<nat>)
    requires log <= log' && |log| < |log'| && log'[|log'| - 1] == i && BuiltFrom(w, p, i + 1, log', log'')
    ensures BuiltFrom(w, p, i, log, log'')
  {
    forall g | i <= g < |w.groups| && Declares(w, g, p)
      ensures g in log''[|log|..]
    {
      if g == i {
        assert log''[|log|..][|log'| - 1 - |log|] == i;
      } else {
        var k :| 0 <= k < |log''| - |log'| && log''[|log'|..][k] == g;
        assert log''[|log|..][k + |log'| - |log|] == g;
      }
    }
  }

  // With exact look-ups: order and closure.

  /** The loop over the groups gets through: they all can be required, and at least one declares the package. */
  ghost predicate CanBuild(w: World, p: PkgId, i: nat, built: bool, depth: nat) {
    PrereqsFinish(w, p, i, depth) && (built || exists g :: i <= g < |w.groups| && Declares(w, g, p))
  }

  /** A build step that failed was not started before all that its group requires was there. */
  ghost predicate ReadyIfFailed(w: World, r: Outcome, s: State) {
    r.BuildFailed? ==> r.group < |w.groups| && AllIn(w, s, w.groups[r.group].prereqs)
  }

  lemma {:induction false} RequireKeeps(w: World, files: set<Deb>, st: Progress, p: PkgId, mode: Mode, depth: nat)
    requires Exact(w, files) && Inv(w, files, st) && Topological(w, files, st.log)
    ensures var (r, st') := Require(w, st, p, mode, depth);
            && Inv(w, files, st') && Topological(w, files, st'.log)
            && ReadyIfFailed(w, r, st'.repo)
            && (r == Done && Declared(w, p) ==> ClosureIn(w, st'.repo, p))
            && (CanFinish(w, p, depth) && mode.buildMissing ==> r == Done || r.BuildFailed?)
    decreases depth, 0, 0
  {
    if Declared(w, p) && depth > 0 {
      var building := mode.force || (!InRepo(st.repo, p) && mode.buildMissing);
      if building || InRepo(st.repo, p) {
        BuildKeeps(w, files, st, p, !building, depth - 1, 0, false);
        RequireKeepsOn(w, files, st, p, mode, depth, building);
      }
    } else {
      ReachesSelf(w, p);
    }
  }

  /** The groups of a package, or only their prerequisites, and the last look. */
  lemma RequireKeepsOn(w: World, files: set<Deb>, st: Progress, p: PkgId, mode: Mode, depth: nat, building: bool)
    requires Exact(w, files) && Inv(w, files, st) && Declared(w, p) && depth > 0
    requires building == (mode.force || (!InRepo(st.repo, p) && mode.buildMissing)) && (building || InRepo(st.repo, p))
    requires var (r, st') := Build(w, st, p, !building, depth - 1, 0, false);
             && (r == Done ==> PrereqsIn(w, st'.repo, p, 0))
             && (CanBuild(w, p, 0, false, depth - 1) ==> r == Done || r.BuildFailed?)
    ensures var (r, st') := Require(w, st, p, mode, depth);
            && st' == Build(w, st, p, !building, depth - 1, 0, false).1
            && (r == Done ==> ClosureIn(w, st'.repo, p))
            && (CanFinish(w, p, depth) ==> r == Done || r.BuildFailed?)
  {
    RequireIsBuild(w, st, p, mode, depth, building);
    CanFinishByPrereqs(w, p, depth);
    InRepoIsExact(w, files, st, p);
    if Build(w, st, p, !building, depth - 1, 0, false).0 == Done {
      ClosedAfter(w, files, st, p, building, depth - 1);
    }
  }

  /** Once its groups, or only their prerequisites, were built, a package has all it reaches in the repository. */
  lemma ClosedAfter(w: World, files: set<Deb>, st: Progress, p: PkgId, building: bool, depth: nat)
    requires Exact(w, files) && Inv(w, files, st) && Declared(w, p) && (building || p in Ids(st.repo.files))
    requires var (r, st') := Build(w, st, p, !building, depth, 0, false); r == Done && PrereqsIn(w, st'.repo, p, 0)
    ensures var st' := Build(w, st, p, !building, depth, 0, false).1;
            InRepo(st'.repo, p) && ClosureIn(w, st'.repo, p)
  {
    var st' := Build(w, st, p, !building, depth, 0, false).1;
    BuildRuns(w, files, st, p, !building, depth, 0, false);
    PresentAfter(w, files, st, st', p, building);
    InRepoIfPresent(st'.repo, p);
    ClosureByPrereqs(w, st'.repo, p);
  }

  /** A package is present after its groups, or only their prerequisites, were built. */
  lemma PresentAfter(w: World, files: set<Deb>, st: Progress, st': Progress, p: PkgId, building: bool)
    requires Inv(w, files, st) && Inv(w, files, st') && Declared(w, p) && st.log <= st'.log
    requires if building then BuiltFrom(w, p, 0, st.log, st'.log) else p in Ids(st.repo.files)
    ensures p in Ids(st'.repo.files)
  {
    LogIdsGrow(w, st.log, st'.log);
    if building {
      var g :| 0 <= g < |w.groups| && Declares(w, g, p);
      LoggedIds(w, st'.log, g);
    }
  }

  lemma {:induction false} RequireAllKeeps(w: World, files: set<Deb>, st: Progress, ps: seq<PkgId>, depth: nat)
    requires Exact(w, files) && Inv(w, files, st) && Topological(w, files, st.log)
    ensures var (r, st') := RequireAll(w, st, ps, depth);
            && Inv(w, files, st') && Topological(w, files, st'.log)
            && ReadyIfFailed(w, r, st'.repo)
            && (r == Done ==> AllIn(w, st'.repo, ps))
            && (AllFinish(w, ps, depth) ==> r == Done || r.BuildFailed?)
    decreases depth, 1, |ps|
  {
    if ps != [] {
      var mode := Mode(false, true, false);
      var (r, st') := Require(w, st, ps[0], mode, depth);
      RequireKeeps(w, files, st, ps[0], mode, depth);
      if r == Done {
        var (r', st'') := RequireAll(w, st', ps[1..], depth);
        RequireAllKeeps(w, files, st', ps[1..], depth);
        RequireAllRuns(w, files, st', ps[1..], depth);
        LogIdsGrow(w, st'.log, st''.log);
      }
    }
  }

  lemma {:induction false} BuildGroupKeeps(w: World, files: set<Deb>, st: Progress, i: nat, prereqsOnly: bool,
                                           depth: nat)
    requires Exact(w, files) && Inv(w, files, st) && Topological(w, files, st.log) && i < |w.groups|
    ensures var (r, st') := BuildGroup(w, st, i, prereqsOnly, depth);
            && Inv(w, files, st') && Topological(w, files, st'.log)
            && ReadyIfFailed(w, r, st'.repo)
            && (r == Done ==> AllIn(w, st'.repo, w.groups[i].prereqs))
            && (AllFinish(w, w.groups[i].prereqs, depth) ==> r == Done || r.BuildFailed?)
    decreases depth, 2, 0
  {
    var (r, st') := RequireAll(w, st, w.groups[i].prereqs, depth);
    RequireAllKeeps(w, files, st, w.groups[i].prereqs, depth);
    if r == Done && !prereqsOnly && i !in w.broken {
      BuiltInOrder(w, files, st', i);
      LogIdsGrow(w, st'.log, WithGroup(w, st', i).log);
    }
  }

  lemma {:induction false} BuildKeeps(w: World, files: set<Deb>, st: Progress, p: PkgId, prereqsOnly: bool, depth: nat,
                                      i: nat, built: bool)
    requires Exact(w, files) && Inv(w, files, st) && Topological(w, files, st.log) && i <= |w.groups|
    ensures var (r, st') := Build(w, st, p, prereqsOnly, depth, i, built);
            && Inv(w, files, st') && Topological(w, files, st'.log)
            && ReadyIfFailed(w, r, st'.repo)
            && (r == Done ==> PrereqsIn(w, st'.repo, p, i))
            && (CanBuild(w, p, i, built, depth) ==> r == Done || r.BuildFailed?)
    decreases depth, 3, |w.groups| - i
  {
    if i < |w.groups| {
      if Declares(w, i, p) {
        var (r, st') := BuildGroup(w, st, i, prereqsOnly, depth);
        BuildGroupKeeps(w, files, st, i, prereqsOnly, depth);
        if r == Done {
          var (r', st'') := Build(w, st', p, prereqsOnly, depth, i + 1, true);
          BuildKeeps(w, files, st', p, prereqsOnly, depth, i + 1, true);
          BuildRuns(w, files, st', p, prereqsOnly, depth, i + 1, true);
          if r' == Done {
            PrereqsInFrom(w, files, st', st'', p, i);
          }
        }
      } else {
        BuildKeeps(w, files, st, p, prereqsOnly, depth, i + 1, built);
      }
    }
  }

  lemma PrereqsInFrom(w: World, files: set<Deb>, st: Progress, st': Progress, p: PkgId, i: nat)
    requires Inv(w, files, st) && Inv(w, files, st') && st.log <= st'.log && i < |w.groups|
    requires AllIn(w, st.repo, w.groups[i].prereqs)
    requires PrereqsIn(w, st'.repo, p, i + 1)
    ensures PrereqsIn(w, st'.repo, p, i)
  {
    LogIdsGrow(w, st.log, st'.log);
  }

  // Nothing missing, nothing built.

  lemma {:induction false} RequireIsIdle(w: World, st: Progress, p: PkgId, mode: Mode, depth: nat)
    requires ClosureIn(w, st.repo, p) && !mode.force
    ensures Require(w, st, p, mode, depth).1 == st
    decreases depth, 0, 0
  {
    ClosureByPrereqs(w, st.repo, p);
    InRepoIfPresent(st.repo, p);
    if depth > 0 {
      BuildIsIdle(w, st, p, depth - 1, 0, false);
    }
  }

  lemma {:induction false} RequireAllIsIdle(w: World, st: Progress, ps: seq<PkgId>, depth: nat)
    requires AllIn(w, st.repo, ps)
    ensures RequireAll(w, st, ps, depth).1 == st
    decreases depth, 1, |ps|
  {
    if ps != [] {
      RequireIsIdle(w, st, ps[0], Mode(false, true, false), depth);
      RequireAllIsIdle(w, st, ps[1..], depth);
    }
  }

  lemma {:induction false} BuildIsIdle(w: World, st: Progress, p: PkgId, depth: nat, i: nat, built: bool)
    requires PrereqsIn(w, st.repo, p, i) && i <= |w.groups|
    ensures Build(w, st, p, true, depth, i, built).1 == st
    decreases depth, 3, |w.groups| - i
  {
    if i < |w.groups| {
      if Declares(w, i, p) {
        RequireAllIsIdle(w, st, w.groups[i].prereqs, depth);
        BuildIsIdle(w, st, p, depth, i + 1, true);
      } else {
        BuildIsIdle(w, st, p, depth, i + 1, built);
      }
    }
  }

  // Acyclic prerequisites are exactly those for which the recursion ends.

  ghost predicate Acyclic(w: World, p: PkgId) {
    forall q, n: nat :: Reaches(w, p, q) && n > 0 ==> !ReachesIn(w, q, q, n)
  }

  /** The packages along a prerequisite chain, each with its group. */
  lemma {:induction false} ChainOf(w: World, p: PkgId, n: nat) returns (path: seq<PkgId>, groups: seq<nat>)
    requires Deep(w, p, n)
    ensures |path| == n + 1 && |groups| == n && path[0] == p
    ensures forall k :: 0 <= k < n ==>
              Declares(w, groups[k], path[k]) && path[k + 1] in w.groups[groups[k]].prereqs
    decreases n
  {
    path, groups := [p], [];
    if n > 0 {
      var m :| Edge(w, p, m) && Deep(w, m, n - 1);
      var g :| 0 <= g < |w.groups| && Declares(w, g, p) && m in w.groups[g].prereqs;
      var path', groups' := ChainOf(w, m, n - 1);
      path, groups := path + path', [g] + groups';
    }
  }

  lemma {:induction false} ChainReaches(w: World, path: seq<PkgId>, groups: seq<nat>, a: nat, b: nat)
    requires a <= b < |path| == |groups| + 1
    requires forall k :: 0 <= k < |groups| ==>
               Declares(w, groups[k], path[k]) && path[k + 1] in w.groups[groups[k]].prereqs
    ensures ReachesIn(w, path[a], path[b], b - a)
    decreases b - a
  {
    if a < b {
      ChainReaches(w, path, groups, a + 1, b);
      assert Declares(w, groups[a], path[a]);
      assert Edge(w, path[a], path[a + 1]);
    }
  }

  lemma {:induction false} Pigeonhole(s: seq<nat>, n: nat) returns (i: nat, j: nat)
    requires |s| > n && forall k :: 0 <= k < |s| ==> s[k] < n
    ensures i < j < |s| && s[i] == s[j]
    decreases n
  {
    var last := |s| - 1;
    if k :| 0 <= k < last && s[k] == s[last] {
      return k, last;
    }
    // Rename the greatest value to the one that `last` used up, and forget `last`.
    var t := seq(last, k requires 0 <= k < last => if s[k] == n - 1 then s[last] else s[k]);
    i, j := Pigeonhole(t, n - 1);
  }

  /** With acyclic prerequisites no chain is longer than the number of groups. */
  lemma AcyclicIsShallow(w: World, p: PkgId, depth: nat)
    requires Acyclic(w, p) && depth > |w.groups|
    ensures !Deep(w, p, depth)
  {
    if Deep(w, p, depth) {
      var path, groups := ChainOf(w, p, depth);
      forall k | 0 <= k < |groups|
        ensures groups[k] < |w.groups|
      {
        assert Declares(w, groups[k], path[k]);
      }
      var i, j := Pigeonhole(groups, |w.groups|);
      ChainReaches(w, path, groups, 0, i + 1);
      ChainReaches(w, path, groups, i + 1, j);
      assert Declares(w, groups[i], path[i]) && Declares(w, groups[j], path[j]);
      assert Edge(w, path[j], path[i + 1]);
      assert ReachesIn(w, path[i + 1], path[i + 1], 0);
      assert ReachesIn(w, path[j], path[i + 1], 1);
      ReachesInTransitive(w, path[i + 1], path[j], path[i + 1], j - i - 1, 1);
      assert false;
    }
  }

  lemma CyclicIsDeep(w: World, p: PkgId, depth: nat)
    requires !Acyclic(w, p)
    ensures Deep(w, p, depth)
  {
    var q, n: nat :| Reaches(w, p, q) && n > 0 && ReachesIn(w, q, q, n);
    var k: nat :| ReachesIn(w, p, q, k);
    CycleIsDeep(w, q, n, depth);
    DeepAlongPath(w, p, q, k, depth);
    DeepIsMonotone(w, p, k + depth, depth);
  }

  // The main results, for one top-level call on an arbitrary repository.

  /** Whatever happens, groups are built in topological order and only as needed; on normal return everything the
      package reaches is present, and if it was so before, nothing is built. */
  lemma RequireIsSafe(w: World, s: State, p: PkgId, mode: Mode, depth: nat)
    requires Exact(w, s.files)
    ensures var (r, st) := Require(w, Progress(s, []), p, mode, depth);
            && ValidLog(w, st.log) && Topological(w, s.files, st.log)
            && Ids(st.repo.files) == Ids(s.files) + LogIds(w, st.log)
            && AllDue(w, s, [p], Asked(p, mode.force), [], st.log)
            && (r == Done && Declared(w, p) ==> ClosureIn(w, st.repo, p))
            && ReadyIfFailed(w, r, st.repo)
            && (ClosureIn(w, s, p) && !mode.force ==> st == Progress(s, []))
  {
    RequireRuns(w, s.files, Progress(s, []), p, mode, depth);
    RequireKeeps(w, s.files, Progress(s, []), p, mode, depth);
    if ClosureIn(w, s, p) && !mode.force {
      RequireIsIdle(w, Progress(s, []), p, mode, depth);
    }
  }

  /** When no build step fails, requiring a package with missing ones built succeeds for some recursion limit if
      and only if all it reaches is declared and acyclic; a limit above the number of groups is then enough. */
  lemma RequireTerminates(w: World, s: State, p: PkgId, mode: Mode, depth: nat)
    requires Exact(w, s.files) && mode.buildMissing && w.broken == {} && Declared(w, p)
    ensures var (r, _) := Require(w, Progress(s, []), p, mode, depth);
            && (r == Done <==> CanFinish(w, p, depth))
            && (r == Done ==> FullyDeclared(w, p) && Acyclic(w, p))
            && (FullyDeclared(w, p) && Acyclic(w, p) && depth > |w.groups| ==> r == Done)
  {
    RequireRuns(w, s.files, Progress(s, []), p, mode, depth);
    RequireKeeps(w, s.files, Progress(s, []), p, mode, depth);
    if !Acyclic(w, p) {
      CyclicIsDeep(w, p, depth);
    } else if depth > |w.groups| {
      AcyclicIsShallow(w, p, depth);
    }
  }

  /** The last of the first `i` groups that declares `p` was built last of all. */
  ghost predicate EndsWith(w: World, p: PkgId, i: nat, log: seq<nat>) {
    log != [] && Declares(w, log[|log| - 1], p) && forall g :: log[|log| - 1] < g < i ==> !Declares(w, g, p)
  }

  /** A forced package, or a missing one to be built, has all its groups built if the call returns normally, and
      the last of them is built last of all. */
  lemma RequireBuilds(w: World, s: State, p: PkgId, g: nat, mode: Mode, depth: nat)
    requires Declares(w, g, p) && (mode.force || (!InRepo(s, p) && mode.buildMissing))
    ensures var (r, st) := Require(w, Progress(s, []), p, mode, depth);
            r == Done ==> g in st.log && EndsWith(w, p, |w.groups|, st.log)
  {
    if depth > 0 {
      RequireIsBuild(w, Progress(s, []), p, mode, depth, true);
      BuildRuns(w, s.files, Progress(s, []), p, false, depth - 1, 0, false);
      BuildEnds(w, Progress(s, []), p, g, depth - 1, 0, false);
    }
  }

  lemma {:induction false} BuildEnds(w: World, st: Progress, p: PkgId, g: nat, depth: nat, i: nat, built: bool)
    requires i <= |w.groups| && Declares(w, g, p)
    requires i <= g || EndsWith(w, p, i, st.log)
    ensures var (r, st') := Build(w, st, p, false, depth, i, built);
            r == Done ==> EndsWith(w, p, |w.groups|, st'.log)
    decreases |w.groups| - i
  {
    if i < |w.groups| {
      if Declares(w, i, p) {
        var (r, st') := BuildGroup(w, st, i, false, depth);
        if r == Done {
          assert st'.log[|st'.log| - 1] == i;
          BuildEnds(w, st', p, g, depth, i + 1, true);
        }
      } else {
        BuildEnds(w, st, p, g, depth, i + 1, built);
      }
    }
  }

  /** No other group of `p` requires anything that leads to group `g`. */
  ghost predicate NotForOthers(w: World, p: PkgId, g: nat) {
    forall h, q :: 0 <= h < |w.groups| && Declares(w, h, p) && h != g && Declares(w, g, q) ==>
      !Reached(w, w.groups[h].prereqs, q)
  }

  /** Why look-ups must be exact: a missing package that is to be built is built, on normal return, if and only if
      no file of another id is listed for it; such a file stands in for it. (A group may also be built for the
      sake of another group's prerequisites.) */
  lemma ImpostorStandsIn(w: World, s: State, p: PkgId, g: nat, mode: Mode, depth: nat)
    requires Declares(w, g, p) && p !in Ids(s.files) && !mode.force && mode.buildMissing
    requires NotForOthers(w, p, g)
    ensures var (r, st) := Require(w, Progress(s, []), p, mode, depth);
            r == Done ==> (g in st.log <==> Impostors(s.files, p) == {})
  {
    assert Impostors(s.files, p) == LookupAll(s.files, p);
    if depth > 0 {
      var st := Progress(s, []);
      if Impostors(s.files, p) == {} {
        RequireBuilds(w, s, p, g, mode, depth);
      } else if Build(w, st, p, true, depth - 1, 0, false).0 == Done {
        BuildRuns(w, s.files, st, p, true, depth - 1, 0, false);
        BuildsNotGroup(w, s.files, st, p, g, depth - 1, 0, false);
      }
    }
  }

  /** Requiring only what the groups of `p` require does not build `g`, if none of that is declared by it. */
  lemma {:induction false} BuildsNotGroup(w: World, files: set<Deb>, st: Progress, p: PkgId, g: nat, depth: nat,
                                          i: nat, built: bool)
    requires Inv(w, files, st) && i <= |w.groups| && g !in st.log
    requires PrereqsFinish(w, p, 0, depth)
    requires NotForOthers(w, p, g)
    ensures g !in Build(w, st, p, true, depth, i, built).1.log
    decreases |w.groups| - i
  {
    if i < |w.groups| {
      if Declares(w, i, p) {
        var ps := w.groups[i].prereqs;
        var st' := RequireAll(w, st, ps, depth).1;
        RequireAllRuns(w, files, st, ps, depth);
        if k :| |st.log| <= k < |st'.log| && st'.log[k] == g {
          assert Due(w, st.repo, ps, {}, st'.log[k]);
          var q :| Declares(w, g, q) && Reached(w, ps, q);
          if i == g {
            NotBelowItself(w, g, q, depth);
          }
          assert false;
        }
        BuildsNotGroup(w, files, st', p, g, depth, i + 1, true);
      } else {
        BuildsNotGroup(w, files, st, p, g, depth, i + 1, built);
      }
    }
  }
}
