/** When one call of `require` builds no group twice: exactly when no two groups that share a package clash. */
module BuildOnce {
  import opened PackageRepo
  import opened PackageGraph
  import opened BuildOrder

  ghost predicate BuiltOnce(log: seq<nat>) {
    forall j, k :: 0 <= j < k < |log| ==> log[j] != log[k]
  }

  /** Groups `i` and `j`, in this order, both declare `q`; building `q` requires, for group `i`, what leads to
      another package `x` of group `j`, and no earlier group of `q` provides `x`. */
  ghost predicate Clash(w: World, q: PkgId, i: nat, j: nat, x: PkgId) {
    && i < j && Declares(w, i, q) && Declares(w, j, q) && Declares(w, j, x)
    && Reached(w, w.groups[i].prereqs, x)
    && forall k :: 0 <= k < i && Declares(w, k, q) ==> !Declares(w, k, x)
  }

  ghost predicate ClashFree(w: World) {
    forall q, i, j, x :: !Clash(w, q, i, j, x)
  }

  // Without a clash, nothing is built twice.

  /** The groups from `i` on that declare `p` are not in the trace. */
  ghost predicate Unbuilt(w: World, p: PkgId, i: nat, log: seq<nat>) {
    forall g :: i <= g < |w.groups| && Declares(w, g, p) ==> g !in log
  }

  /** What the groups before `i` that declare `p` provide is present. */
  ghost predicate Provided(w: World, s: State, p: PkgId, i: nat) {
    forall g :: 0 <= g < i && g < |w.groups| && Declares(w, g, p) ==> GroupIds(w.groups[g]) <= Ids(s.files)
  }

  lemma {:induction false} RequireOnce(w: World, files: set<Deb>, st: Progress, p: PkgId, mode: Mode, depth: nat)
    requires ClashFree(w) && Inv(w, files, st) && BuiltOnce(st.log)
    requires mode.force ==> Unbuilt(w, p, 0, st.log)
    ensures BuiltOnce(Require(w, st, p, mode, depth).1.log)
    decreases depth, 0, 0
  {
    if Declared(w, p) && depth > 0 {
      var building := mode.force || (!InRepo(st.repo, p) && mode.buildMissing);
      if building && !mode.force {
        MissingIsAllUnbuilt(w, files, st, p);
      }
      BuildIsOnce(w, files, st, p, !building, depth - 1, 0, false);
    }
  }

  lemma MissingIsAllUnbuilt(w: World, files: set<Deb>, st: Progress, p: PkgId)
    requires Inv(w, files, st) && !InRepo(st.repo, p)
    ensures Unbuilt(w, p, 0, st.log)
  {
    if p in Ids(st.repo.files) {
      InRepoIfPresent(st.repo, p);
    }
    forall g | 0 <= g < |w.groups| && Declares(w, g, p)
      ensures g !in st.log
    {
      MissingIsUnbuilt(w, files, st, p, g);
    }
  }

  lemma {:induction false} RequireAllOnce(w: World, files: set<Deb>, st: Progress, ps: seq<PkgId>, depth: nat)
    requires ClashFree(w) && Inv(w, files, st) && BuiltOnce(st.log)
    ensures BuiltOnce(RequireAll(w, st, ps, depth).1.log)
    decreases depth, 1, |ps|
  {
    if ps != [] {
      var mode := Mode(false, true, false);
      RequireOnce(w, files, st, ps[0], mode, depth);
      RequireRuns(w, files, st, ps[0], mode, depth);
      RequireAllOnce(w, files, Require(w, st, ps[0], mode, depth).1, ps[1..], depth);
    }
  }

  /** What the loop over the groups from `i` on that declare `p` needs. */
  ghost predicate Looping(w: World, files: set<Deb>, st: Progress, p: PkgId, prereqsOnly: bool, i: nat) {
    && Inv(w, files, st) && BuiltOnce(st.log)
    && (!prereqsOnly ==> Unbuilt(w, p, i, st.log) && Provided(w, st.repo, p, i))
  }

  lemma {:induction false} BuildIsOnce(w: World, files: set<Deb>, st: Progress, p: PkgId, prereqsOnly: bool,
                                       depth: nat, i: nat, built: bool)
    requires ClashFree(w) && i <= |w.groups| && Looping(w, files, st, p, prereqsOnly, i)
    ensures BuiltOnce(Build(w, st, p, prereqsOnly, depth, i, built).1.log)
    decreases depth, 3, |w.groups| - i
  {
    if i < |w.groups| {
      if Declares(w, i, p) {
        var (r, st') := RequireAll(w, st, w.groups[i].prereqs, depth);
        RequireAllOnce(w, files, st, w.groups[i].prereqs, depth);
        RequireAllRuns(w, files, st, w.groups[i].prereqs, depth);
        if r == Done && (prereqsOnly || i !in w.broken) {
          var next := if prereqsOnly then st' else WithGroup(w, st', i);
          assert BuildGroup(w, st, i, prereqsOnly, depth) == (Done, next);
          GroupOnce(w, files, st, st', p, prereqsOnly, i, depth);
          BuildIsOnce(w, files, next, p, prereqsOnly, depth, i + 1, true);
        }
      } else {
        BuildIsOnce(w, files, st, p, prereqsOnly, depth, i + 1, built);
      }
    }
  }

  /** Requiring the prerequisites of group `i` builds no group that is still to be built for `p`. */
  lemma StaysUnbuilt(w: World, files: set<Deb>, st: Progress, st': Progress, p: PkgId, i: nat, depth: nat)
    requires ClashFree(w) && Declares(w, i, p) && Unbuilt(w, p, i, st.log) && Provided(w, st.repo, p, i)
    requires Kept(w, files, st, w.groups[i].prereqs, {}, Done, st') && AllFinish(w, w.groups[i].prereqs, depth)
    ensures Unbuilt(w, p, i, st'.log)
  {
    var ps := w.groups[i].prereqs;
    forall g | i <= g < |w.groups| && Declares(w, g, p)
      ensures g !in st'.log
    {
      if g in st'.log {
        var k :| 0 <= k < |st'.log| && st'.log[k] == g;
        assert k >= |st.log|;
        assert Due(w, st.repo, ps, {}, g);
        var x :| Declares(w, g, x) && Reached(w, ps, x) && x !in Ids(st.repo.files);
        if g == i {
          NotBelowItself(w, i, x, depth);
        }
        var clash := Clash(w, p, i, g, x);
        assert false;
      }
    }
  }

  /** One group, with its prerequisites, then keeps what the loop needs. */
  lemma GroupOnce(w: World, files: set<Deb>, st: Progress, st': Progress, p: PkgId, prereqsOnly: bool, i: nat,
                  depth: nat)
    requires ClashFree(w) && Declares(w, i, p) && Looping(w, files, st, p, prereqsOnly, i) && BuiltOnce(st'.log)
    requires Kept(w, files, st, w.groups[i].prereqs, {}, Done, st') && AllFinish(w, w.groups[i].prereqs, depth)
    ensures Looping(w, files, if prereqsOnly then st' else WithGroup(w, st', i), p, prereqsOnly, i + 1)
  {
    if !prereqsOnly {
      StaysUnbuilt(w, files, st, st', p, i, depth);
      WithGroupInv(w, files, st', i);
      NowBuilt(w, p, i, st'.log);
      LogIdsGrow(w, st.log, WithGroup(w, st', i).log);
      NowProvided(w, st.repo, WithGroup(w, st', i).repo, p, i);
    }
  }

  lemma NowBuilt(w: World, p: PkgId, i: nat, log: seq<nat>)
    requires Unbuilt(w, p, i, log) && BuiltOnce(log) && Declares(w, i, p)
    ensures Unbuilt(w, p, i + 1, log + [i]) && BuiltOnce(log + [i])
  {
  }

  lemma NowProvided(w: World, s: State, s': State, p: PkgId, i: nat)
    requires Provided(w, s, p, i) && i < |w.groups| && GroupIds(w.groups[i]) <= Ids(s'.files)
    requires Ids(s.files) <= Ids(s'.files)
    ensures Provided(w, s', p, i + 1)
  {
  }

  /** Without clashes, one call builds each group at most once, whatever happens. */
  lemma RequireIsOnce(w: World, s: State, p: PkgId, mode: Mode, depth: nat)
    requires ClashFree(w)
    ensures BuiltOnce(Require(w, Progress(s, []), p, mode, depth).1.log)
  {
    RequireOnce(w, s.files, Progress(s, []), p, mode, depth);
  }

  // With a clash, some repository makes a group be built twice.

  /** If `x` is there, it is because all its groups were built. */
  ghost predicate BuiltFor(w: World, st: Progress, x: PkgId) {
    x in Ids(st.repo.files) ==> forall g :: Declares(w, g, x) ==> g in st.log
  }

  /** All that `p` reaches, except perhaps `x`, is present. */
  ghost predicate AllBut(w: World, s: State, p: PkgId, x: PkgId) {
    forall y :: Reaches(w, p, y) && y != x ==> y in Ids(s.files)
  }

  ghost predicate PrereqsAllBut(w: World, s: State, p: PkgId, x: PkgId) {
    forall g, m :: 0 <= g < |w.groups| && Declares(w, g, p) && m in w.groups[g].prereqs ==> AllBut(w, s, m, x)
  }

  lemma {:induction false} RequireBuiltFor(w: World, files: set<Deb>, st: Progress, p: PkgId, x: PkgId, depth: nat)
    requires Inv(w, files, st) && AllBut(w, st.repo, p, x) && BuiltFor(w, st, x)
    ensures var (r, st') := Require(w, st, p, Mode(false, true, false), depth);
            r == Done ==> BuiltFor(w, st', x)
    decreases depth, 0, 0
  {
    if Declared(w, p) && depth > 0 {
      if InRepo(st.repo, p) {
        AllButPrereqs(w, st.repo, p, x);
        BuildBuiltFor(w, files, st, p, x, depth - 1, 0, false);
      } else {
        MissingIs(w, st.repo, p, x);
        BuildRuns(w, files, st, p, false, depth - 1, 0, false);
        var (r, st') := Build(w, st, p, false, depth - 1, 0, false);
        if r == Done {
          AllBuiltFor(w, st, st', x);
        }
      }
    }
  }

  lemma AllBuiltFor(w: World, st: Progress, st': Progress, x: PkgId)
    requires BuiltFrom(w, x, 0, st.log, st'.log)
    ensures BuiltFor(w, st', x)
  {
    forall g: nat | Declares(w, g, x)
      ensures g in st'.log
    {
      assert g in st'.log[|st.log|..];
    }
  }

  lemma MissingIs(w: World, s: State, p: PkgId, x: PkgId)
    requires AllBut(w, s, p, x) && !InRepo(s, p)
    ensures p == x
  {
    ReachesSelf(w, p);
    if p in Ids(s.files) {
      InRepoIfPresent(s, p);
    }
  }

  lemma AllButGrows(w: World, s: State, s': State, x: PkgId)
    requires Ids(s.files) <= Ids(s'.files)
    ensures forall p :: AllBut(w, s, p, x) ==> AllBut(w, s', p, x)
    ensures forall p :: PrereqsAllBut(w, s, p, x) ==> PrereqsAllBut(w, s', p, x)
  {
    forall p | PrereqsAllBut(w, s, p, x)
      ensures PrereqsAllBut(w, s', p, x)
    {
      forall g, m | 0 <= g < |w.groups| && Declares(w, g, p) && m in w.groups[g].prereqs
        ensures AllBut(w, s', m, x)
      {
        assert AllBut(w, s, m, x);
      }
    }
  }

  lemma AllButPrereqs(w: World, s: State, p: PkgId, x: PkgId)
    requires AllBut(w, s, p, x)
    ensures PrereqsAllBut(w, s, p, x)
  {
    forall g, m | 0 <= g < |w.groups| && Declares(w, g, p) && m in w.groups[g].prereqs
      ensures AllBut(w, s, m, x)
    {
      ReachedBelow(w, p, g, m);
    }
  }

  lemma {:induction false} RequireAllBuiltFor(w: World, files: set<Deb>, st: Progress, ps: seq<PkgId>, x: PkgId,
                                              depth: nat)
    requires Inv(w, files, st) && (forall p :: p in ps ==> AllBut(w, st.repo, p, x)) && BuiltFor(w, st, x)
    ensures var (r, st') := RequireAll(w, st, ps, depth);
            r == Done ==> BuiltFor(w, st', x)
    decreases depth, 1, |ps|
  {
    if ps != [] {
      var mode := Mode(false, true, false);
      var (r, st') := Require(w, st, ps[0], mode, depth);
      RequireBuiltFor(w, files, st, ps[0], x, depth);
      RequireRuns(w, files, st, ps[0], mode, depth);
      if r == Done {
        LogIdsGrow(w, st.log, st'.log);
        AllButGrows(w, st.repo, st'.repo, x);
        RequireAllBuiltFor(w, files, st', ps[1..], x, depth);
      }
    }
  }

  lemma {:induction false} BuildBuiltFor(w: World, files: set<Deb>, st: Progress, p: PkgId, x: PkgId, depth: nat,
                                         i: nat, built: bool)
    requires Inv(w, files, st) && PrereqsAllBut(w, st.repo, p, x) && BuiltFor(w, st, x) && i <= |w.groups|
    ensures var (r, st') := Build(w, st, p, true, depth, i, built);
            r == Done ==> BuiltFor(w, st', x)
    decreases depth, 3, |w.groups| - i
  {
    if i < |w.groups| {
      if Declares(w, i, p) {
        var (r, st') := RequireAll(w, st, w.groups[i].prereqs, depth);
        RequireAllBuiltFor(w, files, st, w.groups[i].prereqs, x, depth);
        RequireAllRuns(w, files, st, w.groups[i].prereqs, depth);
        if r == Done {
          LogIdsGrow(w, st.log, st'.log);
          AllButGrows(w, st.repo, st'.repo, x);
          BuildBuiltFor(w, files, st', p, x, depth, i + 1, true);
        }
      } else {
        BuildBuiltFor(w, files, st, p, x, depth, i + 1, built);
      }
    }
  }

  /** What the loop over the groups of `q` keeps until it comes to a clashing one. */
  ghost predicate Before(w: World, files: set<Deb>, st: Progress, q: PkgId, x: PkgId) {
    && Exact(w, files) && Inv(w, files, st) && Topological(w, files, st.log)
    && PrereqsAllBut(w, st.repo, q, x) && BuiltFor(w, st, x)
  }

  /** Requiring the prerequisites of the clashing group `i` builds group `j`. */
  lemma ClashingPrereqs(w: World, files: set<Deb>, st: Progress, q: PkgId, i: nat, j: nat, x: PkgId, depth: nat)
    requires Before(w, files, st, q, x) && Clash(w, q, i, j, x)
    ensures var (r, st') := RequireAll(w, st, w.groups[i].prereqs, depth);
            r == Done ==> Inv(w, files, st') && j in st'.log
  {
    var ps := w.groups[i].prereqs;
    var (r, st') := RequireAll(w, st, ps, depth);
    RequireAllBuiltFor(w, files, st, ps, x, depth);
    RequireAllKeeps(w, files, st, ps, depth);
    if r == Done {
      var m :| m in ps && Reaches(w, m, x);
      assert ClosureIn(w, st'.repo, m);
    }
  }

  /** A group before it that does not provide `x` makes no difference. */
  lemma StaysBefore(w: World, files: set<Deb>, st: Progress, q: PkgId, x: PkgId, h: nat, depth: nat)
    requires Before(w, files, st, q, x) && Declares(w, h, q) && !Declares(w, h, x)
    ensures var (r, st') := RequireAll(w, st, w.groups[h].prereqs, depth);
            r == Done ==> Before(w, files, WithGroup(w, st', h), q, x)
  {
    var ps := w.groups[h].prereqs;
    var (r, st') := RequireAll(w, st, ps, depth);
    if r == Done {
      RequireAllBuiltFor(w, files, st, ps, x, depth);
      RequireAllRuns(w, files, st, ps, depth);
      RequireAllKeeps(w, files, st, ps, depth);
      BuiltInOrder(w, files, st', h);
      StillBuiltFor(w, files, st, st', q, x, h);
    }
  }

  /** Building `q`, the loop comes to a clashing group `i` and then to group `j`, which is built already. */
  lemma {:induction false} ClashingBuild(w: World, files: set<Deb>, st: Progress, q: PkgId, i: nat, j: nat, x: PkgId,
                                         depth: nat, h: nat, built: bool)
    requires Before(w, files, st, q, x) && Clash(w, q, i, j, x) && h <= i
    ensures var (r, st') := Build(w, st, q, false, depth, h, built);
            r == Done ==> !BuiltOnce(st'.log)
    decreases i - h
  {
    if Declares(w, h, q) {
      var (r, st') := RequireAll(w, st, w.groups[h].prereqs, depth);
      if r == Done && h !in w.broken {
        if h == i {
          ClashingPrereqs(w, files, st, q, i, j, x, depth);
          BuiltAgain(w, files, st', q, i, j, depth);
        } else {
          StaysBefore(w, files, st, q, x, h, depth);
          ClashingBuild(w, files, WithGroup(w, st', h), q, i, j, x, depth, h + 1, true);
        }
      }
    } else {
      ClashingBuild(w, files, st, q, i, j, x, depth, h + 1, built);
    }
  }

  lemma StillBuiltFor(w: World, files: set<Deb>, st: Progress, st': Progress, q: PkgId, x: PkgId, h: nat)
    requires Inv(w, files, st) && Inv(w, files, st') && st.log <= st'.log && Declares(w, h, q) && !Declares(w, h, x)
    requires PrereqsAllBut(w, st.repo, q, x) && BuiltFor(w, st', x)
    ensures PrereqsAllBut(w, WithGroup(w, st', h).repo, q, x) && BuiltFor(w, WithGroup(w, st', h), x)
  {
    var st'' := WithGroup(w, st', h);
    LogIdsGrow(w, st.log, st'.log);
    AddAllFiles(st'.repo, w.groups[h].products);
    assert Ids(st''.repo.files) == Ids(st'.repo.files) + GroupIds(w.groups[h]);
    AllButGrows(w, st.repo, st''.repo, x);
  }

  lemma BuiltAgain(w: World, files: set<Deb>, st: Progress, q: PkgId, i: nat, j: nat, depth: nat)
    requires Inv(w, files, st) && i < j && Declares(w, i, q) && Declares(w, j, q) && j in st.log
    ensures var (r, st') := Build(w, WithGroup(w, st, i), q, false, depth, i + 1, true);
            r == Done ==> !BuiltOnce(st'.log)
  {
    var st' := WithGroup(w, st, i);
    var (r, st'') := Build(w, st', q, false, depth, i + 1, true);
    WithGroupInv(w, files, st, i);
    BuildRuns(w, files, st', q, false, depth, i + 1, true);
    if r == Done {
      assert j in st'.log && BuiltFrom(w, q, i + 1, st'.log, st''.log);
      LoggedTwice(st'.log, st''.log, j);
    }
  }

  lemma LoggedTwice(log: seq<nat>, log': seq<nat>, j: nat)
    requires log <= log' && j in log && j in log'[|log|..]
    ensures !BuiltOnce(log')
  {
    var k :| 0 <= k < |log| && log[k] == j;
    var l :| 0 <= l < |log'| - |log| && log'[|log|..][l] == j;
    assert log'[k] == log'[|log| + l];
  }

  /** Everything that can be built is there, except two packages. */
  ghost function Without(w: World, q: PkgId, x: PkgId): State {
    State(set g, k | 0 <= g < |w.groups| && 0 <= k < |w.groups[g].products| && w.groups[g].products[k].id !in {q, x}
            :: w.groups[g].products[k], map[])
  }

  lemma WithoutHas(w: World, q: PkgId, x: PkgId, y: PkgId)
    requires Declared(w, y) && y !in {q, x}
    ensures y in Ids(Without(w, q, x).files)
  {
    var g :| 0 <= g < |w.groups| && Declares(w, g, y);
    var k :| 0 <= k < |w.groups[g].products| && w.groups[g].products[k].id == y;
    assert w.groups[g].products[k] in Without(w, q, x).files;
  }

  /** Two groups clash: with only the packages `q` and `x` missing, requiring `q` succeeds and builds a group
      twice in one call. */
  lemma ClashIsBuiltTwice(w: World, q: PkgId, i: nat, j: nat, x: PkgId, depth: nat)
    requires Clash(w, q, i, j, x) && w.broken == {} && Exact(w, {})
    requires FullyDeclared(w, q) && Acyclic(w, q) && depth > |w.groups|
    ensures var (r, st) := Require(w, Progress(Without(w, q, x), []), q, Mode(false, true, false), depth);
            r == Done && !BuiltOnce(st.log)
  {
    var s := Without(w, q, x);
    var st := Progress(s, []);
    assert Declared(w, q);
    assert Exact(w, s.files) by {
      assert forall f :: Known(w, s.files, f) ==> Known(w, {}, f);
    }
    RequireTerminates(w, s, q, Mode(false, true, false), depth);
    InRepoIsExact(w, s.files, st, q);
    forall g, m, y | 0 <= g < |w.groups| && Declares(w, g, q) && m in w.groups[g].prereqs && Reaches(w, m, y) && y != x
      ensures y in Ids(s.files)
    {
      ReachedBelow(w, q, g, m);
      AcyclicPrereqs(w, q, g, m);
      WithoutHas(w, q, x, y);
    }
    ClashingBuild(w, s.files, st, q, i, j, x, depth - 1, 0, false);
  }

  lemma AcyclicPrereqs(w: World, q: PkgId, g: nat, m: PkgId)
    requires Acyclic(w, q) && Declares(w, g, q) && m in w.groups[g].prereqs
    ensures !Reaches(w, m, q)
  {
    if Reaches(w, m, q) {
      var n: nat :| ReachesIn(w, m, q, n);
      assert Edge(w, q, m);
      ReachesSelf(w, q);
      assert ReachesIn(w, q, q, n + 1);
    }
  }

  /** The smallest such world: package `a` is in two groups, and the first requires what only the second has. */
  lemma SharedIdIsBuiltTwice(a: Deb, b: Deb)
    requires a.id != b.id && !Listed(a.id, b) && !Listed(b.id, a)
    ensures var w := World([Group([a], [b.id]), Group([a, b], [])], {});
            var (r, st) := Require(w, Progress(State({}, map[]), []), a.id, Mode(false, true, false), 3);
            r == Done && !BuiltOnce(st.log)
  {
    var g0, g1 := Group([a], [b.id]), Group([a, b], []);
    var w := World([g0, g1], {});
    assert g0.products[0] == a && g1.products[0] == a && g1.products[1] == b;
    assert GroupIds(g0) == {a.id} && GroupIds(g1) == {a.id, b.id};
    assert Declares(w, 0, a.id) && Declares(w, 1, a.id) && Declares(w, 1, b.id);
    assert forall p, q :: Edge(w, p, q) ==> p == a.id && q == b.id;
    assert b.id in g0.prereqs;
    ReachesSelf(w, b.id);
    forall q | Reaches(w, a.id, q)
      ensures q in {a.id, b.id}
    {
      if q != a.id {
        var m := ReachesFirst(w, a.id, q);
        if q != m {
          var m' := ReachesFirst(w, m, q);
        }
      }
    }
    assert Clash(w, a.id, 0, 1, b.id);
    assert Without(w, a.id, b.id) == State({}, map[]);
    ClashIsBuiltTwice(w, a.id, 0, 1, b.id, 3);
  }

  ghost predicate NeverTwice(w: World) {
    forall s, p, mode, depth :: BuiltOnce(Require(w, Progress(s, []), p, mode, depth).1.log)
  }

  /** In a world of acyclic, declared prerequisites, exact look-ups and working builds, no call on any repository
      builds a group twice if and only if no two groups clash. */
  lemma NeverTwiceIfClashFree(w: World)
    requires w.broken == {} && Exact(w, {})
    requires forall p :: Declared(w, p) ==> FullyDeclared(w, p) && Acyclic(w, p)
    ensures NeverTwice(w) <==> ClashFree(w)
  {
    if ClashFree(w) {
      forall s, p, mode, depth
        ensures BuiltOnce(Require(w, Progress(s, []), p, mode, depth).1.log)
      {
        RequireIsOnce(w, s, p, mode, depth);
      }
    }
    if NeverTwice(w) {
      forall q, i, j, x
        ensures !Clash(w, q, i, j, x)
      {
        if Clash(w, q, i, j, x) {
          assert Declared(w, q);
          ClashIsBuiltTwice(w, q, i, j, x, |w.groups| + 1);
        }
      }
    }
  }
}
