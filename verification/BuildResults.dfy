/** What `require` leaves behind and whom it blames: the files it stores, and the reason for which it fails. */
module BuildResults {
  import opened PackageRepo
  import opened RepoRuns
  import opened PackageGraph
  import opened BuildOrder

  // The files stored.

  predicate Yields(fs: seq<Deb>, p: PkgId) {
    exists i :: 0 <= i < |fs| && fs[i].id == p
  }

  /** Of the files in a list with this id, the last one. */
  predicate Last(fs: seq<Deb>, f: Deb) {
    exists j :: 0 <= j < |fs| && fs[j] == f && !Yields(fs[j + 1..], f.id)
  }

  /** Some group built since yields the package. */
  ghost predicate Rebuilt(w: World, log: seq<nat>, p: PkgId)
    requires ValidLog(w, log)
  {
    exists k :: 0 <= k < |log| && Yields(w.groups[log[k]].products, p)
  }

  /** The file is the last product with its id of the `k`-th group built, and no group built later has one. */
  ghost predicate LastBuilt(w: World, log: seq<nat>, f: Deb, k: int)
    requires ValidLog(w, log)
  {
    0 <= k < |log| && Last(w.groups[log[k]].products, f) && !Rebuilt(w, log[k + 1..], f.id)
  }

  /** The file is the last product with its id of the last group built that has one, or it was there and no group built
      has one. */
  ghost predicate Stands(w: World, s: State, log: seq<nat>, f: Deb)
    requires ValidLog(w, log)
  {
    || (f in s.files && !Rebuilt(w, log, f.id))
    || (exists k :: LastBuilt(w, log, f, k))
  }

  /** The directories of what was built are cleared, all others are as they were. */
  ghost predicate DirStands(w: World, s: State, st: Progress, dir: Dir)
    requires ValidLog(w, st.log)
  {
    if dir.ByArch? && Rebuilt(w, st.log, PkgId(dir.name, dir.arch)) then dir !in st.repo.extracts
    else SameDir(s, st.repo, dir)
  }

  /** The repository, which was `s` when the trace was empty, holds exactly what the trace says. */
  ghost predicate Filed(w: World, s: State, st: Progress) {
    && ValidLog(w, st.log)
    && (forall f :: f in st.repo.files <==> Stands(w, s, st.log, f))
    && (forall dir :: DirStands(w, s, st, dir))
  }

  lemma YieldsByPrefix(fs: seq<Deb>, n: nat, p: PkgId)
    requires n + 1 == |fs|
    ensures Yields(fs, p) <==> Yields(fs[..n], p) || fs[n].id == p
  {
    if Yields(fs[..n], p) {
      var i :| 0 <= i < n && fs[..n][i].id == p;
      assert fs[i].id == p;
    }
  }

  lemma LastByPrefix(fs: seq<Deb>, n: nat, f: Deb)
    requires n + 1 == |fs|
    ensures Last(fs, f) <==> fs[n] == f || (Last(fs[..n], f) && fs[n].id != f.id)
  {
    if Last(fs, f) && fs[n] != f {
      var j :| 0 <= j < |fs| && fs[j] == f && !Yields(fs[j + 1..], f.id);
      YieldsByPrefix(fs[j + 1..], n - j - 1, f.id);
      assert fs[j + 1..][..n - j - 1] == fs[..n][j + 1..];
      assert fs[..n][j] == f;
    }
    if Last(fs[..n], f) && fs[n].id != f.id {
      var j :| 0 <= j < n && fs[..n][j] == f && !Yields(fs[..n][j + 1..], f.id);
      YieldsByPrefix(fs[j + 1..], n - j - 1, f.id);
      assert fs[j + 1..][..n - j - 1] == fs[..n][j + 1..];
    }
    if fs[n] == f {
      assert !Yields(fs[n + 1..], f.id);
    }
  }

  /** Storing the files clears their directories and no other. */
  predicate DirStored(s: State, s': State, fs: seq<Deb>, dir: Dir) {
    if dir.ByArch? && Yields(fs, PkgId(dir.name, dir.arch)) then dir !in s'.extracts else SameDir(s, s', dir)
  }

  /** Storing a list of files leaves the last one of each id, and clears their directories. */
  lemma {:induction false} AddAllStores(s: State, fs: seq<Deb>)
    ensures forall f :: f in AddAll(s, fs).files <==> Last(fs, f) || (f in s.files && !Yields(fs, f.id))
    ensures forall dir :: DirStored(s, AddAll(s, fs), fs, dir)
    decreases |fs|
  {
    if fs != [] {
      var n := |fs| - 1;
      AddAllStores(s, fs[..n]);
      forall f
        ensures f in AddAll(s, fs).files <==> Last(fs, f) || (f in s.files && !Yields(fs, f.id))
      {
        LastByPrefix(fs, n, f);
        YieldsByPrefix(fs, n, f.id);
      }
      forall dir: Dir
        ensures DirStored(s, AddAll(s, fs), fs, dir)
      {
        assert DirStored(s, AddAll(s, fs[..n]), fs[..n], dir);
        if dir.ByArch? {
          YieldsByPrefix(fs, n, PkgId(dir.name, dir.arch));
        }
      }
    }
  }

  lemma RebuiltByPrefix(w: World, log: seq<nat>, n: nat, p: PkgId)
    requires n + 1 == |log| && ValidLog(w, log)
    ensures Rebuilt(w, log, p) <==> Rebuilt(w, log[..n], p) || Yields(w.groups[log[n]].products, p)
  {
    if Rebuilt(w, log[..n], p) {
      var k :| 0 <= k < n && Yields(w.groups[log[..n][k]].products, p);
      assert Yields(w.groups[log[k]].products, p);
    }
    if Rebuilt(w, log, p) {
      var k :| 0 <= k < |log| && Yields(w.groups[log[k]].products, p);
      assert k < n ==> log[..n][k] == log[k];
    }
  }

  lemma LastBuiltByPrefix(w: World, log: seq<nat>, n: nat, f: Deb, k: nat)
    requires n + 1 == |log| && ValidLog(w, log) && k < n
    ensures LastBuilt(w, log, f, k) <==> LastBuilt(w, log[..n], f, k) && !Yields(w.groups[log[n]].products, f.id)
  {
    RebuiltByPrefix(w, log[k + 1..], n - k - 1, f.id);
    assert log[k + 1..][..n - k - 1] == log[..n][k + 1..];
  }

  lemma LastBuiltNow(w: World, log: seq<nat>, n: nat, f: Deb)
    requires n + 1 == |log| && ValidLog(w, log)
    ensures LastBuilt(w, log, f, n) <==> Last(w.groups[log[n]].products, f)
  {
    assert !Rebuilt(w, log[n + 1..], f.id);
  }

  lemma StandsByPrefix(w: World, s: State, log: seq<nat>, n: nat, f: Deb)
    requires n + 1 == |log| && ValidLog(w, log)
    ensures var fs := w.groups[log[n]].products;
            Stands(w, s, log, f) <==> Last(fs, f) || (Stands(w, s, log[..n], f) && !Yields(fs, f.id))
  {
    RebuiltByPrefix(w, log, n, f.id);
    LastBuiltNow(w, log, n, f);
    forall k: nat | k < n
      ensures LastBuilt(w, log, f, k) <==> LastBuilt(w, log[..n], f, k) && !Yields(w.groups[log[n]].products, f.id)
    {
      LastBuiltByPrefix(w, log, n, f, k);
    }
    if Last(w.groups[log[n]].products, f) {
      assert LastBuilt(w, log, f, n);
    }
  }

  lemma WithGroupFiled(w: World, s: State, st: Progress, i: nat)
    requires Filed(w, s, st) && i < |w.groups|
    ensures Filed(w, s, WithGroup(w, st, i))
  {
    var st' := WithGroup(w, st, i);
    var n := |st.log|;
    assert st'.log[..n] == st.log;
    AddAllStores(st.repo, w.groups[i].products);
    forall f
      ensures f in st'.repo.files <==> Stands(w, s, st'.log, f)
    {
      StandsByPrefix(w, s, st'.log, n, f);
    }
    forall dir: Dir
      ensures DirStands(w, s, st', dir)
    {
      assert DirStands(w, s, st, dir) && DirStored(st.repo, st'.repo, w.groups[i].products, dir);
      if dir.ByArch? {
        RebuiltByPrefix(w, st'.log, n, PkgId(dir.name, dir.arch));
      }
    }
  }

  /** Whatever the outcome of a call, and whatever the look-up finds, the repository holds what the trace says. */
  lemma {:induction false} RequireFiles(w: World, s: State, st: Progress, p: PkgId, mode: Mode, depth: nat)
    requires Filed(w, s, st)
    ensures Filed(w, s, Require(w, st, p, mode, depth).1)
    decreases depth, 0, 0
  {
    if depth > 0 {
      BuildFiles(w, s, st, p, false, depth - 1, 0, false);
      BuildFiles(w, s, st, p, true, depth - 1, 0, false);
    }
  }

  lemma {:induction false} RequireAllFiles(w: World, s: State, st: Progress, ps: seq<PkgId>, depth: nat)
    requires Filed(w, s, st)
    ensures Filed(w, s, RequireAll(w, st, ps, depth).1)
    decreases depth, 1, |ps|
  {
    if ps != [] {
      var (r, st') := Require(w, st, ps[0], Mode(false, true, false), depth);
      RequireFiles(w, s, st, ps[0], Mode(false, true, false), depth);
      if r == Done {
        RequireAllFiles(w, s, st', ps[1..], depth);
      }
    }
  }

  lemma {:induction false} BuildGroupFiles(w: World, s: State, st: Progress, i: nat, prereqsOnly: bool, depth: nat)
    requires Filed(w, s, st) && i < |w.groups|
    ensures Filed(w, s, BuildGroup(w, st, i, prereqsOnly, depth).1)
    decreases depth, 2, 0
  {
    var (r, st') := RequireAll(w, st, w.groups[i].prereqs, depth);
    RequireAllFiles(w, s, st, w.groups[i].prereqs, depth);
    if r == Done && !prereqsOnly && i !in w.broken {
      WithGroupFiled(w, s, st', i);
    }
  }

  lemma {:induction false} BuildFiles(w: World, s: State, st: Progress, p: PkgId, prereqsOnly: bool, depth: nat, i: nat,
                                      built: bool)
    requires Filed(w, s, st) && i <= |w.groups|
    ensures Filed(w, s, Build(w, st, p, prereqsOnly, depth, i, built).1)
    decreases depth, 3, |w.groups| - i
  {
    if i < |w.groups| {
      if Declares(w, i, p) {
        var (r, st') := BuildGroup(w, st, i, prereqsOnly, depth);
        BuildGroupFiles(w, s, st, i, prereqsOnly, depth);
        if r == Done {
          BuildFiles(w, s, st', p, prereqsOnly, depth, i + 1, true);
        }
      } else {
        BuildFiles(w, s, st, p, prereqsOnly, depth, i + 1, built);
      }
    }
  }

  // The outcome.

  /** Some group yields the package. */
  predicate Offered(w: World, p: PkgId) {
    exists i :: 0 <= i < |w.groups| && Yields(w.groups[i].products, p)
  }

  lemma OfferedIsDeclared(w: World, p: PkgId)
    ensures Offered(w, p) <==> Declared(w, p)
  {
    forall i | 0 <= i < |w.groups|
      ensures Yields(w.groups[i].products, p) <==> Declares(w, i, p)
    {
    }
  }

  /** Why a call that requires `ps` ends as it does. */
  ghost predicate Explained(w: World, ps: seq<PkgId>, depth: nat, r: Outcome, st: Progress) {
    match r
    case Done => true
    case Missing(q) => Reached(w, ps, q) && !Offered(w, q)
    case NotBuilt(q) => Reached(w, ps, q) && Offered(w, q) && LookupAll(st.repo.files, q) == {}
    case BuildFailed(g) => g in w.broken && exists q :: Declares(w, g, q) && Reached(w, ps, q)
    case TooDeep => exists p :: p in ps && Deep(w, p, depth)
  }

  lemma ExplainedMore(w: World, ps: seq<PkgId>, depth: nat, r: Outcome, st: Progress, p: PkgId, i: nat)
    requires Explained(w, ps, depth, r, st) && Declares(w, i, p) && ps == w.groups[i].prereqs
    ensures Explained(w, [p], depth + 1, r, st)
  {
    PrereqsWithin(w, p, i);
    if r.TooDeep? {
      var q :| q in ps && Deep(w, q, depth);
      assert Edge(w, p, q);
      assert Deep(w, p, depth + 1) && p in [p];
    }
  }

  lemma {:induction false} RequireExplained(w: World, st: Progress, p: PkgId, mode: Mode, depth: nat)
    ensures var (r, st') := Require(w, st, p, mode, depth); Explained(w, [p], depth, r, st')
    decreases depth, 0, 0
  {
    ReachesSelf(w, p);
    OfferedIsDeclared(w, p);
    assert p in [p];
    if Declared(w, p) && depth > 0 {
      BuildExplained(w, st, p, false, depth - 1, 0, false);
      BuildExplained(w, st, p, true, depth - 1, 0, false);
    }
  }

  lemma {:induction false} RequireAllExplained(w: World, st: Progress, ps: seq<PkgId>, depth: nat)
    ensures var (r, st') := RequireAll(w, st, ps, depth); Explained(w, ps, depth, r, st')
    decreases depth, 1, |ps|
  {
    if ps != [] {
      var (r, st') := Require(w, st, ps[0], Mode(false, true, false), depth);
      RequireExplained(w, st, ps[0], Mode(false, true, false), depth);
      if r == Done {
        RequireAllExplained(w, st', ps[1..], depth);
      }
    }
  }

  lemma {:induction false} BuildExplained(w: World, st: Progress, p: PkgId, prereqsOnly: bool, depth: nat, i: nat,
                                          built: bool)
    requires i <= |w.groups| && (built || exists g :: i <= g < |w.groups| && Declares(w, g, p))
    ensures var (r, st') := Build(w, st, p, prereqsOnly, depth, i, built); Explained(w, [p], depth + 1, r, st')
    decreases depth, 3, |w.groups| - i
  {
    if i < |w.groups| {
      if Declares(w, i, p) {
        var ps := w.groups[i].prereqs;
        var (r, st') := BuildGroup(w, st, i, prereqsOnly, depth);
        RequireAllExplained(w, st, ps, depth);
        if RequireAll(w, st, ps, depth).0 == Done {
          ReachesSelf(w, p);
          assert p in [p];
        } else {
          ExplainedMore(w, ps, depth, r, st', p, i);
        }
        if r == Done {
          BuildExplained(w, st', p, prereqsOnly, depth, i + 1, true);
        }
      } else {
        BuildExplained(w, st, p, prereqsOnly, depth, i + 1, built);
      }
    }
  }

  /** A call that is not to build anything missing, as for the extraction of platform data: if the package is not there
      it raises an error, and nothing is built for it. */
  lemma AbsentIsNotBuilt(w: World, st: Progress, p: PkgId, mode: Mode, depth: nat)
    requires !mode.force && !mode.buildMissing && LookupAll(st.repo.files, p) == {}
    ensures var (r, st') := Require(w, st, p, mode, depth);
            && st' == st
            && (Offered(w, p) && depth > 0 ==> r == NotBuilt(p))
            && (!Offered(w, p) ==> r == if mode.skipMissing then Done else Missing(p))
  {
    OfferedIsDeclared(w, p);
  }

  /** Of one call: the repository is what the trace says, a normal return means that the package is found or was to be
      skipped, and a failure has its reason. */
  lemma RequireResults(w: World, s: State, p: PkgId, mode: Mode, depth: nat)
    ensures var (r, st) := Require(w, Progress(s, []), p, mode, depth);
            && Filed(w, s, st)
            && Explained(w, [p], depth, r, st)
            && (r == Done ==>
                  if Offered(w, p) then LookupAll(st.repo.files, p) != {}
                  else mode.skipMissing && st == Progress(s, []))
  {
    OfferedIsDeclared(w, p);
    RequireFiles(w, s, Progress(s, []), p, mode, depth);
    RequireExplained(w, Progress(s, []), p, mode, depth);
  }
}
