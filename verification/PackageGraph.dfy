/** Requiring and building packages with their prerequisites: the recursion between `require` and `build`, as
    functions on the repository and the list of groups built so far. */
module PackageGraph {
  import opened PackageRepo

  /** A package group: what building it yields, and the packages it requires first. */
  datatype Group = Group(products: seq<Deb>, prereqs: seq<PkgId>)

  /** All loaded groups; building a broken one raises an error. */
  datatype World = World(groups: seq<Group>, broken: set<nat>)

  /** The repository, and the groups built so far in order. */
  datatype Progress = Progress(repo: State, log: seq<nat>)

  datatype Mode = Mode(force: bool, buildMissing: bool, skipMissing: bool)

  /** Normal return, or the exception raised; `TooDeep` is the interpreter's recursion limit. */
  datatype Outcome = Done | Missing(id: PkgId) | NotBuilt(id: PkgId) | BuildFailed(group: nat) | TooDeep

  function Ids(files: set<Deb>): set<PkgId> {
    set f | f in files :: f.id
  }

  function GroupIds(g: Group): set<PkgId> {
    set i | 0 <= i < |g.products| :: g.products[i].id
  }

  predicate Declares(w: World, i: nat, p: PkgId) {
    i < |w.groups| && p in GroupIds(w.groups[i])
  }

  predicate Declared(w: World, p: PkgId) {
    exists i :: 0 <= i < |w.groups| && Declares(w, i, p)
  }

  predicate InRepo(s: State, p: PkgId) {
    LookupAll(s.files, p) != {}
  }

  /** `require`: build the package if it is missing, else only what its groups require; `depth` frames are left. */
  function Require(w: World, st: Progress, p: PkgId, mode: Mode, depth: nat): (Outcome, Progress)
    decreases depth, 0, 0
  {
    if !Declared(w, p) then
      (if mode.skipMissing then Done else Missing(p), st)
    else if depth == 0 then
      (TooDeep, st)
    else
      var (r, st') :=
        if mode.force || (!InRepo(st.repo, p) && mode.buildMissing) then Build(w, st, p, false, depth - 1, 0, false)
        else if InRepo(st.repo, p) then Build(w, st, p, true, depth - 1, 0, false)
        else (Done, st);
      if r != Done then (r, st')
      else if !InRepo(st'.repo, p) then (NotBuilt(p), st')
      else (Done, st')
  }

  /** Require the packages of a list one after the other, building what is missing. */
  function RequireAll(w: World, st: Progress, ps: seq<PkgId>, depth: nat): (Outcome, Progress)
    decreases depth, 1, |ps|
  {
    if ps == [] then (Done, st)
    else
      var (r, st') := Require(w, st, ps[0], Mode(false, true, false), depth);
      if r != Done then (r, st') else RequireAll(w, st', ps[1..], depth)
  }

  /** One group: its prerequisites, then, unless only those are wanted, the group itself. */
  function BuildGroup(w: World, st: Progress, i: nat, prereqsOnly: bool, depth: nat): (Outcome, Progress)
    requires i < |w.groups|
    decreases depth, 2, 0
  {
    var (r, st') := RequireAll(w, st, w.groups[i].prereqs, depth);
    if r != Done || prereqsOnly then (r, st')
    else if i in w.broken then (BuildFailed(i), st')
    else (Done, Progress(AddAll(st'.repo, w.groups[i].products), st'.log + [i]))
  }

  /** `build`: every group from `i` on that contains the package. */
  function Build(w: World, st: Progress, p: PkgId, prereqsOnly: bool, depth: nat, i: nat, built: bool)
    : (Outcome, Progress)
    requires i <= |w.groups|
    decreases depth, 3, |w.groups| - i
  {
    if i == |w.groups| then (if built then Done else Missing(p), st)
    else if !Declares(w, i, p) then Build(w, st, p, prereqsOnly, depth, i + 1, built)
    else
      var (r, st') := BuildGroup(w, st, i, prereqsOnly, depth);
      if r != Done then (r, st') else Build(w, st', p, prereqsOnly, depth, i + 1, true)
  }

  // The prerequisite graph.

  predicate Edge(w: World, p: PkgId, q: PkgId) {
    exists i :: 0 <= i < |w.groups| && Declares(w, i, p) && q in w.groups[i].prereqs
  }

  ghost predicate ReachesIn(w: World, p: PkgId, q: PkgId, n: nat)
    decreases n
  {
    if n == 0 then p == q else exists m :: Edge(w, p, m) && ReachesIn(w, m, q, n - 1)
  }

  ghost predicate Reaches(w: World, p: PkgId, q: PkgId) {
    exists n: nat :: ReachesIn(w, p, q, n)
  }

  /** A chain of `n` prerequisite steps starts at `p`. */
  ghost predicate Deep(w: World, p: PkgId, n: nat)
    decreases n
  {
    n == 0 || exists m :: Edge(w, p, m) && Deep(w, m, n - 1)
  }

  ghost predicate FullyDeclared(w: World, p: PkgId) {
    forall q :: Reaches(w, p, q) ==> Declared(w, q)
  }

  lemma ReachesStep(w: World, p: PkgId, m: PkgId, q: PkgId)
    requires Edge(w, p, m) && Reaches(w, m, q)
    ensures Reaches(w, p, q)
  {
    var n: nat :| ReachesIn(w, m, q, n);
    assert ReachesIn(w, p, q, n + 1);
  }

  lemma ReachesSelf(w: World, p: PkgId)
    ensures Reaches(w, p, p)
  {
    assert ReachesIn(w, p, p, 0);
  }

  /** Past the start, a path goes through one of the start's prerequisites. */
  lemma ReachesFirst(w: World, p: PkgId, q: PkgId) returns (m: PkgId)
    requires Reaches(w, p, q) && p != q
    ensures Edge(w, p, m) && Reaches(w, m, q)
  {
    var n: nat :| ReachesIn(w, p, q, n);
    m :| Edge(w, p, m) && ReachesIn(w, m, q, n - 1);
  }

  lemma {:induction false} ReachesInTransitive(w: World, p: PkgId, q: PkgId, r: PkgId, n: nat, k: nat)
    requires ReachesIn(w, p, q, n) && ReachesIn(w, q, r, k)
    ensures ReachesIn(w, p, r, n + k)
    decreases n
  {
    if n > 0 {
      var m :| Edge(w, p, m) && ReachesIn(w, m, q, n - 1);
      ReachesInTransitive(w, m, q, r, n - 1, k);
    }
  }

  lemma {:induction false} DeepIsMonotone(w: World, p: PkgId, n: nat, k: nat)
    requires Deep(w, p, n) && k <= n
    ensures Deep(w, p, k)
    decreases n
  {
    if k > 0 {
      var m :| Edge(w, p, m) && Deep(w, m, n - 1);
      DeepIsMonotone(w, m, n - 1, k - 1);
    }
  }

  lemma {:induction false} DeepAlongPath(w: World, p: PkgId, q: PkgId, n: nat, k: nat)
    requires ReachesIn(w, p, q, n) && Deep(w, q, k)
    ensures Deep(w, p, n + k)
    decreases n
  {
    if n > 0 {
      var m :| Edge(w, p, m) && ReachesIn(w, m, q, n - 1);
      DeepAlongPath(w, m, q, n - 1, k);
    }
  }

  /** On a cycle there are chains of every length. */
  lemma {:induction false} CycleIsDeep(w: World, p: PkgId, n: nat, k: nat)
    requires n > 0 && ReachesIn(w, p, p, n)
    ensures Deep(w, p, k)
    decreases k
  {
    if k > n {
      CycleIsDeep(w, p, n, k - n);
      DeepAlongPath(w, p, p, n, k - n);
    } else {
      DeepAlongPath(w, p, p, n, 0);
      DeepIsMonotone(w, p, n, k);
    }
  }
}
