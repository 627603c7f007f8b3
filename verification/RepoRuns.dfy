/** What runs of the repository's operations leave, read off the operations themselves. */
module RepoRuns {
  import opened Wrappers
  import opened PackageRepo

  // Look-ups of names without underscores.

  predicate Plain(text: string) { '_' !in text }

  predicate EndsIn(text: string, end: string) {
    |end| <= |text| && text[|text| - |end|..] == end
  }

  lemma Underscores(f: Deb, i: nat)
    requires Plain(f.id.name) && Plain(f.version) && Plain(f.id.arch)
    ensures i < |FileName(f)| ==>
              (FileName(f)[i] == '_' <==> i == |f.id.name| || i == |f.id.name| + 1 + |f.version|)
  {
    assert Plain(".deb");
  }

  /** Where the look-up finds a name followed by an underscore. */
  lemma OccursAtUnderscore(f: Deb, name: string, i: nat)
    requires Plain(name) && Plain(f.id.name) && Plain(f.version) && Plain(f.id.arch)
    requires OccursAt(FileName(f), name + "_", i)
    ensures EndsIn(f.id.name, name) || EndsIn(f.version, name)
  {
    var t, u, e := FileName(f), |f.id.name|, i + |name|;
    assert t[i..e + 1] == name + "_";
    assert t[e] == (name + "_")[|name|];
    Underscores(f, e);
    assert t[i..e] == name by {
      assert t[i..e] == t[i..e + 1][..|name|];
    }
    if e == u {
      assert t[i..e] == f.id.name[i..];
    } else {
      assert i > u by {
        Underscores(f, u);
        assert forall k :: i <= k < e ==> t[k] == name[k - i];
      }
      assert t[i..e] == f.version[i - u - 1..];
    }
  }

  lemma EndOccurs(f: Deb, name: string)
    requires EndsIn(f.id.name, name) || EndsIn(f.version, name)
    ensures Contains(FileName(f), name + "_")
  {
    var t := FileName(f);
    var e := if EndsIn(f.id.name, name) then |f.id.name| else |f.id.name| + 1 + |f.version|;
    var i := e - |name|;
    assert t[i..e] == name && t[e] == '_';
    assert t[i..e + 1] == t[i..e] + [t[e]];
    assert OccursAt(t, name + "_", i);
  }

  /** A package is listed exactly the files of its architecture of which the name or the version ends in its name. */
  lemma ListedExactly(p: PkgId, f: Deb)
    requires Plain(p.name) && Plain(f.id.name) && Plain(f.version) && Plain(f.id.arch)
    ensures Listed(p, f) <==> f.id.arch == p.arch && (EndsIn(f.id.name, p.name) || EndsIn(f.version, p.name))
  {
    ListsItself(f);
    if Listed(p, f) {
      var i :| 0 <= i <= |FileName(f)| && OccursAt(FileName(f), p.name + "_", i);
      OccursAtUnderscore(f, p.name, i);
    }
    if EndsIn(f.id.name, p.name) || EndsIn(f.version, p.name) {
      EndOccurs(f, p.name);
    }
  }

  // What each operation leaves alone.

  predicate SameDir(s: State, s': State, dir: Dir) {
    (dir in s'.extracts <==> dir in s.extracts) && (dir in s.extracts ==> s'.extracts[dir] == s.extracts[dir])
  }

  /** Extracting changes no file and no directory but the package's own, and that one only if the look-up succeeds; it
      is left with the time of the file, or with none. */
  lemma ExtractFrame(s: State, p: PkgId, force: bool, removeStamp: bool, dir: Dir)
    ensures var s' := Extract(s, p, force, removeStamp);
            && s'.files == s.files
            && (dir != ByName(p) || (forall f :: LookupAll(s.files, p) != {f}) ==> SameDir(s, s', dir))
            && (forall f :: LookupAll(s.files, p) == {f} ==>
                  ByName(p) in s'.extracts &&
                  s'.extracts[ByName(p)].stamp == if removeStamp then None else Some(f.mtime))
  {
    forall f | LookupAll(s.files, p) == {f}
      ensures Lookup(s.files, p) == Some(f)
    {
      LookupOf(s.files, p, f);
    }
  }

  lemma LookupOf(files: set<Deb>, p: PkgId, f: Deb)
    requires LookupAll(files, p) == {f}
    ensures Lookup(files, p) == Some(f)
  {
    assert f in {Lookup(files, p).value};
  }

  /** Removing deletes a file if and only if it is the only one listed, and touches no directory. */
  lemma RemoveFrame(s: State, p: PkgId, g: Deb, dir: Dir)
    ensures g in Remove(s, p).files <==> g in s.files && LookupAll(s.files, p) != {g}
    ensures SameDir(s, Remove(s, p), dir)
  {
    if LookupAll(s.files, p) == {g} {
      LookupOf(s.files, p, g);
    }
  }

  /** Storing replaces the files of the same id and clears one directory. */
  lemma AddFrame(s: State, f: Deb, g: Deb, dir: Dir)
    ensures g in Add(s, f).files <==> g == f || (g in s.files && g.id != f.id)
    ensures if dir == ByArch(f.id.arch, f.id.name) then dir !in Add(s, f).extracts else SameDir(s, Add(s, f), dir)
  {
  }

  // Runs.

  /** A file that is in the repository at the start or stored by the run. */
  ghost predicate Known(s: State, ops: seq<Op>, f: Deb) {
    f in s.files || AddOp(f) in ops
  }

  /** Looking up an id that the run removes or extracts lists no file of another one. */
  ghost predicate Exact(s: State, ops: seq<Op>) {
    forall p, f :: Known(s, ops, f) && Listed(p, f) && Asks(ops, p) ==> f.id == p
  }

  ghost predicate Asks(ops: seq<Op>, p: PkgId) {
    exists op :: op in ops && !op.AddOp? && op.id == p
  }

  /** Files of one id and the same time have the same contents, and so have the directories unpacked before the run. */
  ghost predicate Timely(s: State, ops: seq<Op>) {
    && (forall f, g :: Known(s, ops, f) && Known(s, ops, g) && f.id == g.id && f.mtime == g.mtime ==>
          f.contents == g.contents)
    && Trusty(s, ops, s)
  }

  /** A directory that carries the time of a file of its id has the file's contents. */
  ghost predicate Trusty(s: State, ops: seq<Op>, t: State) {
    forall f :: Known(s, ops, f) && ByName(f.id) in t.extracts &&
                t.extracts[ByName(f.id)].stamp == Some(f.mtime) ==>
                  t.extracts[ByName(f.id)].contents == f.contents
  }

  /** The operation stores or removes the id. */
  predicate Touches(op: Op, id: PkgId) {
    (op.AddOp? && op.file.id == id) || (op.RemoveOp? && op.id == id)
  }

  /** The file is the last one that the run stores under its id and is not removed later, or it was there and the run
      leaves its id alone. */
  ghost predicate Holds(s: State, ops: seq<Op>, f: Deb) {
    || (exists j :: 0 <= j < |ops| && ops[j] == AddOp(f) && Spared(ops, f.id, j + 1))
    || (f in s.files && Spared(ops, f.id, 0))
  }

  ghost predicate Spared(ops: seq<Op>, id: PkgId, from: nat) {
    forall i :: from <= i < |ops| ==> !Touches(ops[i], id)
  }

  lemma SparedByPrefix(ops: seq<Op>, id: PkgId, from: nat, n: nat)
    requires n + 1 == |ops| && from <= n
    ensures Spared(ops, id, from) <==> Spared(ops[..n], id, from) && !Touches(ops[n], id)
  {
    if Spared(ops[..n], id, from) && !Touches(ops[n], id) {
      forall i | from <= i < |ops|
        ensures !Touches(ops[i], id)
      {
        assert i < n ==> ops[..n][i] == ops[i];
      }
    }
  }

  lemma HoldsByPrefix(s: State, ops: seq<Op>, n: nat, f: Deb)
    requires n + 1 == |ops|
    ensures Holds(s, ops, f) <==> ops[n] == AddOp(f) || (Holds(s, ops[..n], f) && !Touches(ops[n], f.id))
  {
    SparedByPrefix(ops, f.id, 0, n);
    if Holds(s, ops, f) && ops[n] != AddOp(f) {
      if j :| 0 <= j < |ops| && ops[j] == AddOp(f) && Spared(ops, f.id, j + 1) {
        SparedByPrefix(ops, f.id, j + 1, n);
        assert ops[..n][j] == AddOp(f);
      }
    }
    if Holds(s, ops[..n], f) && !Touches(ops[n], f.id) {
      if j :| 0 <= j < n && ops[..n][j] == AddOp(f) && Spared(ops[..n], f.id, j + 1) {
        SparedByPrefix(ops, f.id, j + 1, n);
        assert ops[j] == AddOp(f);
      }
    }
    if ops[n] == AddOp(f) {
      assert Spared(ops, f.id, n + 1);
    }
  }

  lemma ExactPrefix(s: State, ops: seq<Op>, n: nat)
    requires n <= |ops|
    ensures Exact(s, ops) ==> Exact(s, ops[..n])
    ensures forall f :: Known(s, ops[..n], f) ==> Known(s, ops, f)
  {
  }

  lemma {:induction false} FilesAreKnown(s: State, ops: seq<Op>, f: Deb)
    requires f in Run(s, ops).files
    ensures Known(s, ops, f)
  {
    if ops != [] {
      var n := |ops| - 1;
      ExactPrefix(s, ops, n);
      if ops[n] != AddOp(f) {
        FilesAreKnown(s, ops[..n], f);
      }
    }
  }

  /** Removing an id takes away its file, and no other. */
  lemma RemoveIsExact(s: State, ops: seq<Op>, n: nat, f: Deb)
    requires n < |ops| && Exact(s, ops) && ops[n].RemoveOp?
    ensures var t := Run(s, ops[..n]);
            && (f in t.files && f.id != ops[n].id ==> f in Remove(t, ops[n].id).files)
            && (OnePerId(t.files) && f.id == ops[n].id ==> f !in Remove(t, ops[n].id).files)
  {
    var t, p := Run(s, ops[..n]), ops[n].id;
    assert Asks(ops, p);
    forall g | g in LookupAll(t.files, p)
      ensures g.id == p
    {
      FilesAreKnown(s, ops[..n], g);
      ExactPrefix(s, ops, n);
    }
    if f in t.files {
      RemoveFrame(t, p, f, ByName(p));
      if f.id == p && OnePerId(t.files) {
        ListsItself(f);
        assert LookupAll(t.files, p) == {f};
      }
    }
  }

  /** What one operation of the run does to a file. */
  lemma StepFiles(s: State, ops: seq<Op>, n: nat, f: Deb)
    requires n < |ops| && Exact(s, ops)
    ensures var t := Run(s, ops[..n]); var t' := Step(t, ops[n]);
            && (!Touches(ops[n], f.id) ==> (f in t'.files <==> f in t.files))
            && (ops[n].AddOp? && f.id == ops[n].file.id ==> (f in t'.files <==> f == ops[n].file))
            && (OnePerId(t.files) && ops[n] == RemoveOp(f.id) ==> f !in t'.files)
  {
    if ops[n].RemoveOp? {
      RemoveIsExact(s, ops, n, f);
    }
  }

  /** Over any run with exact look-ups, the repository holds exactly the files that the operations say it does. */
  lemma {:induction false} RunFiles(s: State, ops: seq<Op>)
    requires Exact(s, ops) && OnePerId(s.files)
    ensures OnePerId(Run(s, ops).files)
    ensures forall f :: f in Run(s, ops).files <==> Holds(s, ops, f)
    decreases |ops|
  {
    if ops != [] {
      var n := |ops| - 1;
      ExactPrefix(s, ops, n);
      RunFiles(s, ops[..n]);
      forall f
        ensures f in Step(Run(s, ops[..n]), ops[n]).files <==> Holds(s, ops, f)
      {
        HoldsByPrefix(s, ops, n, f);
        StepFiles(s, ops, n, f);
      }
    }
  }

  /** So every removal and every extract finds exactly the file that its id then holds, if any. */
  lemma RunLookup(s: State, ops: seq<Op>, k: nat, f: Deb)
    requires Exact(s, ops) && OnePerId(s.files) && k < |ops| && !ops[k].AddOp?
    ensures Lookup(Run(s, ops[..k]).files, ops[k].id) == Some(f) <==> f.id == ops[k].id && Holds(s, ops[..k], f)
  {
    var files, p := Run(s, ops[..k]).files, ops[k].id;
    ExactPrefix(s, ops, k);
    RunFiles(s, ops[..k]);
    assert Asks(ops, p);
    forall g | g in LookupAll(files, p)
      ensures g.id == p
    {
      FilesAreKnown(s, ops[..k], g);
    }
    if Lookup(files, p) == Some(f) {
      assert f in LookupAll(files, p);
    }
    if f in files && f.id == p {
      ListsItself(f);
      assert LookupAll(files, p) == {f};
      LookupOf(files, p, f);
    }
  }

  function Removals(ps: seq<PkgId>): (ops: seq<Op>)
    ensures |ops| == |ps| && forall i :: 0 <= i < |ps| ==> ops[i] == RemoveOp(ps[i])
  {
    seq(|ps|, i requires 0 <= i < |ps| => RemoveOp(ps[i]))
  }

  lemma {:induction false} RemoveAllIsRun(s: State, ps: seq<PkgId>)
    ensures RemoveAll(s, ps) == Run(s, Removals(ps))
    decreases |ps|
  {
    if ps != [] {
      var n, ops := |ps| - 1, Removals(ps);
      RemoveAllIsRun(s, ps[..n]);
      assert ops[..n] == Removals(ps[..n]) && ops[n] == RemoveOp(ps[n]);
      assert Run(s, ops) == Step(Run(s, ops[..n]), ops[n]) == Remove(RemoveAll(s, ps[..n]), ps[n]);
    }
  }

  /** Removing a list of packages leaves exactly the files of all others. */
  lemma RemovedAreGone(s: State, ps: seq<PkgId>, f: Deb)
    requires OnePerId(s.files) && forall p, g :: p in ps && g in s.files && Listed(p, g) ==> g.id == p
    ensures f in RemoveAll(s, ps).files <==> f in s.files && f.id !in ps
  {
    var ops := Removals(ps);
    RemoveAllIsRun(s, ps);
    RunFiles(s, ops);
    if f.id in ps {
      var i :| 0 <= i < |ps| && ps[i] == f.id;
      assert Touches(ops[i], f.id);
    }
  }

  ghost predicate Sole(files: set<Deb>, f: Deb) {
    forall g :: g in files && g.id == f.id <==> g == f
  }

  lemma SoleAfter(s: State, ops: seq<Op>, n: nat, f: Deb)
    requires n < |ops| && Exact(s, ops)
    requires ops[n] == AddOp(f) || (Sole(Run(s, ops[..n]).files, f) && !Touches(ops[n], f.id))
    ensures Sole(Step(Run(s, ops[..n]), ops[n]).files, f)
  {
    forall g
      ensures g in Step(Run(s, ops[..n]), ops[n]).files && g.id == f.id <==> g == f
    {
      StepFiles(s, ops, n, g);
    }
  }

  /** A stored file stays, as the only one of its id, until the id is stored again or removed. */
  lemma {:induction false} StoredStays(s: State, ops: seq<Op>, j: nat, f: Deb)
    requires Exact(s, ops) && j < |ops| && ops[j] == AddOp(f) && Spared(ops, f.id, j + 1)
    ensures Sole(Run(s, ops).files, f)
    decreases |ops|
  {
    var n := |ops| - 1;
    if j < n {
      ExactPrefix(s, ops, n);
      SparedByPrefix(ops, f.id, j + 1, n);
      StoredStays(s, ops[..n], j, f);
    }
    SoleAfter(s, ops, n, f);
  }

  lemma {:induction false} RunIsTrusty(s: State, ops: seq<Op>, n: nat)
    requires Exact(s, ops) && Timely(s, ops) && n <= |ops|
    ensures Trusty(s, ops, Run(s, ops[..n]))
    decreases n
  {
    if n > 0 {
      RunIsTrusty(s, ops, n - 1);
      var t, op := Run(s, ops[..n - 1]), ops[n - 1];
      assert ops[..n][..n - 1] == ops[..n - 1];
      if op.ExtractOp? && Lookup(t.files, op.id).Some? {
        var g := Lookup(t.files, op.id).value;
        assert g in LookupAll(t.files, op.id) && Asks(ops, op.id);
        FilesAreKnown(s, ops[..n - 1], g);
        ExactPrefix(s, ops, n - 1);
      }
    }
  }

  /** What was stored last under an id is what is extracted: with exact look-ups and fresh times, the look-up finds the
      file, and its directory is left with the file's contents and time. */
  lemma StoredIsExtracted(s: State, ops: seq<Op>, j: nat, k: nat, f: Deb)
    requires Exact(s, ops) && Timely(s, ops) && j < k < |ops| && ops[j] == AddOp(f)
    requires (forall i :: j < i < k ==> !Touches(ops[i], f.id)) && ops[k].ExtractOp? && ops[k].id == f.id
    ensures Lookup(Run(s, ops[..k]).files, f.id) == Some(f)
    ensures var t := Run(s, ops[..k + 1]);
            && f in t.files && ByName(f.id) in t.extracts
            && t.extracts[ByName(f.id)] == Unpacked(f.contents, if ops[k].removeStamp then None else Some(f.mtime))
  {
    var t := Run(s, ops[..k]);
    ExactPrefix(s, ops, k);
    assert ops[..k][j] == AddOp(f);
    StoredStays(s, ops[..k], j, f);
    ListsItself(f);
    forall g | g in LookupAll(t.files, f.id)
      ensures g == f
    {
      FilesAreKnown(s, ops[..k], g);
      assert ops[k] in ops && Asks(ops, f.id);
    }
    assert LookupAll(t.files, f.id) == {f};
    LookupOf(t.files, f.id, f);
    RunIsTrusty(s, ops, k);
    FilesAreKnown(s, ops[..k], f);
    assert ops[..k + 1][..k] == ops[..k];
  }

  lemma StepKeepsDir(t: State, op: Op, p: PkgId)
    requires op.ExtractOp? ==> op.id != p
    ensures SameDir(t, Step(t, op), ByName(p))
  {
    match op {
      case AddOp(f) =>
        AddKeepsUnpacked(t, f, p);
      case RemoveOp(q) =>
        RemoveFrame(t, q, Deb(q, "", 0, map[]), ByName(p));
      case ExtractOp(q, force, removeStamp) =>
        ExtractFrame(t, q, force, removeStamp, ByName(p));
    }
  }

  /** The directory stays as an extract left it until the id is extracted again. */
  lemma {:induction false} ExtractedStays(s: State, ops: seq<Op>, k: nat, p: PkgId)
    requires k <= |ops| && forall i :: k <= i < |ops| && ops[i].ExtractOp? ==> ops[i].id != p
    ensures SameDir(Run(s, ops[..k]), Run(s, ops), ByName(p))
    decreases |ops|
  {
    var n := |ops| - 1;
    if k == |ops| {
      assert ops[..k] == ops;
    } else {
      ExtractedStays(s, ops[..n], k, p);
      assert ops[..n][..k] == ops[..k];
      StepKeepsDir(Run(s, ops[..n]), ops[n], p);
    }
  }
}
