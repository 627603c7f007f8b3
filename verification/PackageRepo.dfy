/** A package repository and its extract cache: files named `<name>_<version>_<arch>.deb`, one directory of
    them per architecture, and directories into which package files have been unpacked. */
module PackageRepo {
  import opened Wrappers

  /** The canonical package identifier `<name>:<arch>`. */
  datatype PkgId = PkgId(name: string, arch: string)

  type Contents = map<string, string>

  /** A stored package file; `mtime` is the time its copy in the repository carries. */
  datatype Deb = Deb(id: PkgId, version: string, mtime: int, contents: Contents)

  /** Below the extracts directory: `<name>_<arch>`, or `<arch>/<name>`. */
  datatype Dir = ByName(id: PkgId) | ByArch(arch: string, name: string)

  /** An unpacked package; `stamp` is the time of its timestamp file, if there is one. */
  datatype Unpacked = Unpacked(contents: Contents, stamp: Option<int>)

  datatype State = State(files: set<Deb>, extracts: map<Dir, Unpacked>)

  // Names and look-up.

  function FileName(f: Deb): string {
    f.id.name + "_" + f.version + "_" + f.id.arch + ".deb"
  }

  predicate OccursAt(text: string, needle: string, i: nat) {
    i + |needle| <= |text| && text[i..i + |needle|] == needle
  }

  /** Python's `needle in text`. */
  predicate Contains(text: string, needle: string) {
    exists i :: 0 <= i <= |text| && OccursAt(text, needle, i)
  }

  /** Whether a look-up of `p` lists file `f`: both parts of the id are looked for as substrings of the file
      name, in the directory of the architecture. */
  predicate Listed(p: PkgId, f: Deb) {
    f.id.arch == p.arch && Contains(FileName(f), p.arch) && Contains(FileName(f), p.name + "_")
  }

  lemma ListsItself(f: Deb)
    ensures Listed(f.id, f)
  {
    var t, n, a := FileName(f), f.id.name + "_", f.id.arch;
    assert OccursAt(t, n, 0);
    var i := |f.id.name| + |f.version| + 2;
    assert t == f.id.name + "_" + f.version + "_" + (a + ".deb");
    assert OccursAt(t, a, i);
  }

  function LookupAll(files: set<Deb>, p: PkgId): set<Deb> {
    set f | f in files && Listed(p, f)
  }

  /** The one file listed for `p`; none if there is no such file, or more than one. */
  ghost function Lookup(files: set<Deb>, p: PkgId): (r: Option<Deb>)
    ensures r.Some? ==> LookupAll(files, p) == {r.value}
  {
    if f :| LookupAll(files, p) == {f} then Some(f) else None
  }

  /** The file stored under an id, which is what the look-up is meant to find. */
  ghost function Own(files: set<Deb>, p: PkgId): (r: Option<Deb>)
    ensures r.Some? ==> r.value in files && r.value.id == p
  {
    if f :| f in files && f.id == p then Some(f) else None
  }

  /** Files listed for `p` that belong to another id. */
  function Impostors(files: set<Deb>, p: PkgId): set<Deb> {
    set f | f in files && Listed(p, f) && f.id != p
  }

  ghost predicate OnePerId(files: set<Deb>) {
    forall f, g :: f in files && g in files && f.id == g.id ==> f == g
  }

  /** A look-up finds exactly the file stored under the id if and only if no file of another id is listed with
      it; of absent packages only a single such file makes it wrong. */
  lemma LookupIsExact(files: set<Deb>, p: PkgId)
    requires OnePerId(files)
    ensures Lookup(files, p) == Own(files, p) <==>
            (Impostors(files, p) == {} || (Own(files, p).None? && |Impostors(files, p)| != 1))
  {
    var all, others, own := LookupAll(files, p), Impostors(files, p), Own(files, p);
    if own.Some? {
      ListsItself(own.value);
      assert all == others + {own.value};
    } else {
      assert all == others;
      if |others| == 1 {
        var f :| f in others;
        OnlyElement(others, f);
      }
    }
  }

  // The operations.

  /** Store a file: earlier versions of the package go, and so does the directory `<arch>/<name>`. */
  function Add(s: State, f: Deb): State {
    State((set g | g in s.files && g.id != f.id) + {f}, s.extracts - {ByArch(f.id.arch, f.id.name)})
  }

  function AddAll(s: State, fs: seq<Deb>): State {
    if fs == [] then s else Add(AddAll(s, fs[..|fs| - 1]), fs[|fs| - 1])
  }

  ghost function Remove(s: State, p: PkgId): State {
    match Lookup(s.files, p)
    case None => s
    case Some(f) => s.(files := s.files - {f})
  }

  ghost function RemoveAll(s: State, ps: seq<PkgId>): State {
    if ps == [] then s else Remove(RemoveAll(s, ps[..|ps| - 1]), ps[|ps| - 1])
  }

  /** The unpacked directory is taken to be up to date when its timestamp is that of the file. */
  predicate CacheHit(s: State, p: PkgId, f: Deb) {
    ByName(p) in s.extracts && s.extracts[ByName(p)].stamp == Some(f.mtime)
  }

  ghost function Extract(s: State, p: PkgId, force: bool, removeStamp: bool): State {
    match Lookup(s.files, p)
    case None => s
    case Some(f) =>
      var u := if !force && CacheHit(s, p, f) then s.extracts[ByName(p)] else Unpacked(f.contents, Some(f.mtime));
      s.(extracts := s.extracts[ByName(p) := if removeStamp then u.(stamp := None) else u])
  }

  // Agreement of the cache with the repository.

  /** A hit for file `f` in the directory of `p` finds the contents of `f`. */
  ghost predicate HitIsGood(s: State, p: PkgId, f: Deb) {
    CacheHit(s, p, f) ==> s.extracts[ByName(p)].contents == f.contents
  }

  /** No extract of any package can hit a directory with other contents than the file it stands for. */
  ghost predicate Coherent(s: State) {
    forall p, f :: f in s.files && Listed(p, f) ==> HitIsGood(s, p, f)
  }

  /** The new file does not carry the time of an unpacked directory that holds something else. */
  ghost predicate FreshStamp(s: State, f: Deb) {
    forall p :: Listed(p, f) ==> HitIsGood(s, p, f)
  }

  /** Storing a file keeps the cache coherent exactly when the file's time is fresh. */
  lemma AddCoherent(s: State, f: Deb)
    requires Coherent(s)
    ensures Coherent(Add(s, f)) <==> FreshStamp(s, f)
  {
  }

  lemma ExtractCoherent(s: State, p: PkgId, force: bool, removeStamp: bool)
    requires Coherent(s)
    ensures Coherent(Extract(s, p, force, removeStamp))
  {
    var s' := Extract(s, p, force, removeStamp);
    forall q, g | g in s'.files && Listed(q, g)
      ensures HitIsGood(s', q, g)
    {
      assert HitIsGood(s, q, g);
      if q == p {
        assert g in LookupAll(s.files, p);
      }
    }
  }

  /** A successful extract leaves the contents of the file that the look-up found, unless it trusts a directory
      of the same time and other contents; from a coherent state it never does. */
  lemma ExtractAgrees(s: State, p: PkgId, force: bool, removeStamp: bool)
    requires Lookup(s.files, p).Some?
    ensures var f, s' := Lookup(s.files, p).value, Extract(s, p, force, removeStamp);
            && ByName(p) in s'.extracts
            && (s'.extracts[ByName(p)].contents == f.contents <==> force || HitIsGood(s, p, f))
            && (Coherent(s) ==> s'.extracts[ByName(p)].contents == f.contents)
  {
  }

  /** Storing a file leaves every directory that extract uses untouched: the directory it clears is another. */
  lemma AddKeepsUnpacked(s: State, f: Deb, p: PkgId)
    ensures ByName(p) in Add(s, f).extracts <==> ByName(p) in s.extracts
    ensures ByName(p) in s.extracts ==> Add(s, f).extracts[ByName(p)] == s.extracts[ByName(p)]
  {
  }

  /** So a new file that reuses the time of the old one is not unpacked: extract returns the old contents. */
  lemma ReusedStampIsStale(s: State, p: PkgId, f: Deb, g: Deb)
    requires Lookup(s.files, p) == Some(f) && g.mtime == f.mtime && g.contents != f.contents
    requires var s' := Add(Extract(s, p, true, false), g); Lookup(s'.files, p) == Some(g)
    ensures var s' := Add(Extract(s, p, true, false), g);
            Extract(s', p, false, false).extracts[ByName(p)].contents == f.contents != g.contents
  {
  }

  // Whole runs.

  datatype Op = AddOp(file: Deb) | RemoveOp(id: PkgId) | ExtractOp(id: PkgId, force: bool, removeStamp: bool)

  ghost function Step(s: State, op: Op): State {
    match op
    case AddOp(f) => Add(s, f)
    case RemoveOp(p) => Remove(s, p)
    case ExtractOp(p, force, removeStamp) => Extract(s, p, force, removeStamp)
  }

  ghost function Run(s: State, ops: seq<Op>): State {
    if ops == [] then s else Step(Run(s, ops[..|ops| - 1]), ops[|ops| - 1])
  }

  /** Every file is stored with a fresh time. */
  ghost predicate FreshRun(s: State, ops: seq<Op>) {
    forall k :: 0 <= k < |ops| && ops[k].AddOp? ==> FreshStamp(Run(s, ops[..k]), ops[k].file)
  }

  /** Over any run in which times are fresh, the cache stays coherent and each id has at most one file. */
  lemma {:induction false} RunIsCoherent(s: State, ops: seq<Op>)
    requires Coherent(s) && OnePerId(s.files) && FreshRun(s, ops)
    ensures Coherent(Run(s, ops)) && OnePerId(Run(s, ops).files)
  {
    if ops != [] {
      var n := |ops| - 1;
      var before, op := Run(s, ops[..n]), ops[n];
      forall k | 0 <= k < n && ops[..n][k].AddOp?
        ensures FreshStamp(Run(s, ops[..n][..k]), ops[..n][k].file)
      {
        assert ops[..n][..k] == ops[..k] && ops[k].AddOp?;
      }
      RunIsCoherent(s, ops[..n]);
      match op {
        case AddOp(f) =>
          AddCoherent(before, f);
        case RemoveOp(p) =>
          var after := Remove(before, p);
          forall q, g | g in after.files && Listed(q, g)
            ensures HitIsGood(after, q, g)
          {
            assert HitIsGood(before, q, g);
          }
        case ExtractOp(p, force, removeStamp) =>
          ExtractCoherent(before, p, force, removeStamp);
      }
    }
  }

  /** Therefore every successful extract of such a run leaves the contents of the package file then stored. */
  lemma RunExtractsAgree(s: State, ops: seq<Op>, k: nat)
    requires Coherent(s) && OnePerId(s.files) && FreshRun(s, ops)
    requires k < |ops| && ops[k].ExtractOp? && Impostors(Run(s, ops[..k]).files, ops[k].id) == {}
    requires Own(Run(s, ops[..k]).files, ops[k].id).Some?
    ensures ByName(ops[k].id) in Run(s, ops[..k + 1]).extracts
    ensures Run(s, ops[..k + 1]).extracts[ByName(ops[k].id)].contents ==
            Own(Run(s, ops[..k]).files, ops[k].id).value.contents
  {
    forall j | 0 <= j < k && ops[..k][j].AddOp?
      ensures FreshStamp(Run(s, ops[..k][..j]), ops[..k][j].file)
    {
      assert ops[..k][..j] == ops[..j] && ops[j].AddOp?;
    }
    RunIsCoherent(s, ops[..k]);
    LookupIsExact(Run(s, ops[..k]).files, ops[k].id);
    ExtractAgrees(Run(s, ops[..k]), ops[k].id, ops[k].force, ops[k].removeStamp);
    assert ops[..k + 1][..k] == ops[..k];
  }

  /** The repository object. */
  class OnlPackageRepo {
    var files: set<Deb>
    var extracts: map<Dir, Unpacked>

    ghost function Value(): State
      reads this
    {
      State(files, extracts)
    }

    constructor ()
      ensures Value() == State({}, map[])
    {
      files, extracts := {}, map[];
    }

    /** Store package files, up to the first path that does not exist. */
    method AddPackages(pkglist: seq<Option<Deb>>) returns (ok: bool, ghost stored: seq<Deb>)
      modifies this
      ensures |stored| <= |pkglist| && forall i :: 0 <= i < |stored| ==> pkglist[i] == Some(stored[i])
      ensures ok <==> |stored| == |pkglist|
      ensures !ok ==> pkglist[|stored|] == None
      ensures Value() == AddAll(old(Value()), stored)
    {
      stored := [];
      for n := 0 to |pkglist|
        invariant |stored| == n && forall i :: 0 <= i < n ==> pkglist[i] == Some(stored[i])
        invariant Value() == AddAll(old(Value()), stored)
      {
        if pkglist[n].None? {
          return false, stored;
        }
        var p := pkglist[n].value;
        files := set g | g in files && g.id != p.id;
        files := files + {p};
        var dir := ByArch(p.id.arch, p.id.name);
        if dir in extracts {
          extracts := extracts - {dir};
        }
        ghost var before := stored;
        stored := stored + [p];
        assert stored[..n] == before;
      }
      ok := true;
    }

    method LookupPackage(p: PkgId) returns (r: Option<Deb>)
      ensures r == Lookup(files, p)
    {
      var all := LookupAll(files, p);
      if |all| == 0 || |all| > 1 {
        return None;
      }
      var f :| f in all;
      OnlyElement(all, f);
      r := Some(f);
    }

    method RemovePackages(pkglist: seq<PkgId>)
      modifies this
      ensures Value() == RemoveAll(old(Value()), pkglist)
    {
      for n := 0 to |pkglist|
        invariant Value() == RemoveAll(old(Value()), pkglist[..n])
      {
        var path := LookupPackage(pkglist[n]);
        if path.Some? {
          files := files - {path.value};
        }
        assert pkglist[..n + 1][..n] == pkglist[..n];
      }
      assert pkglist[..|pkglist|] == pkglist;
    }

    /** Unpack a package into its directory below the extracts, unless that is up to date already. */
    method ExtractPackage(p: PkgId, force: bool, removeStamp: bool) returns (ok: bool)
      modifies this
      ensures ok <==> Lookup(old(files), p).Some?
      ensures Value() == Extract(old(Value()), p, force, removeStamp)
    {
      var path := LookupPackage(p);
      if path.None? {
        return false;
      }
      var f, edir, unpack := path.value, ByName(p), force;
      if !force && edir in extracts && extracts[edir].stamp.Some? {
        if extracts[edir].stamp.value != f.mtime {
          unpack := true;
        }
      } else {
        unpack := true;
      }
      if unpack {
        extracts := extracts[edir := Unpacked(f.contents, Some(f.mtime))];
      }
      if removeStamp && extracts[edir].stamp.Some? {
        extracts := extracts[edir := extracts[edir].(stamp := None)];
      }
      return true;
    }
  }
}
