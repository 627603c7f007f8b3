/** The package manager object: loops over its groups, recursing through prerequisites and filling the
    repository as groups are built. */
module PackageManager {
  import opened Wrappers
  import opened PackageRepo
  import Graph = PackageGraph

  class OnlPackageManager {
    const world: Graph.World
    const opr: OnlPackageRepo

    /** The groups built so far, in order. */
    var log: seq<nat>

    constructor (world: Graph.World, opr: OnlPackageRepo)
      ensures this.world == world && this.opr == opr && log == []
    {
      this.world, this.opr, this.log := world, opr, [];
    }

    ghost function Value(): Graph.Progress
      reads this, opr
    {
      Graph.Progress(opr.Value(), log)
    }

    /** Whether group `i` contains the package. */
    method GroupContains(i: nat, p: PkgId) returns (found: bool)
      requires i < |world.groups|
      ensures found <==> Graph.Declares(world, i, p)
    {
      var products := world.groups[i].products;
      for k := 0 to |products|
        invariant forall j :: 0 <= j < k ==> products[j].id != p
      {
        if products[k].id == p {
          return true;
        }
      }
      return false;
    }

    /** Whether any group contains the package. */
    method ContainsPackage(p: PkgId) returns (found: bool)
      ensures found <==> Graph.Declared(world, p)
    {
      for i := 0 to |world.groups|
        invariant forall j :: 0 <= j < i ==> !Graph.Declares(world, j, p)
      {
        found := GroupContains(i, p);
        if found {
          return;
        }
      }
      return false;
    }

    method Require(p: PkgId, mode: Graph.Mode, depth: nat) returns (r: Graph.Outcome)
      modifies this, opr
      ensures (r, Value()) == Graph.Require(world, old(Value()), p, mode, depth)
      decreases depth, 0
    {
      var known := ContainsPackage(p);
      if !known {
        if mode.skipMissing {
          return Graph.Done;
        }
        return Graph.Missing(p);
      }
      if depth == 0 {
        return Graph.TooDeep;
      }
      r := Graph.Done;
      if mode.force || (LookupAll(opr.files, p) == {} && mode.buildMissing) {
        r := Build(p, false, depth - 1);
      } else if LookupAll(opr.files, p) != {} {
        r := Build(p, true, depth - 1);
      }
      if r == Graph.Done && LookupAll(opr.files, p) == {} {
        r := Graph.NotBuilt(p);
      }
    }

    method Build(p: PkgId, prereqsOnly: bool, depth: nat) returns (r: Graph.Outcome)
      modifies this, opr
      ensures (r, Value()) == Graph.Build(world, old(Value()), p, prereqsOnly, depth, 0, false)
      decreases depth, 2
    {
      var built := false;
      for i := 0 to |world.groups|
        invariant Graph.Build(world, old(Value()), p, prereqsOnly, depth, 0, false) ==
                  Graph.Build(world, Value(), p, prereqsOnly, depth, i, built)
      {
        var here := GroupContains(i, p);
        if here {
          r := BuildGroup(i, prereqsOnly, depth);
          if r != Graph.Done {
            return;
          }
          built := true;
        }
      }
      r := if built then Graph.Done else Graph.Missing(p);
    }

    /** The body of the build loop for one group. */
    method BuildGroup(i: nat, prereqsOnly: bool, depth: nat) returns (r: Graph.Outcome)
      requires i < |world.groups|
      modifies this, opr
      ensures (r, Value()) == Graph.BuildGroup(world, old(Value()), i, prereqsOnly, depth)
      decreases depth, 1
    {
      var prereqs := world.groups[i].prereqs;
      for n := 0 to |prereqs|
        invariant Graph.RequireAll(world, old(Value()), prereqs, depth) ==
                  Graph.RequireAll(world, Value(), prereqs[n..], depth)
      {
        r := Require(prereqs[n], Graph.Mode(false, true, false), depth);
        assert prereqs[n..][1..] == prereqs[n + 1..];
        if r != Graph.Done {
          return;
        }
      }
      if prereqsOnly {
        return Graph.Done;
      }
      if i in world.broken {
        return Graph.BuildFailed(i);
      }
      var products := world.groups[i].products;
      var ok, stored := opr.AddPackages(seq(|products|, k requires 0 <= k < |products| => Some(products[k])));
      assert stored == products;
      log := log + [i];
      return Graph.Done;
    }
  }
}
