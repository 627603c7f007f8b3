/** The worklist merge: it fills nested output dicts in place, breadth first, from a queue of pairs. */
module YamlMerge {
  import opened Wrappers
  import opened YamlTree

  /** A mutable output dict. */
  class Node {
    var entries: map<string, Slot>

    constructor ()
      ensures entries == map[]
    {
      entries := map[];
    }

    /** Python's dict.setdefault. */
    method SetDefault(k: string, slot: Slot)
      modifies this
      ensures entries == if k in old(entries) then old(entries) else old(entries)[k := slot]
    {
      if k !in entries {
        entries := entries[k := slot];
      }
    }
  }

  datatype Slot = Scalar(value: Yaml) | Nested(node: Node)

  /** A queued triple: defaults, override, and the output dict to fill from them. */
  datatype Item = Item(d: Mapping, o: Mapping, out: Node)

  /** What each output dict created so far is to become. */
  type Goals = map<Node, Mapping>

  ghost function Goal(i: Item): Mapping { Merge(i.d, i.o) }

  // Measuring the work left.

  ghost function Sum(w: map<string, nat>): nat {
    if w == map[] then 0
    else
      var k :| k in w;
      w[k] + Sum(w - {k})
  }

  lemma {:induction false} SumMinus(w: map<string, nat>, k: string)
    requires k in w
    ensures Sum(w) == w[k] + Sum(w - {k})
  {
    var j :| j in w && Sum(w) == w[j] + Sum(w - {j});
    if j != k {
      SumMinus(w - {j}, k);
      SumMinus(w - {k}, j);
      assert w - {j} - {k} == w - {k} - {j};
    }
  }

  /** The number of dicts in a tree: each is one queue item of the merge that produces the tree. */
  ghost function Dicts(v: Yaml): nat
    decreases v, 1
  {
    if v.Dict? then 1 + Sum(EntryDicts(v)) else 0
  }

  ghost function EntryDicts(v: Yaml): map<string, nat>
    requires v.Dict?
    decreases v, 0
  {
    map k | k in v.entries :: Dicts(v.entries[k])
  }

  /** Dicts still to come from the entries of `goal` other than `keys`. */
  ghost function Due(goal: Mapping, keys: set<string>): nat {
    Sum(EntryDicts(Dict(goal)) - keys)
  }

  lemma DueMinus(goal: Mapping, keys: set<string>, k: string)
    requires k in goal && k !in keys
    ensures Due(goal, keys) == Dicts(goal[k]) + Due(goal, keys + {k})
  {
    var w := EntryDicts(Dict(goal));
    SumMinus(w - keys, k);
    assert w - keys - {k} == w - (keys + {k});
  }

  lemma DueAtEnds(goal: Mapping)
    ensures Dicts(Dict(goal)) == 1 + Due(goal, {}) && Due(goal, goal.Keys) == 0
  {
    var w := EntryDicts(Dict(goal));
    assert w - {} == w && w - goal.Keys == map[];
  }

  /** Work left in the queue: every dict that the queued items will still give rise to. */
  ghost function Work(q: seq<Item>): nat {
    if q == [] then 0 else Work(q[..|q| - 1]) + Dicts(Dict(Goal(q[|q| - 1])))
  }

  lemma {:induction false} WorkOfFirst(q: seq<Item>)
    requires q != []
    ensures Work(q) == Dicts(Dict(Goal(q[0]))) + Work(q[1..])
  {
    var n := |q| - 1;
    if n > 0 {
      WorkOfFirst(q[..n]);
      assert q[..n][1..] == q[1..][..n - 1];
    }
  }

  // Relating output dicts to their goals.

  ghost predicate SlotMeets(slot: Slot, v: Yaml, goals: Goals) {
    match slot
    case Scalar(x) => x == v && !v.Dict?
    case Nested(node) => v.Dict? && node in goals && goals[node] == v.entries
  }

  /** The entries present so far are right, given that nested dicts reach their goals. */
  ghost predicate Filling(entries: map<string, Slot>, goal: Mapping, goals: Goals) {
    && entries.Keys <= goal.Keys
    && forall k :: k in entries ==> SlotMeets(entries[k], goal[k], goals)
  }

  lemma FillingAdds(entries: map<string, Slot>, goal: Mapping, goals: Goals, k: string, slot: Slot)
    requires Filling(entries, goal, goals) && k in goal && SlotMeets(slot, goal[k], goals)
    ensures Filling(entries[k := slot], goal, goals)
  {
  }

  ghost predicate Settled(n: Node, goals: Goals)
    requires n in goals
    reads n
  {
    Filling(n.entries, goals[n], goals) && n.entries.Keys == goals[n].Keys
  }

  /** More output dicts may appear; what each is to become never changes. */
  ghost predicate Extends(goals: Goals, goals': Goals) {
    goals.Keys <= goals'.Keys && forall n :: n in goals ==> goals'[n] == goals[n]
  }

  lemma FillingExtends(entries: map<string, Slot>, goal: Mapping, goals: Goals, goals': Goals)
    requires Filling(entries, goal, goals) && Extends(goals, goals')
    ensures Filling(entries, goal, goals')
  {
    forall k | k in entries
      ensures SlotMeets(entries[k], goal[k], goals')
    {
      assert SlotMeets(entries[k], goal[k], goals);
    }
  }

  ghost function Outs(q: seq<Item>): set<Node> {
    set i | 0 <= i < |q| :: q[i].out
  }

  ghost predicate QueueOk(q: seq<Item>, goals: Goals)
    reads Outs(q)
  {
    && (forall i :: 0 <= i < |q| ==>
          q[i].out in goals && goals[q[i].out] == Goal(q[i]) && q[i].out.entries == map[])
    && (forall i, j :: 0 <= i < j < |q| ==> q[i].out != q[j].out)
  }

  /** The output dict `n` and everything below it is the tree `v`. */
  ghost predicate Represents(n: Node, v: Yaml, nodes: set<Node>)
    reads nodes
    decreases v
  {
    && n in nodes && v.Dict? && n.entries.Keys == v.entries.Keys
    && forall k :: k in v.entries ==>
         match n.entries[k]
         case Scalar(x) => x == v.entries[k] && !x.Dict?
         case Nested(child) => Represents(child, v.entries[k], nodes)
  }

  /** Once every output dict is settled, each one is its goal, all the way down. */
  lemma {:induction false} SettledRepresents(n: Node, v: Yaml, goals: Goals)
    requires n in goals && v == Dict(goals[n])
    requires forall m :: m in goals ==> Settled(m, goals)
    ensures Represents(n, v, goals.Keys)
    decreases v
  {
    forall k | k in v.entries && n.entries[k].Nested?
      ensures Represents(n.entries[k].node, v.entries[k], goals.Keys)
    {
      SettledRepresents(n.entries[k].node, v.entries[k], goals);
    }
  }

  /** Items and output dicts are only added, and every new output dict is queued. */
  ghost predicate Grown(q: seq<Item>, goals: Goals, q': seq<Item>, goals': Goals) {
    Extends(goals, goals') && Outs(q) <= Outs(q') && goals'.Keys <= goals.Keys + Outs(q')
  }

  /** The state of one round of the merge: `out` is being filled towards `goal`, the rest of the queue is in
      order, and the dicts still to come from `out` and the queue number `work`. */
  ghost predicate Round(out: Node, goal: Mapping, q: seq<Item>, goals: Goals, work: nat)
    reads out, Outs(q)
  {
    && out in goals && goals[out] == goal && out !in Outs(q)
    && Filling(out.entries, goal, goals)
    && QueueOk(q, goals)
    && Work(q) + Due(goal, out.entries.Keys) == work
  }

  /** Enter a scalar: no work is added and none was due. */
  method AddScalar(out: Node, k: string, v: Yaml, ghost goal: Mapping, ghost q: seq<Item>, ghost goals: Goals,
                   ghost work: nat)
    requires Round(out, goal, q, goals, work)
    requires k in goal && k !in out.entries && goal[k] == v && !v.Dict?
    modifies out
    ensures out.entries.Keys == old(out.entries.Keys) + {k}
    ensures Round(out, goal, q, goals, work)
  {
    DueMinus(goal, out.entries.Keys, k);
    FillingAdds(out.entries, goal, goals, k, Scalar(v));
    out.SetDefault(k, Scalar(v));
  }

  lemma QueueExtends(q: seq<Item>, goals: Goals, item: Item, goals': Goals)
    requires QueueOk(q, goals) && Extends(goals, goals')
    requires item.out !in Outs(q) && item.out in goals' && goals'[item.out] == Goal(item) && item.out.entries == map[]
    ensures QueueOk(q + [item], goals')
    ensures Outs(q + [item]) == Outs(q) + {item.out}
    ensures Work(q + [item]) == Work(q) + Dicts(Dict(Goal(item)))
  {
    var q' := q + [item];
    assert q'[..|q|] == q;
    forall i, j | 0 <= i < j < |q'|
      ensures q'[i].out != q'[j].out
    {
      assert q'[i].out in Outs(q);
    }
    forall n | n in Outs(q) + {item.out}
      ensures n in Outs(q')
    {
      if n == item.out {
        assert q'[|q|].out == n;
      } else {
        var i :| 0 <= i < |q| && q[i].out == n;
        assert q'[i].out == n;
      }
    }
  }

  /** Enter an empty dict and queue the pair that will fill it. */
  method AddChild(out: Node, k: string, d: Mapping, o: Mapping, q: seq<Item>, ghost goal: Mapping, ghost goals: Goals,
                  ghost work: nat)
    returns (q': seq<Item>, ghost goals': Goals)
    requires Round(out, goal, q, goals, work)
    requires k in goal && k !in out.entries && goal[k] == Dict(Merge(d, o))
    modifies out
    ensures out.entries.Keys == old(out.entries.Keys) + {k}
    ensures Grown(q, goals, q', goals') && forall n :: n in goals' && n !in goals ==> fresh(n)
    ensures Round(out, goal, q', goals', work)
  {
    var child := new Node();
    goals' := goals[child := Merge(d, o)];
    DueMinus(goal, out.entries.Keys, k);
    FillingExtends(out.entries, goal, goals, goals');
    FillingAdds(out.entries, goal, goals', k, Nested(child));
    QueueExtends(q, goals, Item(d, o, child), goals');
    out.SetDefault(k, Nested(child));
    q' := q + [Item(d, o, out.entries[k].node)];
  }

  /** Bookkeeping of a key loop: `k` is no longer among the keys left. */
  lemma KeyDone(goal: set<string>, left: set<string>, later: set<string>, k: string)
    requires k in left && k !in later
    ensures goal - (left - {k}) - later == goal - left - later + (if k in goal then {k} else {})
  {
  }

  /** The keys of the defaults alone. */
  method FillFromDefaults(d: Mapping, o: Mapping, out: Node, q: seq<Item>, ghost goals: Goals, ghost work: nat)
    returns (q': seq<Item>, ghost goals': Goals)
    requires Round(out, Merge(d, o), q, goals, work) && out.entries == map[]
    modifies out
    ensures Grown(q, goals, q', goals') && forall n :: n in goals' && n !in goals ==> fresh(n)
    ensures Round(out, Merge(d, o), q', goals', work)
    ensures out.entries.Keys == Merge(d, o).Keys - o.Keys
  {
    ghost var goal := Merge(d, o);
    q', goals' := q, goals;
    var ks := d.Keys - o.Keys;
    while ks != {}
      invariant ks <= d.Keys - o.Keys && out.entries.Keys == goal.Keys - ks - o.Keys
      invariant Grown(q, goals, q', goals') && forall n :: n in goals' && n !in goals ==> fresh(n)
      invariant Round(out, goal, q', goals', work)
    {
      var k :| k in ks;
      KeyDone(goal.Keys, ks, o.Keys, k);
      ks := ks - {k};
      var v := d[k];
      if v.Dict? {
        MergeWithEmptyOverride(v.entries);
        q', goals' := AddChild(out, k, v.entries, map[], q', goal, goals', work);
      } else {
        AddScalar(out, k, v, goal, q', goals', work);
      }
    }
  }

  /** The keys of the override alone; a null is a tombstone. */
  method FillFromOverride(d: Mapping, o: Mapping, out: Node, q: seq<Item>, ghost goals: Goals, ghost work: nat)
    returns (q': seq<Item>, ghost goals': Goals)
    requires Round(out, Merge(d, o), q, goals, work) && out.entries.Keys == Merge(d, o).Keys - o.Keys
    modifies out
    ensures Grown(q, goals, q', goals') && forall n :: n in goals' && n !in goals ==> fresh(n)
    ensures Round(out, Merge(d, o), q', goals', work)
    ensures out.entries.Keys == Merge(d, o).Keys - d.Keys * o.Keys
  {
    ghost var goal := Merge(d, o);
    q', goals' := q, goals;
    var ks := o.Keys - d.Keys;
    while ks != {}
      invariant ks <= o.Keys - d.Keys && out.entries.Keys == goal.Keys - ks - d.Keys * o.Keys
      invariant Grown(q, goals, q', goals') && forall n :: n in goals' && n !in goals ==> fresh(n)
      invariant Round(out, goal, q', goals', work)
    {
      var k :| k in ks;
      KeyDone(goal.Keys, ks, d.Keys * o.Keys, k);
      ks := ks - {k};
      var v := o[k];
      if v == Null {
        continue;
      }
      if v.Dict? {
        MergeWithEmptyDefaults(v.entries);
        q', goals' := AddChild(out, k, map[], v.entries, q', goal, goals', work);
      } else {
        AddScalar(out, k, v, goal, q', goals', work);
      }
    }
  }

  /** The keys of both: reconcile dicts, let the override's scalar win, promote the odd one out. */
  method FillFromBoth(d: Mapping, o: Mapping, out: Node, q: seq<Item>, ghost goals: Goals, ghost work: nat)
    returns (q': seq<Item>, ghost goals': Goals)
    requires Round(out, Merge(d, o), q, goals, work) && out.entries.Keys == Merge(d, o).Keys - d.Keys * o.Keys
    modifies out
    ensures Grown(q, goals, q', goals') && forall n :: n in goals' && n !in goals ==> fresh(n)
    ensures Round(out, Merge(d, o), q', goals', work)
    ensures out.entries.Keys == Merge(d, o).Keys
  {
    ghost var goal := Merge(d, o);
    q', goals' := q, goals;
    var ks := d.Keys * o.Keys;
    while ks != {}
      invariant ks <= d.Keys * o.Keys && out.entries.Keys == goal.Keys - ks - {}
      invariant Grown(q, goals, q', goals') && forall n :: n in goals' && n !in goals ==> fresh(n)
      invariant Round(out, goal, q', goals', work)
    {
      var k :| k in ks;
      KeyDone(goal.Keys, ks, {}, k);
      ks := ks - {k};
      var v1, v2 := d[k], o[k];
      if v2 == Null {
        continue;
      }
      if v1.Dict? && v2.Dict? {
        q', goals' := AddChild(out, k, v1.entries, v2.entries, q', goal, goals', work);
        continue;
      }
      if !v1.Dict? && !v2.Dict? {
        AddScalar(out, k, v2, goal, q', goals', work);
        continue;
      }
      if !v1.Dict? {
        v1 := Dict(map[DEFAULT_KEY := v1]);
      }
      if !v2.Dict? {
        v2 := Dict(map[DEFAULT_KEY := v2]);
      }
      q', goals' := AddChild(out, k, v1.entries, v2.entries, q', goal, goals', work);
    }
  }

  /** One iteration of the worklist: fill `out` from the pair `d`, `o`, visiting the keys in any order. */
  method Expand(d: Mapping, o: Mapping, out: Node, q: seq<Item>, ghost goals: Goals)
    returns (q': seq<Item>, ghost goals': Goals)
    requires out in goals && goals[out] == Merge(d, o) && out.entries == map[]
    requires out !in Outs(q) && QueueOk(q, goals)
    modifies out
    ensures Grown(q, goals, q', goals') && forall n :: n in goals' && n !in goals ==> fresh(n)
    ensures QueueOk(q', goals') && Settled(out, goals')
    ensures Work(q') + 1 == Work(q) + Dicts(Dict(Merge(d, o)))
  {
    ghost var work := Work(q) + Due(Merge(d, o), {});
    DueAtEnds(Merge(d, o));
    assert out.entries.Keys == {};
    q', goals' := FillFromDefaults(d, o, out, q, goals, work);
    q', goals' := FillFromOverride(d, o, out, q', goals', work);
    q', goals' := FillFromBoth(d, o, out, q', goals', work);
  }

  lemma PopFirst(q: seq<Item>, goals: Goals)
    requires q != [] && QueueOk(q, goals)
    ensures QueueOk(q[1..], goals) && q[0].out !in Outs(q[1..])
    ensures Outs(q) == {q[0].out} + Outs(q[1..])
    ensures Work(q) == Dicts(Dict(Goal(q[0]))) + Work(q[1..])
  {
    WorkOfFirst(q);
    forall n | n in Outs(q)
      ensures n in {q[0].out} + Outs(q[1..])
    {
      var i :| 0 <= i < |q| && q[i].out == n;
      assert i > 0 ==> q[1..][i - 1].out == n;
    }
  }

  /** The worklist loop: it ends, and the tree it leaves below `root` is the merge of `d` and `o`. */
  method MergeTrees(d: Mapping, o: Mapping) returns (root: Node, ghost nodes: set<Node>)
    ensures fresh(nodes)
    ensures Represents(root, Dict(Merge(d, o)), nodes)
  {
    root := new Node();
    ghost var goals: Goals := map[root := Merge(d, o)];
    var q := [Item(d, o, root)];
    while q != []
      invariant root in goals && goals[root] == Merge(d, o) && fresh(goals.Keys)
      invariant QueueOk(q, goals)
      invariant forall n :: n in goals && n !in Outs(q) ==> Settled(n, goals)
      decreases Work(q)
    {
      var item, rest := q[0], q[1..];
      ghost var before := goals;
      PopFirst(q, goals);
      q, goals := Expand(item.d, item.o, item.out, rest, goals);
      forall n | n in goals && n !in Outs(q)
        ensures Settled(n, goals)
      {
        if n != item.out {
          FillingExtends(n.entries, before[n], before, goals);
        }
      }
    }
    nodes := goals.Keys;
    SettledRepresents(root, Dict(Merge(d, o)), goals);
  }

  datatype Outcome = Merged(target: string, root: Node) | ValueError | AttributeError

  /** The two parsed files are a defaults tree under 'default' alone and, beside it, one target tree. */
  ghost predicate WellFormed(c1: Yaml, c2: Yaml) {
    && c1.Dict? && c1.entries.Keys == {"default"} && c1.entries["default"].Dict?
    && c2.Dict? && exists t :: c2.entries.Keys - {"default"} == {t} && c2.entries[t].Dict?
  }

  /** The merge of two parsed files. */
  method MergeFiles(c1: Yaml, c2: Yaml) returns (r: Outcome, ghost nodes: set<Node>)
    ensures fresh(nodes)
    ensures r.Merged? <==> WellFormed(c1, c2)
    ensures r.ValueError? <==>
              c1.Dict? && (c1.entries.Keys != {"default"} || (c2.Dict? && |c2.entries.Keys - {"default"}| != 1))
    ensures r.Merged? ==>
              && c2.entries.Keys - {"default"} == {r.target}
              && Represents(r.root, Dict(Merge(c1.entries["default"].entries, c2.entries[r.target].entries)), nodes)
  {
    nodes := {};
    if !c1.Dict? {
      return AttributeError, nodes;
    }
    if c1.entries.Keys != {"default"} {
      return ValueError, nodes;
    }
    if !c2.Dict? {
      return AttributeError, nodes;
    }
    var k2 := c2.entries.Keys - {"default"};
    if |k2| != 1 {
      return ValueError, nodes;
    }
    var target :| target in k2;
    OnlyElement(k2, target);
    if !c1.entries["default"].Dict? || !c2.entries[target].Dict? {
      return AttributeError, nodes;
    }
    var root;
    root, nodes := MergeTrees(c1.entries["default"].entries, c2.entries[target].entries);
    r := Merged(target, root);
  }
}
