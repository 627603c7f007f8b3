/** YAML trees and the recursive meaning of merging an override tree into a defaults tree. */
module YamlTree {
  import opened Wrappers

  /** A parsed YAML value; scalars and lists are opaque leaves. */
  datatype Yaml = Null | Leaf(value: string) | Dict(entries: Mapping)

  type Mapping = map<string, Yaml>

  /** The default-key schema under which a non-dict is promoted to a dict. */
  const DEFAULT_KEY := "="

  function Promote(v: Yaml): Mapping {
    if v.Dict? then v.entries else map[DEFAULT_KEY := v]
  }

  /** A tree without the entries that are tombstones, at any depth. */
  function Pruned(v: Yaml): Yaml {
    match v
    case Dict(m) => Dict(map k | k in m && m[k] != Null :: Pruned(m[k]))
    case _ => v
  }

  ghost function Largest(s: set<nat>): (n: nat)
    ensures forall x :: x in s ==> x <= n
    ensures s != {} ==> n in s
    ensures s == {} ==> n == 0
  {
    if s == {} then 0
    else
      var x :| x in s;
      var rest := Largest(s - {x});
      assert s == (s - {x}) + {x};
      if x > rest then x else rest
  }

  ghost function Height(v: Yaml): nat
    decreases v, 1
  {
    if v.Dict? then 1 + Largest(EntryHeights(v)) else 0
  }

  ghost function EntryHeights(v: Yaml): set<nat>
    requires v.Dict?
    decreases v, 0
  {
    set k | k in v.entries :: Height(v.entries[k])
  }

  ghost function PairHeight(d: Mapping, o: Mapping): nat {
    Largest({Height(Dict(d)), Height(Dict(o))})
  }

  lemma EntryIsLower(m: Mapping, k: string)
    requires k in m
    ensures Height(m[k]) < Height(Dict(m))
  {
    assert Height(m[k]) in EntryHeights(Dict(m));
  }

  /** Promotion may enlarge a pair, yet the taller side of the pair always shrinks. */
  lemma PromotedPairIsLower(d: Mapping, o: Mapping, k: string)
    requires k in d && k in o && (d[k].Dict? || o[k].Dict?)
    ensures PairHeight(Promote(d[k]), Promote(o[k])) < PairHeight(d, o)
  {
    EntryIsLower(d, k);
    EntryIsLower(o, k);
    PromotedHeight(d[k]);
    PromotedHeight(o[k]);
  }

  lemma PromotedHeight(v: Yaml)
    ensures Height(Dict(Promote(v))) == if v.Dict? then Height(v) else 1
  {
    if !v.Dict? {
      assert Promote(v)[DEFAULT_KEY] == v;
      assert EntryHeights(Dict(Promote(v))) == {Height(v)};
    }
  }

  /** The merge of defaults `d` and override `o`, both dicts: the override wins leaf by leaf, a null in the
      override deletes, and where just one side is a dict the other one is promoted. */
  function Merge(d: Mapping, o: Mapping): Mapping
    decreases PairHeight(d, o)
  {
    map k | k in d.Keys + o.Keys && (k in o ==> o[k] != Null) ::
      if k !in o then d[k]
      else if k !in d then Pruned(o[k])
      else if !d[k].Dict? && !o[k].Dict? then o[k]
      else
        PromotedPairIsLower(d, o, k);
        Dict(Merge(Promote(d[k]), Promote(o[k])))
  }

  lemma MergeWithEmptyOverride(d: Mapping)
    ensures Merge(d, map[]) == d
  {
  }

  lemma MergeWithEmptyDefaults(o: Mapping)
    ensures Dict(Merge(map[], o)) == Pruned(Dict(o))
  {
  }

  /** The same of the pairs that a dict on one side alone gives rise to. */
  lemma OneSidedPairIsLower(d: Mapping, o: Mapping, k: string)
    ensures k in d && d[k].Dict? ==> PairHeight(d[k].entries, map[]) < PairHeight(d, o)
    ensures k in o && o[k].Dict? ==> PairHeight(map[], o[k].entries) < PairHeight(d, o)
  {
    assert EntryHeights(Dict(map[])) == {};
    if k in d {
      EntryIsLower(d, k);
    }
    if k in o {
      EntryIsLower(o, k);
    }
  }

  /** Applying the same override again changes nothing. */
  lemma {:induction false} MergeIsIdempotent(d: Mapping, o: Mapping)
    ensures Merge(Merge(d, o), o) == Merge(d, o)
    decreases PairHeight(d, o)
  {
    var r := Merge(d, o);
    forall k | k in r
      ensures Merge(r, o)[k] == r[k]
    {
      if k in o && k !in d && o[k].Dict? {
        OneSidedPairIsLower(d, o, k);
        MergeIsIdempotent(map[], o[k].entries);
        MergeWithEmptyDefaults(o[k].entries);
      } else if k in o && k in d && (d[k].Dict? || o[k].Dict?) {
        PromotedPairIsLower(d, o, k);
        MergeIsIdempotent(Promote(d[k]), Promote(o[k]));
      }
    }
    assert Merge(r, o).Keys == r.Keys;
  }

  /** The value at a path of keys. */
  function Get(v: Yaml, p: seq<string>): Option<Yaml> {
    if p == [] then Some(v)
    else if v.Dict? && p[0] in v.entries then Get(v.entries[p[0]], p[1..])
    else None
  }

  /** A path of `n` default keys. */
  function Eqs(n: nat): (p: seq<string>)
    ensures |p| == n
  {
    if n == 0 then [] else [DEFAULT_KEY] + Eqs(n - 1)
  }

  /** A path that only descends through default keys. */
  predicate AllEqs(p: seq<string>) { p == Eqs(|p|) }

  /** How deep default keys nest in a value: where a scalar override of it ends up. */
  function EqDepth(v: Yaml): nat {
    if !v.Dict? then 0
    else if DEFAULT_KEY in v.entries then 1 + EqDepth(v.entries[DEFAULT_KEY])
    else 1
  }

  function EqDepthAt(v: Option<Yaml>): nat { if v.Some? then EqDepth(v.value) else 0 }

  lemma PrunedKeepsLeaves(v: Yaml, p: seq<string>)
    ensures Get(v, p).Some? && Get(v, p).value.Leaf? ==> Get(Pruned(v), p) == Get(v, p)
    ensures p != [] && Get(v, p) == Some(Null) ==> Get(Pruned(v), p) == None
    ensures v != Null ==> Get(Pruned(v), p) != Some(Null)
    ensures Get(Pruned(v), p).Some? && Get(Pruned(v), p).value.Leaf? ==> Get(v, p) == Get(Pruned(v), p)
  {
  }

  /** Every scalar of the override is found in the result, at its own path followed by as many default keys as
      the defaults nest there. */
  lemma {:induction false} OverrideWins(d: Mapping, o: Mapping, p: seq<string>)
    requires p != [] && Get(Dict(o), p).Some? && Get(Dict(o), p).value.Leaf?
    ensures Get(Dict(Merge(d, o)), p + Eqs(EqDepthAt(Get(Dict(d), p)))) == Get(Dict(o), p)
    decreases PairHeight(d, o)
  {
    var k, rest, r := p[0], p[1..], Merge(d, o);
    var n := EqDepthAt(Get(Dict(d), p));
    assert (p + Eqs(n))[1..] == rest + Eqs(n);
    if k !in d {
      PrunedKeepsLeaves(o[k], rest);
      assert rest + Eqs(0) == rest;
    } else if !d[k].Dict? && !o[k].Dict? {
      assert rest == [];
    } else {
      PromotedPairIsLower(d, o, k);
      if rest == [] {
        OverrideWins(Promote(d[k]), Promote(o[k]), [DEFAULT_KEY]);
        assert Get(Dict(d), p) == Some(d[k]);
        assert rest + Eqs(n) == Eqs(n) == [DEFAULT_KEY] + Eqs(n - 1);
      } else {
        OverrideWins(Promote(d[k]), Promote(o[k]), rest);
      }
    }
  }

  /** A null in the override leaves nothing at its path. */
  lemma {:induction false} TombstoneDeletes(d: Mapping, o: Mapping, p: seq<string>)
    requires p != [] && Get(Dict(o), p) == Some(Null)
    ensures Get(Dict(Merge(d, o)), p) == None
    decreases PairHeight(d, o)
  {
    var k, rest := p[0], p[1..];
    if rest != [] {
      if k !in d {
        PrunedKeepsLeaves(o[k], rest);
      } else {
        PromotedPairIsLower(d, o, k);
        TombstoneDeletes(Promote(d[k]), Promote(o[k]), rest);
      }
    }
  }

  /** The override does not mention the path: above it it has but dicts, or a scalar that ends up on another path. */
  predicate Untouched(o: Mapping, p: seq<string>)
    decreases p
  {
    && p != []
    && (p[0] in o ==>
          match o[p[0]]
          case Null => false
          case Leaf(_) => !AllEqs(p[1..])
          case Dict(m) => Untouched(m, p[1..]))
  }

  /** What the override does not mention stays as the defaults have it, also below a dict that a scalar overrides. */
  lemma {:induction false} DefaultsSurvive(d: Mapping, o: Mapping, p: seq<string>)
    requires Untouched(o, p) && Get(Dict(d), p).Some?
    ensures Get(Dict(Merge(d, o)), p) == Get(Dict(d), p)
    decreases PairHeight(d, o)
  {
    var k, rest := p[0], p[1..];
    if k in o {
      assert rest != [] && d[k].Dict?;
      PromotedPairIsLower(d, o, k);
      if o[k].Leaf? {
        assert rest == [rest[0]] + rest[1..];
      }
      DefaultsSurvive(Promote(d[k]), Promote(o[k]), rest);
    }
  }
}
