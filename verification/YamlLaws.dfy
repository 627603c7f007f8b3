/** What a merge leaves at every path of the result, read off the two trees without merging them. */
module YamlLaws {
  import opened Wrappers
  import opened YamlTree

  /** What an override `x` makes of a scalar default at path `r`: how many default keys deeper it ends up, or None if
      it is overridden or deleted. */
  function Spares(x: Yaml, r: seq<string>): Option<nat>
    decreases x
  {
    match x
    case Null => None
    case Leaf(_) => if AllEqs(r) then None else Some(0)
    case Dict(m) =>
      if r != [] then (if r[0] in m then Spares(m[r[0]], r[1..]) else Some(0))
      else if DEFAULT_KEY !in m then Some(1)
      else
        var below := Spares(m[DEFAULT_KEY], []);
        if below.Some? then Some(1 + below.value) else None
  }

  /** For paths that go on, promotion of the override makes no difference to that. */
  lemma SparesPromoted(v: Yaml, r: seq<string>)
    requires r != [] && v != Null
    ensures Spares(Dict(Promote(v)), r) == Spares(v, r)
  {
    if v.Leaf? {
      assert r == [r[0]] + r[1..];
    }
  }

  /** A value, null included, that is no dict. */
  predicate IsScalar(v: Option<Yaml>) { v.Some? && !v.value.Dict? }

  predicate IsDict(v: Option<Yaml>) { v.Some? && v.value.Dict? }

  /** Both sides have the key, and at least one has a dict below it: the two are merged further down. */
  predicate Deepens(d: Mapping, o: Mapping, k: string) {
    k in d && k in o && (d[k].Dict? || o[k].Dict?)
  }

  lemma BelowKey(d: Mapping, o: Mapping, k: string, p: seq<string>)
    requires Deepens(d, o, k) && o[k] != Null && p != [] && p[0] == k
    ensures Get(Dict(Merge(d, o)), p) == Get(Dict(Merge(Promote(d[k]), Promote(o[k]))), p[1..])
  {
  }

  /** Every scalar of the defaults, null included, is found at its own path, or promoted below it, unless it is
      overridden or deleted. */
  lemma {:induction false} DefaultsKept(d: Mapping, o: Mapping, p: seq<string>)
    requires p != [] && IsScalar(Get(Dict(d), p)) && Spares(Dict(o), p).Some?
    ensures Get(Dict(Merge(d, o)), p + Eqs(Spares(Dict(o), p).value)) == Get(Dict(d), p)
    decreases PairHeight(d, o)
  {
    var k, rest, n := p[0], p[1..], Spares(Dict(o), p).value;
    assert (p + Eqs(n))[1..] == rest + Eqs(n);
    if k !in o {
      assert rest + Eqs(n) == rest;
    } else {
      assert Get(Dict(d), p) == Get(d[k], rest) && Deepens(d, o, k);
      PromotedPairIsLower(d, o, k);
      BelowKey(d, o, k, p + Eqs(n));
      if rest == [] {
        assert [DEFAULT_KEY][1..] == [];
        DefaultsKept(Promote(d[k]), Promote(o[k]), [DEFAULT_KEY]);
        assert Eqs(n) == [DEFAULT_KEY] + Eqs(n - 1);
      } else {
        SparesPromoted(o[k], rest);
        DefaultsKept(Promote(d[k]), Promote(o[k]), rest);
      }
    }
  }

  lemma {:induction false} SparesDict(x: Yaml, p: seq<string>)
    requires IsDict(Get(x, p)) && DEFAULT_KEY !in Get(x, p).value.entries
    ensures Spares(x, p) == Some(1)
    decreases p
  {
    if p != [] {
      SparesDict(x.entries[p[0]], p[1..]);
    }
  }

  /** So a scalar default is promoted where the override has a dict, and found under its default key, unless the
      override has one itself. */
  lemma DefaultIsPromoted(d: Mapping, o: Mapping, p: seq<string>)
    requires IsScalar(Get(Dict(d), p)) && IsDict(Get(Dict(o), p))
    requires DEFAULT_KEY !in Get(Dict(o), p).value.entries
    ensures Get(Dict(Merge(d, o)), p + [DEFAULT_KEY]) == Get(Dict(d), p)
  {
    SparesDict(Dict(o), p);
    DefaultsKept(d, o, p);
    assert Eqs(1) == [DEFAULT_KEY];
  }

  /** And where the override has a scalar and the defaults a dict, everything in the dict survives but what is below
      default keys alone. */
  lemma ScalarSparesTheRest(d: Mapping, o: Mapping, p: seq<string>, q: seq<string>)
    requires p != [] && Get(Dict(o), p).Some? && Get(Dict(o), p).value.Leaf? && !AllEqs(q)
    requires Get(Dict(d), p + q).Some?
    ensures Get(Dict(Merge(d, o)), p + q) == Get(Dict(d), p + q)
  {
    UntouchedBeside(o, p, q);
    DefaultsSurvive(d, o, p + q);
  }

  lemma {:induction false} UntouchedBeside(o: Mapping, p: seq<string>, q: seq<string>)
    requires p != [] && Get(Dict(o), p).Some? && Get(Dict(o), p).value.Leaf? && !AllEqs(q)
    ensures Untouched(o, p + q)
    decreases p
  {
    assert (p + q)[1..] == p[1..] + q;
    assert Get(Dict(o), p) == Get(o[p[0]], p[1..]);
    if o[p[0]].Leaf? {
      assert p[1..] + q == q;
    } else {
      UntouchedBeside(o[p[0]].entries, p[1..], q);
    }
  }

  // Which scalars there are.

  /** The scalar `v` at path `p` of the result is the override's from path `p[..j]`, below as many default keys as the
      defaults nest there. */
  predicate FromOverride(d: Mapping, o: Mapping, p: seq<string>, j: nat, v: Yaml)
    requires j <= |p|
  {
    v.Leaf? && Get(Dict(o), p[..j]) == Some(v) && |p| - j == EqDepthAt(Get(Dict(d), p[..j]))
  }

  /** It is the defaults' from that path, below as many default keys as the override adds there. */
  predicate FromDefaults(d: Mapping, o: Mapping, p: seq<string>, j: nat, v: Yaml)
    requires j <= |p|
  {
    !v.Dict? && Get(Dict(d), p[..j]) == Some(v) && Spares(Dict(o), p[..j]) == Some(|p| - j)
  }

  /** Where a scalar of the result comes from. */
  predicate Origin(d: Mapping, o: Mapping, p: seq<string>, j: nat, v: Yaml) {
    && 0 < j <= |p| && AllEqs(p[j..])
    && (FromOverride(d, o, p, j, v) || FromDefaults(d, o, p, j, v))
  }

  /** The origin of a scalar in the merge of two promoted trees is an origin in the trees themselves: a promoted scalar
      is found one step earlier. */
  lemma OriginAbove(d: Mapping, o: Mapping, p: seq<string>, i: nat, v: Yaml) returns (j: nat)
    requires p != [] && Deepens(d, o, p[0]) && o[p[0]] != Null
    requires Origin(Promote(d[p[0]]), Promote(o[p[0]]), p[1..], i, v)
    ensures Origin(d, o, p, j, v)
  {
    var k, rest := p[0], p[1..];
    if FromOverride(Promote(d[k]), Promote(o[k]), rest, i, v) {
      j := if o[k].Dict? then i + 1 else 1;
      OverrideAbove(d, o, p, i, j, v);
    } else {
      j := if d[k].Dict? then i + 1 else 1;
      DefaultsAbove(d, o, p, i, j, v);
    }
  }

  /** A scalar promoted under the default key has a path of one step. */
  lemma PromotedStep(x: Yaml, rest: seq<string>, i: nat, v: Yaml)
    requires !x.Dict? && 0 < i <= |rest| && AllEqs(rest[i..]) && Get(Dict(Promote(x)), rest[..i]) == Some(v) && !v.Dict?
    ensures i == 1 && v == x && rest[..1] == [DEFAULT_KEY] && AllEqs(rest)
  {
    assert rest[..i] == [DEFAULT_KEY] + rest[..i][1..];
    assert rest[..i][1..] == [];
    assert rest == [DEFAULT_KEY] + rest[1..];
  }

  lemma OverrideAbove(d: Mapping, o: Mapping, p: seq<string>, i: nat, j: nat, v: Yaml)
    requires p != [] && Deepens(d, o, p[0]) && 0 < i < |p| && AllEqs(p[1..][i..])
    requires FromOverride(Promote(d[p[0]]), Promote(o[p[0]]), p[1..], i, v)
    requires j == if o[p[0]].Dict? then i + 1 else 1
    ensures 0 < j <= |p| && AllEqs(p[j..]) && FromOverride(d, o, p, j, v)
  {
    var k, rest := p[0], p[1..];
    if o[k].Dict? {
      assert p[..j][1..] == rest[..i] && p[j..] == rest[i..];
      if !d[k].Dict? && DEFAULT_KEY == rest[0] {
        assert Get(Dict(Promote(d[k])), rest[..i]) == Get(d[k], rest[..i][1..]);
      }
    } else {
      PromotedStep(o[k], rest, i, v);
      assert p[..1][1..] == [] && p[1..] == rest && rest[..1][1..] == [];
      assert Get(Dict(d), p[..1]) == Some(d[k]);
      assert EqDepth(d[k]) == 1 + EqDepthAt(Get(d[k], rest[..1]));
    }
  }

  lemma DefaultsAbove(d: Mapping, o: Mapping, p: seq<string>, i: nat, j: nat, v: Yaml)
    requires p != [] && Deepens(d, o, p[0]) && o[p[0]] != Null && 0 < i < |p| && AllEqs(p[1..][i..])
    requires FromDefaults(Promote(d[p[0]]), Promote(o[p[0]]), p[1..], i, v)
    requires j == if d[p[0]].Dict? then i + 1 else 1
    ensures 0 < j <= |p| && AllEqs(p[j..]) && FromDefaults(d, o, p, j, v)
  {
    var k, rest := p[0], p[1..];
    if d[k].Dict? {
      assert p[..j][1..] == rest[..i] && p[j..] == rest[i..];
      SparesPromoted(o[k], rest[..i]);
    } else {
      PromotedStep(d[k], rest, i, v);
      assert p[..1][1..] == [] && p[1..] == rest;
      assert rest[..1][1..] == [];
    }
  }

  /** Nothing is invented: every scalar of the result has its origin in one of the trees. */
  lemma {:induction false} ScalarOrigin(d: Mapping, o: Mapping, p: seq<string>) returns (j: nat)
    requires p != [] && IsScalar(Get(Dict(Merge(d, o)), p))
    ensures Origin(d, o, p, j, Get(Dict(Merge(d, o)), p).value)
    decreases PairHeight(d, o)
  {
    var k, rest, v := p[0], p[1..], Get(Dict(Merge(d, o)), p).value;
    assert k in Merge(d, o) && Get(Dict(Merge(d, o)), p) == Get(Merge(d, o)[k], rest);
    if Deepens(d, o, k) {
      PromotedPairIsLower(d, o, k);
      var i := ScalarOrigin(Promote(d[k]), Promote(o[k]), rest);
      j := OriginAbove(d, o, p, i, v);
    } else {
      j := |p|;
      assert p[..j] == p && p[j..] == [];
      if k !in o {
        assert FromDefaults(d, o, p, j, v);
      } else {
        if k !in d {
          PrunedKeepsLeaves(o[k], rest);
        } else {
          assert rest == [] && Get(Dict(d), p) == Some(d[k]);
        }
        assert FromOverride(d, o, p, j, v);
      }
    }
  }

  /** The scalars of the result are exactly those of the override and those of the defaults that it spares, each at its
      place. */
  lemma ScalarLaw(d: Mapping, o: Mapping, p: seq<string>, v: Yaml)
    requires p != [] && !v.Dict?
    ensures Get(Dict(Merge(d, o)), p) == Some(v) <==> exists j: nat :: Origin(d, o, p, j, v)
  {
    if Get(Dict(Merge(d, o)), p) == Some(v) {
      var j := ScalarOrigin(d, o, p);
    }
    if j: nat :| Origin(d, o, p, j, v) {
      assert p == p[..j] + p[j..];
      if FromOverride(d, o, p, j, v) {
        OverrideWins(d, o, p[..j]);
      } else {
        DefaultsKept(d, o, p[..j]);
      }
    }
  }

  // Which dicts there are.

  /** A null on the way along a path. */
  predicate Erases(x: Yaml, p: seq<string>)
    decreases x
  {
    x == Null || (x.Dict? && p != [] && p[0] in x.entries && Erases(x.entries[p[0]], p[1..]))
  }

  lemma PrunedKeepsDicts(v: Yaml, p: seq<string>)
    ensures IsDict(Get(Pruned(v), p)) <==> IsDict(Get(v, p))
  {
  }

  /** The dicts of the result, empty ones included, are exactly those of the override and those of the defaults that no
      null deletes. */
  lemma {:induction false} DictLaw(d: Mapping, o: Mapping, p: seq<string>)
    ensures IsDict(Get(Dict(Merge(d, o)), p)) <==>
            IsDict(Get(Dict(o), p)) || (IsDict(Get(Dict(d), p)) && !Erases(Dict(o), p))
    decreases PairHeight(d, o)
  {
    if p != [] {
      var k, rest := p[0], p[1..];
      if Deepens(d, o, k) && o[k] != Null {
        PromotedPairIsLower(d, o, k);
        DictLaw(Promote(d[k]), Promote(o[k]), rest);
      } else if k in o && k !in d {
        PrunedKeepsDicts(o[k], rest);
      }
    }
  }

  // The laws leave no other result.

  /** What a path shows, apart from what is below it. */
  function Seen(v: Yaml, p: seq<string>): Option<Yaml> {
    if IsDict(Get(v, p)) then Some(Dict(map[])) else Get(v, p)
  }

  lemma {:induction false} TreesEqual(a: Yaml, b: Yaml)
    requires forall p :: Seen(a, p) == Seen(b, p)
    ensures a == b
    decreases a
  {
    assert Seen(a, []) == Seen(b, []);
    if a.Dict? {
      forall k
        ensures k in a.entries <==> k in b.entries
        ensures k in a.entries ==> a.entries[k] == b.entries[k]
      {
        assert Seen(a, [k]) == Seen(b, [k]) && [k][1..] == [];
        assert Get(a, [k]).Some? <==> k in a.entries;
        assert Get(b, [k]).Some? <==> k in b.entries;
        if k in a.entries && k in b.entries {
          forall p
            ensures Seen(a.entries[k], p) == Seen(b.entries[k], p)
          {
            assert Seen(a, [k] + p) == Seen(b, [k] + p);
            assert ([k] + p)[1..] == p;
          }
          TreesEqual(a.entries[k], b.entries[k]);
        }
      }
      assert a.entries == b.entries;
    }
  }

  /** A tree in which exactly these scalars and dicts are found. */
  ghost predicate Lawful(d: Mapping, o: Mapping, r: Yaml) {
    && (forall p, v: Yaml :: p != [] && !v.Dict? ==> (Get(r, p) == Some(v) <==> exists j: nat :: Origin(d, o, p, j, v)))
    && (forall p :: IsDict(Get(r, p)) <==>
                    IsDict(Get(Dict(o), p)) || (IsDict(Get(Dict(d), p)) && !Erases(Dict(o), p)))
  }

  lemma ScalarSeen(d: Mapping, o: Mapping, r: Yaml, r': Yaml, p: seq<string>)
    requires Lawful(d, o, r) && Lawful(d, o, r') && p != []
    ensures IsScalar(Get(r, p)) ==> Get(r', p) == Get(r, p)
  {
    if IsScalar(Get(r, p)) {
      var v := Get(r, p).value;
      assert Get(r, p) == Some(v);
    }
  }

  /** The merge is the one tree in which they are found. */
  lemma MergeIsDetermined(d: Mapping, o: Mapping, r: Yaml)
    ensures Lawful(d, o, r) <==> r == Dict(Merge(d, o))
  {
    var m := Dict(Merge(d, o));
    forall p, v: Yaml | p != [] && !v.Dict?
      ensures Get(m, p) == Some(v) <==> exists j: nat :: Origin(d, o, p, j, v)
    {
      ScalarLaw(d, o, p, v);
    }
    forall p
      ensures IsDict(Get(m, p)) <==> IsDict(Get(Dict(o), p)) || (IsDict(Get(Dict(d), p)) && !Erases(Dict(o), p))
    {
      DictLaw(d, o, p);
    }
    if Lawful(d, o, r) {
      forall p
        ensures Seen(r, p) == Seen(m, p)
      {
        if p == [] {
          assert IsDict(Get(Dict(o), p));
        } else {
          ScalarSeen(d, o, r, m, p);
          ScalarSeen(d, o, m, r, p);
        }
      }
      TreesEqual(r, m);
    }
  }
}
