/**
 The distribution composition tree. Every node keeps three insertion-ordered
 maps: its own variables and parameters keyed by their names, and its child
 distributions keyed by the name they were registered under. Collecting the
 variables or parameters reachable from a node walks the tree depth-first and
 keeps the first occurrence of every identity.
 */
module Distributions {
  import opened Wrappers
  import opened OrderedMaps
  import opened Identity
  import opened Leaves

  /** Which density a node contributes; `Base` is a bare `Distribution()`. */
  datatype Kind = Base | Normal | Uniform | Mix2

  datatype Distribution = Distribution(
    kind: Kind,
    vars: OrderedMap<Variable>,
    params: OrderedMap<Parameter>,
    dists: OrderedMap<Distribution>)

  /** The node's own maps have distinct keys, as a Python `OrderedDict` always does. */
  predicate Valid(d: Distribution) {
    d.vars.Valid() && d.params.Valid() && d.dists.Valid()
  }

  /** `Distribution.__init__`: three empty maps. */
  function NewNode(kind: Kind): (d: Distribution)
    ensures d.kind == kind && Valid(d)
    ensures d.vars.Keys() == [] && d.params.Keys() == [] && d.dists.Keys() == []
  {
    Distribution(kind, Empty(), Empty(), Empty())
  }

  // ----- Registration (`_add_var`, `_add_param`, `_add_dist`) -----

  /** `_add_var(v)`: `self.var[v.name] = v`; the node's other maps are untouched. */
  function AddVar(d: Distribution, v: Variable): (r: Distribution)
    ensures r.vars.Get(v.name) == Some(v)
    ensures forall k :: k != v.name ==> r.vars.Get(k) == d.vars.Get(k)
    ensures v.name in d.vars.Keys() ==> r.vars.Keys() == d.vars.Keys()
    ensures v.name !in d.vars.Keys() ==> r.vars.Keys() == d.vars.Keys() + [v.name]
    ensures r.kind == d.kind && r.params == d.params && r.dists == d.dists
    ensures Valid(d) ==> Valid(r)
  {
    d.(vars := d.vars.Set(v.name, v))
  }

  /**
   `_add_param(p, enforce_lower, enforce_upper)`: `self.param[p.name] = p`.
   The enforcement arguments are accepted and ignored by `mle`, so they
   do not appear here.
   */
  function AddParam(d: Distribution, p: Parameter): (r: Distribution)
    ensures r.params.Get(p.name) == Some(p)
    ensures forall k :: k != p.name ==> r.params.Get(k) == d.params.Get(k)
    ensures p.name in d.params.Keys() ==> r.params.Keys() == d.params.Keys()
    ensures p.name !in d.params.Keys() ==> r.params.Keys() == d.params.Keys() + [p.name]
    ensures r.kind == d.kind && r.vars == d.vars && r.dists == d.dists
    ensures Valid(d) ==> Valid(r)
  {
    d.(params := d.params.Set(p.name, p))
  }

  /** `_add_dist(child, name)`: `self.dist[name] = child`. */
  function AddDist(d: Distribution, child: Distribution, name: string): (r: Distribution)
    ensures r.dists.Get(name) == Some(child)
    ensures forall k :: k != name ==> r.dists.Get(k) == d.dists.Get(k)
    ensures name in d.dists.Keys() ==> r.dists.Keys() == d.dists.Keys()
    ensures name !in d.dists.Keys() ==> r.dists.Keys() == d.dists.Keys() + [name]
    ensures r.kind == d.kind && r.vars == d.vars && r.params == d.params
    ensures Valid(d) ==> Valid(r)
  {
    d.(dists := d.dists.Set(name, child))
  }

  // ----- Constructors of the concrete distributions -----

  /**
   `Normal(x, mu, sigma)`: registers `x`, then `mu`, then `sigma`. When `mu`
   and `sigma` share a name, `sigma` overwrites `mu` in place.
   */
  function NewNormal(x: Variable, mu: Parameter, sigma: Parameter): (d: Distribution)
    ensures d.kind == Normal && Valid(d)
    ensures d.vars.Values() == [x] && d.vars.Keys() == [x.name]
    ensures mu.name != sigma.name ==> d.params.Values() == [mu, sigma] && d.params.Keys() == [mu.name, sigma.name]
    ensures mu.name == sigma.name ==> d.params.Values() == [sigma] && d.params.Keys() == [sigma.name]
    ensures d.dists.Keys() == []
  {
    var node := AddVar(NewNode(Normal), x);
    var d := AddParam(AddParam(node, mu), sigma);
    assert d.vars == Empty<Variable>().Set(x.name, x);
    assert d.params == Empty<Parameter>().Set(mu.name, mu).Set(sigma.name, sigma);
    SetOnceOnEmpty(x.name, x);
    SetTwiceOnEmpty(mu.name, mu, sigma.name, sigma);
    d
  }

  /** `Uniform(x, lower, upper)`: registers `x`, then `lower`, then `upper`. */
  function NewUniform(x: Variable, lower: Parameter, upper: Parameter): (d: Distribution)
    ensures d.kind == Uniform && Valid(d)
    ensures d.vars.Values() == [x] && d.vars.Keys() == [x.name]
    ensures lower.name != upper.name ==> d.params.Values() == [lower, upper] && d.params.Keys() == [lower.name, upper.name]
    ensures lower.name == upper.name ==> d.params.Values() == [upper] && d.params.Keys() == [upper.name]
    ensures d.dists.Keys() == []
  {
    var node := AddVar(NewNode(Uniform), x);
    var d := AddParam(AddParam(node, lower), upper);
    assert d.vars == Empty<Variable>().Set(x.name, x);
    assert d.params == Empty<Parameter>().Set(lower.name, lower).Set(upper.name, upper);
    SetOnceOnEmpty(x.name, x);
    SetTwiceOnEmpty(lower.name, lower, upper.name, upper);
    d
  }

  /**
   `Mix2(frac, dist1, dist2)`: registers `frac` as the node's only own
   parameter, then the components under the names "dist1" and "dist2".
   */
  function NewMix2(frac: Parameter, dist1: Distribution, dist2: Distribution): (d: Distribution)
    ensures d.kind == Mix2 && Valid(d)
    ensures d.vars.Keys() == []
    ensures d.params.Values() == [frac] && d.params.Keys() == [frac.name]
    ensures d.dists.Keys() == ["dist1", "dist2"] && d.dists.Values() == [dist1, dist2]
  {
    var node := AddParam(NewNode(Mix2), frac);
    var d := AddDist(AddDist(node, dist1, "dist1"), dist2, "dist2");
    assert d.params == Empty<Parameter>().Set(frac.name, frac);
    assert d.dists == Empty<Distribution>().Set("dist1", dist1).Set("dist2", dist2);
    assert "dist1"[4] != "dist2"[4];
    SetOnceOnEmpty(frac.name, frac);
    SetTwiceOnEmpty("dist1", dist1, "dist2", dist2);
    d
 }

  // ----- Traversal -----

  /** The node's own variables, in registration order (`self.var.values()`). */
  function OwnVars(d: Distribution): seq<Variable> { d.vars.Values() }

  /** The node's own parameters, in registration order (`self.param.values()`). */
  function OwnParams(d: Distribution): seq<Parameter> { d.params.Values() }

  /**
   The raw depth-first walk: the node's own entries, then the walk of each
   child in registration order, repeats included.
   */
  function Walk<T>(d: Distribution, own: Distribution -> seq<T>): seq<T>
    decreases d
  {
    own(d) + WalkChildren(d.dists.entries, own)
  }

  function WalkChildren<T>(cs: seq<Entry<Distribution>>, own: Distribution -> seq<T>): seq<T>
    decreases cs
  {
    if |cs| == 0 then [] else Walk(cs[0].value, own) + WalkChildren(cs[1..], own)
  }

  /**
   The shape shared by `get_vars` and `get_params`: the node's own entries
   followed by each child's collected list, with repeated identities dropped.
   The result has no repeated identity and holds every identity of the walk.
   */
  function Collect<T>(d: Distribution, own: Distribution -> seq<T>, key: T -> Id): (r: seq<T>)
    ensures Unique(r, key)
    ensures Ids(r, key) == Ids(Walk(d, own), key)
    decreases d
  {
    var children := CollectChildren(d.dists.entries, own, key);
    IdsConcat(own(d), children, key);
    IdsConcat(own(d), WalkChildren(d.dists.entries, own), key);
    Dedup(own(d) + children, key)
  }

  /** The concatenation of the children's collected lists, in registration order. */
  function CollectChildren<T>(cs: seq<Entry<Distribution>>, own: Distribution -> seq<T>, key: T -> Id): (r: seq<T>)
    ensures Ids(r, key) == Ids(WalkChildren(cs, own), key)
    decreases cs
  {
    if |cs| == 0 then []
    else
      var first := Collect(cs[0].value, own, key);
      var rest := CollectChildren(cs[1..], own, key);
      IdsConcat(first, rest, key);
      IdsConcat(Walk(cs[0].value, own), WalkChildren(cs[1..], own), key);
      first + rest
  }

  /** `get_vars()`: every variable reachable from `d`, each object once. */
  function GetVars(d: Distribution): (r: seq<Variable>)
    ensures Unique(r, VarKey)
    ensures Ids(r, VarKey) == Ids(Walk(d, OwnVars), VarKey)
  {
    Collect(d, OwnVars, VarKey)
  }

  /** `get_params()`: every parameter reachable from `d`, each object once. */
  function GetParams(d: Distribution): (r: seq<Parameter>)
    ensures Unique(r, ParamKey)
    ensures Ids(r, ParamKey) == Ids(Walk(d, OwnParams), ParamKey)
  {
    Collect(d, OwnParams, ParamKey)
  }

  // ----- Order: first-seen depth-first -----

  lemma {:induction false} CollectIsDedupOfWalk<T>(d: Distribution, own: Distribution -> seq<T>, key: T -> Id)
    ensures Collect(d, own, key) == Dedup(Walk(d, own), key)
    decreases d, 1
  {
    CollectChildrenIsDedupOfWalk([], d.dists.entries, own, key);
    assert own(d) + [] == own(d);
    assert [] + own(d) == own(d);
    CollectChildrenIsDedupOfWalk(own(d), d.dists.entries, own, key);
  }

  lemma {:induction false} CollectChildrenIsDedupOfWalk<T>(x: seq<T>, cs: seq<Entry<Distribution>>, own: Distribution -> seq<T>, key: T -> Id)
    ensures Dedup(x + CollectChildren(cs, own, key), key) == Dedup(x + WalkChildren(cs, own), key)
    decreases cs, 0
  {
    if |cs| > 0 {
      var c := cs[0].value;
      var rest := CollectChildren(cs[1..], own, key);
      var w, ws := Walk(c, own), WalkChildren(cs[1..], own);
      assert CollectChildren(cs, own, key) == Collect(c, own, key) + rest;
      assert WalkChildren(cs, own) == w + ws;
      CollectIsDedupOfWalk(c, own, key);
      CollectChildrenIsDedupOfWalk(x + w, cs[1..], own, key);
      DedupChildStep(x, Collect(c, own, key), w, rest, ws, key);
    }
  }

  /** One child's step of `CollectChildrenIsDedupOfWalk`, apart from the recursion. */
  lemma DedupChildStep<T>(x: seq<T>, cw: seq<T>, w: seq<T>, rest: seq<T>, ws: seq<T>, key: T -> Id)
    requires cw == Dedup(w, key)
    requires Dedup(x + w + rest, key) == Dedup(x + w + ws, key)
    ensures Dedup(x + (cw + rest), key) == Dedup(x + (w + ws), key)
  {
    ConcatAssoc(x, cw, rest);
    ConcatAssoc(x, w, ws);
    DedupConcatDedup(x, w, rest, key);
  }

  /**
   `get_vars()` is the depth-first walk (own variables, then each child in
   registration order) with later repeats of an object removed; each element
   kept is the first occurrence of its object, in the order first met.
   */
  lemma GetVarsOrder(d: Distribution)
    ensures GetVars(d) == Dedup(Walk(d, OwnVars), VarKey)
    ensures FirstSeen(GetVars(d), Walk(d, OwnVars), VarKey)
  {
    CollectIsDedupOfWalk(d, OwnVars, VarKey);
    DedupFirstSeen(Walk(d, OwnVars), VarKey);
  }

  /** As `GetVarsOrder`, for `get_params()`. */
  lemma GetParamsOrder(d: Distribution)
    ensures GetParams(d) == Dedup(Walk(d, OwnParams), ParamKey)
    ensures FirstSeen(GetParams(d), Walk(d, OwnParams), ParamKey)
  {
    CollectIsDedupOfWalk(d, OwnParams, ParamKey);
    DedupFirstSeen(Walk(d, OwnParams), ParamKey);
  }

  // ----- Nothing reachable is lost -----

  lemma {:induction false} CollectChildrenIds<T>(cs: seq<Entry<Distribution>>, own: Distribution -> seq<T>, key: T -> Id, k: Id)
    ensures k in Ids(CollectChildren(cs, own, key), key) <==>
      exists i :: 0 <= i < |cs| && k in Ids(Collect(cs[i].value, own, key), key)
    decreases cs
  {
    if |cs| > 0 {
      CollectChildrenIds(cs[1..], own, key, k);
      IdsConcat(Collect(cs[0].value, own, key), CollectChildren(cs[1..], own, key), key);
      if exists i :: 1 <= i < |cs| && k in Ids(Collect(cs[i].value, own, key), key) {
        var i :| 1 <= i < |cs| && k in Ids(Collect(cs[i].value, own, key), key);
        assert cs[1..][i - 1] == cs[i];
      }
    }
  }

  /**
   The objects collected from `d` are exactly its own entries together with
   the objects collected from each of its children.
   */
  lemma CollectDecomposes<T>(d: Distribution, own: Distribution -> seq<T>, key: T -> Id, k: Id)
    ensures k in Ids(Collect(d, own, key), key) <==>
      k in Ids(own(d), key) ||
      exists i :: 0 <= i < |d.dists.entries| && k in Ids(Collect(d.dists.entries[i].value, own, key), key)
  {
    var cc := CollectChildren(d.dists.entries, own, key);
    assert Collect(d, own, key) == Dedup(own(d) + cc, key);
    IdsConcat(own(d), cc, key);
    CollectChildrenIds(d.dists.entries, own, key, k);
  }

  /** `get_vars()` of a node: its own variables plus every child's `get_vars()`. */
  lemma GetVarsDecomposes(d: Distribution, k: Id)
    ensures k in Ids(GetVars(d), VarKey) <==>
      k in Ids(d.vars.Values(), VarKey) ||
      exists i :: 0 <= i < |d.dists.entries| && k in Ids(GetVars(d.dists.entries[i].value), VarKey)
  {
    CollectDecomposes(d, OwnVars, VarKey, k);
  }

  /** `get_params()` of a node: its own parameters plus every child's `get_params()`. */
  lemma GetParamsDecomposes(d: Distribution, k: Id)
    ensures k in Ids(GetParams(d), ParamKey) <==>
      k in Ids(d.params.Values(), ParamKey) ||
      exists i :: 0 <= i < |d.dists.entries| && k in Ids(GetParams(d.dists.entries[i].value), ParamKey)
  {
    CollectDecomposes(d, OwnParams, ParamKey, k);
  }

  /**
   `get_dists()`: the node's immediate children in registration order; what
   each of them collects is part of what the node collects.
   */
  function GetDists(d: Distribution): (r: seq<Distribution>)
    ensures |r| == |d.dists.Keys()|
    ensures Valid(d) ==> forall i :: 0 <= i < |r| ==> d.dists.Get(d.dists.Keys()[i]) == Some(r[i])
    ensures forall i :: 0 <= i < |r| ==>
      Ids(GetVars(r[i]), VarKey) <= Ids(GetVars(d), VarKey) &&
      Ids(GetParams(r[i]), ParamKey) <= Ids(GetParams(d), ParamKey)
  {
    var r := d.dists.Values();
    ChildrenAtKeys(d);
    ChildCollectionsContained(d);
    r
  }

  lemma ChildrenAtKeys(d: Distribution)
    ensures Valid(d) ==> forall i :: 0 <= i < |d.dists.entries| ==> d.dists.Get(d.dists.Keys()[i]) == Some(d.dists.entries[i].value)
  {
    forall i | 0 <= i < |d.dists.entries| && Valid(d)
      ensures d.dists.Get(d.dists.Keys()[i]) == Some(d.dists.entries[i].value)
    {
      var k := d.dists.Keys()[i];
      var j :| 0 <= j < |d.dists.entries| && d.dists.entries[j] == Entry(k, d.dists.Get(k).value);
      assert j == i;
    }
  }

  lemma ChildCollectionsContained(d: Distribution)
    ensures forall i :: 0 <= i < |d.dists.entries| ==>
      Ids(GetVars(d.dists.entries[i].value), VarKey) <= Ids(GetVars(d), VarKey) &&
      Ids(GetParams(d.dists.entries[i].value), ParamKey) <= Ids(GetParams(d), ParamKey)
  {
    forall i, k | 0 <= i < |d.dists.entries|
      ensures k in Ids(GetVars(d.dists.entries[i].value), VarKey) ==> k in Ids(GetVars(d), VarKey)
      ensures k in Ids(GetParams(d.dists.entries[i].value), ParamKey) ==> k in Ids(GetParams(d), ParamKey)
    {
      GetVarsDecomposes(d, k);
      GetParamsDecomposes(d, k);
    }
  }

  // ----- Mixtures -----

  /** A `Mix2` lists its mixing fraction before anything its components contribute. */
  lemma Mix2ListsFracFirst(frac: Parameter, dist1: Distribution, dist2: Distribution)
    ensures |GetParams(NewMix2(frac, dist1, dist2))| > 0
    ensures GetParams(NewMix2(frac, dist1, dist2))[0] == frac
  {
    var m := NewMix2(frac, dist1, dist2);
    var walk := Walk(m, OwnParams);
    assert walk == [frac] + WalkChildren(m.dists.entries, OwnParams);
    CollectIsDedupOfWalk(m, OwnParams, ParamKey);
    DedupKeepsHead(walk, ParamKey);
  }

  /**
   A `Parameter` object reachable through both components of a `Mix2` is
   listed exactly once by `get_params()`.
   */
  lemma Mix2SharedParameterOnce(frac: Parameter, dist1: Distribution, dist2: Distribution, p: Parameter)
    requires p.id in Ids(GetParams(dist1), ParamKey)
    requires p.id in Ids(GetParams(dist2), ParamKey)
    ensures var ps := GetParams(NewMix2(frac, dist1, dist2));
      exists i :: 0 <= i < |ps| && ps[i].id == p.id &&
        forall j :: 0 <= j < |ps| && ps[j].id == p.id ==> j == i
  {
    var m := NewMix2(frac, dist1, dist2);
    assert m.dists.entries[0].value == dist1;
    ChildParameterOnce(m, dist1, p.id);
  }

  /** A parameter reachable through a node's first child occurs exactly once in the node's `get_params()`. */
  lemma ChildParameterOnce(m: Distribution, c: Distribution, k: Id)
    requires 0 < |m.dists.entries| && m.dists.entries[0].value == c
    requires k in Ids(GetParams(c), ParamKey)
    ensures var ps := GetParams(m);
      exists i :: 0 <= i < |ps| && ps[i].id == k &&
        forall j :: 0 <= j < |ps| && ps[j].id == k ==> j == i
  {
    GetParamsDecomposes(m, k);
    UniqueOccursOnce(GetParams(m), ParamKey, k);
  }

  /** A node without children walks to its own entries. */
  lemma WalkChildless<T>(d: Distribution, own: Distribution -> seq<T>)
    requires d.dists.Keys() == []
    ensures Walk(d, own) == own(d)
  {
    assert d.dists.entries == [];
  }

  /** A node with two children walks to its own entries, then the first child's walk, then the second's. */
  lemma WalkTwoChildren<T>(d: Distribution, own: Distribution -> seq<T>, a: Distribution, b: Distribution)
    requires d.dists.Values() == [a, b]
    ensures Walk(d, own) == own(d) + Walk(a, own) + Walk(b, own)
  {
    var cs := d.dists.entries;
    assert cs[0].value == a && cs[1].value == b;
    assert cs[1..][1..] == [];
    assert WalkChildren(cs[1..], own) == Walk(b, own) + WalkChildren(cs[1..][1..], own);
  }

  /** What a `Normal` node contributes to a walk. */
  lemma NormalWalk(x: Variable, mu: Parameter, sigma: Parameter)
    requires mu.name != sigma.name
    ensures Walk(NewNormal(x, mu, sigma), OwnVars) == [x]
    ensures Walk(NewNormal(x, mu, sigma), OwnParams) == [mu, sigma]
  {
    var n := NewNormal(x, mu, sigma);
    WalkChildless(n, OwnVars);
    WalkChildless(n, OwnParams);
  }

  /**
   A mixture of two normals over the same observed `x` sharing the mean `mu`
   and with separate widths: `x` is collected once, and the parameters come
   out as `frac`, `mu`, then each width in component order.
   */
  lemma SharedMeanMixture(x: Variable, frac: Parameter, mu: Parameter, s1: Parameter, s2: Parameter)
    requires mu.name != s1.name && mu.name != s2.name
    requires frac.id != mu.id && frac.id != s1.id && frac.id != s2.id
    requires mu.id != s1.id && mu.id != s2.id && s1.id != s2.id
    ensures GetVars(NewMix2(frac, NewNormal(x, mu, s1), NewNormal(x, mu, s2))) == [x]
    ensures GetParams(NewMix2(frac, NewNormal(x, mu, s1), NewNormal(x, mu, s2))) == [frac, mu, s1, s2]
  {
    var n1, n2 := NewNormal(x, mu, s1), NewNormal(x, mu, s2);
    var m := NewMix2(frac, n1, n2);
    NormalWalk(x, mu, s1);
    NormalWalk(x, mu, s2);
    SharedMeanVars(m, x, n1, n2);
    SharedMeanParams(m, frac, mu, s1, s2, n1, n2);
  }

  lemma SharedMeanVars(m: Distribution, x: Variable, n1: Distribution, n2: Distribution)
    requires OwnVars(m) == [] && m.dists.Values() == [n1, n2]
    requires Walk(n1, OwnVars) == [x] && Walk(n2, OwnVars) == [x]
    ensures GetVars(m) == [x]
  {
    WalkTwoChildren(m, OwnVars, n1, n2);
    CollectIsDedupOfWalk(m, OwnVars, VarKey);
    assert Walk(m, OwnVars) == [x] + [x];
    DedupOfUnique([x], VarKey);
    assert x.id in Ids([x], VarKey) by { assert [x][0] == x; }
    DedupSnoc([x], x, VarKey);
  }

  lemma SharedMeanParams(m: Distribution, frac: Parameter, mu: Parameter, s1: Parameter, s2: Parameter, n1: Distribution, n2: Distribution)
    requires frac.id != mu.id && frac.id != s1.id && frac.id != s2.id
    requires mu.id != s1.id && mu.id != s2.id && s1.id != s2.id
    requires OwnParams(m) == [frac] && m.dists.Values() == [n1, n2]
    requires Walk(n1, OwnParams) == [mu, s1] && Walk(n2, OwnParams) == [mu, s2]
    ensures GetParams(m) == [frac, mu, s1, s2]
  {
    WalkTwoChildren(m, OwnParams, n1, n2);
    CollectIsDedupOfWalk(m, OwnParams, ParamKey);
    var first := [frac, mu, s1];
    assert Walk(m, OwnParams) == first + [mu] + [s2];
    assert Unique(first, ParamKey);
    assert mu.id in Ids(first, ParamKey) by { assert ParamKey(first[1]) == mu.id; }
    assert s2.id !in Ids(first, ParamKey) by {
      assert forall i :: 0 <= i < |first| ==> ParamKey(first[i]) != s2.id;
    }
    DedupRepeatThenNew(first, mu, s2, ParamKey);
  }
}
