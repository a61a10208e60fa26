/**
 The maximum-likelihood driver `fit(data, init)`: check that the dataset has
 a column for every collected variable and the initial guesses a value for
 every collected parameter, bind both positionally in collection order, hand
 closures over the fixed data to the minimizer, and name the solution.
 The compiled objective and gradient and the minimizer are parameters: they
 belong to the expression engine and the optimizer, not to this model.
 */
module Fitting {
  import opened Wrappers
  import opened Identity
  import opened Leaves
  import opened Distributions

  datatype FitError =
    | MissingVariable(name: string)      // "Random variable ... not found in dataset"
    | MissingInitialValue(name: string)  // "No initial value specified for Parameter ..."

  /** The minimizer's result: the solution and its diagnostics. `fit` replaces `x`. */
  datatype OptimizeResult<X> = OptimizeResult(x: X, success: bool, message: string) {
    /** `results.x = ...`: the same diagnostics around another solution. */
    function WithSolution<Y>(y: Y): (r: OptimizeResult<Y>)
      ensures r.x == y && r.success == success && r.message == message
    {
      OptimizeResult(y, success, message)
    }
  }

  /** One actual argument of a compiled function: a data column or a parameter value. */
  datatype Arg = VectorArg(values: seq<real>) | ScalarArg(value: real)

  /** The names of a list of leaves, in order. */
  function Names<L>(leaves: seq<L>, name: L -> string): (ns: seq<string>)
    ensures |ns| == |leaves| && forall i :: 0 <= i < |leaves| ==> ns[i] == name(leaves[i])
  {
    seq(|leaves|, i requires 0 <= i < |leaves| => name(leaves[i]))
  }

  function VarName(v: Variable): string { v.name }
  function ParamName(p: Parameter): string { p.name }

  /** The values looked up under `names`, in order. */
  function Gather<A>(names: seq<string>, table: map<string, A>): (r: seq<A>)
    requires forall i :: 0 <= i < |names| ==> names[i] in table
    ensures |r| == |names| && forall i :: 0 <= i < |names| ==> r[i] == table[names[i]]
  {
    seq(|names|, i requires 0 <= i < |names| && names[i] in table => table[names[i]])
  }

  /** `n` is the first of `names` that `table` lacks. */
  ghost predicate FirstMissing<A>(names: seq<string>, table: map<string, A>, n: string) {
    exists i :: 0 <= i < |names| && names[i] == n && n !in table &&
      forall j :: 0 <= j < i ==> names[j] in table
  }

  /**
   The validation-and-binding loops of `fit`: walk `names` in order, fail on
   the first one missing from `table`, otherwise collect `table[name]` for
   each, positionally.
   */
  method BindByName<A>(names: seq<string>, table: map<string, A>) returns (r: Result<seq<A>, string>)
    ensures r.Failure? <==> exists i :: 0 <= i < |names| && names[i] !in table
    ensures r.Failure? ==> FirstMissing(names, table, r.error)
    ensures r.Success? ==>
      |r.value| == |names| && forall i :: 0 <= i < |names| ==> r.value[i] == table[names[i]]
  {
    var args: seq<A> := [];
    for i := 0 to |names|
      invariant |args| == i
      invariant forall j :: 0 <= j < i ==> names[j] in table && args[j] == table[names[j]]
    {
      if names[i] !in table {
        return Failure(names[i]);
      }
      args := args + [table[names[i]]];
    }
    return Success(args);
  }

  function Min(a: nat, b: nat): nat { if a <= b then a else b }

  /** No name after position `i`, among the first `n`, equals `names[i]`. */
  predicate LastWithName(names: seq<string>, n: nat, i: nat)
    requires i < n <= |names|
  {
    forall j :: i < j < n ==> names[j] != names[i]
  }

  /**
   Naming the solution: the parameters and the solution values are paired
   up to the shorter of the two, and each pair is written into the map under
   the parameter's name, so a later name overwrites an earlier equal one.
   */
  function NameSolution(names: seq<string>, xs: seq<real>): (m: map<string, real>)
    ensures m.Keys == set i | 0 <= i < Min(|names|, |xs|) :: names[i]
    ensures forall i :: 0 <= i < Min(|names|, |xs|) && LastWithName(names, Min(|names|, |xs|), i) ==> m[names[i]] == xs[i]
  {
    NamePairs(names, xs, Min(|names|, |xs|))
  }

  /** The map after the first `n` iterations of the zip loop. */
  function NamePairs(names: seq<string>, xs: seq<real>, n: nat): (m: map<string, real>)
    requires n <= |names| && n <= |xs|
    ensures m.Keys == set i | 0 <= i < n :: names[i]
    ensures forall i {:trigger LastWithName(names, n, i)} ::
      0 <= i < n && LastWithName(names, n, i) ==> m[names[i]] == xs[i]
  {
    if n == 0 then map[]
    else
      var m' := NamePairs(names, xs, n - 1);
      var m := m'[names[n - 1] := xs[n - 1]];
      var full := set i | 0 <= i < n :: names[i];
      assert full == (set i | 0 <= i < n - 1 :: names[i]) + {names[n - 1]} by {
        forall k | k in full
          ensures k in (set i | 0 <= i < n - 1 :: names[i]) + {names[n - 1]}
        {
          var i :| 0 <= i < n && names[i] == k;
          if i < n - 1 {
            assert k in (set i | 0 <= i < n - 1 :: names[i]);
          }
        }
      }
      assert forall i {:trigger LastWithName(names, n, i)} :: 0 <= i < n - 1 && LastWithName(names, n, i) ==>
        LastWithName(names, n - 1, i) && names[n - 1] != names[i];
      m
  }

  /** The objective closure `func`: the compiled objective with the data fixed in front. */
  function FixData<R>(compiled: seq<Arg> -> R, dataArgs: seq<seq<real>>): (f: seq<real> -> R)
    ensures forall pars :: f(pars) == compiled(Arguments(dataArgs, pars))
  {
    pars => compiled(Arguments(dataArgs, pars))
  }

  /** `data_args + list(pars)`: the columns, then the candidate parameter values. */
  function Arguments(dataArgs: seq<seq<real>>, pars: seq<real>): (args: seq<Arg>)
    ensures |args| == |dataArgs| + |pars|
    ensures forall i :: 0 <= i < |dataArgs| ==> args[i] == VectorArg(dataArgs[i])
    ensures forall j :: 0 <= j < |pars| ==> args[|dataArgs| + j] == ScalarArg(pars[j])
  {
    seq(|dataArgs|, i requires 0 <= i < |dataArgs| => VectorArg(dataArgs[i])) +
    seq(|pars|, j requires 0 <= j < |pars| => ScalarArg(pars[j]))
  }

  /**
   `_get_vars_pars`: the inputs the objective and gradient are compiled
   over, variables first, then parameters, each in collection order.
   */
  function SymbolicArgs(d: Distribution): (hs: seq<Handle>)
    ensures |hs| == |GetVars(d)| + |GetParams(d)|
    ensures forall i :: 0 <= i < |hs| ==> (hs[i].VectorInput? <==> i < |GetVars(d)|)
    ensures forall i :: 0 <= i < |GetVars(d)| ==> hs[i] == GetVars(d)[i].Handle()
    ensures forall j :: 0 <= j < |GetParams(d)| ==> hs[|GetVars(d)| + j] == GetParams(d)[j].Handle()
  {
    var vs, ps := GetVars(d), GetParams(d);
    seq(|vs|, i requires 0 <= i < |vs| => vs[i].Handle()) +
    seq(|ps|, j requires 0 <= j < |ps| => ps[j].Handle())
  }

  /**
   `fit(data, init)`. Variables are checked first, in collection order, then
   parameters; the first name missing is reported and the minimizer is not
   reached. Otherwise the minimizer receives the closures over the data
   columns in variable order and the initial vector in parameter order, and
   its solution is keyed by parameter name.
   */
  method Fit(
    d: Distribution,
    data: map<string, seq<real>>,
    init: map<string, real>,
    objective: seq<Arg> -> real,
    gradient: seq<Arg> -> seq<real>,
    minimize: (seq<real> -> real, seq<real> -> seq<real>, seq<real>) -> OptimizeResult<seq<real>>)
    returns (r: Result<OptimizeResult<map<string, real>>, FitError>)
    ensures var vs := Names(GetVars(d), VarName);
      r.Failure? && r.error.MissingVariable? <==> exists i :: 0 <= i < |vs| && vs[i] !in data
    ensures r.Failure? && r.error.MissingVariable? ==> FirstMissing(Names(GetVars(d), VarName), data, r.error.name)
    ensures var vs, ps := Names(GetVars(d), VarName), Names(GetParams(d), ParamName);
      r.Failure? && r.error.MissingInitialValue? <==>
        (forall i :: 0 <= i < |vs| ==> vs[i] in data) && exists i :: 0 <= i < |ps| && ps[i] !in init
    ensures r.Failure? && r.error.MissingInitialValue? ==> FirstMissing(Names(GetParams(d), ParamName), init, r.error.name)
    ensures r.Success? ==>
      var vs, ps := Names(GetVars(d), VarName), Names(GetParams(d), ParamName);
      && (forall i :: 0 <= i < |vs| ==> vs[i] in data)
      && (forall i :: 0 <= i < |ps| ==> ps[i] in init)
      && var dataArgs := Gather(vs, data);
         var res := minimize(FixData(objective, dataArgs), FixData(gradient, dataArgs), Gather(ps, init));
         r.value == res.WithSolution(NameSolution(ps, res.x))
  {
    var vs, ps := Names(GetVars(d), VarName), Names(GetParams(d), ParamName);
    var dataArgs := BindByName(vs, data);
    if dataArgs.Failure? {
      return Failure(MissingVariable(dataArgs.error));
    }
    var x0 := BindByName(ps, init);
    if x0.Failure? {
      return Failure(MissingInitialValue(x0.error));
    }
    assert dataArgs.value == Gather(vs, data);
    assert x0.value == Gather(ps, init);
    var results := minimize(FixData(objective, dataArgs.value), FixData(gradient, dataArgs.value), x0.value);
    return Success(results.WithSolution(NameSolution(ps, results.x)));
  }

  // ----- Partners of the binding and of the result mapping -----

  /**
   Positional binding is consistent: in the arguments the objective closure
   passes, every variable input receives the dataset column of its own name
   and the j-th parameter input receives the j-th candidate value.
   */
  lemma ArgumentsAlign(d: Distribution, data: map<string, seq<real>>, pars: seq<real>)
    requires forall i :: 0 <= i < |GetVars(d)| ==> GetVars(d)[i].name in data
    requires |pars| == |GetParams(d)|
    ensures var hs := SymbolicArgs(d);
      var args := Arguments(Gather(Names(GetVars(d), VarName), data), pars);
      && |hs| == |args|
      && (forall i :: 0 <= i < |hs| ==> (hs[i].VectorInput? <==> args[i].VectorArg?))
      && (forall i :: 0 <= i < |hs| && hs[i].VectorInput? ==> args[i] == VectorArg(data[hs[i].name]))
      && (forall j :: 0 <= j < |pars| ==>
            hs[|GetVars(d)| + j] == GetParams(d)[j].Handle() && args[|GetVars(d)| + j] == ScalarArg(pars[j]))
  {
    var vs, ps := GetVars(d), GetParams(d);
    var hs := SymbolicArgs(d);
    forall i | 0 <= i < |vs|
      ensures hs[i] == vs[i].Handle()
    {
    }
    forall j | 0 <= j < |ps|
      ensures hs[|vs| + j] == ps[j].Handle()
    {
    }
  }

  /** Naming the initial vector gives back the initial guesses of the collected parameters. */
  lemma NameInitialGuess(names: seq<string>, init: map<string, real>)
    requires forall i :: 0 <= i < |names| ==> names[i] in init
    ensures NameSolution(names, Gather(names, init)) == map n | n in names :: init[n]
  {
    var m := NameSolution(names, Gather(names, init));
    NamePairsOfGuess(names, Gather(names, init), init, |names|);
    var target := map n | n in names :: init[n];
    assert m.Keys == target.Keys;
  }

  lemma {:induction false} NamePairsOfGuess(names: seq<string>, xs: seq<real>, init: map<string, real>, n: nat)
    requires n <= |names| == |xs|
    requires forall i :: 0 <= i < |names| ==> names[i] in init && xs[i] == init[names[i]]
    ensures forall i :: 0 <= i < n ==> names[i] in NamePairs(names, xs, n) && NamePairs(names, xs, n)[names[i]] == init[names[i]]
  {
    if n > 0 {
      NamePairsOfGuess(names, xs, init, n - 1);
      var m', m := NamePairs(names, xs, n - 1), NamePairs(names, xs, n);
      assert m == m'[names[n - 1] := xs[n - 1]];
      forall i | 0 <= i < n
        ensures names[i] in m && m[names[i]] == init[names[i]]
      {
        if names[i] != names[n - 1] {
          assert i < n - 1;
          assert m[names[i]] == m'[names[i]];
        }
      }
    }
  }

  /**
   When no two collected parameters share a name and the solution has one
   value per parameter, reading the named solution back in parameter order
   recovers the solution vector.
   */
  lemma NamedSolutionRoundTrip(names: seq<string>, xs: seq<real>)
    requires |xs| == |names|
    requires forall i, j :: 0 <= i < j < |names| ==> names[i] != names[j]
    ensures var m := NameSolution(names, xs);
      (forall i :: 0 <= i < |names| ==> names[i] in m) && Gather(names, m) == xs
  {
  }
}
