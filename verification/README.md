# python-mle composition core, in Dafny

This project models the bookkeeping core of `mle`, a small maximum-likelihood
library. Users build a tree of distributions (`Normal`, `Uniform`, and the
two-component mixture `Mix2`) over named `Variable`s (observed columns) and
`Parameter`s (scalars to fit). The model covers three parts:

- **The composition tree.** Each node keeps three insertion-ordered
  dictionaries: variables, parameters and child distributions. Registering
  under an existing key overwrites that entry in place.
- **The deduplicating traversal.** `get_vars` / `get_params` walk the tree
  depth-first: first the node's own entries, then each child in registration
  order. A repeat of an object already collected is dropped. Objects are
  compared by identity, not by name.
- **The `fit` pipeline.** It validates and binds, in collection order, the
  data columns for the variables and the initial guesses for the parameters.
  It hands closures with the data fixed in front to the minimizer. Finally it
  keys the solution vector by parameter name.

It also models the support masking used by the log-densities: `alltrue` and
`bound`, with the masks of `Normal` and `Mix2`.

Files, one module each:

| file | module | what it holds |
|---|---|---|
| `wrappers.dfy` | `Wrappers` | `Option`, `Result` |
| `ordered_map.dfy` | `OrderedMaps` | the insertion-ordered dictionary (`OrderedDict`) |
| `identity.dfy` | `Identity` | identity tokens and deduplication by identity |
| `leaves.dfy` | `Leaves` | `Variable`, `Parameter`, label defaulting, symbolic handles |
| `conditions.dfy` | `Conditions` | `alltrue`, `bound`, the Normal and Mix2 support masks |
| `distribution.dfy` | `Distributions` | the tree, registration, constructors, traversal |
| `fit.dfy` | `Fitting` | validation, binding, closures, result mapping |

Object identity is explicit. Every `Variable` and `Parameter` carries an
`id` that stands for the identity of the Python object, separate from its
`name`. Deduplication compares ids only. Two leaves with the same name but
different ids are two entries. One leaf object shared by two sub-trees is one
entry.

## Model

| member | source | states |
|---|---|---|
| `Conditions.AllTrue` | mle/__init__.py:15-19 | the product of the conditions is non-zero exactly when every condition is non-zero; on 0/1 conditions it is 1 iff all are 1 and 0 otherwise; it is 1 on no conditions |
| `Conditions.Bound` | mle/__init__.py:21-22 | the log-density is kept exactly when no condition is zero, and becomes negative infinity exactly when some condition is zero |
| `Conditions.NormalMask` | mle/__init__.py:203 | a Normal log-density is negative infinity exactly when sigma <= 0, and unchanged otherwise |
| `Conditions.Mix2Mask` | mle/__init__.py:216 | a mixture log-density is negative infinity exactly when frac is outside the open interval (0, 1), whatever the components give, and unchanged otherwise |
| `Leaves.NewVariable` | mle/__init__.py:24-37 | the label is the given one when it is truthy (present and non-empty), else the name; name and identity are stored unchanged |
| `Leaves.NewParameter` | mle/__init__.py:39-48 | the same label defaulting; name, identity and the lower/upper bounds are stored unchanged |
| `Leaves.Variable.Handle` | mle/__init__.py:37 | a variable's symbolic input is a vector input tied to that variable's identity and name |
| `Leaves.Parameter.Handle` | mle/__init__.py:48 | a parameter's symbolic input is a scalar input tied to that parameter's identity and name |
| `OrderedMaps.Empty` | mle/__init__.py:52-54 | a fresh dictionary has no keys, finds nothing under any key, and has distinct keys |
| `OrderedMaps.OrderedMap.Set` | mle/__init__.py:52-54 | after `m[k] = v` the key reads `v`, every other key reads as before, an existing key keeps its position and a new key is appended, and distinct keys stay distinct |
| `Distributions.NewNode` | mle/__init__.py:51-54 | a new node has three empty, well-formed maps |
| `Distributions.AddVar` | mle/__init__.py:56-58 | the variable is stored under its name, overwriting any earlier entry in place; other names, the parameter map and the child map are unchanged |
| `Distributions.AddParam` | mle/__init__.py:60-62 | the parameter is stored under its name, overwriting in place; other names and the two other maps are unchanged |
| `Distributions.AddDist` | mle/__init__.py:64-66 | the child is stored under the given name, overwriting in place; other names and the two other maps are unchanged |
| `Distributions.NewNormal` | mle/__init__.py:193-197 | the node holds `x` as its only variable and `mu`, `sigma` in that order, or only `sigma` when the two share a name; no children |
| `Distributions.NewUniform` | mle/__init__.py:181-185 | the node holds `x` and `lower`, `upper` in that order, or only `upper` when they share a name; no children |
| `Distributions.NewMix2` | mle/__init__.py:206-210 | the node's only own parameter is `frac`; its children are `dist1`, `dist2` under those names, in that order; no own variables |
| `Distributions.Collect` | mle/__init__.py:68-88 | the collected list has no object twice and contains every object of the depth-first walk |
| `Distributions.GetVars` | mle/__init__.py:68-77 | `get_vars` has no variable object twice and holds exactly the variable objects reachable from the node |
| `Distributions.GetParams` | mle/__init__.py:79-88 | `get_params` has no parameter object twice and holds exactly the parameter objects reachable from the node |
| `Distributions.CollectIsDedupOfWalk` | mle/__init__.py:68-88 | deduplicating each child's list first, then the node's, equals deduplicating the raw depth-first walk once |
| `Distributions.GetVarsOrder` | mle/__init__.py:71-77 | `get_vars` is the depth-first walk (own entries, then children in registration order) with later repeats removed; each kept entry is the first occurrence of its object, in first-met order |
| `Distributions.GetParamsOrder` | mle/__init__.py:82-88 | the same first-seen depth-first order for `get_params` |
| `Distributions.GetVarsDecomposes` | mle/__init__.py:71-73 | an object is in `get_vars` of a node iff it is one of the node's own variables or is in `get_vars` of one of its children |
| `Distributions.GetParamsDecomposes` | mle/__init__.py:82-84 | the same decomposition for `get_params` |
| `Distributions.GetDists` | mle/__init__.py:90-91 | the immediate children, the i-th being the child registered under the i-th name; each child's variables and parameters are among the node's |
| `Distributions.Mix2ListsFracFirst` | mle/__init__.py:206-210 | `get_params` of a mixture starts with its `frac` |
| `Distributions.Mix2SharedParameterOnce` | mle/__init__.py:206-210 | a parameter object reachable through both components of a mixture is listed exactly once |
| `Distributions.SharedMeanMixture` | mle/__init__.py:192-210 | two normals over one `x` sharing `mu` in a mixture give variables `[x]` and parameters `[frac, mu, sigma1, sigma2]` |
| `Identity.Dedup` | mle/__init__.py:74-76 | the kept list holds every identity of the input, each exactly once |
| `Identity.DedupFirstSeen` | mle/__init__.py:74-76 | each kept element is the first occurrence of its identity, and kept elements appear in first-occurrence order |
| `Identity.DedupKeepsHead` | mle/__init__.py:74-76 | the first element of a non-empty list is always kept, in first place |
| `Identity.DedupAbsorb` | mle/__init__.py:72-76 | deduplicating a child's list before appending it does not change the deduplicated result |
| `Identity.DedupOfUnique` | mle/__init__.py:74-76 | a list without repeated identities is returned unchanged (so deduplication is idempotent) |
| `Fitting.BindByName` | mle/__init__.py:129-139 | fails iff some name is missing from the table, and then names the first missing one in order; otherwise returns one value per name, `table[names[i]]` at position i |
| `Fitting.Fit` | mle/__init__.py:125-177 | a missing-variable error iff some collected variable's name is not in `data`, naming the first; only then the parameter check, a missing-initial-value error iff some collected parameter's name is not in `init`; on success the minimizer's result with its solution keyed by parameter name, the minimizer receiving the data columns in variable order and the initial vector in parameter order |
| `Fitting.FixData` | mle/__init__.py:146-152 | the closure handed to the minimizer evaluates the compiled function, for every candidate vector, on the data columns followed by that candidate's values |
| `Fitting.OptimizeResult.WithSolution` | mle/__init__.py:169 | replacing the solution keeps the minimizer's success flag and message |
| `Fitting.NameSolution` | mle/__init__.py:163-166 | the keys are the names of the first min(#parameters, #values) parameters; a name reads the value at its last position among those |
| `Fitting.NameInitialGuess` | mle/__init__.py:135-166 | naming the initial vector gives back `init` restricted to the collected parameter names |
| `Fitting.NamedSolutionRoundTrip` | mle/__init__.py:163-166 | with distinct parameter names and one value each, reading the named solution back in parameter order gives the solution vector |
| `Fitting.SymbolicArgs` | mle/__init__.py:93-105 | the compiled inputs are the variables' handles, position i holding the i-th collected variable's, then the parameters' handles, position (number of variables)+j holding the j-th collected parameter's |
| `Fitting.Arguments` | mle/__init__.py:146-148 | the objective's arguments are the data columns, then the candidate values, positionally |
| `Fitting.ArgumentsAlign` | mle/__init__.py:146-152 | every vector input of the compiled objective receives the data column of its own variable's name, and the j-th parameter input receives the j-th candidate value |

## Left out

- The log-density formulas of `Normal`, `Uniform` and `Mix2` (`logp`) are left out. They are floating-point tensor expressions in the expression engine. Only their support masks are modelled, with the unmasked density as an abstract real.
- `Uniform.logp` applies no mask, so there is no Uniform mask member. Values of `x` outside `[lower, upper]` get a finite density in `mle` too.
- Conditions.NormalMask: states the mask only; the density it guards is a parameter, not computed.
- Conditions.Mix2Mask: states the mask only; the component densities and their combination are not computed.
- Conditions.AllTrue: models one array element; `mle` applies the same product elementwise through broadcasting.
- `logp_compiled`, `grad_compiled`, `hessian_compiled` and the `memoize` cache are left out. They belong to the expression compiler (with `util.hessian_` and `memoize`, which are not part of this model). `Fit` takes the compiled objective and gradient as function parameters.
- `scipy.optimize.minimize` is a function parameter of `Fit`. Its result is reduced to the solution, a success flag and a message.
- `logging` calls are left out.
- `Parameter.lower` / `upper` are stored but never read, and so is the `enforce_lower` / `enforce_upper` argument of `_add_param`. No bound enforcement is modelled.
- The constructors' default arguments (`mu=0`, `sigma=1`, `lower=0`, `upper=1`) are plain numbers, not `Parameter`s; registering one fails in `mle` on `.name`. The constructors here take `Parameter`s only.
- The `*args, **kwargs` that the constructors forward to `Distribution.__init__` are left out, since that initializer takes none.
- Object allocation: the caller supplies each leaf's `id`. Giving distinct objects distinct ids is the caller's responsibility; the model does not allocate.
- The symbolic handle `tvar` is modelled as a `Handle` value built from the leaf's id and name. The engine's symbolic objects are not modelled.
- `data` is a map from names to real columns, and `init` a map from names to reals. Other mapping types the Python library would accept (such as data frames) are not modelled.
- In `mle`, `_add_var` and `_add_param` return the leaf's handle and `_add_dist` returns the child. Here the registrations return the updated node, and a leaf's handle is its `Handle()`.
