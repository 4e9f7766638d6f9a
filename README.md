# linear-program-solver: decoder and native entry point

This project models the two self-contained pieces of logic of the
linear-program-solver binding layer and proves properties of them in Dafny.

- **Decoder** (`decoder.dfy`) — `findSolution` from `src/index.ts`. It maps a
  variable name to its value, given the solver's solution vector and the
  aligned vector of internal column names. An exact name match wins, and the
  last occurrence counts. With no exact match, a sign-unrestricted variable
  stored as the pair `<name>p` / `<name>n` decodes to `value(p) - value(n)`.
  Everything else, including vectors of different lengths, is NaN. NaN is
  modelled as `NotFound`. `FindSolution` keeps the two overwriting scans of the
  source. It is proved equal to the pure specification `Decode`. For vectors of
  equal length, `Decode` is proved equal to a dictionary reading, `Table`/`DecodeTable`, in which later
  entries overwrite earlier ones.
- **SimplexWrapper** (`simplex_wrapper.dfy`) — `Solve` and `isFraction` from
  `src/simplex_wrapper.cc`. JavaScript values form the datatype `JsVal`. A
  missing array element or argument reads as `undefined`, as in JavaScript.
  The thirteen shape checks are the ordered list `ShapeChecks`, and the first
  failing check decides the TypeError (`Validate`). The tableau preparation
  (`BuildTableau`) builds an m×m identity certificate matrix, a zero
  certificate of length m = |b|, A from the first |c| entries of each row, and
  B, C and v = 0. `Solve` passes that tableau to the solver and maps the
  outcome to `otima` / `ilimitada` / `inviavel`. It returns the converted
  solution and the input `vars`, unchanged. `Solve` also returns `submitted`,
  the tableau handed to the solver, which is `None` when a check fails and the
  solver is never called.

Foreign code is passed to `Solve` as function parameters and is not modelled:
`toFraction` (`Obj2Fraction`), `runSimplex` and `toDouble`
(`Fraction::toDouble`). A `Fraction` is an exact rational, modelled as a Dafny
`real`.

A tableau whose rows differ in length is malformed, but the code checks only
the length of the first row (src/simplex_wrapper.cc:112-125). The model
follows the code: `LaterRowsUnchecked` shows a ragged
tableau that passes every check. `Solve` has a precondition that every row is
an array with at least |c| entries, which the code needs and does not check.

## Model

| member | source | states |
|---|---|---|
| Decoder.LastIndex | src/index.ts:53-56 | the index kept by an overwriting scan is the last occurrence of the name, and -1 exactly when the name is absent |
| Decoder.LastIndexUnique | src/index.ts:65-70 | any index with the last-occurrence property is the one LastIndex gives, so each scan of the split pair finds it |
| Decoder.Decode | src/index.ts:46-75 | mismatched lengths give NaN; found exactly when the name or both halves of its split pair occur; an exact match yields the value at its last occurrence; otherwise the last `p` value minus the last `n` value |
| Decoder.FindSolution | src/index.ts:46-75 | the two-loop implementation returns exactly Decode of the arrays' contents, and has no write access to either array |
| Decoder.TableAt | src/index.ts:53-58 | the dictionary built by in-order overwriting holds exactly the names of vars, each mapped to the value at its last occurrence |
| Decoder.DecodeIsTableLookup | src/index.ts:46-75 | for aligned vectors, findSolution equals a dictionary lookup with the split-pair fallback |
| Decoder.DecodeAligned | __tests__/test-solve.ts:227-234 | with distinct names, decoding vars[j] yields solution[j] for every j |
| Decoder.MismatchHidesEveryName | src/index.ts:50-51 | when solution and vars differ in length, every name decodes to NaN |
| Decoder.ExactMatchShadowsPair | src/index.ts:57-60 | a name that occurs verbatim decodes to its last exact match, whatever split pair also exists |
| Decoder.ReorderedSplitExample | __tests__/test-solve.ts:236-245 | in the reordered twelve-column example, `b` decodes to bp - bn = 0 - 4 = -4 |
| Decoder.ReorderedExactExample | __tests__/test-solve.ts:236-245 | in the same example, `c` decodes to 14 by exact match at column 1 |
| Decoder.NoTrimmingExample | src/index.ts:54 | matching is plain string equality: `b` does not match the column ` b`, while ` b` does |
| SimplexWrapper.IsFraction | src/simplex_wrapper.cc:44-52 | a value is a fraction exactly when it is an object that has both a `numerator` and a `denominator` property |
| SimplexWrapper.FractionKeysOnly | src/simplex_wrapper.cc:48-51 | isFraction depends on the two keys only: adding any other property keeps the verdict, removing either key makes it false |
| SimplexWrapper.ShapeError.Message | src/simplex_wrapper.cc:79-144 | the thirteen TypeError texts, one per check, word for word |
| SimplexWrapper.MessagesDistinct | src/simplex_wrapper.cc:79-144 | no two checks share a TypeError text, so the message identifies the failing check |
| SimplexWrapper.FirstFailing | src/simplex_wrapper.cc:78-146 | running ordered checks yields no error exactly when all hold; an error is the first failing check; the first failing check is always the one reported |
| SimplexWrapper.Validate | src/simplex_wrapper.cc:78-146 | the shape checks of Solve pass exactly when all thirteen conditions hold; otherwise the TypeError of the first failing one is raised |
| SimplexWrapper.ArgCountFirst | src/simplex_wrapper.cc:78-81 | any argument count other than 4 raises "expecting 4" before any other check |
| SimplexWrapper.EmptyTableauRejected | src/simplex_wrapper.cc:104-109 | an empty `a` (with empty b, c, vars) is rejected as "expecting a[][]" |
| SimplexWrapper.LaterRowsUnchecked | src/simplex_wrapper.cc:122-146 | a tableau whose second row is empty passes every check: only a[0] is validated |
| SimplexWrapper.ValidShape | src/simplex_wrapper.cc:104-146 | arguments that pass all checks are four arrays; a and b have the same length m >= 1; a[0], c and vars have the same length n >= 1; a[0][0], b[0] and c[0] are fractions and vars[0] is a string |
| SimplexWrapper.BuildTableau | src/simplex_wrapper.cc:148-182 | the assembled tableau has the m×m identity certificate matrix, a zero certificate of length m, A with m rows holding the first n = length of c converted entries of each row in order, B and C the converted b and c, and v = 0 |
| SimplexWrapper.IdentityIsNeutral | src/simplex_wrapper.cc:158-166 | the certificate matrix is the identity: multiplying any vector of length m by it leaves the vector unchanged |
| SimplexWrapper.AssembledUnique | src/simplex_wrapper.cc:148-182 | the assembled tableau is determined by the input: two assemblies of the same arguments are equal |
| SimplexWrapper.ResultName | src/simplex_wrapper.cc:189-208 | LIMITED, ILIMITED and INFEASIBLE map to "otima", "ilimitada" and "inviavel", and each string maps back to its classification |
| SimplexWrapper.Solve | src/simplex_wrapper.cc:75-224 | on a failed check the TypeError is raised and the solver is not called; otherwise the solver receives the assembled tableau, and the reply holds the result string, a solution element-wise converted with the solver's solution length, and the input vars unchanged |

## Left out

- The simplex engine and exact arithmetic (`runSimplex`, `Tabloid`, `Fraction`, `BigInteger`): their sources are not part of this model. `runSimplex` is an arbitrary function parameter. Fractions are Dafny reals.
- `Obj2Fraction`: the conversion of BigInt numerator and denominator through int64 (lossless flag ignored) is foreign-library code. It is the parameter `toFraction`, applied to every entry whatever its type.
- `Fraction::toDouble` and the floating-point values in the returned solution: floating point. It is the parameter `toDouble`.
- The `cerr` logging of the result, value, solution and certificate: I/O.
- N-API plumbing: argument marshalling, the TypeError object, result-object construction and module registration (`Init`). A thrown TypeError with a null return is the reply `Thrown`.
- The `Base()` argument of the `Tabloid` constructor: its definition is not part of this model.
- SimplexWrapper.Solve: requires that every row of `a` used by the assembly is an array with at least |c| entries. The code does not check this and its behaviour otherwise (reading `undefined` through an unchecked cast) is undefined.
- SimplexWrapper.IsFraction: `IsObject()` is also true of arrays and functions, and `Has` also sees inherited properties and properties set on arrays or functions. The model treats only plain objects, with their own keys, as candidates; arrays and functions (under `Other`) never pass.
- Array lengths are 32-bit in N-API: the model uses unbounded lengths.
- Numbers in `findSolution` are exact reals: floating-point subtraction and NaN propagation of values already NaN are not modelled.
- src/simplex.cpp: an older duplicate of the wrapper that src/index.ts does not load.
- The `simplex` export of src/index.ts and the promise-based `solveAsync` / `simplexAsync` paths: foreign calls and asynchronous wrapping.
