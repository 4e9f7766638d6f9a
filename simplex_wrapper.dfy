/**
 * The native entry point `simplex_wrapper` (Solve in src/simplex_wrapper.cc).
 *
 * Solve receives the tableau of a linear program as JavaScript values
 * (a: Fraction[][], b: Fraction[], c: Fraction[], vars: string[]), checks
 * its shape in a fixed order, assembles the solver's input (an identity
 * certificate matrix, a zero certificate, row-by-row copies of A, B and C and
 * the objective value 0), hands it to the simplex engine and reports the
 * outcome as 'otima', 'ilimitada' or 'inviavel' together with the solution
 * and the unchanged `vars`.
 *
 * The code this function calls but that is not part of the model is passed
 * in as function parameters: the JavaScript-to-Fraction conversion
 * (Obj2Fraction), the simplex engine (runSimplex) and Fraction::toDouble.
 * A Fraction is an exact rational number, modelled as a Dafny `real`.
 */
module SimplexWrapper {

  datatype Option<T> = None | Some(value: T)

  /** A JavaScript value as the native layer sees it. */
  datatype JsVal =
    | Undefined
    | Null
    | Str(s: string)
    | BigInt(i: int)
    | Arr(elems: seq<JsVal>)
    | Obj(props: map<string, JsVal>)
    | Other  // booleans, numbers, functions, symbols

  type Fraction = real

  /** The outcome classification of the simplex engine. */
  datatype ResultType = Limited | Ilimited | Infeasible

  /** What runSimplex reports: the classification and a solution vector. */
  datatype SimplexResult = SimplexResult(kind: ResultType, solution: seq<Fraction>)

  /**
   * The solver's input. The basis argument `Base()` is left out: its
   * definition is not part of this model.
   */
  datatype Tabloid = Tabloid(
    certificate: seq<Fraction>,
    certificateMatrix: seq<seq<Fraction>>,
    A: seq<seq<Fraction>>,
    B: seq<Fraction>,
    C: seq<Fraction>,
    v: Fraction)

  /** What the call produces: a TypeError thrown (and null returned), or the result object. */
  datatype Reply =
    | Thrown(error: ShapeError)
    | Returned(result: string, solution: seq<real>, vars: JsVal)

  /** The TypeErrors of the shape checks, one per check. */
  datatype ShapeError =
    | ArgCount
    | NotArrayA
    | NotArrayB
    | NotArrayC
    | NotArrayVars
    | NotMatrixA
    | RowsMismatch
    | ColumnsMismatch
    | VarsMismatch
    | NotFractionA
    | NotFractionB
    | NotFractionC
    | NotStringVars
  {
    /** The message of the TypeError. */
    function Message(): string
    {
      match this
      case ArgCount => "Wrong number of arguments: expecting 4"
      case NotArrayA => "Wrong arguments: expecting a[]"
      case NotArrayB => "Wrong arguments: expecting b[]"
      case NotArrayC => "Wrong arguments: expecting c[]"
      case NotArrayVars => "Wrong arguments: expecting vars[]"
      case NotMatrixA => "Wrong arguments: expecting a[][]"
      case RowsMismatch => "Wrong arguments: expecting a.length === b.length"
      case ColumnsMismatch => "Wrong arguments: expecting a[0].length === c.length"
      case VarsMismatch => "Wrong arguments: expecting c.length === vars.length"
      case NotFractionA => "Wrong arguments: expecting a: Fraction[][]"
      case NotFractionB => "Wrong arguments: expecting b: Fraction[]"
      case NotFractionC => "Wrong arguments: expecting c: Fraction[]"
      case NotStringVars => "Wrong arguments: expecting vars: string[]"
    }
  }

  /** The k-th call argument; reading past the end gives undefined. */
  function Arg(args: seq<JsVal>, k: nat): JsVal
  {
    if k < |args| then args[k] else Undefined
  }

  /** Element k of an array; reading past its end gives undefined. */
  function At(v: JsVal, k: nat): JsVal
  {
    if v.Arr? && k < |v.elems| then v.elems[k] else Undefined
  }

  /** The elements of an array value. */
  function Elems(v: JsVal): seq<JsVal>
  {
    if v.Arr? then v.elems else []
  }

  /** The length of an array value. */
  function Length(v: JsVal): nat
  {
    if v.Arr? then |v.elems| else 0
  }

  /** isFraction: an object that has both a `numerator` and a `denominator`. */
  predicate IsFraction(v: JsVal)
  {
    if !v.Obj? then false
    else if "numerator" in v.props && "denominator" in v.props then true
    else false
  }

  /**
   * isFraction looks at the two keys only: further properties change nothing,
   * and an object that lacks either key is not a fraction.
   */
  lemma FractionKeysOnly(props: map<string, JsVal>, key: string, x: JsVal)
    ensures key != "numerator" && key != "denominator" ==>
      (IsFraction(Obj(props[key := x])) <==> IsFraction(Obj(props)))
    ensures !IsFraction(Obj(props - {"numerator"})) && !IsFraction(Obj(props - {"denominator"}))
  {
  }

  /** Each TypeError text names exactly one check: the message identifies the failure. */
  lemma MessagesDistinct(e1: ShapeError, e2: ShapeError)
    ensures e1.Message() == e2.Message() ==> e1 == e2
  {
  }

  /** The shape checks in the order in which Solve performs them. */
  const ShapeChecks: seq<ShapeError> := [
    ArgCount, NotArrayA, NotArrayB, NotArrayC, NotArrayVars, NotMatrixA,
    RowsMismatch, ColumnsMismatch, VarsMismatch,
    NotFractionA, NotFractionB, NotFractionC, NotStringVars]

  /** The condition each check demands of the arguments (a, b, c, vars). */
  predicate Holds(check: ShapeError, args: seq<JsVal>)
  {
    var a, b, c, vars := Arg(args, 0), Arg(args, 1), Arg(args, 2), Arg(args, 3);
    match check
    case ArgCount => |args| == 4
    case NotArrayA => a.Arr?
    case NotArrayB => b.Arr?
    case NotArrayC => c.Arr?
    case NotArrayVars => vars.Arr?
    case NotMatrixA => At(a, 0).Arr?
    case RowsMismatch => Length(a) == Length(b)
    case ColumnsMismatch => Length(At(a, 0)) == Length(c)
    case VarsMismatch => Length(c) == Length(vars)
    case NotFractionA => IsFraction(At(At(a, 0), 0))
    case NotFractionB => IsFraction(At(b, 0))
    case NotFractionC => IsFraction(At(c, 0))
    case NotStringVars => At(vars, 0).Str?
  }

  /** Check k is the first one in `checks` that fails. */
  predicate FirstFailure(checks: seq<ShapeError>, args: seq<JsVal>, k: int)
  {
    && 0 <= k < |checks|
    && !Holds(checks[k], args)
    && forall j :: 0 <= j < k ==> Holds(checks[j], args)
  }

  /** Run the checks in order and stop at the first that fails. */
  function FirstFailing(checks: seq<ShapeError>, args: seq<JsVal>): (r: Option<ShapeError>)
    ensures r.None? <==> forall k :: 0 <= k < |checks| ==> Holds(checks[k], args)
    ensures r.Some? ==> exists k :: FirstFailure(checks, args, k) && r.value == checks[k]
    ensures forall k :: FirstFailure(checks, args, k) ==> r == Some(checks[k])
  {
    if checks == [] then None
    else if !Holds(checks[0], args) then
      assert FirstFailure(checks, args, 0);
      Some(checks[0])
    else
      var r := FirstFailing(checks[1..], args);
      assert forall k :: FirstFailure(checks[1..], args, k) <==> FirstFailure(checks, args, k + 1);
      assert forall k :: 0 <= k < |checks| && k != 0 ==> checks[k] == checks[1..][k - 1];
      r
  }

  /** The verdict of the shape checks of Solve: the TypeError raised, or None. */
  function Validate(args: seq<JsVal>): (r: Option<ShapeError>)
    ensures r.None? <==> forall k :: 0 <= k < |ShapeChecks| ==> Holds(ShapeChecks[k], args)
    ensures forall k :: FirstFailure(ShapeChecks, args, k) ==> r == Some(ShapeChecks[k])
  {
    FirstFailing(ShapeChecks, args)
  }

  /** Exactly four arguments are required, before anything else is looked at. */
  lemma ArgCountFirst(args: seq<JsVal>)
    requires |args| != 4
    ensures Validate(args) == Some(ArgCount)
  {
    assert FirstFailure(ShapeChecks, args, 0);
  }

  /** An empty `a` has no row a[0], so it is rejected as "expecting a[][]". */
  lemma EmptyTableauRejected()
    ensures Validate([Arr([]), Arr([]), Arr([]), Arr([])]) == Some(NotMatrixA)
  {
    assert FirstFailure(ShapeChecks, [Arr([]), Arr([]), Arr([]), Arr([])], 5);
  }

  /**
   * Only the first row of `a` is checked: a ragged tableau whose second row
   * is empty passes every check.
   */
  lemma LaterRowsUnchecked()
    ensures
      var f := Obj(map["numerator" := BigInt(1), "denominator" := BigInt(1)]);
      Validate([Arr([Arr([f]), Arr([])]), Arr([f, f]), Arr([f]), Arr([Str("x")])]).None?
  {
    var f := Obj(map["numerator" := BigInt(1), "denominator" := BigInt(1)]);
    var args := [Arr([Arr([f]), Arr([])]), Arr([f, f]), Arr([f]), Arr([Str("x")])];
    assert IsFraction(f);
    forall k | 0 <= k < |ShapeChecks| ensures Holds(ShapeChecks[k], args) {}
  }

  /**
   * Arguments that pass every check describe an m-by-n tableau with m, n >= 1
   * whose first entries of a[0], b and c are fractions and whose vars[0] is a string.
   */
  lemma ValidShape(args: seq<JsVal>)
    requires Validate(args).None?
    ensures |args| == 4
    ensures args[0].Arr? && args[1].Arr? && args[2].Arr? && args[3].Arr?
    ensures |args[0].elems| == |args[1].elems| >= 1
    ensures |args[2].elems| == |args[3].elems| >= 1
    ensures args[0].elems[0].Arr? && |args[0].elems[0].elems| == |args[2].elems|
    ensures IsFraction(args[0].elems[0].elems[0]) && IsFraction(args[1].elems[0]) && IsFraction(args[2].elems[0])
    ensures args[3].elems[0].Str?
  {
    assert Holds(ShapeChecks[0], args) && Holds(ShapeChecks[1], args) && Holds(ShapeChecks[2], args);
    assert Holds(ShapeChecks[3], args) && Holds(ShapeChecks[4], args) && Holds(ShapeChecks[5], args);
    assert Holds(ShapeChecks[6], args) && Holds(ShapeChecks[7], args) && Holds(ShapeChecks[8], args);
    assert Holds(ShapeChecks[9], args) && Holds(ShapeChecks[10], args);
    assert Holds(ShapeChecks[11], args) && Holds(ShapeChecks[12], args);
  }

  /** The m-by-m identity matrix. */
  predicate IsIdentity(M: seq<seq<Fraction>>, m: nat)
  {
    && |M| == m
    && forall i :: 0 <= i < m ==> |M[i]| == m && forall j :: 0 <= j < m ==> M[i][j] == if i == j then 1.0 else 0.0
  }

  /**
   * The solver input assembled from a, b and c: the identity certificate
   * matrix and zero certificate of size m = |b|, A holding the first n = |c|
   * entries of each of the m rows of `a`, B and C the converted b and c, v = 0.
   */
  predicate Assembled(t: Tabloid, a: seq<JsVal>, b: seq<JsVal>, c: seq<JsVal>, toFraction: JsVal -> Fraction)
  {
    var m, n := |b|, |c|;
    && IsIdentity(t.certificateMatrix, m)
    && |t.certificate| == m && (forall i :: 0 <= i < m ==> t.certificate[i] == 0.0)
    && |t.A| == m
    && (forall i :: 0 <= i < m ==> |t.A[i]| == n)
    && (forall i, j :: 0 <= i < |t.A| && 0 <= j < |t.A[i]| ==> i < |a| && t.A[i][j] == toFraction(At(a[i], j)))
    && |t.B| == m && (forall i :: 0 <= i < m ==> t.B[i] == toFraction(b[i]))
    && |t.C| == n && (forall j :: 0 <= j < n ==> t.C[j] == toFraction(c[j]))
    && t.v == 0.0
  }

  /** Every row of `a` used by the assembly is an array with at least n entries. */
  predicate RowsCover(a: seq<JsVal>, m: nat, n: nat)
  {
    m <= |a| && forall i :: 0 <= i < m ==> a[i].Arr? && |a[i].elems| >= n
  }

  /** The tableau preparation of Solve: nested loops appending to the vectors. */
  method BuildTableau(a: seq<JsVal>, b: seq<JsVal>, c: seq<JsVal>, toFraction: JsVal -> Fraction)
    returns (t: Tabloid)
    requires RowsCover(a, |b|, |c|)
    ensures Assembled(t, a, b, c, toFraction)
  {
    var bsiz, csiz := |b|, |c|;
    var A: seq<seq<Fraction>> := [];
    var B: seq<Fraction> := [];
    var C: seq<Fraction> := [];
    var certificate: seq<Fraction> := [];
    var certificateMatrix: seq<seq<Fraction>> := [];

    for i := 0 to bsiz
      invariant |certificateMatrix| == i && |certificate| == i
      invariant forall r :: 0 <= r < i ==> |certificateMatrix[r]| == bsiz
      invariant forall r, k :: 0 <= r < i && 0 <= k < bsiz ==>
        certificateMatrix[r][k] == if r == k then 1.0 else 0.0
      invariant forall r :: 0 <= r < i ==> certificate[r] == 0.0
    {
      var certificateLine: seq<Fraction> := [];
      for j := 0 to bsiz
        invariant |certificateLine| == j
        invariant forall k :: 0 <= k < j ==> certificateLine[k] == if i == k then 1.0 else 0.0
      {
        certificateLine := certificateLine + [if i == j then 1.0 else 0.0];
      }
      certificateMatrix := certificateMatrix + [certificateLine];
      certificate := certificate + [0.0];
    }

    for i := 0 to bsiz
      invariant |A| == i && |B| == i
      invariant forall r :: 0 <= r < i ==> |A[r]| == csiz
      invariant forall r, k :: 0 <= r < i && 0 <= k < csiz ==> A[r][k] == toFraction(At(a[r], k))
      invariant forall r :: 0 <= r < i ==> B[r] == toFraction(b[r])
    {
      var restrictionLine: seq<Fraction> := [];
      var ai := a[i];
      for j := 0 to csiz
        invariant |restrictionLine| == j
        invariant forall k :: 0 <= k < j ==> restrictionLine[k] == toFraction(At(ai, k))
      {
        restrictionLine := restrictionLine + [toFraction(ai.elems[j])];
      }
      A := A + [restrictionLine];
      B := B + [toFraction(b[i])];
    }

    for j := 0 to csiz
      invariant |C| == j
      invariant forall k :: 0 <= k < j ==> C[k] == toFraction(c[k])
    {
      C := C + [toFraction(c[j])];
    }

    t := Tabloid(certificate, certificateMatrix, A, B, C, 0.0);
  }

  /** The string Solve reports for each classification. */
  function ResultName(kind: ResultType): (s: string)
    ensures ResultKind(s) == Some(kind)
  {
    match kind
    case Ilimited => "ilimitada"
    case Infeasible => "inviavel"
    case Limited => "otima"
  }

  /** The classification a result string stands for; the inverse of ResultName. */
  function ResultKind(s: string): Option<ResultType>
  {
    if s == "otima" then Some(Limited)
    else if s == "ilimitada" then Some(Ilimited)
    else if s == "inviavel" then Some(Infeasible)
    else None
  }

  /**
   * Solve: the shape checks, the tableau preparation, the call into the
   * solver and the decoding of its result. `submitted` is the tableau handed
   * to runSimplex, None when the solver is not called.
   */
  method Solve(
    args: seq<JsVal>,
    toFraction: JsVal -> Fraction,
    runSimplex: Tabloid -> SimplexResult,
    toDouble: Fraction -> real)
    returns (reply: Reply, submitted: Option<Tabloid>)
    requires Validate(args).None? ==> RowsCover(Elems(Arg(args, 0)), Length(Arg(args, 1)), Length(Arg(args, 2)))
    ensures Validate(args).Some? ==> reply == Thrown(Validate(args).value) && submitted == None
    ensures Validate(args).None? ==>
      && |args| == 4
      && submitted.Some?
      && Assembled(submitted.value, Elems(args[0]), Elems(args[1]), Elems(args[2]), toFraction)
      && var res := runSimplex(submitted.value);
         && reply.Returned?
         && reply.result == ResultName(res.kind)
         && |reply.solution| == |res.solution|
         && (forall i :: 0 <= i < |res.solution| ==> reply.solution[i] == toDouble(res.solution[i]))
         && reply.vars == args[3]
  {
    var verdict := Validate(args);
    if verdict.Some? {
      return Thrown(verdict.value), None;
    }
    ValidShape(args);
    var a, b, c, vars := args[0], args[1], args[2], args[3];

    var t := BuildTableau(a.elems, b.elems, c.elems, toFraction);
    var result := runSimplex(t);
    var rStr := ResultName(result.kind);

    var solution := new real[|result.solution|];
    for i := 0 to |result.solution|
      invariant forall k :: 0 <= k < i ==> solution[k] == toDouble(result.solution[k])
    {
      solution[i] := toDouble(result.solution[i]);
    }

    reply := Returned(rStr, solution[..], vars);
    submitted := Some(t);
  }

  /** The dot product of two vectors of equal length. */
  function Dot(u: seq<Fraction>, x: seq<Fraction>): Fraction
    requires |u| == |x|
  {
    if |u| == 0 then 0.0 else u[0] * x[0] + Dot(u[1..], x[1..])
  }

  /** The product of a matrix with a vector. */
  function MatVec(M: seq<seq<Fraction>>, x: seq<Fraction>): seq<Fraction>
    requires forall i :: 0 <= i < |M| ==> |M[i]| == |x|
  {
    seq(|M|, i requires 0 <= i < |M| => Dot(M[i], x))
  }

  /** A dot product with the k-th unit vector picks out component k. */
  lemma {:induction false} DotUnit(u: seq<Fraction>, x: seq<Fraction>, k: nat)
    requires |u| == |x| && k < |u|
    requires forall j :: 0 <= j < |u| ==> u[j] == if j == k then 1.0 else 0.0
    ensures Dot(u, x) == x[k]
  {
    if k == 0 {
      DotZero(u[1..], x[1..]);
    } else {
      DotUnit(u[1..], x[1..], k - 1);
    }
  }

  /** A dot product with the zero vector is zero. */
  lemma {:induction false} DotZero(u: seq<Fraction>, x: seq<Fraction>)
    requires |u| == |x|
    requires forall j :: 0 <= j < |u| ==> u[j] == 0.0
    ensures Dot(u, x) == 0.0
  {
    if |u| > 0 {
      DotZero(u[1..], x[1..]);
    }
  }

  /**
   * The identity certificate matrix leaves every vector unchanged; this holds
   * of the certificate matrix Solve assembles, which satisfies IsIdentity.
   */
  lemma IdentityIsNeutral(M: seq<seq<Fraction>>, x: seq<Fraction>)
    requires IsIdentity(M, |x|)
    ensures MatVec(M, x) == x
  {
    forall i | 0 <= i < |x|
      ensures MatVec(M, x)[i] == x[i]
    {
      DotUnit(M[i], x, i);
    }
  }

  /** The assembled tableau is determined by the input: two assemblies of the same input agree. */
  lemma AssembledUnique(t1: Tabloid, t2: Tabloid, a: seq<JsVal>, b: seq<JsVal>, c: seq<JsVal>, toFraction: JsVal -> Fraction)
    requires Assembled(t1, a, b, c, toFraction) && Assembled(t2, a, b, c, toFraction)
    ensures t1 == t2
  {
    var m, n := |b|, |c|;
    assert t1.certificateMatrix == t2.certificateMatrix by {
      forall i | 0 <= i < m ensures t1.certificateMatrix[i] == t2.certificateMatrix[i] {}
    }
    assert t1.A == t2.A by {
      forall i | 0 <= i < m ensures t1.A[i] == t2.A[i] {}
    }
  }
}
