/**
 * The solution decoder of the TypeScript layer (findSolution in src/index.ts).
 *
 * Given a variable name, the solver's solution vector and the aligned vector of
 * internal column names, it reports the variable's value. A variable without a
 * sign constraint is carried by the solver as two columns `<name>p` and
 * `<name>n`, and decodes to their difference. JavaScript's NaN ("not found")
 * is the constructor NotFound; numbers are modelled as exact reals.
 */
module Decoder {

  /** The answer of findSolution: a value, or NaN. */
  datatype Lookup = Found(value: real) | NotFound

  /** The column name of the positive part of a split variable. */
  function PosName(name: string): string { name + "p" }

  /** The column name of the negative part of a split variable. */
  function NegName(name: string): string { name + "n" }

  /** `r` is the index of the last occurrence of `x` in `xs`, or -1 when there is none. */
  predicate IsLastIndex(xs: seq<string>, x: string, r: int)
  {
    && -1 <= r < |xs|
    && (r >= 0 ==> xs[r] == x)
    && (forall j :: r < j < |xs| ==> xs[j] != x)
  }

  /** Index of the last occurrence of `x` in `xs`, or -1 when `x` does not occur. */
  function LastIndex(xs: seq<string>, x: string): (r: int)
    ensures IsLastIndex(xs, x, r)
    ensures r == -1 <==> x !in xs
  {
    if |xs| == 0 then -1
    else if xs[|xs| - 1] == x then |xs| - 1
    else LastIndex(xs[..|xs| - 1], x)
  }

  /** The last-index characterisation has exactly one solution. */
  lemma LastIndexUnique(xs: seq<string>, x: string, r: int)
    requires IsLastIndex(xs, x, r)
    ensures r == LastIndex(xs, x)
  {
  }

  /**
   * What findSolution computes. Mismatched lengths give NotFound; otherwise
   * the last exact match wins; only without any exact match is the split
   * pair `<name>p` / `<name>n` consulted, each at its last occurrence.
   */
  function Decode(name: string, solution: seq<real>, vars: seq<string>): (r: Lookup)
    ensures |solution| != |vars| ==> r == NotFound
    ensures r.Found? <==>
      |solution| == |vars| && (name in vars || (PosName(name) in vars && NegName(name) in vars))
    ensures |solution| == |vars| && name in vars ==>
      exists i :: IsLastIndex(vars, name, i) && 0 <= i < |vars| && r == Found(solution[i])
    ensures |solution| == |vars| && name !in vars && PosName(name) in vars && NegName(name) in vars ==>
      exists p, n :: && IsLastIndex(vars, PosName(name), p) && 0 <= p < |vars|
                     && IsLastIndex(vars, NegName(name), n) && 0 <= n < |vars|
                     && r == Found(solution[p] - solution[n])
  {
    if |solution| != |vars| then NotFound
    else
      var i := LastIndex(vars, name);
      if i != -1 then Found(solution[i])
      else
        var p := LastIndex(vars, PosName(name));
        var n := LastIndex(vars, NegName(name));
        if p != -1 && n != -1 then Found(solution[p] - solution[n]) else NotFound
  }

  /**
   * findSolution itself: two scans that overwrite the found indices, so the
   * last occurrence is kept. The arrays are only read (no modifies clause).
   */
  method FindSolution(name: string, solution: array<real>, vars: array<string>) returns (r: Lookup)
    ensures r == Decode(name, solution[..], vars[..])
  {
    var found := -1;
    var iMax := solution.Length;
    if solution.Length != vars.Length {
      return NotFound;
    }
    for i := 0 to iMax
      invariant IsLastIndex(vars[..i], name, found)
    {
      if vars[i] == name {
        found := i;
      }
    }
    assert vars[..iMax] == vars[..];
    LastIndexUnique(vars[..], name, found);
    if found != -1 {
      return Found(solution[found]);
    }

    var varP := PosName(name);
    var varN := NegName(name);
    assert varP[|name|] != varN[|name|];
    var foundP := -1;
    var foundN := -1;
    for i := 0 to iMax
      invariant IsLastIndex(vars[..i], varP, foundP)
      invariant IsLastIndex(vars[..i], varN, foundN)
    {
      if vars[i] == varP {
        foundP := i;
      } else if vars[i] == varN {
        foundN := i;
      }
    }
    LastIndexUnique(vars[..], varP, foundP);
    LastIndexUnique(vars[..], varN, foundN);
    if foundP != -1 && foundN != -1 {
      return Found(solution[foundP] - solution[foundN]);
    }
    return NotFound;
  }

  /**
   * Reference reading of the decoder as a dictionary: store solution[i] under
   * vars[i] for i = 0, 1, ... in order, a later entry replacing an earlier one.
   */
  function Table(solution: seq<real>, vars: seq<string>): map<string, real>
    requires |solution| == |vars|
  {
    if |vars| == 0 then map[]
    else Table(solution[..|vars| - 1], vars[..|vars| - 1])[vars[|vars| - 1] := solution[|vars| - 1]]
  }

  /** Dictionary lookup with the split-pair fallback. */
  function DecodeTable(name: string, t: map<string, real>): Lookup
  {
    if name in t then Found(t[name])
    else if PosName(name) in t && NegName(name) in t then Found(t[PosName(name)] - t[NegName(name)])
    else NotFound
  }

  /** The dictionary holds exactly the names of `vars`, each with the value at its last occurrence. */
  lemma {:induction false} TableAt(solution: seq<real>, vars: seq<string>, x: string)
    requires |solution| == |vars|
    ensures x in Table(solution, vars) <==> x in vars
    ensures x in vars ==> Table(solution, vars)[x] == solution[LastIndex(vars, x)]
  {
    if |vars| > 0 {
      var k := |vars| - 1;
      TableAt(solution[..k], vars[..k], x);
      assert vars == vars[..k] + [vars[k]];
      if x != vars[k] && x in vars {
        assert x in vars[..k];
      }
    }
  }

  /** For aligned vectors, findSolution is a lookup in the dictionary of names. */
  lemma DecodeIsTableLookup(name: string, solution: seq<real>, vars: seq<string>)
    requires |solution| == |vars|
    ensures Decode(name, solution, vars) == DecodeTable(name, Table(solution, vars))
  {
    TableAt(solution, vars, name);
    TableAt(solution, vars, PosName(name));
    TableAt(solution, vars, NegName(name));
  }

  /** With distinct names, every column decodes to its own aligned value. */
  lemma DecodeAligned(solution: seq<real>, vars: seq<string>, j: int)
    requires |solution| == |vars|
    requires forall i, k :: 0 <= i < k < |vars| ==> vars[i] != vars[k]
    requires 0 <= j < |vars|
    ensures Decode(vars[j], solution, vars) == Found(solution[j])
  {
    LastIndexUnique(vars, vars[j], j);
  }

  /** Mismatched lengths hide every name. */
  lemma MismatchHidesEveryName(solution: seq<real>, vars: seq<string>)
    requires |solution| != |vars|
    ensures forall name :: Decode(name, solution, vars) == NotFound
  {
  }

  /** An exact match shadows a split pair of the same name. */
  lemma ExactMatchShadowsPair(name: string, solution: seq<real>, vars: seq<string>, i: int)
    requires |solution| == |vars|
    requires 0 <= i < |vars| && vars[i] == name
    requires forall j :: i < j < |vars| ==> vars[j] != name
    ensures Decode(name, solution, vars) == Found(solution[i])
  {
    LastIndexUnique(vars, name, i);
  }

  /** The solution vector of a problem whose variables `b` and `d` carry no sign constraint. */
  const ReorderedSolution: seq<real> := [0.0, 14.0, 9.0, 60.0, 0.0, 0.0, 0.0, 10.0, 0.0, 0.0, 0.0, 4.0]

  /** Its column names, listed in an order a reader would not expect. */
  const ReorderedVars: seq<string> := ["a", "c", " f_1", "f_2", "f_3", "f_4", "f_5", "f_6", "dp", "dn", "bp", "bn"]

  /** `b` decodes to bp - bn = 0 - 4. */
  lemma ReorderedSplitExample()
    ensures Decode("b", ReorderedSolution, ReorderedVars) == Found(-4.0)
  {
    assert "b" !in ReorderedVars;
    LastIndexUnique(ReorderedVars, "bp", 10);
    LastIndexUnique(ReorderedVars, "bn", 11);
  }

  /** `c` is found by exact match although it is not in its "natural" position. */
  lemma ReorderedExactExample()
    ensures Decode("c", ReorderedSolution, ReorderedVars) == Found(14.0)
  {
    LastIndexUnique(ReorderedVars, "c", 1);
  }

  /** Matching is plain string equality: a padded column name does not match the bare name. */
  lemma NoTrimmingExample()
    ensures Decode("b", [0.0, 7.0], ["a", " b"]) == NotFound
    ensures Decode(" b", [0.0, 7.0], ["a", " b"]) == Found(7.0)
  {
    assert "b" !in ["a", " b"];
    assert PosName("b") == "bp" && "bp" !in ["a", " b"];
    LastIndexUnique(["a", " b"], " b", 1);
  }
}
