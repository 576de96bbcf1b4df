/** The plugin's variable store: its total size, the limit on it, and what runs of it keep. */
module VarStore {
  import opened LittleEndian

  const STORE_LIMIT := 1024 * 1024 * 100

  type Vars = map<seq<byte>, seq<byte>>

  /** The sum of the lengths of all values. */
  ghost function Total(vars: Vars): nat
  {
    if vars == map[] then 0 else
    var k :| k in vars;
    |vars[k]| + Total(vars - {k})
  }

  /** What the store holds when it is filled through `var_set` alone. */
  ghost predicate GoodVars(vars: Vars)
  {
    forall k :: k in vars ==> 1 <= |vars[k]| < U32_LIMIT
  }

  /** The order in which values are summed does not matter. */
  lemma {:induction false} TotalSplit(vars: Vars, k: seq<byte>)
    requires k in vars
    ensures Total(vars) == |vars[k]| + Total(vars - {k})
    decreases |vars|
  {
    var j :| j in vars && Total(vars) == |vars[j]| + Total(vars - {j});
    if j != k {
      var rest := vars - {j} - {k};
      assert rest == vars - {k} - {j};
      SmallerWithout(vars, j);
      SmallerWithout(vars, k);
      TotalSplit(vars - {j}, k);
      TotalSplit(vars - {k}, j);
    }
  }

  lemma SmallerWithout(vars: Vars, k: seq<byte>)
    requires k in vars
    ensures |vars - {k}| < |vars|
  {
  }

  function Held(vars: Vars, k: seq<byte>): nat
  {
    if k in vars then |vars[k]| else 0
  }

  /** Replacing or adding a value changes the total by exactly the difference in length. */
  lemma TotalPut(vars: Vars, k: seq<byte>, v: seq<byte>)
    ensures Total(vars[k := v]) == Total(vars) - Held(vars, k) + |v|
  {
    var after := vars[k := v];
    TotalSplit(after, k);
    if k in vars {
      TotalSplit(vars, k);
      assert after - {k} == vars - {k};
    } else {
      assert after - {k} == vars;
    }
  }

  lemma TotalDrop(vars: Vars, k: seq<byte>)
    ensures Total(vars - {k}) == Total(vars) - Held(vars, k)
  {
    if k in vars {
      TotalSplit(vars, k);
    } else {
      assert vars - {k} == vars;
    }
  }

  // ----- Runs -----

  datatype VarOp = Put(key: seq<byte>, value: seq<byte>) | Drop(key: seq<byte>)

  /** A store that is already over the limit refuses values but still drops them. */
  ghost function VarStep(vars: Vars, op: VarOp): Vars
  {
    match op
    case Put(k, v) => if STORE_LIMIT < Total(vars) then vars else vars[k := v]
    case Drop(k) => vars - {k}
  }

  ghost function VarRun(ops: seq<VarOp>): Vars
  {
    if ops == [] then map[] else VarStep(VarRun(ops[..|ops| - 1]), ops[|ops| - 1])
  }

  /** Values read out of kernel memory are never empty. */
  ghost predicate GoodOps(ops: seq<VarOp>)
  {
    forall i :: 0 <= i < |ops| && ops[i].Put? ==> 1 <= |ops[i].value| < U32_LIMIT
  }

  lemma LogExtended(ops: seq<VarOp>, op: VarOp)
    requires GoodOps(ops) && (op.Put? ==> 1 <= |op.value| < U32_LIMIT)
    ensures GoodOps(ops + [op]) && VarRun(ops + [op]) == VarStep(VarRun(ops), op)
  {
  }

  ghost predicate ValuesAtMost(ops: seq<VarOp>, largest: nat)
  {
    forall i :: 0 <= i < |ops| && ops[i].Put? ==> |ops[i].value| <= largest
  }

  /** The store never outgrows its limit by more than one value. */
  lemma {:induction false} StoreBounded(ops: seq<VarOp>, largest: nat)
    requires ValuesAtMost(ops, largest)
    ensures Total(VarRun(ops)) <= STORE_LIMIT + largest
  {
    if ops != [] {
      var n := |ops| - 1;
      StoreBounded(ops[..n], largest);
      var before := VarRun(ops[..n]);
      match ops[n]
      case Put(k, v) => TotalPut(before, k, v);
      case Drop(k) => TotalDrop(before, k);
    }
  }

  lemma {:induction false} StoreGood(ops: seq<VarOp>)
    requires GoodOps(ops)
    ensures GoodVars(VarRun(ops))
  {
    if ops != [] {
      var n := |ops| - 1;
      assert GoodOps(ops[..n]);
      StoreGood(ops[..n]);
      assert ops[n].Put? ==> 1 <= |ops[n].value| < U32_LIMIT;
    }
  }

  /** What a key holds: the last value accepted for it and not dropped since. */
  ghost function LastSet(ops: seq<VarOp>, key: seq<byte>): seq<seq<byte>>
  {
    if ops == [] then [] else
    var n := |ops| - 1;
    match ops[n]
    case Put(k, v) => if k == key && Total(VarRun(ops[..n])) <= STORE_LIMIT then [v] else LastSet(ops[..n], key)
    case Drop(k) => if k == key then [] else LastSet(ops[..n], key)
  }

  lemma {:induction false} StoreHoldsLastSet(ops: seq<VarOp>, key: seq<byte>)
    ensures LastSet(ops, key) == if key in VarRun(ops) then [VarRun(ops)[key]] else []
  {
    if ops != [] {
      StoreHoldsLastSet(ops[..|ops| - 1], key);
    }
  }
}
