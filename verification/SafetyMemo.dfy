/** The memo table of verdicts in src/passes/constant_propagation_memory.cpp, what justifies its
    entries, and why later entries never invalidate earlier ones. */
module SafetyMemo {
  import opened SafetyModel

  datatype Safety = Visiting | Safe | Unsafe

  type Memo = map<nat, Safety>

  /** Entries, once made, are never changed by a later judgement. */
  ghost predicate Extends(m: Memo, m': Memo) {
    forall i :: i in m ==> i in m' && m'[i] == m[i]
  }

  ghost predicate Includes(t: Table, t': Table) {
    forall i :: i in t ==> i in t' && t'[i] == t[i]
  }

  predicate Judged(m: Memo, o: Operand) {
    o.Result? ==> o.inst in m && m[o.inst] != Visiting
  }

  predicate Denied(m: Memo, o: Operand) {
    o.Result? && o.inst in m && m[o.inst] != Safe
  }

  ghost predicate TableOf(m: Memo, t: Table) {
    forall i :: i in t <==> i in m && m[i] == Safe
  }

  /** The verdict on a store can no longer change. */
  predicate StoreSettled(p: Program, m: Memo, n: Node) {
    Target(p, n).Some? && !p.code[n.inst].inLoop && p.code[n.inst].preds <= 1 ==>
      && Judged(m, p.code[n.inst].kind.pointer)
      && (Denied(m, p.code[n.inst].kind.pointer) || Judged(m, p.code[n.inst].kind.stored))
  }

  ghost predicate ChainSettled(p: Program, m: Memo, chain: seq<Node>) {
    forall k :: 0 <= k < |chain| ==> StoreSettled(p, m, chain[k])
  }

  /** Why a judged value was refused, in terms of the table alone. */
  ghost predicate Refused(p: Program, m: Memo, t: Table, early: set<nat>, i: nat) {
    i < |p.code| && (p.code[i].inLoop ||
    match p.code[i].kind
    case Pure(_, os) => exists k :: DeniedFirst(m, t, os, k)
    case Load(ptr, owner, loaded) =>
      || i in early || p.code[i].preds > 1 || owner.None? || loaded.None? || loaded.value.size > 64
      || Denied(m, ptr)
      || (Known(t, ptr) && RangeRefused(p, m, t, owner.value, loaded.value))
    case _ => true)
  }

  /** Some byte of the access fails the backward walk, along a chain whose stores are settled. */
  ghost predicate RangeRefused(p: Program, m: Memo, t: Table, owner: Node, s: Access) {
    exists chain :: p.IsChain(chain) && chain[|chain| - 1] == owner && ChainSettled(p, m, chain)
      && !RangeSafe(p, t, chain, s)
  }

  /** Operand `k` was refused after all those before it had been found safe. */
  ghost predicate DeniedFirst(m: Memo, t: Table, os: seq<Operand>, k: int) {
    0 <= k < |os| && Denied(m, os[k]) && forall l :: 0 <= l < k ==> Known(t, os[l])
  }

  ghost predicate MemoOk(p: Program, m: Memo, t: Table, early: set<nat>) {
    && TableOf(m, t)
    && AllDerived(p, t)
    && (forall i :: i in m ==> i < |p.code|)
    && (forall i :: i in m && m[i] == Unsafe ==> Refused(p, m, t, early, i))
    && (forall i :: i in early ==> i in m && i !in t)
  }

  lemma StoreStable(p: Program, m: Memo, t: Table, m': Memo, t': Table, n: Node)
    requires TableOf(m, t) && TableOf(m', t') && Extends(m, m') && Includes(t, t')
    requires StoreSettled(p, m, n) && Target(p, n).Some?
    ensures StoreSettled(p, m', n)
    ensures StoreSafe(p, t, n.inst) == StoreSafe(p, t', n.inst)
  {
  }

  /** Judging more values never changes the walk of a settled chain. */
  lemma {:induction false} WalkStable(p: Program, m: Memo, t: Table, m': Memo, t': Table, chain: seq<Node>, a: Address)
    requires TableOf(m, t) && TableOf(m', t') && Extends(m, m') && Includes(t, t')
    requires |chain| > 0 && ChainSettled(p, m, chain)
    ensures ChainSettled(p, m', chain)
    ensures Walk(p, t, chain, a) == Walk(p, t', chain, a)
    decreases |chain|
  {
    forall k | 0 <= k < |chain| ensures StoreSettled(p, m', chain[k]) {
      if Target(p, chain[k]).Some? { StoreStable(p, m, t, m', t', chain[k]); }
    }
    var n := |chain| - 1;
    if n > 0 && Target(p, chain[n]).Some? {
      StoreStable(p, m, t, m', t', chain[n]);
      WalkStable(p, m, t, m', t', chain[..n], a);
    }
  }

  /** A byte the walk resolved keeps its expression in every larger table. */
  lemma {:induction false} WalkMonotone(p: Program, t: Table, t': Table, chain: seq<Node>, a: Address)
    requires Includes(t, t') && |chain| > 0 && Walk(p, t, chain, a).Some?
    ensures Walk(p, t', chain, a) == Walk(p, t, chain, a)
    decreases |chain|
  {
    var n := |chain| - 1;
    if n > 0 && !Target(p, chain[n]).value.Marks(a) {
      WalkMonotone(p, t, t', chain[..n], a);
    }
  }

  lemma DerivationMonotone(p: Program, t: Table, t': Table, i: nat, x: Expr)
    requires Includes(t, t') && Derivation(p, t, i, x)
    ensures Derivation(p, t', i, x)
  {
    match p.code[i].kind
    case Pure(op, os) =>
      assert ArgExprs(t, os) == ArgExprs(t', os);
    case Load(ptr, owner, loaded) =>
      var s := loaded.value;
      var chain :| p.IsChain(chain) && chain[|chain| - 1] == owner.value
        && RangeSafe(p, t, chain, s) && x == LoadExpr(p, t, ptr, chain, s);
      forall k: nat | k < s.size ensures Walk(p, t', chain, s.Byte(k)) == Walk(p, t, chain, s.Byte(k)) {
        WalkMonotone(p, t, t', chain, s.Byte(k));
      }
      assert RangeSafe(p, t', chain, s);
      assert LoadExpr(p, t', ptr, chain, s) == x;
  }

  lemma RefusedStable(p: Program, m: Memo, t: Table, e: set<nat>, m': Memo, t': Table, e': set<nat>, i: nat)
    requires TableOf(m, t) && TableOf(m', t') && Extends(m, m') && Includes(t, t') && e <= e'
    requires Refused(p, m, t, e, i)
    ensures Refused(p, m', t', e', i)
  {
    if !p.code[i].inLoop {
      match p.code[i].kind
      case Pure(_, os) =>
        var k :| DeniedFirst(m, t, os, k);
        assert DeniedFirst(m', t', os, k);
      case Load(ptr, owner, loaded) =>
        if !(i in e || p.code[i].preds > 1 || owner.None? || loaded.None? || loaded.value.size > 64 || Denied(m, ptr)) {
          var chain :| p.IsChain(chain) && chain[|chain| - 1] == owner.value && ChainSettled(p, m, chain)
            && !RangeSafe(p, t, chain, loaded.value);
          var k: nat :| k < loaded.value.size && !Walk(p, t, chain, loaded.value.Byte(k)).Some?;
          WalkStable(p, m, t, m', t', chain, loaded.value.Byte(k));
          assert !RangeSafe(p, t', chain, loaded.value);
        }
      case _ =>
    }
  }

  lemma ExtendsRecord(m0: Memo, m: Memo, i: nat, v: Safety, w: Safety)
    requires i !in m0 && Extends(m0[i := v], m)
    ensures Extends(m0, m) && Extends(m0, m[i := w]) && i in m && m[i] == v
  {
  }

  lemma MemoVisit(p: Program, m: Memo, t: Table, e: set<nat>, i: nat)
    requires MemoOk(p, m, t, e) && i !in m && i < |p.code|
    ensures MemoOk(p, m[i := Visiting], t, e) && Extends(m, m[i := Visiting]) && Includes(t, t)
  {
    var m' := m[i := Visiting];
    forall k | k in m' && m'[k] == Unsafe ensures Refused(p, m', t, e, k) {
      RefusedStable(p, m, t, e, m', t, e, k);
    }
  }

  lemma MemoEarly(p: Program, m: Memo, t: Table, e: set<nat>, i: nat)
    requires MemoOk(p, m, t, e) && i in m && m[i] == Visiting
    ensures MemoOk(p, m, t, e + {i})
  {
    forall k | k in m && m[k] == Unsafe ensures Refused(p, m, t, e + {i}, k) {
      RefusedStable(p, m, t, e, m, t, e + {i}, k);
    }
  }

  /** Recording a refusal. */
  lemma MemoRefuse(p: Program, m: Memo, t: Table, e: set<nat>, i: nat)
    requires MemoOk(p, m, t, e) && i in m && m[i] == Visiting && Refused(p, m, t, e, i)
    ensures MemoOk(p, m[i := Unsafe], t, e) && i !in t
  {
    var m' := m[i := Unsafe];
    forall k | k in m' && m'[k] == Unsafe ensures Refused(p, m', t, e, k) {
      RefusedAfterRefusal(p, m, t, e, i, k);
    }
  }

  lemma RefusedAfterRefusal(p: Program, m: Memo, t: Table, e: set<nat>, i: nat, k: nat)
    requires i in m && m[i] == Visiting && Refused(p, m, t, e, k)
    ensures Refused(p, m[i := Unsafe], t, e, k)
  {
    var m' := m[i := Unsafe];
    if !p.code[k].inLoop && p.code[k].kind.Pure? {
      var j :| DeniedFirst(m, t, p.code[k].kind.operands, j);
      assert DeniedFirst(m', t, p.code[k].kind.operands, j);
    } else if !p.code[k].inLoop && p.code[k].kind.Load? {
      forall chain | ChainSettled(p, m, chain) ensures ChainSettled(p, m', chain) {
        forall j | 0 <= j < |chain| ensures StoreSettled(p, m', chain[j]) {
          assert StoreSettled(p, m, chain[j]);
        }
      }
    }
  }

  /** Recording a value as safe is sound for the table because every value judged while it
      was being visited was itself found safe: nobody was refused for reaching it. */
  lemma MemoAccept(p: Program, m0: Memo, t0: Table, e0: set<nat>, m: Memo, t: Table, e: set<nat>, i: nat, x: Expr)
    requires MemoOk(p, m0, t0, e0) && MemoOk(p, m, t, e)
    requires i !in m0 && i in m && m[i] == Visiting && Extends(m0, m) && Includes(t0, t) && e0 <= e
    requires forall k :: k in m && k !in m0 && k != i ==> m[k] == Safe
    requires Derivation(p, t, i, x) && i !in e
    ensures MemoOk(p, m[i := Safe], t[i := x], e) && Includes(t0, t[i := x])
  {
    hide Derivation, Refused;
    var m', t' := m[i := Safe], t[i := x];
    assert i !in t;
    assert Includes(t, t') && Includes(t0, t') && Extends(m0, m');
    forall k | k in t' ensures Derivation(p, t', k, t'[k]) {
      if k != i { assert Derived(p, t, k); }
      DerivationMonotone(p, t, t', k, t'[k]);
    }
    forall k | k in m' && m'[k] == Unsafe ensures Refused(p, m', t', e, k) {
      assert k in m0;
      RefusedStable(p, m0, t0, e0, m', t', e, k);
    }
  }
}
