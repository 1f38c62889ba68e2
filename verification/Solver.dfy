/** The solver as an oracle, and what src/value/value.cpp builds on it. */
module Solver {
  import opened Bits
  import opened Terms

  datatype Answer = Sat(model: Assignment) | Unsat | Unknown

  datatype Oracle = Oracle(check: seq<Term> -> Answer, rewrite: Term -> Term) {

    /** SAT comes with a model, UNSAT is never wrong, rewriting keeps sort and value. */
    ghost predicate Sound() {
      && (forall cs {:trigger check(cs)} :: check(cs).Sat? ==> Holds(cs, check(cs).model))
      && (forall cs, s {:trigger check(cs), Holds(cs, s)} :: check(cs).Unsat? ==> !Holds(cs, s))
      && (forall t, s {:trigger Eval(rewrite(t), s)} :: Eval(rewrite(t), s) == Eval(t, s))
      && (forall t {:trigger rewrite(t)} ::
            rewrite(t).Width() == t.Width() && (t.WellSorted() ==> rewrite(t).WellSorted()))
      && (forall t: Term {:trigger rewrite(t)} :: !t.IsBool() ==> !rewrite(t).IsBool())
    }

    ghost predicate Decisive() {
      forall cs :: !check(cs).Unknown?
    }
  }

  const LIMIT: nat := 20

  ghost predicate Attainable(t: Term, cs: seq<Term>, v: nat) {
    exists s :: Holds(cs, s) && Eval(t, s) == v
  }

  /** Every value of `t` under the constraints is listed. */
  ghost predicate Covers(t: Term, cs: seq<Term>, values: seq<Term>) {
    forall s :: Holds(cs, s) ==> Listed(Eval(t, s), values)
  }

  ghost predicate Listed(v: nat, values: seq<Term>) {
    exists i :: 0 <= i < |values| && values[i].Value? && values[i].value == v
  }

  ghost predicate DistinctValues(t: Term, values: seq<Term>) {
    && (forall i :: 0 <= i < |values| ==> values[i].Value? && values[i].bits == t.Width())
    && (forall i, j :: 0 <= i < j < |values| ==> values[i] != values[j])
  }

  /** The constraints, with every listed value excluded. */
  function Excluding(t: Term, cs: seq<Term>, values: seq<Term>): seq<Term> {
    if values == [] then cs
    else Excluding(t, cs, values[..|values| - 1]) + [Distinct(t, values[|values| - 1])]
  }

  lemma {:induction false} HoldsExcluding(t: Term, cs: seq<Term>, values: seq<Term>, s: Assignment)
    requires DistinctValues(t, values)
    ensures Holds(Excluding(t, cs, values), s) <==> Holds(cs, s) && !Listed(Eval(t, s), values)
  {
    if values != [] {
      var n := |values| - 1;
      HoldsExcluding(t, cs, values[..n], s);
      HoldsPush(Excluding(t, cs, values[..n]), Distinct(t, values[n]), s);
      assert values == values[..n] + [values[n]];
      assert Listed(Eval(t, s), values) <==> Listed(Eval(t, s), values[..n]) || values[n].value == Eval(t, s);
    }
  }

  lemma ExcludingPush(t: Term, cs: seq<Term>, values: seq<Term>, v: Term)
    ensures Excluding(t, cs, values + [v]) == Excluding(t, cs, values) + [Distinct(t, v)]
  {
    assert (values + [v])[..|values|] == values;
  }

  /** On the inputs that satisfy the constraints the term has at least one and at most 20
      values. */
  ghost predicate Enumerable(t: Term, cs: seq<Term>) {
    exists values :: 0 < |values| <= LIMIT && Enumerates(t, cs, values)
  }

  ghost predicate Enumerates(t: Term, cs: seq<Term>, values: seq<Term>) {
    && DistinctValues(t, values) && Covers(t, cs, values)
    && forall i :: 0 <= i < |values| ==> Attainable(t, cs, values[i].value)
  }

  ghost function Numbers(values: seq<Term>): set<nat> {
    if values == [] then {}
    else if values[|values| - 1].Value? then Numbers(values[..|values| - 1]) + {values[|values| - 1].value}
    else Numbers(values[..|values| - 1])
  }

  lemma {:induction false} NumbersAreListed(values: seq<Term>, v: nat)
    ensures v in Numbers(values) <==> Listed(v, values)
    ensures |Numbers(values)| <= |values|
  {
    if values != [] {
      var n := |values| - 1;
      NumbersAreListed(values[..n], v);
      assert values == values[..n] + [values[n]];
      assert Listed(v, values) <==> Listed(v, values[..n]) || (values[n].Value? && values[n].value == v);
    }
  }

  lemma {:induction false} DistinctCount(t: Term, values: seq<Term>)
    requires DistinctValues(t, values)
    ensures |Numbers(values)| == |values|
  {
    if values != [] {
      var n := |values| - 1;
      DistinctCount(t, values[..n]);
      NumbersAreListed(values[..n], values[n].value);
    }
  }

  lemma SubsetSize(a: set<nat>, b: set<nat>)
    requires a <= b
    ensures |a| <= |b|
  {
    assert b == a + (b - a);
  }

  /** Twenty attainable values that are not all leave the term with more than twenty. */
  lemma TooManyValues(t: Term, cs: seq<Term>, values: seq<Term>)
    requires DistinctValues(t, values) && |values| == LIMIT && !Covers(t, cs, values)
    requires forall i :: 0 <= i < |values| ==> Attainable(t, cs, values[i].value)
    ensures !Enumerable(t, cs)
  {
    hide Holds, Eval, Numbers;
    var s :| Holds(cs, s) && !Listed(Eval(t, s), values);
    forall all: seq<Term> | 0 < |all| <= LIMIT && Enumerates(t, cs, all) ensures false {
      forall v | v in Numbers(values) + {Eval(t, s)} ensures v in Numbers(all) {
        NumbersAreListed(values, v);
        NumbersAreListed(all, v);
        if v != Eval(t, s) {
          var i :| 0 <= i < |values| && values[i].value == v;
          assert Attainable(t, cs, values[i].value);
        }
      }
      NumbersAreListed(values, Eval(t, s));
      NumbersAreListed(all, 0);
      DistinctCount(t, values);
      SubsetSize(Numbers(values) + {Eval(t, s)}, Numbers(all));
    }
  }

  /** An enumeration ends in UNSAT, with something listed, exactly for enumerable terms. */
  lemma EnumerationExact(t: Term, cs: seq<Term>, values: seq<Term>)
    requires DistinctValues(t, values) && |values| <= LIMIT && (|values| < LIMIT ==> Covers(t, cs, values))
    requires forall i :: 0 <= i < |values| ==> Attainable(t, cs, values[i].value)
    ensures Covers(t, cs, values) && |values| > 0 <==> Enumerable(t, cs)
  {
    hide Holds, Eval, Numbers;
    if !Covers(t, cs, values) {
      TooManyValues(t, cs, values);
    } else if |values| > 0 {
      assert Enumerates(t, cs, values);
    } else {
      forall all: seq<Term> | 0 < |all| <= LIMIT ensures !Enumerates(t, cs, all) {
        if all[0].Value? { NothingAttainable(t, cs, all[0].value); }
      }
    }
  }

  lemma NothingAttainable(t: Term, cs: seq<Term>, v: nat)
    requires Covers(t, cs, [])
    ensures !Attainable(t, cs, v)
  {
    hide Holds, Eval;
  }

  /** What an unfinished enumeration has listed. */
  ghost predicate Listing(t: Term, cs: seq<Term>, values: seq<Term>) {
    && DistinctValues(t, values)
    && (forall i :: 0 <= i < |values| ==> Attainable(t, cs, values[i].value))
    && (t.WellSorted() ==> forall i :: 0 <= i < |values| ==> values[i].value < Pow2(t.Width()))
  }

  lemma NothingListed(t: Term, cs: seq<Term>)
    ensures Listing(t, cs, []) && Excluding(t, cs, []) == cs
  {
  }

  /** A model that excludes what is listed adds one more value. */
  lemma ListingPush(t: Term, cs: seq<Term>, values: seq<Term>, s: Assignment)
    requires Listing(t, cs, values) && Holds(Excluding(t, cs, values), s)
    ensures Listing(t, cs, values + [Value(t.Width(), Eval(t, s))])
  {
    hide Holds, Eval, Term.WellSorted, Term.Width, Pow2, Excluding;
    HoldsExcluding(t, cs, values, s);
    assert Attainable(t, cs, Eval(t, s));
    if t.WellSorted() { EvalFits(t, s); }
  }

  /** The values found by asking for a model and excluding it, at most 20 times. */
  function EnumerateFrom(o: Oracle, t: Term, cs: seq<Term>, values: seq<Term>): seq<Term>
    decreases LIMIT - |values|
  {
    if |values| >= LIMIT then values
    else match o.check(Excluding(t, cs, values))
      case Sat(model) => EnumerateFrom(o, t, cs, values + [Value(t.Width(), Eval(t, model))])
      case _ => values
  }

  function Enumerate(o: Oracle, t: Term, cs: seq<Term>): seq<Term> { EnumerateFrom(o, t, cs, []) }

  lemma {:induction false} EnumerateListing(o: Oracle, t: Term, cs: seq<Term>, values: seq<Term>)
    requires o.Sound() && Listing(t, cs, values) && |values| <= LIMIT
    ensures var found := EnumerateFrom(o, t, cs, values);
      && Listing(t, cs, found) && |found| <= LIMIT
      && (o.Decisive() && |found| < LIMIT ==> o.check(Excluding(t, cs, found)).Unsat?)
    decreases LIMIT - |values|
  {
    hide Listing, Holds, Eval, Excluding;
    var check := o.check(Excluding(t, cs, values));
    if |values| < LIMIT && check.Sat? {
      ListingPush(t, cs, values, check.model);
      EnumerateListing(o, t, cs, values + [Value(t.Width(), Eval(t, check.model))]);
    }
  }

  /** What the enumeration of a term's values says. */
  lemma EnumerateMeans(o: Oracle, t: Term, cs: seq<Term>)
    requires o.Sound()
    ensures var values, result := Enumerate(o, t, cs), o.check(Excluding(t, cs, Enumerate(o, t, cs)));
      && |values| <= LIMIT && Listing(t, cs, values)
      && (o.Decisive() && |values| < LIMIT ==> result.Unsat?)
      && (result.Unsat? ==> Covers(t, cs, values))
      && (o.Decisive() ==> (result.Unsat? <==> Covers(t, cs, values)))
      && (o.Decisive() ==> (result.Unsat? && |values| > 0 <==> Enumerable(t, cs)))
  {
    NothingListed(t, cs);
    EnumerateListing(o, t, cs, []);
    hide Covers, Enumerable, Attainable, DistinctValues, EnumerateFrom;
    LastAnswer(o, t, cs, Enumerate(o, t, cs), o.check(Excluding(t, cs, Enumerate(o, t, cs))));
  }

  /** Enumerates values of a term by asking for a model and excluding it, at most 20 times. */
  method PossibleValues(o: Oracle, t: Term, constraints: seq<Term>) returns (values: seq<Term>, result: Answer)
    requires o.Sound()
    ensures values == Enumerate(o, t, constraints) && result == o.check(Excluding(t, constraints, values))
    ensures |values| <= 20 && DistinctValues(t, values)
    ensures forall i :: 0 <= i < |values| ==> Attainable(t, constraints, values[i].value)
    ensures t.WellSorted() ==> forall i :: 0 <= i < |values| ==> values[i].value < Pow2(t.Width())
    ensures result.Unsat? ==> Covers(t, constraints, values)
    ensures o.Decisive() ==> (result.Unsat? <==> Covers(t, constraints, values))
    ensures o.Decisive() && |values| < 20 ==> result.Unsat?
    ensures o.Decisive() ==>
      (result.Unsat? && |values| > 0 <==> exists all :: 0 < |all| <= 20 && Enumerates(t, constraints, all))
  {
    hide Holds, Eval, Term.WellSorted, Term.Width, Pow2, Enumerable, Attainable, DistinctValues, Covers, Excluding;
    var assumptions := constraints;
    values := [];
    NothingListed(t, constraints);
    while |values| < LIMIT
      invariant |values| <= LIMIT && assumptions == Excluding(t, constraints, values)
      invariant EnumerateFrom(o, t, constraints, values) == Enumerate(o, t, constraints)
    {
      var check := o.check(assumptions);
      if !check.Sat? {
        break;
      }
      var evaluated := Value(t.Width(), Eval(t, check.model));
      assumptions := assumptions + [Distinct(t, evaluated)];
      ExcludingPush(t, constraints, values, evaluated);
      values := values + [evaluated];
    }
    result := o.check(assumptions);
    EnumerateMeans(o, t, constraints);
    EnumerableMeans(t, constraints);
  }

  lemma EnumerableMeans(t: Term, cs: seq<Term>)
    ensures Enumerable(t, cs) <==> exists values :: 0 < |values| <= 20 && Enumerates(t, cs, values)
  {
  }

  /** What the last answer of an enumeration says of the values listed. */
  lemma LastAnswer(o: Oracle, t: Term, constraints: seq<Term>, values: seq<Term>, result: Answer)
    requires o.Sound() && DistinctValues(t, values) && |values| <= LIMIT
      && result == o.check(Excluding(t, constraints, values))
    requires forall i :: 0 <= i < |values| ==> Attainable(t, constraints, values[i].value)
    requires o.Decisive() && |values| < LIMIT ==> result.Unsat?
    ensures result.Unsat? ==> Covers(t, constraints, values)
    ensures o.Decisive() ==> (result.Unsat? <==> Covers(t, constraints, values))
    ensures o.Decisive() ==> (result.Unsat? && |values| > 0 <==> Enumerable(t, constraints))
  {
    hide Holds, Eval, Enumerable, Excluding, DistinctValues, Attainable;
    if result.Unsat? {
      forall s | Holds(constraints, s) ensures Listed(Eval(t, s), values) {
        HoldsExcluding(t, constraints, values, s);
      }
    } else if result.Sat? {
      HoldsExcluding(t, constraints, values, result.model);
    }
    if o.Decisive() { EnumerationExact(t, constraints, values); }
  }

  /** On the inputs that satisfy the constraints the term has one value or two. */
  ghost predicate FewValues(t: Term, cs: seq<Term>) {
    exists values :: 1 <= |values| <= 2 && Enumerates(t, cs, values)
  }

  lemma FewAreEnumerable(t: Term, cs: seq<Term>)
    ensures FewValues(t, cs) ==> Enumerable(t, cs)
  {
  }

  /** Two enumerations of one term list the same number of values. */
  lemma EnumerationSize(t: Term, cs: seq<Term>, a: seq<Term>, b: seq<Term>)
    requires Enumerates(t, cs, a) && Enumerates(t, cs, b)
    ensures |a| <= |b|
  {
    hide Holds, Eval, Numbers;
    forall v | v in Numbers(a) ensures v in Numbers(b) {
      NumbersAreListed(a, v);
      NumbersAreListed(b, v);
      var i :| 0 <= i < |a| && a[i].value == v;
      assert Attainable(t, cs, a[i].value);
    }
    SubsetSize(Numbers(a), Numbers(b));
    DistinctCount(t, a);
    DistinctCount(t, b);
  }

  /** A complete enumeration lists one or two values exactly if there are no more. */
  lemma FewValuesExact(t: Term, cs: seq<Term>, values: seq<Term>)
    requires DistinctValues(t, values) && |values| <= LIMIT && (|values| < LIMIT ==> Covers(t, cs, values))
    requires forall i :: 0 <= i < |values| ==> Attainable(t, cs, values[i].value)
    ensures 1 <= |values| <= 2 <==> FewValues(t, cs)
  {
    hide Holds, Eval, Numbers, Covers, DistinctValues, Attainable;
    EnumerationExact(t, cs, values);
    if 1 <= |values| <= 2 {
      assert Enumerates(t, cs, values);
    }
    if FewValues(t, cs) {
      var all: seq<Term> :| 1 <= |all| <= 2 && Enumerates(t, cs, all);
      assert Enumerable(t, cs);
      assert Enumerates(t, cs, values);
      EnumerationSize(t, cs, values, all);
    }
  }

  /** With one or two values listed, and all of them listed, the term takes only those. */
  lemma CoveredByFew(t: Term, cs: seq<Term>, values: seq<Term>)
    requires Covers(t, cs, values) && DistinctValues(t, values)
    ensures |values| == 1 ==> forall s :: Holds(cs, s) ==> Eval(t, s) == values[0].value
    ensures |values| == 2 ==> forall s :: Holds(cs, s) ==>
      Eval(t, s) == values[0].value || Eval(t, s) == values[1].value
  {
    hide Holds, Eval;
    forall s | Holds(cs, s)
      ensures |values| == 1 ==> Eval(t, s) == values[0].value
      ensures |values| == 2 ==> Eval(t, s) == values[0].value || Eval(t, s) == values[1].value
    {
      assert Listed(Eval(t, s), values);
    }
  }

  /** Simplification under constraints: a literal if the solver finds a value and no other. */
  function SimplifyUnder(o: Oracle, t: Term, constraints: seq<Term>): Term {
    var t := o.rewrite(t);
    if t.IsValue() then t else
    match o.check(constraints)
    case Sat(model) =>
      var candidate := Value(t.Width(), Eval(t, model));
      if o.check(constraints + [Distinct(t, candidate)]).Unsat? then candidate else t
    case _ => t
  }

  /** It never changes the value on an input that satisfies the constraints, and with a
      decisive solver it yields a literal exactly when the term has a single value there. */
  lemma SimplifyUnderKeepsMeaning(o: Oracle, t: Term, constraints: seq<Term>, s: Assignment)
    requires o.Sound() && Holds(constraints, s)
    ensures Eval(SimplifyUnder(o, t, constraints), s) == Eval(t, s)
    ensures o.Decisive() && (forall s' :: Holds(constraints, s') ==> Eval(t, s') == Eval(t, s)) ==>
      SimplifyUnder(o, t, constraints).IsValue()
  {
    var r := o.rewrite(t);
    var check := o.check(constraints);
    if !r.IsValue() && check.Sat? {
      var candidate := Value(r.Width(), Eval(r, check.model));
      var again := o.check(constraints + [Distinct(r, candidate)]);
      HoldsPush(constraints, Distinct(r, candidate), s);
      if again.Sat? {
        HoldsPush(constraints, Distinct(r, candidate), again.model);
      }
    }
  }

  lemma SimplifyUnderTyped(o: Oracle, t: Term, constraints: seq<Term>)
    requires o.Sound() && t.WellSorted()
    ensures SimplifyUnder(o, t, constraints).WellSorted()
    ensures SimplifyUnder(o, t, constraints).Width() == t.Width()
  {
    if o.check(constraints).Sat? { EvalFits(o.rewrite(t), o.check(constraints).model); }
  }

  /** A literal answer under satisfiable constraints is the only attainable value. */
  lemma SimplifyUnderLiteral(o: Oracle, t: Term, constraints: seq<Term>)
    requires o.Sound() && SimplifyUnder(o, t, constraints).IsValue()
    ensures forall s :: Holds(constraints, s) ==> Eval(t, s) == SimplifyUnder(o, t, constraints).value
  {
    forall s | Holds(constraints, s) ensures Eval(t, s) == SimplifyUnder(o, t, constraints).value {
      SimplifyUnderKeepsMeaning(o, t, constraints, s);
    }
  }
}
