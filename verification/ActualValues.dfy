/** What assertions say of an actual value, independently of the tables: a number is less than another
    or it is not. The tables are right when they agree with that.
 */
module ActualValues {
  import opened Assertions
  import opened AssertionSets

  /** Everything that assertions can say of a value: its number, length and count, those of the
      expressions it is compared with, and for the rest whether it is so.
   */
  datatype Actual = Actual(
    number: int, variable: nat -> int, length: int, count: nat,
    hasType: nat -> bool, identical: nat -> bool, equal: nat -> bool, inArray: nat -> bool,
    hasKey: nat -> bool, nonnullAt: nat -> bool,
    truthy: bool, isset: bool, keyExists: bool, empty: bool, countable: bool,
    equalIsset: bool, stringAccess: bool, intOrStringAccess: bool)

  function Truth(v: Actual): Valuation {
    (a: Assertion) =>
      match a
      case Any => true
      case IsType(x) => v.hasType(x)
      case IsNotType(x) => !v.hasType(x)
      case Falsy => !v.truthy
      case Truthy => v.truthy
      case IsIdentical(x) => v.identical(x)
      case IsNotIdentical(x) => !v.identical(x)
      case IsEqual(x) => v.equal(x)
      case IsNotEqual(x) => !v.equal(x)
      case IsEqualIsset => v.equalIsset
      case IsIsset => v.isset
      case IsNotIsset => !v.isset
      case HasStringArrayAccess => v.stringAccess
      case HasIntOrStringArrayAccess => v.intOrStringAccess
      case ArrayKeyExists => v.keyExists
      case ArrayKeyDoesNotExist => !v.keyExists
      case InArray(x) => v.inArray(x)
      case NotInArray(x) => !v.inArray(x)
      case HasArrayKey(k) => v.hasKey(k)
      case DoesNotHaveArrayKey(k) => !v.hasKey(k)
      case HasNonnullEntryForKey(k) => v.nonnullAt(k)
      case DoesNotHaveNonnullEntryForKey(k) => !v.nonnullAt(k)
      case Empty => v.empty
      case NonEmpty => !v.empty
      case NonEmptyCountable(_) => v.count > 0
      case EmptyCountable => v.count == 0
      case HasExactCount(n) => v.count == n
      case HasAtLeastCount(n) => v.count >= n
      case DoesNotHaveExactCount(n) => v.count != n
      case DoesNotHasAtLeastCount(n) => v.count < n
      case IsLessThan(n) => v.number < n
      case IsLessThanOrEqual(n) => v.number <= n
      case IsGreaterThan(n) => v.number > n
      case IsGreaterThanOrEqual(n) => v.number >= n
      case IsLessThanFromBound(n) => v.number < n
      case IsLessThanOrEqualFromBound(n) => v.number <= n
      case IsGreaterThanFromBound(n) => v.number > n
      case IsGreaterThanOrEqualFromBound(n) => v.number >= n
      case IsLessThanVariable(x) => v.number < v.variable(x)
      case IsLessThanOrEqualVariable(x) => v.number <= v.variable(x)
      case IsGreaterThanVariable(x) => v.number > v.variable(x)
      case IsGreaterThanOrEqualVariable(x) => v.number >= v.variable(x)
      case StringLengthLessThan(n) => v.length < n
      case StringLengthGreaterThanOrEqual(n) => v.length >= n
      case Countable => v.countable
      case NotCountable(_) => !v.countable
  }

  /** A fact that was inferred from the range of what is compared with. */
  predicate FromBound(a: Assertion) {
    || a.IsLessThanFromBound? || a.IsLessThanOrEqualFromBound?
    || a.IsGreaterThanFromBound? || a.IsGreaterThanOrEqualFromBound?
  }

  /** Assertions with nothing to negate them to. */
  predicate OneWay(a: Assertion) {
    || FromBound(a) || a.Any? || a.IsEqualIsset? || a.HasStringArrayAccess? || a.HasIntOrStringArrayAccess?
    || a == NonEmptyCountable(false)
  }

  // ---------------------------------------------------------------- the tables are right

  predicate OfNumber(a: Assertion) {
    || a.IsLessThan? || a.IsLessThanOrEqual? || a.IsGreaterThan? || a.IsGreaterThanOrEqual?
    || a.IsLessThanVariable? || a.IsLessThanOrEqualVariable? || a.IsGreaterThanVariable?
    || a.IsGreaterThanOrEqualVariable? || a.StringLengthLessThan? || a.StringLengthGreaterThanOrEqual?
    || a.HasExactCount? || a.HasAtLeastCount? || a.DoesNotHaveExactCount? || a.DoesNotHasAtLeastCount?
  }

  predicate OfKind(a: Assertion) {
    || a.IsType? || a.IsNotType? || a.IsIdentical? || a.IsNotIdentical? || a.IsEqual? || a.IsNotEqual?
    || a.InArray? || a.NotInArray? || a.HasArrayKey? || a.DoesNotHaveArrayKey?
    || a.HasNonnullEntryForKey? || a.DoesNotHaveNonnullEntryForKey?
  }

  lemma NegationOfNumber(v: Actual, a: Assertion)
    requires OfNumber(a)
    ensures (Truth(v)(GetNegation(a)) <==> !Truth(v)(a)) && GetNegation(a) != Any
  {
  }

  lemma NegationOfKind(v: Actual, a: Assertion)
    requires OfKind(a)
    ensures (Truth(v)(GetNegation(a)) <==> !Truth(v)(a)) && GetNegation(a) != Any
  {
  }

  lemma NegationOfOther(v: Actual, a: Assertion)
    requires !OfNumber(a) && !OfKind(a) && !OneWay(a)
    ensures (Truth(v)(GetNegation(a)) <==> !Truth(v)(a)) && GetNegation(a) != Any
  {
  }

  /** The negation of an assertion holds exactly of the values of which the assertion does not. */
  lemma NegationIsFalse(v: Actual, a: Assertion)
    requires !OneWay(a)
    ensures (Truth(v)(GetNegation(a)) <==> !Truth(v)(a)) && GetNegation(a) != Any
  {
    if OfNumber(a) {
      NegationOfNumber(v, a);
    } else if OfKind(a) {
      NegationOfKind(v, a);
    } else {
      NegationOfOther(v, a);
    }
  }

  lemma OneWayNegates(a: Assertion)
    requires OneWay(a)
    ensures GetNegation(a) == Any
  {
  }

  /** Opposite assertions are opposite of every actual value. */
  lemma TruthIsCoherent(v: Actual)
    ensures Coherent(Truth(v))
  {
    forall a, b | IsNegationOf(a, b) ensures Truth(v)(a) != Truth(v)(b) {
      OppositeIsNegation(a, b);
      if OneWay(a) {
        OneWayNegates(a);
      } else {
        NegationIsFalse(v, a);
      }
    }
  }

  /** Some value of which the assertion holds. */
  function Example(a: Assertion): Actual {
    var number :=
      match a
      case IsLessThanFromBound(n) => n - 1
      case IsLessThanOrEqualFromBound(n) => n
      case IsGreaterThanFromBound(n) => n + 1
      case IsGreaterThanOrEqualFromBound(n) => n
      case _ => 0;
    var always := (x: nat) => true;
    Actual(number, x => 0, 0, 1, always, always, always, always, always, always,
           true, true, true, true, true, true, true, true)
  }

  lemma ExampleHolds(a: Assertion)
    requires OneWay(a)
    ensures Truth(Example(a))(a)
  {
  }

  /** `get_negation` is right of every actual value exactly for the assertions that are not one-way;
      those negate to `Any`, which holds of everything.
   */
  lemma NegationIsRightIff(a: Assertion)
    ensures (forall v :: Truth(v)(GetNegation(a)) <==> !Truth(v)(a)) <==> !OneWay(a)
    ensures Complemented(a) <==> !OneWay(a)
  {
    NegationTables(a, GetNegation(a));
    if OneWay(a) {
      OneWayNegates(a);
      ExampleHolds(a);
      assert Truth(Example(a))(GetNegation(a));
    } else {
      NegationIsFalse(Example(a), a);
      forall w ensures Truth(w)(GetNegation(a)) <==> !Truth(w)(a) {
        NegationIsFalse(w, a);
      }
    }
  }

  // ---------------------------------------------------------------- facts from bounds

  /** A comparison with a variable, and the fact it gives when the variable's range ends at `n`. */
  predicate Infers(condition: Assertion, bound: Assertion, x: nat, n: int) {
    || (condition == IsLessThanVariable(x) && bound == IsLessThanFromBound(n))
    || (condition == IsLessThanOrEqualVariable(x) && bound == IsLessThanOrEqualFromBound(n))
    || (condition == IsGreaterThanVariable(x) && bound == IsGreaterThanFromBound(n))
    || (condition == IsGreaterThanOrEqualVariable(x) && bound == IsGreaterThanOrEqualFromBound(n))
  }

  /** The variable is within its range. */
  predicate InRange(v: Actual, bound: Assertion, x: nat, n: int) {
    if bound.IsLessThanFromBound? || bound.IsLessThanOrEqualFromBound? then v.variable(x) <= n else v.variable(x) >= n
  }

  lemma BoundFollows(v: Actual, condition: Assertion, bound: Assertion, x: nat, n: int)
    requires Infers(condition, bound, x, n) && InRange(v, bound, x, n) && Truth(v)(condition)
    ensures Truth(v)(bound)
  {
  }

  /** A number, compared with a variable. */
  function At(number: int, compared: int): Actual {
    Example(Any).(number := number, variable := x => compared)
  }

  /** Where the condition fails, the fact may hold or fail: negating it would be wrong. */
  lemma BoundIsOneWay(condition: Assertion, bound: Assertion, x: nat, n: int) returns (holds: Actual, fails: Actual)
    requires Infers(condition, bound, x, n)
    ensures InRange(holds, bound, x, n) && !Truth(holds)(condition) && Truth(holds)(bound)
    ensures InRange(fails, bound, x, n) && !Truth(fails)(condition) && !Truth(fails)(bound)
  {
    if bound.IsLessThanFromBound? || bound.IsLessThanOrEqualFromBound? {
      holds, fails := At(n - 1, n - 2), At(n + 1, n);
    } else {
      holds, fails := At(n + 1, n + 2), At(n - 1, n);
    }
  }

  lemma NegatableIff(a: Assertion)
    ensures IsNegatable(a) <==> !FromBound(a)
  {
  }

  predicate HasBound(c: Disjunction) {
    exists a :: a in c && FromBound(a)
  }

  lemma KeptIff(c: Disjunction)
    ensures Kept(c) <==> c != [] && !HasBound(c)
  {
    forall a | a in c ensures IsNegatable(a) <==> !FromBound(a) {
      NegatableIff(a);
    }
  }

  lemma DnfCons(f: AssertionSet)
    requires f != []
    ensures Dnf(f) == (if Kept(f[0]) then [NegateAll(f[0])] else []) + Dnf(f[1..])
  {
  }

  lemma {:induction false} DnfConcat(f: AssertionSet, g: AssertionSet)
    ensures Dnf(f + g) == Dnf(f) + Dnf(g)
  {
    if f == [] {
      assert f + g == g;
    } else {
      var first := if Kept(f[0]) then [NegateAll(f[0])] else [];
      assert Dnf(f + g) == first + Dnf(f[1..] + g) by {
        assert (f + g)[0] == f[0] && (f + g)[1..] == f[1..] + g;
        DnfCons(f + g);
      }
      DnfConcat(f[1..], g);
      DnfCons(f);
    }
  }

  /** Clauses with a fact from a bound, wherever they stand, make no difference to the negation. */
  lemma BoundsAreDropped(f: AssertionSet, bounds: AssertionSet, g: AssertionSet)
    requires forall c :: c in bounds ==> HasBound(c)
    ensures Negate(f + bounds + g) == Negate(f + g)
  {
    NoneKept(bounds);
    DnfConcat(f, bounds);
    DnfConcat(f + bounds, g);
    DnfConcat(f, g);
    assert Dnf(f) + [] == Dnf(f);
  }

  lemma {:induction false} NoneKept(bounds: AssertionSet)
    requires forall c :: c in bounds ==> HasBound(c)
    ensures Dnf(bounds) == []
  {
    if bounds != [] {
      assert bounds[0] in bounds && forall c :: c in bounds[1..] ==> c in bounds;
      KeptIff(bounds[0]);
      NoneKept(bounds[1..]);
    }
  }

  /** A comparison with the facts inferred from it negates to the opposite comparison alone. */
  lemma NegationOfComparison(condition: Assertion, bounds: AssertionSet)
    requires !OneWay(condition) && forall c :: c in bounds ==> HasBound(c)
    ensures Negate([[condition]] + bounds) == [[GetNegation(condition)]]
  {
    var f: AssertionSet := [[condition]];
    BoundsAreDropped(f, bounds, []);
    assert f + bounds + [] == f + bounds && f + [] == f;
    NegatableIff(condition);
    assert Kept(f[0]) && f[1..] == [] && NegateAll(f[0]) == [GetNegation(condition)];
    var dnf: AssertionSet := [[GetNegation(condition)]];
    assert Dnf(f) == dnf;
    DistributeOverFalse([GetNegation(condition)]);
    assert Distribute([[]], dnf[0]) == dnf && dnf[1..] == [];
    assert DistributeAll([[]], dnf) == DistributeAll(dnf, []) == dnf;
  }

  /** Facts from bounds that follow from the rest of the formula. */
  ghost predicate BoundsFollow(v: Actual, f: AssertionSet) {
    (forall c :: c in f && !HasBound(c) ==> ClauseHolds(Truth(v), c)) ==>
      forall c :: c in f && HasBound(c) ==> ClauseHolds(Truth(v), c)
  }

  /** The negation of a condition is right of every actual value: when the clauses are not empty, their
      literals are not one-way, and facts from bounds follow from the rest.
   */
  lemma NegationOfCondition(v: Actual, f: AssertionSet)
    requires forall c :: c in f ==> c != [] && (HasBound(c) || forall a :: a in c ==> !OneWay(a))
    requires BoundsFollow(v, f)
    ensures Holds(Truth(v), Negate(f)) <==> !Holds(Truth(v), f)
  {
    TruthIsCoherent(v);
    forall c | c in f ensures Kept(c) <==> !HasBound(c) {
      KeptIff(c);
    }
    forall c, a | c in f && Kept(c) && a in c ensures Complemented(a) {
      NegationIsRightIff(a);
    }
    NegationIsExact(Truth(v), f);
  }
}
