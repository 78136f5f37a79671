/** Assertions about one expression, with the negation table of the code base. Types, keys and
    tracked expressions are identified by number.
 */
module Assertions {

  datatype Assertion =
    | Any
    | IsType(atomic: nat) | IsNotType(atomic: nat)
    | Falsy | Truthy
    | IsIdentical(atomic: nat) | IsNotIdentical(atomic: nat)
    | IsEqual(atomic: nat) | IsNotEqual(atomic: nat)
    | IsEqualIsset
    | IsIsset | IsNotIsset
    | HasStringArrayAccess | HasIntOrStringArrayAccess
    | ArrayKeyExists | ArrayKeyDoesNotExist
    | InArray(union: nat) | NotInArray(union: nat)
    | HasArrayKey(key: nat) | DoesNotHaveArrayKey(key: nat)
    | HasNonnullEntryForKey(key: nat) | DoesNotHaveNonnullEntryForKey(key: nat)
    | Empty | NonEmpty
    | NonEmptyCountable(negatable: bool) | EmptyCountable
    | HasExactCount(count: nat) | HasAtLeastCount(count: nat)
    | DoesNotHaveExactCount(count: nat) | DoesNotHasAtLeastCount(count: nat)
    | IsLessThan(number: int) | IsLessThanOrEqual(number: int)
    | IsGreaterThan(number: int) | IsGreaterThanOrEqual(number: int)
    | IsLessThanFromBound(number: int) | IsLessThanOrEqualFromBound(number: int)
    | IsGreaterThanFromBound(number: int) | IsGreaterThanOrEqualFromBound(number: int)
    | IsLessThanVariable(variable: nat) | IsLessThanOrEqualVariable(variable: nat)
    | IsGreaterThanVariable(variable: nat) | IsGreaterThanOrEqualVariable(variable: nat)
    | StringLengthLessThan(number: int) | StringLengthGreaterThanOrEqual(number: int)
    | Countable | NotCountable(negatable: bool)

  function GetNegation(a: Assertion): Assertion {
    match a
    case Any => Any
    case Falsy => Truthy
    case IsType(x) => IsNotType(x)
    case IsNotType(x) => IsType(x)
    case Truthy => Falsy
    case IsIdentical(x) => IsNotIdentical(x)
    case IsNotIdentical(x) => IsIdentical(x)
    case IsEqual(x) => IsNotEqual(x)
    case IsNotEqual(x) => IsEqual(x)
    case IsIsset => IsNotIsset
    case IsNotIsset => IsIsset
    case Empty => NonEmpty
    case NonEmpty => Empty
    case NonEmptyCountable(negatable) => if negatable then EmptyCountable else Any
    case EmptyCountable => NonEmptyCountable(true)
    case ArrayKeyExists => ArrayKeyDoesNotExist
    case ArrayKeyDoesNotExist => ArrayKeyExists
    case InArray(x) => NotInArray(x)
    case NotInArray(x) => InArray(x)
    case HasExactCount(n) => DoesNotHaveExactCount(n)
    case DoesNotHaveExactCount(n) => HasExactCount(n)
    case HasAtLeastCount(n) => DoesNotHasAtLeastCount(n)
    case DoesNotHasAtLeastCount(n) => HasAtLeastCount(n)
    case HasArrayKey(k) => DoesNotHaveArrayKey(k)
    case DoesNotHaveArrayKey(k) => HasArrayKey(k)
    case HasNonnullEntryForKey(k) => DoesNotHaveNonnullEntryForKey(k)
    case DoesNotHaveNonnullEntryForKey(k) => HasNonnullEntryForKey(k)
    case HasStringArrayAccess => Any
    case HasIntOrStringArrayAccess => Any
    case IsEqualIsset => Any
    case IsLessThan(n) => IsGreaterThanOrEqual(n)
    case IsLessThanOrEqual(n) => IsGreaterThan(n)
    case IsGreaterThan(n) => IsLessThanOrEqual(n)
    case IsGreaterThanOrEqual(n) => IsLessThan(n)
    case IsLessThanFromBound(_) => Any
    case IsLessThanOrEqualFromBound(_) => Any
    case IsGreaterThanFromBound(_) => Any
    case IsGreaterThanOrEqualFromBound(_) => Any
    case IsLessThanVariable(x) => IsGreaterThanOrEqualVariable(x)
    case IsLessThanOrEqualVariable(x) => IsGreaterThanVariable(x)
    case IsGreaterThanVariable(x) => IsLessThanOrEqualVariable(x)
    case IsGreaterThanOrEqualVariable(x) => IsLessThanVariable(x)
    case StringLengthLessThan(n) => StringLengthGreaterThanOrEqual(n)
    case StringLengthGreaterThanOrEqual(n) => StringLengthLessThan(n)
    case Countable => NotCountable(true)
    case NotCountable(_) => Countable
  }

  predicate IsNegatable(a: Assertion) {
    !(a.IsLessThanFromBound? || a.IsLessThanOrEqualFromBound? || a.IsGreaterThanFromBound?
      || a.IsGreaterThanOrEqualFromBound?)
  }

  predicate IsNegationOf(a: Assertion, b: Assertion) {
    match a
    case Any => false
    case Falsy => b.Truthy?
    case Truthy => b.Falsy?
    case IsType(x) => b.IsNotType? && b.atomic == x
    case IsNotType(x) => b.IsType? && b.atomic == x
    case IsIdentical(x) => b.IsNotIdentical? && b.atomic == x
    case IsNotIdentical(x) => b.IsIdentical? && b.atomic == x
    case IsEqual(x) => b.IsNotEqual? && b.atomic == x
    case IsNotEqual(x) => b.IsEqual? && b.atomic == x
    case IsEqualIsset => false
    case IsIsset => b.IsNotIsset?
    case IsNotIsset => b.IsIsset?
    case HasStringArrayAccess => false
    case HasIntOrStringArrayAccess => false
    case ArrayKeyExists => b.ArrayKeyDoesNotExist?
    case ArrayKeyDoesNotExist => b.ArrayKeyExists?
    case HasArrayKey(k) => b.DoesNotHaveArrayKey? && b.key == k
    case DoesNotHaveArrayKey(k) => b.HasArrayKey? && b.key == k
    case HasNonnullEntryForKey(k) => b.DoesNotHaveNonnullEntryForKey? && b.key == k
    case DoesNotHaveNonnullEntryForKey(k) => b.HasNonnullEntryForKey? && b.key == k
    case InArray(x) => b.NotInArray? && b.union == x
    case NotInArray(x) => b.InArray? && b.union == x
    case Empty => b.NonEmpty?
    case NonEmpty => b.Empty?
    case NonEmptyCountable(negatable) => negatable && b.EmptyCountable?
    case EmptyCountable => b == NonEmptyCountable(true)
    case HasExactCount(n) => b.DoesNotHaveExactCount? && b.count == n
    case DoesNotHaveExactCount(n) => b.HasExactCount? && b.count == n
    case HasAtLeastCount(n) => b.DoesNotHasAtLeastCount? && b.count == n
    case DoesNotHasAtLeastCount(n) => b.HasAtLeastCount? && b.count == n
    case IsLessThan(n) => b.IsGreaterThanOrEqual? && b.number == n
    case IsLessThanOrEqual(n) => b.IsGreaterThan? && b.number == n
    case IsGreaterThan(n) => b.IsLessThanOrEqual? && b.number == n
    case IsGreaterThanOrEqual(n) => b.IsLessThan? && b.number == n
    case IsLessThanFromBound(_) => false
    case IsLessThanOrEqualFromBound(_) => false
    case IsGreaterThanFromBound(_) => false
    case IsGreaterThanOrEqualFromBound(_) => false
    case IsLessThanVariable(x) => b.IsGreaterThanOrEqualVariable? && b.variable == x
    case IsLessThanOrEqualVariable(x) => b.IsGreaterThanVariable? && b.variable == x
    case IsGreaterThanVariable(x) => b.IsLessThanOrEqualVariable? && b.variable == x
    case IsGreaterThanOrEqualVariable(x) => b.IsLessThanVariable? && b.variable == x
    case StringLengthLessThan(n) => b.StringLengthGreaterThanOrEqual? && b.number == n
    case StringLengthGreaterThanOrEqual(n) => b.StringLengthLessThan? && b.number == n
    case Countable => b == NotCountable(true)
    case NotCountable(_) => b.Countable?
  }

  /** Assertions whose negation really is the opposite assertion. The rest negate to `Any`. */
  predicate Complemented(a: Assertion) {
    IsNegationOf(a, GetNegation(a))
  }

  /** A truth value for every assertion about one expression. */
  type Valuation = Assertion -> bool

  /** Opposite assertions have opposite truth values. */
  ghost predicate Coherent(v: Valuation) {
    forall a, b :: IsNegationOf(a, b) ==> v(a) != v(b)
  }

  /** The two tables agree: `b` is the opposite of `a` exactly when negating `a` gives `b` and not `Any`. */
  lemma NegationTables(a: Assertion, b: Assertion)
    ensures IsNegationOf(a, b) <==> b == GetNegation(a) && b != Any
  {
    if IsNegationOf(a, b) {
      OppositeIsNegation(a, b);
    } else if b == GetNegation(a) && b != Any {
      NegationIsOpposite(a);
    }
  }

  lemma OppositeIsNegation(a: Assertion, b: Assertion)
    requires IsNegationOf(a, b)
    ensures b == GetNegation(a) && b != Any
  {
    match a
    case Any => case IsType(_) => case IsNotType(_) => case Falsy => case Truthy => case IsIdentical(_) =>
    case IsNotIdentical(_) => case IsEqual(_) => case IsNotEqual(_) => case IsEqualIsset => case IsIsset =>
    case IsNotIsset => case HasStringArrayAccess => case HasIntOrStringArrayAccess => case ArrayKeyExists =>
    case ArrayKeyDoesNotExist => case InArray(_) => case NotInArray(_) => case HasArrayKey(_) =>
    case DoesNotHaveArrayKey(_) => case HasNonnullEntryForKey(_) => case DoesNotHaveNonnullEntryForKey(_) =>
    case Empty => case NonEmpty => case NonEmptyCountable(_) => case EmptyCountable => case HasExactCount(_) =>
    case HasAtLeastCount(_) => case DoesNotHaveExactCount(_) => case DoesNotHasAtLeastCount(_) =>
    case IsLessThan(_) => case IsLessThanOrEqual(_) => case IsGreaterThan(_) => case IsGreaterThanOrEqual(_) =>
    case IsLessThanFromBound(_) => case IsLessThanOrEqualFromBound(_) => case IsGreaterThanFromBound(_) =>
    case IsGreaterThanOrEqualFromBound(_) => case IsLessThanVariable(_) => case IsLessThanOrEqualVariable(_) =>
    case IsGreaterThanVariable(_) => case IsGreaterThanOrEqualVariable(_) => case StringLengthLessThan(_) =>
    case StringLengthGreaterThanOrEqual(_) => case Countable => case NotCountable(_) =>
  }

  lemma NegationIsOpposite(a: Assertion)
    requires GetNegation(a) != Any
    ensures IsNegationOf(a, GetNegation(a))
  {
  }

  /** Truth values in which everything that has no opposite holds. */
  function Lenient(a: Assertion): bool {
    !Complemented(a) || Positive(a)
  }

  /** One representative of each pair of opposites. */
  predicate Positive(a: Assertion) {
    || a.IsType? || a.Truthy? || a.IsIdentical? || a.IsEqual? || a.IsIsset? || a.ArrayKeyExists? || a.InArray?
    || a.HasArrayKey? || a.HasNonnullEntryForKey? || a.Empty? || a.EmptyCountable? || a.HasExactCount?
    || a.HasAtLeastCount? || a.IsLessThan? || a.IsLessThanOrEqual? || a.IsLessThanVariable?
    || a.IsLessThanOrEqualVariable? || a.StringLengthLessThan? || a.Countable?
  }

  /** The opposite of an assertion has an opposite too, and is negatable. */
  lemma OppositeIsComplemented(a: Assertion)
    requires Complemented(a)
    ensures Complemented(GetNegation(a)) && IsNegatable(GetNegation(a))
  {
    var b := GetNegation(a);
    NegationTables(a, b);
    NegatedTwice(a);
    NegationTables(b, GetNegation(b));
  }

  lemma NegatedTwice(a: Assertion)
    requires GetNegation(a) != Any
    ensures GetNegation(GetNegation(a)) != Any && IsNegatable(GetNegation(a))
  {
  }

  /** One of two opposite assertions is positive, and it is the negation of the other. */
  lemma OnePositive(a: Assertion)
    requires Complemented(a)
    ensures Positive(a) != Positive(GetNegation(a))
    ensures Positive(a) ==> GetNegation(GetNegation(a)) == a
  {
    if Positive(a) {
      NegationOfPositive(a);
    } else {
      NegationOfNegative(a);
    }
  }

  lemma NegationOfPositive(a: Assertion)
    requires Positive(a)
    ensures !Positive(GetNegation(a)) && GetNegation(GetNegation(a)) == a
  {
  }

  lemma NegationOfNegative(a: Assertion)
    requires Complemented(a) && !Positive(a)
    ensures Positive(GetNegation(a))
  {
  }

  lemma LenientIsCoherent()
    ensures Coherent(Lenient)
  {
    forall a, b | IsNegationOf(a, b)
      ensures Lenient(a) != Lenient(b)
    {
      NegationTables(a, b);
      OppositeIsComplemented(a);
      OnePositive(a);
    }
  }

  /** `get_negation` is the Boolean negation exactly on the complemented assertions: on every
      other one some coherent truth values satisfy both the assertion and its negation.
   */
  lemma NegationIsComplement(a: Assertion)
    ensures Complemented(a) <==> forall v :: Coherent(v) ==> (v(GetNegation(a)) <==> !v(a))
  {
    if Complemented(a) {
      forall v | Coherent(v)
        ensures v(GetNegation(a)) <==> !v(a)
      {
      }
    } else {
      LenientIsCoherent();
      NegationTables(a, GetNegation(a));
      assert Lenient(a) && Lenient(GetNegation(a));
      var v: Valuation := Lenient;
      assert Coherent(v) && v(a) && v(GetNegation(a));
    }
  }

  // ---------------------------------------------------------------- negating several assertions

  /** Two of the assertions are opposite: one of them always holds. */
  predicate HasOpposites(ls: seq<Assertion>) {
    exists a, b :: a in ls && b in ls && IsNegationOf(a, b)
  }

  predicate Denied(ls: seq<Assertion>, a: Assertion) {
    exists b :: b in ls && GetNegation(b) == a
  }

  /** Truth values that make all of the assertions true if any do, and whatever has no opposite. */
  function Favourable(ls: seq<Assertion>): Valuation {
    a => !Complemented(a) || (if Positive(a) then !Denied(ls, a) else Denied(ls, GetNegation(a)))
  }

  lemma FavourableIsCoherent(ls: seq<Assertion>)
    ensures Coherent(Favourable(ls))
  {
    forall a, b | IsNegationOf(a, b) ensures Favourable(ls)(a) != Favourable(ls)(b) {
      NegationTables(a, b);
      OppositeIsComplemented(a);
      OnePositive(a);
      OnePositive(b);
    }
  }

  lemma FavourableHolds(ls: seq<Assertion>, a: Assertion)
    requires a in ls && !HasOpposites(ls)
    ensures Favourable(ls)(a)
  {
    if Complemented(a) && Positive(a) {
      forall b | b in ls ensures GetNegation(b) != a {
        NegationTables(b, a);
      }
    }
  }

  ghost predicate CanHold(ls: seq<Assertion>) {
    exists v :: Coherent(v) && forall a :: a in ls ==> v(a)
  }

  /** Some coherent truth values satisfy several assertions at once exactly when no two of them are
      opposite.
   */
  lemma CanHoldIff(ls: seq<Assertion>)
    ensures CanHold(ls) <==> !HasOpposites(ls)
  {
    if !HasOpposites(ls) {
      var v := Favourable(ls);
      FavourableIsCoherent(ls);
      forall a | a in ls ensures v(a) {
        FavourableHolds(ls, a);
      }
    }
  }

  predicate AllOpposable(ls: seq<Assertion>) {
    forall a :: a in ls ==> Complemented(a)
  }

  predicate AllNegated(v: Valuation, ls: seq<Assertion>) {
    forall a :: a in ls ==> v(GetNegation(a))
  }

  predicate AnyHolds(v: Valuation, ls: seq<Assertion>) {
    exists a :: a in ls && v(a)
  }

  /** Truth values that make every negation true, and whatever has no opposite. */
  function Adverse(ls: seq<Assertion>): Valuation {
    a => !Complemented(a) || (if Positive(a) then a !in ls else GetNegation(a) in ls)
  }

  lemma AdverseIsCoherent(ls: seq<Assertion>)
    ensures Coherent(Adverse(ls))
  {
    forall a, b | IsNegationOf(a, b) ensures Adverse(ls)(a) != Adverse(ls)(b) {
      NegationTables(a, b);
      OppositeIsComplemented(a);
      OnePositive(a);
    }
  }

  lemma AdverseNegates(ls: seq<Assertion>)
    requires !HasOpposites(ls)
    ensures AllNegated(Adverse(ls), ls)
  {
    forall a | a in ls ensures Adverse(ls)(GetNegation(a)) {
      var b := GetNegation(a);
      if Complemented(a) {
        OppositeIsComplemented(a);
        OnePositive(a);
        assert b !in ls by {
          assert IsNegationOf(a, b);
        }
      } else {
        NegationTables(a, b);
      }
    }
  }

  /** The negations of some assertions, all together, are the negation of their disjunction exactly
      when each has an opposite, or two are opposite and the disjunction is a tautology.
   */
  lemma NegationsRefuteIff(ls: seq<Assertion>)
    ensures (forall v :: Coherent(v) ==> (AllNegated(v, ls) <==> !AnyHolds(v, ls)))
            <==> AllOpposable(ls) || HasOpposites(ls)
  {
    if AllOpposable(ls) || HasOpposites(ls) {
      forall v | Coherent(v) ensures AllNegated(v, ls) <==> !AnyHolds(v, ls) {
        NegationsRefute(v, ls);
      }
    } else {
      AdverseIsCoherent(ls);
      AdverseNegates(ls);
      var a :| a in ls && !Complemented(a);
      assert AnyHolds(Adverse(ls), ls);
    }
  }

  lemma NegationsRefute(v: Valuation, ls: seq<Assertion>)
    requires Coherent(v) && (AllOpposable(ls) || HasOpposites(ls))
    ensures AllNegated(v, ls) <==> !AnyHolds(v, ls)
  {
    if AllOpposable(ls) {
      forall a | a in ls ensures v(GetNegation(a)) <==> !v(a) {
        assert IsNegationOf(a, GetNegation(a));
      }
    } else {
      var a, b :| a in ls && b in ls && IsNegationOf(a, b);
      NegationTables(a, b);
      OppositeIsComplemented(a);
      assert v(a) != v(b) && v(b) != v(GetNegation(b));
      assert v(a) || v(b);
      assert v(GetNegation(a)) == v(b);
    }
  }
}
