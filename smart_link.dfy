/**
 * The relation functions links are built from (SmartLink.java). Each Java
 * factory returns a lambda comparing the ordinals of two nouns of the
 * link's category; here each factory is a constructor of `Relation` and
 * `Apply` evaluates it.
 */
module SmartLink {
  import opened Verbs

  /** A relation between two nouns of one category, carrying its offsets. */
  datatype Relation =
    | IsWith                      // getIsWith
    | IsLessThan(n: int)          // getIsLessThan(n)
    | IsLessBy(n: int)            // getIsLessBy(n)
    | IsMoreThan(n: int)          // getIsMoreThan(n)
    | IsMoreBy(n: int)            // getIsMoreBy(n)
    | IsNextTo                    // getIsNextTo
    | IsOffsetBy(n: int)          // getIsOffsetBy(n)
    | IsOutsideOf(n: int)         // getIsOutsideOf(n)
    | HasRatio(n1: int, n2: int)  // getHasRatio(n1, n2)

  /** Whether the relation holds between noun numbers `a` and `b`. */
  predicate Holds(r: Relation, a: int, b: int)
  {
    match r
    case IsWith => a == b
    case IsLessThan(n) => a < b - n
    case IsLessBy(n) => a == b - n
    case IsMoreThan(n) => a > b + n
    case IsMoreBy(n) => a == b + n
    case IsNextTo => a == b - 1 || a == b + 1
    case IsOffsetBy(n) => a == b - n || a == b + n
    case IsOutsideOf(n) => a < b - n || a > b + n
    case HasRatio(n1, n2) => n1 * a == n2 * b
  }

  /** The verb the relation gives two noun numbers: Is where it holds, IsNot elsewhere, never Maybe. */
  function Apply(r: Relation, a: int, b: int): (v: Verb)
    ensures v != Maybe
    ensures v == Is <==> Holds(r, a, b)
  {
    if Holds(r, a, b) then Is else IsNot
  }

  /** isWith is Is exactly for equal numbers, so it is reflexive and symmetric. */
  lemma WithIsIdentity(a: int, b: int)
    ensures Apply(IsWith, a, b) == Is <==> a == b
    ensures Apply(IsWith, a, a) == Is
    ensures Apply(IsWith, a, b) == Apply(IsWith, b, a)
  {
  }

  /** isLessThan(n) holds for a < b - n and is isMoreThan(n) with its arguments swapped. */
  lemma LessThanIsMoreThanSwapped(n: int, a: int, b: int)
    ensures Apply(IsLessThan(n), a, b) == Is <==> a < b - n
    ensures Apply(IsLessThan(n), a, b) == Apply(IsMoreThan(n), b, a)
  {
  }

  /** isLessBy(n) holds for a == b - n and is isMoreBy(n) with its arguments swapped. */
  lemma LessByIsMoreBySwapped(n: int, a: int, b: int)
    ensures Apply(IsLessBy(n), a, b) == Is <==> a == b - n
    ensures Apply(IsLessBy(n), a, b) == Apply(IsMoreBy(n), b, a)
  {
  }

  /** isNextTo is symmetric and coincides with isOffsetBy(1). */
  lemma NextToIsOffsetByOne(a: int, b: int)
    ensures Apply(IsNextTo, a, b) == Apply(IsNextTo, b, a)
    ensures Apply(IsNextTo, a, b) == Apply(IsOffsetBy(1), a, b)
  {
  }

  /** isOffsetBy(n) holds exactly when isLessBy(n) or isMoreBy(n) holds. */
  lemma OffsetByIsLessByOrMoreBy(n: int, a: int, b: int)
    ensures Apply(IsOffsetBy(n), a, b) == Is <==>
            Apply(IsLessBy(n), a, b) == Is || Apply(IsMoreBy(n), a, b) == Is
  {
  }

  /** isOutsideOf(n) holds exactly when the two numbers are more than n apart. */
  lemma OutsideOfIsDistance(n: int, a: int, b: int)
    ensures Apply(IsOutsideOf(n), a, b) == Is <==> (if a < b then b - a else a - b) > n
  {
  }

  /** hasRatio(n1, n2) between a and b is hasRatio(n2, n1) between b and a. */
  lemma RatioSwapped(n1: int, n2: int, a: int, b: int)
    ensures Apply(HasRatio(n1, n2), a, b) == Apply(HasRatio(n2, n1), b, a)
  {
  }

  /** With n2 nonzero, hasRatio(n1, n2) relates each a to at most one b. */
  lemma RatioAtMostOnePartner(n1: int, n2: int, a: int, b: int, b': int)
    requires n2 != 0
    requires Apply(HasRatio(n1, n2), a, b) == Is && Apply(HasRatio(n1, n2), a, b') == Is
    ensures b == b'
  {
    assert n2 * b == n2 * b';
  }
}
