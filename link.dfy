/**
 * Links (Link.java): a named relation over the nouns of one category,
 * with the flags derived from sampling the relation once over that
 * category's slots. The slots of a category with `size` nouns are the
 * noun numbers 1..size.
 */
module Links {
  import opened Wrappers
  import opened Verbs
  import opened SmartLink

  /** How many slots s2 in 1..k the relation puts with slot `s1`. */
  function CountIs(r: Relation, s1: int, k: int): (c: nat)
    decreases k
  {
    if k <= 0 then 0 else CountIs(r, s1, k - 1) + (if Apply(r, s1, k) == Is then 1 else 0)
  }

  /** isOneToOne's meaning: for every slot1 at most one slot2 is Is with it. */
  predicate OneToOne(r: Relation, size: nat)
  {
    forall s1 :: 1 <= s1 <= size ==> CountIs(r, s1, size) <= 1
  }

  /** No slot1 has two different Is partners among the first k slots. */
  predicate UniquePartner(r: Relation, s1: int, k: int)
  {
    forall s2, s3 :: 1 <= s2 <= k && 1 <= s3 <= k && Holds(r, s1, s2) && Holds(r, s1, s3) ==> s2 == s3
  }

  lemma {:induction false} CountAtMostOneIffUnique(r: Relation, s1: int, k: int)
    ensures CountIs(r, s1, k) <= 1 <==> UniquePartner(r, s1, k)
    decreases k
  {
    if k > 0 {
      CountAtMostOneIffUnique(r, s1, k - 1);
      CountZeroIffNone(r, s1, k - 1);
      if Holds(r, s1, k) && CountIs(r, s1, k - 1) == 1 {
        var s2 := NonZeroWitness(r, s1, k - 1);
        assert Holds(r, s1, s2) && s2 != k;
      }
    }
  }

  lemma {:induction false} CountZeroIffNone(r: Relation, s1: int, k: int)
    ensures CountIs(r, s1, k) == 0 <==> forall s2 :: 1 <= s2 <= k ==> !Holds(r, s1, s2)
    decreases k
  {
    if k > 0 {
      CountZeroIffNone(r, s1, k - 1);
    }
  }

  lemma {:induction false} NonZeroWitness(r: Relation, s1: int, k: int) returns (s2: int)
    requires CountIs(r, s1, k) > 0
    ensures 1 <= s2 <= k && Holds(r, s1, s2)
    decreases k
  {
    if Apply(r, s1, k) == Is {
      s2 := k;
    } else {
      s2 := NonZeroWitness(r, s1, k - 1);
    }
  }

  /** A relation is one-to-one exactly when no slot has two distinct Is partners. */
  lemma OneToOneIffUniquePartners(r: Relation, size: nat)
    ensures OneToOne(r, size) <==> forall s1 :: 1 <= s1 <= size ==> UniquePartner(r, s1, size)
  {
    forall s1 | 1 <= s1 <= size {
      CountAtMostOneIffUnique(r, s1, size);
    }
  }

  /** inSameSlot: some slot among 1..size is related to itself by verb `v`. */
  function InSameSlot(r: Relation, v: Verb, size: nat): (b: bool)
    ensures b <==> exists s :: 1 <= s <= size && Apply(r, s, s) == v
  {
    if size == 0 then false
    else InSameSlot(r, v, size - 1) || Apply(r, size, size) == v
  }

  /** isWith on 1..size: one-to-one, every slot is with itself, none is "not with" itself. */
  lemma {:induction false} WithFlags(size: nat)
    ensures OneToOne(IsWith, size)
    ensures InSameSlot(IsWith, Is, size) <==> size >= 1
    ensures !InSameSlot(IsWith, IsNot, size)
  {
    forall s1 | 1 <= s1 <= size
      ensures CountIs(IsWith, s1, size) <= 1
    {
      CountAtMostOneIffUnique(IsWith, s1, size);
    }
    if size >= 1 {
      assert Apply(IsWith, 1, 1) == Is;
    }
  }

  class Link {
    /** Zero-based number of the link; link 0 is "with". */
    const num: nat
    const name: string
    /** Ordinal of the link's category, if one was given. */
    var nounType: Option<nat>
    var oneToOne: bool
    var f: Option<Relation>
    var ssNeg: bool
    var ssPos: bool

    constructor (num: nat, name: string, nounType: Option<nat>)
      ensures this.num == num && this.name == name && this.nounType == nounType
      ensures !oneToOne && f == None && ssNeg && ssPos
    {
      this.num := num;
      this.name := name;
      this.nounType := nounType;
      oneToOne := false;
      f := None;
      ssNeg := true;
      ssPos := true;
    }

    /** getVerb: the link's relation applied to the two nouns' numbers; only Is or IsNot. */
    function GetVerb(num1: nat, num2: nat): (v: Verb)
      reads this
      requires f.Some?
      ensures v != Maybe
      ensures v == Is <==> Holds(f.value, num1, num2)
    {
      Apply(f.value, num1, num2)
    }

    /** isOneToOne over the slots 1..size, counting Is answers per slot1 and stopping at a second one. */
    method IsOneToOne(size: nat) returns (b: bool)
      requires f.Some?
      ensures b == OneToOne(f.value, size)
    {
      var r := f.value;
      var slot1 := 1;
      while slot1 <= size
        invariant 1 <= slot1 <= size + 1
        invariant forall s :: 1 <= s < slot1 ==> CountIs(r, s, size) <= 1
      {
        var cnt := 0;
        var slot2 := 1;
        while slot2 <= size
          invariant 1 <= slot2 <= size + 1
          invariant cnt == CountIs(r, slot1, slot2 - 1) && cnt <= 1
        {
          var verb := Apply(r, slot1, slot2);
          if verb == Is {
            cnt := cnt + 1;
            if cnt > 1 {
              CountMonotone(r, slot1, slot2, size);
              return false;
            }
          }
          slot2 := slot2 + 1;
        }
        slot1 := slot1 + 1;
      }
      return true;
    }

    /** update: records isOneToOne, inSameSlot(IsNot) and inSameSlot(Is) for the category's size. */
    method Update(size: nat)
      requires f.Some?
      modifies this
      ensures nounType == old(nounType) && f == old(f)
      ensures oneToOne == OneToOne(f.value, size)
      ensures ssNeg == InSameSlot(f.value, IsNot, size)
      ensures ssPos == InSameSlot(f.value, Is, size)
    {
      oneToOne := IsOneToOne(size);
      ssNeg := InSameSlot(f.value, IsNot, size);
      ssPos := InSameSlot(f.value, Is, size);
    }

    /**
     * canBeWith: whether two nouns can share a slot under verb `v`. The
     * negative branch needs a verb number below zero, which no verb has,
     * so the answer is always ssPos.
     */
    function CanBeWith(v: Verb): (b: bool)
      reads this
      ensures b == ssPos
    {
      var flags := [ssNeg, ssPos];
      flags[if v.Num() < 0 then 0 else 1]
    }
  }

  lemma {:induction false} CountMonotone(r: Relation, s1: int, k: int, m: int)
    requires k <= m
    ensures CountIs(r, s1, k) <= CountIs(r, s1, m)
    decreases m - k
  {
    if k < m {
      CountMonotone(r, s1, k, m - 1);
    }
  }
}
