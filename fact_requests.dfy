/**
 * The fact requests the list-taking addFact and addFacts overloads of
 * Puzzle.java submit, in submission order. Each overload walks its lists
 * and calls the single-fact addFact once per request; these functions
 * say which requests that is, and the puzzle feeds them to addFact one
 * by one.
 */
module FactRequests {
  import opened Verbs
  import opened Links
  import opened Nouns

  /** One call of the single-fact addFact: noun1 verb link noun2. */
  datatype Request = Request(noun1: Noun, verb: Verb, link: Link, noun2: Noun)

  /** The pairs the list-expanding overloads skip: a noun with itself, or two nouns of one category under With. */
  predicate Skipped(noun1: Noun, noun2: Noun, link: Link, with: Link)
  {
    noun1 == noun2 || (link == with && noun1.typeNum == noun2.typeNum)
  }

  /** No two requests of the list are equal. */
  predicate Distinct(rs: seq<Request>)
  {
    forall a, b :: 0 <= a < b < |rs| ==> rs[a] != rs[b]
  }

  /** No two entries of the noun list are the same noun. */
  predicate DistinctNouns(ns: seq<Noun>)
  {
    forall a, b :: 0 <= a < b < |ns| ==> ns[a] != ns[b]
  }

  /** addFact with one noun and a list: noun1 with every list noun not skipped. */
  function OneToMany(noun1: Noun, verb: Verb, link: Link, nouns2: seq<Noun>, with: Link): (rs: seq<Request>)
    ensures |rs| <= |nouns2|
  {
    if |nouns2| == 0 then []
    else
      (if Skipped(noun1, nouns2[0], link, with) then [] else [Request(noun1, verb, link, nouns2[0])])
      + OneToMany(noun1, verb, link, nouns2[1..], with)
  }

  /** addFact with a list and one noun: every list noun not skipped with noun2. */
  function ManyToOne(nouns1: seq<Noun>, verb: Verb, link: Link, noun2: Noun, with: Link): (rs: seq<Request>)
    ensures |rs| <= |nouns1|
  {
    if |nouns1| == 0 then []
    else
      (if Skipped(nouns1[0], noun2, link, with) then [] else [Request(nouns1[0], verb, link, noun2)])
      + ManyToOne(nouns1[1..], verb, link, noun2, with)
  }

  /** addFact with two lists, the second non-empty: the product, row by row. */
  function Product(nouns1: seq<Noun>, verb: Verb, link: Link, nouns2: seq<Noun>, with: Link): seq<Request>
  {
    if |nouns1| == 0 then []
    else OneToMany(nouns1[0], verb, link, nouns2, with) + Product(nouns1[1..], verb, link, nouns2, with)
  }

  /** addFact with one list and an empty second list: each earlier noun with each later one. */
  function Pairs(nouns: seq<Noun>, verb: Verb, link: Link, with: Link): seq<Request>
  {
    if |nouns| == 0 then []
    else OneToMany(nouns[0], verb, link, nouns[1..], with) + Pairs(nouns[1..], verb, link, with)
  }

  /** The many-to-many addFact: pairs within nouns1 when nouns2 is empty, else the product. */
  function ManyToMany(nouns1: seq<Noun>, verb: Verb, link: Link, nouns2: seq<Noun>, with: Link): seq<Request>
  {
    if |nouns2| == 0 then Pairs(nouns1, verb, link, with) else Product(nouns1, verb, link, nouns2, with)
  }

  /** addFactsInSequence: each noun with the next one, nothing skipped. */
  function InSequence(nouns: seq<Noun>, verb: Verb, link: Link): (rs: seq<Request>)
    ensures |rs| == if |nouns| < 2 then 0 else |nouns| - 1
    ensures forall i :: 0 <= i < |rs| ==> rs[i] == Request(nouns[i], verb, link, nouns[i + 1])
  {
    if |nouns| < 2 then []
    else [Request(nouns[0], verb, link, nouns[1])] + InSequence(nouns[1..], verb, link)
  }

  /** The i-th noun of the first list with the i-th of the second, for every i of the first. */
  function Zip(nouns1: seq<Noun>, verb: Verb, link: Link, nouns2: seq<Noun>): (rs: seq<Request>)
    requires |nouns1| <= |nouns2|
    ensures |rs| == |nouns1|
    ensures forall i :: 0 <= i < |rs| ==> rs[i] == Request(nouns1[i], verb, link, nouns2[i])
  {
    if |nouns1| == 0 then []
    else [Request(nouns1[0], verb, link, nouns2[0])] + Zip(nouns1[1..], verb, link, nouns2[1..])
  }

  /** addFactsOneToOne over two lists: positional pairs, and nothing when the lengths differ. */
  function OneToOneLists(nouns1: seq<Noun>, verb: Verb, link: Link, nouns2: seq<Noun>): (rs: seq<Request>)
    ensures |nouns1| != |nouns2| ==> rs == []
    ensures |nouns1| == |nouns2| ==> |rs| == |nouns1|
  {
    if |nouns1| != |nouns2| then [] else Zip(nouns1, verb, link, nouns2)
  }

  /** addFactsStartsWith: noun1 is not with each noun2 whose initial is ch exactly when flag is set. */
  function StartsWith(noun1: Noun, nouns2: seq<Noun>, flag: bool, ch: char, with: Link): seq<Request>
    reads set n | n in nouns2
    requires forall n :: n in nouns2 ==> |n.name| >= 1
  {
    if |nouns2| == 0 then []
    else
      (if (nouns2[0].name[0] == ch) == flag then [Request(noun1, IsNot, with, nouns2[0])] else [])
      + StartsWith(noun1, nouns2[1..], flag, ch, with)
  }

  /** One noun against a list for addFactsIsNotFirstChar. */
  function FirstCharRow(noun1: Noun, nouns2: seq<Noun>, flag: bool, with: Link): seq<Request>
    reads noun1, set n | n in nouns2
    requires |noun1.name| >= 1
    requires forall n :: n in nouns2 ==> |n.name| >= 1
  {
    if |nouns2| == 0 then []
    else
      (if (noun1.name[0] == nouns2[0].name[0]) == flag then [Request(noun1, IsNot, with, nouns2[0])] else [])
      + FirstCharRow(noun1, nouns2[1..], flag, with)
  }

  /** addFactsIsNotFirstChar: two nouns are not together when their initials agree exactly when flag is set. */
  function FirstChar(nouns1: seq<Noun>, nouns2: seq<Noun>, flag: bool, with: Link): seq<Request>
    reads set n | n in nouns1, set n | n in nouns2
    requires forall n :: n in nouns1 ==> |n.name| >= 1
    requires forall n :: n in nouns2 ==> |n.name| >= 1
  {
    if |nouns1| == 0 then []
    else FirstCharRow(nouns1[0], nouns2, flag, with) + FirstChar(nouns1[1..], nouns2, flag, with)
  }

  /** One noun kept off the odd (zero-based) slots from index i on. */
  function OddSlotsFrom(noun: Noun, slots: seq<Noun>, i: nat, with: Link): seq<Request>
    decreases |slots| - i
  {
    if i >= |slots| then []
    else [Request(noun, IsNot, with, slots[i])] + OddSlotsFrom(noun, slots, i + 2, with)
  }

  /** Every noun kept off every odd slot. */
  function OddSlots(nouns: seq<Noun>, slots: seq<Noun>, with: Link): seq<Request>
  {
    if |nouns| == 0 then []
    else OddSlotsFrom(nouns[0], slots, 1, with) + OddSlots(nouns[1..], slots, with)
  }

  /** One noun against each later one, in both directions. */
  function Mirror(noun1: Noun, rest: seq<Noun>, link: Link): seq<Request>
  {
    if |rest| == 0 then []
    else [Request(noun1, IsNot, link, rest[0]), Request(rest[0], IsNot, link, noun1)] + Mirror(noun1, rest[1..], link)
  }

  /** Every pair of the list, in both directions. */
  function BothWays(nouns: seq<Noun>, link: Link): seq<Request>
  {
    if |nouns| == 0 then []
    else Mirror(nouns[0], nouns[1..], link) + BothWays(nouns[1..], link)
  }

  /**
   * addFactsNotConsecutive over the slots of the link's category: when
   * there are exactly 2n-1 slots for n nouns, the nouns must sit on the
   * even slots, so each is kept off every odd slot; otherwise no two of
   * the nouns are related by the link, either way round.
   */
  function NotConsecutive(nouns: seq<Noun>, link: Link, slots: seq<Noun>, with: Link): seq<Request>
  {
    if 2 * |nouns| - 1 == |slots| then OddSlots(nouns, slots, with) else BothWays(nouns, link)
  }

  // Membership of the expansions.

  lemma {:induction false} OneToManyMembers(noun1: Noun, verb: Verb, link: Link, nouns2: seq<Noun>, with: Link, r: Request)
    ensures r in OneToMany(noun1, verb, link, nouns2, with) <==>
            r.noun1 == noun1 && r.verb == verb && r.link == link && r.noun2 in nouns2 && !Skipped(noun1, r.noun2, link, with)
    decreases |nouns2|
  {
    if |nouns2| > 0 {
      OneToManyMembers(noun1, verb, link, nouns2[1..], with, r);
      assert nouns2 == [nouns2[0]] + nouns2[1..];
    }
  }

  lemma {:induction false} ManyToOneMembers(nouns1: seq<Noun>, verb: Verb, link: Link, noun2: Noun, with: Link, r: Request)
    ensures r in ManyToOne(nouns1, verb, link, noun2, with) <==>
            r.noun1 in nouns1 && r.verb == verb && r.link == link && r.noun2 == noun2 && !Skipped(r.noun1, noun2, link, with)
    decreases |nouns1|
  {
    if |nouns1| > 0 {
      ManyToOneMembers(nouns1[1..], verb, link, noun2, with, r);
      assert nouns1 == [nouns1[0]] + nouns1[1..];
    }
  }

  lemma {:induction false} ProductMembers(nouns1: seq<Noun>, verb: Verb, link: Link, nouns2: seq<Noun>, with: Link, r: Request)
    ensures r in Product(nouns1, verb, link, nouns2, with) <==>
            r.noun1 in nouns1 && r.verb == verb && r.link == link && r.noun2 in nouns2 && !Skipped(r.noun1, r.noun2, link, with)
    decreases |nouns1|
  {
    if |nouns1| > 0 {
      ProductMembers(nouns1[1..], verb, link, nouns2, with, r);
      OneToManyMembers(nouns1[0], verb, link, nouns2, with, r);
      assert nouns1 == [nouns1[0]] + nouns1[1..];
    }
  }

  /** Each pair (nouns[i], nouns[j]) with i < j that is not skipped, and nothing else. */
  lemma {:induction false} PairsMembers(nouns: seq<Noun>, verb: Verb, link: Link, with: Link, r: Request)
    ensures r in Pairs(nouns, verb, link, with) <==>
            r.verb == verb && r.link == link && !Skipped(r.noun1, r.noun2, link, with) &&
            exists i, j :: 0 <= i < j < |nouns| && r.noun1 == nouns[i] && r.noun2 == nouns[j]
    decreases |nouns|
  {
    if |nouns| > 0 {
      var rest := nouns[1..];
      PairsMembers(rest, verb, link, with, r);
      OneToManyMembers(nouns[0], verb, link, rest, with, r);
      if r in OneToMany(nouns[0], verb, link, rest, with) {
        var j :| 0 <= j < |rest| && rest[j] == r.noun2;
        assert r.noun1 == nouns[0] && r.noun2 == nouns[j + 1];
      } else if r in Pairs(rest, verb, link, with) {
        var i, j :| 0 <= i < j < |rest| && r.noun1 == rest[i] && r.noun2 == rest[j];
        assert r.noun1 == nouns[i + 1] && r.noun2 == nouns[j + 1];
      }
      if r.verb == verb && r.link == link && !Skipped(r.noun1, r.noun2, link, with) &&
         exists i, j :: 0 <= i < j < |nouns| && r.noun1 == nouns[i] && r.noun2 == nouns[j] {
        var i, j :| 0 <= i < j < |nouns| && r.noun1 == nouns[i] && r.noun2 == nouns[j];
        if i == 0 {
          assert r.noun2 == rest[j - 1];
        } else {
          assert r.noun1 == rest[i - 1] && r.noun2 == rest[j - 1];
        }
      }
    }
  }

  lemma {:induction false} OneToManyDistinct(noun1: Noun, verb: Verb, link: Link, nouns2: seq<Noun>, with: Link)
    requires DistinctNouns(nouns2)
    ensures Distinct(OneToMany(noun1, verb, link, nouns2, with))
    decreases |nouns2|
  {
    if |nouns2| > 0 {
      var rest := nouns2[1..];
      OneToManyDistinct(noun1, verb, link, rest, with);
      var tail := OneToMany(noun1, verb, link, rest, with);
      forall r | r in tail
        ensures r.noun2 != nouns2[0]
      {
        OneToManyMembers(noun1, verb, link, rest, with, r);
      }
    }
  }

  /** Over distinct nouns, the pairs within one list are submitted once each. */
  lemma {:induction false} PairsDistinct(nouns: seq<Noun>, verb: Verb, link: Link, with: Link)
    requires DistinctNouns(nouns)
    ensures Distinct(Pairs(nouns, verb, link, with))
    decreases |nouns|
  {
    if |nouns| > 0 {
      var rest := nouns[1..];
      PairsDistinct(rest, verb, link, with);
      OneToManyDistinct(nouns[0], verb, link, rest, with);
      var head := OneToMany(nouns[0], verb, link, rest, with);
      var tail := Pairs(rest, verb, link, with);
      forall r | r in tail
        ensures r.noun1 != nouns[0]
      {
        PairsMembers(rest, verb, link, with, r);
      }
      forall r | r in head
        ensures r.noun1 == nouns[0]
      {
        OneToManyMembers(nouns[0], verb, link, rest, with, r);
      }
      forall a, b | 0 <= a < b < |head + tail|
        ensures (head + tail)[a] != (head + tail)[b]
      {
        if b >= |head| && a < |head| {
          assert (head + tail)[a] in head && (head + tail)[b] in tail;
        }
      }
    }
  }

  /** The list-expanding overloads never submit a skipped pair. */
  lemma ManyToManyNeverSkipped(nouns1: seq<Noun>, verb: Verb, link: Link, nouns2: seq<Noun>, with: Link, r: Request)
    requires r in ManyToMany(nouns1, verb, link, nouns2, with)
    ensures !Skipped(r.noun1, r.noun2, link, with) && r.verb == verb && r.link == link
    ensures r.noun1 in nouns1
  {
    if |nouns2| == 0 {
      PairsMembers(nouns1, verb, link, with, r);
    } else {
      ProductMembers(nouns1, verb, link, nouns2, with, r);
    }
  }

  lemma {:induction false} StartsWithMembers(noun1: Noun, nouns2: seq<Noun>, flag: bool, ch: char, with: Link, r: Request)
    requires forall n :: n in nouns2 ==> |n.name| >= 1
    ensures r in StartsWith(noun1, nouns2, flag, ch, with) <==>
            r.noun1 == noun1 && r.verb == IsNot && r.link == with && r.noun2 in nouns2 && (r.noun2.name[0] == ch) == flag
    decreases |nouns2|
  {
    if |nouns2| > 0 {
      StartsWithMembers(noun1, nouns2[1..], flag, ch, with, r);
      assert nouns2 == [nouns2[0]] + nouns2[1..];
    }
  }

  lemma {:induction false} FirstCharRowMembers(noun1: Noun, nouns2: seq<Noun>, flag: bool, with: Link, r: Request)
    requires |noun1.name| >= 1
    requires forall n :: n in nouns2 ==> |n.name| >= 1
    ensures r in FirstCharRow(noun1, nouns2, flag, with) <==>
            r.noun1 == noun1 && r.verb == IsNot && r.link == with && r.noun2 in nouns2 &&
            (noun1.name[0] == r.noun2.name[0]) == flag
    decreases |nouns2|
  {
    if |nouns2| > 0 {
      FirstCharRowMembers(noun1, nouns2[1..], flag, with, r);
      assert nouns2 == [nouns2[0]] + nouns2[1..];
    }
  }

  /** addFactsIsNotFirstChar relates exactly the pairs whose initials agree (or differ) as flag says. */
  lemma {:induction false} FirstCharMembers(nouns1: seq<Noun>, nouns2: seq<Noun>, flag: bool, with: Link, r: Request)
    requires forall n :: n in nouns1 ==> |n.name| >= 1
    requires forall n :: n in nouns2 ==> |n.name| >= 1
    ensures r in FirstChar(nouns1, nouns2, flag, with) <==>
            r.noun1 in nouns1 && r.verb == IsNot && r.link == with && r.noun2 in nouns2 &&
            (r.noun1.name[0] == r.noun2.name[0]) == flag
    decreases |nouns1|
  {
    if |nouns1| > 0 {
      FirstCharMembers(nouns1[1..], nouns2, flag, with, r);
      FirstCharRowMembers(nouns1[0], nouns2, flag, with, r);
      assert nouns1 == [nouns1[0]] + nouns1[1..];
    }
  }

  lemma {:induction false} OddSlotsFromMembers(noun: Noun, slots: seq<Noun>, i: nat, with: Link, r: Request)
    requires i % 2 == 1
    ensures r in OddSlotsFrom(noun, slots, i, with) <==>
            r.noun1 == noun && r.verb == IsNot && r.link == with &&
            exists k :: i <= k < |slots| && k % 2 == 1 && r.noun2 == slots[k]
    decreases |slots| - i
  {
    if i < |slots| {
      OddSlotsFromMembers(noun, slots, i + 2, with, r);
      if r.noun1 == noun && r.verb == IsNot && r.link == with &&
         exists k :: i <= k < |slots| && k % 2 == 1 && r.noun2 == slots[k] {
        var k :| i <= k < |slots| && k % 2 == 1 && r.noun2 == slots[k];
        if k != i {
          assert i + 2 <= k;
        }
      }
    }
  }

  /** The first mode of addFactsNotConsecutive: every noun is kept off every odd slot, under With. */
  lemma {:induction false} OddSlotsMembers(nouns: seq<Noun>, slots: seq<Noun>, with: Link, r: Request)
    ensures r in OddSlots(nouns, slots, with) <==>
            r.noun1 in nouns && r.verb == IsNot && r.link == with &&
            exists k :: 0 <= k < |slots| && k % 2 == 1 && r.noun2 == slots[k]
    decreases |nouns|
  {
    if |nouns| > 0 {
      OddSlotsMembers(nouns[1..], slots, with, r);
      OddSlotsFromMembers(nouns[0], slots, 1, with, r);
      assert nouns == [nouns[0]] + nouns[1..];
    }
  }

  lemma {:induction false} MirrorMembers(noun1: Noun, rest: seq<Noun>, link: Link, r: Request)
    ensures r in Mirror(noun1, rest, link) <==>
            r.verb == IsNot && r.link == link &&
            ((r.noun1 == noun1 && r.noun2 in rest) || (r.noun2 == noun1 && r.noun1 in rest))
    decreases |rest|
  {
    if |rest| > 0 {
      MirrorMembers(noun1, rest[1..], link, r);
      assert rest == [rest[0]] + rest[1..];
    }
  }

  /** The second mode of addFactsNotConsecutive: every pair i < j, both ways round, under the link. */
  lemma {:induction false} BothWaysMembers(nouns: seq<Noun>, link: Link, r: Request)
    ensures r in BothWays(nouns, link) <==>
            r.verb == IsNot && r.link == link &&
            exists i, j :: 0 <= i < j < |nouns| &&
              ((r.noun1 == nouns[i] && r.noun2 == nouns[j]) || (r.noun1 == nouns[j] && r.noun2 == nouns[i]))
    decreases |nouns|
  {
    if |nouns| > 0 {
      var rest := nouns[1..];
      BothWaysMembers(rest, link, r);
      MirrorMembers(nouns[0], rest, link, r);
      if r in Mirror(nouns[0], rest, link) {
        if r.noun1 == nouns[0] {
          var j :| 0 <= j < |rest| && rest[j] == r.noun2;
          assert r.noun1 == nouns[0] && r.noun2 == nouns[j + 1];
        } else {
          var j :| 0 <= j < |rest| && rest[j] == r.noun1;
          assert r.noun2 == nouns[0] && r.noun1 == nouns[j + 1];
        }
      } else if r in BothWays(rest, link) {
        var i, j :| 0 <= i < j < |rest| &&
          ((r.noun1 == rest[i] && r.noun2 == rest[j]) || (r.noun1 == rest[j] && r.noun2 == rest[i]));
        assert nouns[i + 1] == rest[i] && nouns[j + 1] == rest[j];
      }
      if r.verb == IsNot && r.link == link &&
         exists i, j :: 0 <= i < j < |nouns| &&
           ((r.noun1 == nouns[i] && r.noun2 == nouns[j]) || (r.noun1 == nouns[j] && r.noun2 == nouns[i])) {
        var i, j :| 0 <= i < j < |nouns| &&
          ((r.noun1 == nouns[i] && r.noun2 == nouns[j]) || (r.noun1 == nouns[j] && r.noun2 == nouns[i]));
        if i == 0 {
          assert nouns[j] == rest[j - 1];
        } else {
          assert nouns[i] == rest[i - 1] && nouns[j] == rest[j - 1];
        }
      }
    }
  }
}
