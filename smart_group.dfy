/**
 * inOppositeGroup, inSameGroup and doListEliminator2 of SmartRule.java.
 * The nouns of one category are split into groups by a sequence mapping
 * each noun number to a group number; the rules keep noun1 and noun2 in opposite
 * groups, or in the same group, by way of the nouns of that category they
 * are with. The group-count part of inSameGroup reads the numbers as two
 * groups: number 0 and everything else.
 */
module SmartGroup {
  import opened Wrappers
  import opened Ids
  import opened Verbs
  import opened Boundary
  import opened Counting

  /** What the rules need to read the group numbers: one group per noun, valid nouns, a cache of valid nouns. */
  ghost predicate GroupArgs(s: Solver, groups: seq<int>, noun1: NounId, noun2: NounId)
  {
    s.PairsValid() && |groups| == s.numNouns && s.ValidNoun(noun1) && s.ValidNoun(noun2)
  }

  /** The group of a known noun, or -1 when it is not known. */
  function GroupOf(groups: seq<int>, x: Option<NounId>): int
    requires x.Some? ==> 1 <= x.value.num <= |groups|
  {
    if x.None? then -1 else groups[x.value.num - 1]
  }

  /** Noun x of the category, given its group. */
  predicate InGroupOf(s: Solver, t: nat, groups: seq<int>, x: NounId, g: int)
  {
    x.t == t && 1 <= x.num <= s.numNouns && |groups| == s.numNouns && groups[x.num - 1] == g
  }

  // ---------------------------------------------------------------- inOppositeGroup

  /**
   * The triggers of inOppositeGroup for nouns k+1..n: when noun1's group g1
   * is known, noun2 is not with a noun of g1; when noun2's group g2 is
   * known, noun1 is not with a noun of g2.
   */
  function OppositeFrom(s: Solver, t: nat, groups: seq<int>, noun1: NounId, noun2: NounId,
                        known1: bool, known2: bool, g1: int, g2: int, k: nat): seq<Commit>
    requires |groups| == s.numNouns
    decreases s.numNouns - k
  {
    if k >= s.numNouns then []
    else
      OppositeHead(s, t, groups, noun1, noun2, known1, known2, g1, g2, k) +
      OppositeFrom(s, t, groups, noun1, noun2, known1, known2, g1, g2, k + 1)
  }

  /** inOppositeGroup for noun1, noun2 and the category t with its group numbers. */
  function InOppositeGroup(s: Solver, t: nat, groups: seq<int>, noun1: NounId, noun2: NounId): Outcome
    requires GroupArgs(s, groups, noun1, noun2)
  {
    var a := s.SlotOf(noun1, t);
    var b := s.SlotOf(noun2, t);
    if a.None? && b.None? then Outcome(0, [])
    else
      var g1 := GroupOf(groups, a);
      var g2 := GroupOf(groups, b);
      if a.Some? && b.Some? then Outcome(if g1 == g2 then -1 else 0, [])
      else Issue(s, [], OppositeFrom(s, t, groups, noun1, noun2, a.Some?, b.Some?, g1, g2, 0))
  }

  /** A trigger of inOppositeGroup: the noun whose group is unknown is not with a noun of the other's group. */
  predicate OppositeRequest(s: Solver, t: nat, groups: seq<int>, noun1: NounId, noun2: NounId, c: Commit)
    requires GroupArgs(s, groups, noun1, noun2)
  {
    var a := s.SlotOf(noun1, t);
    var b := s.SlotOf(noun2, t);
    c.verb == IsNot &&
    ((a.Some? && c.sub == 'a' && c.noun1 == noun2 && InGroupOf(s, t, groups, c.noun2, GroupOf(groups, a))) ||
     (b.Some? && c.sub == 'b' && c.noun1 == noun1 && InGroupOf(s, t, groups, c.noun2, GroupOf(groups, b))))
  }

  lemma {:induction false} OppositeFromMembers(s: Solver, t: nat, groups: seq<int>, noun1: NounId, noun2: NounId,
                                               known1: bool, known2: bool, g1: int, g2: int, k: nat)
    requires |groups| == s.numNouns
    ensures forall c :: c in OppositeFrom(s, t, groups, noun1, noun2, known1, known2, g1, g2, k) <==>
      c.verb == IsNot && k < c.noun2.num &&
      ((known1 && c.sub == 'a' && c.noun1 == noun2 && InGroupOf(s, t, groups, c.noun2, g1)) ||
       (known2 && c.sub == 'b' && c.noun1 == noun1 && InGroupOf(s, t, groups, c.noun2, g2)))
    decreases s.numNouns - k
  {
    if k < s.numNouns {
      var rest := OppositeFrom(s, t, groups, noun1, noun2, known1, known2, g1, g2, k + 1);
      var head := OppositeHead(s, t, groups, noun1, noun2, known1, known2, g1, g2, k);
      assert OppositeFrom(s, t, groups, noun1, noun2, known1, known2, g1, g2, k) == head + rest;
      OppositeFromMembers(s, t, groups, noun1, noun2, known1, known2, g1, g2, k + 1);
      OppositeHeadMembers(s, t, groups, noun1, noun2, known1, known2, g1, g2, k);
    }
  }

  /** The triggers of inOppositeGroup for noun k+1 alone. */
  function OppositeHead(s: Solver, t: nat, groups: seq<int>, noun1: NounId, noun2: NounId,
                        known1: bool, known2: bool, g1: int, g2: int, k: nat): seq<Commit>
    requires |groups| == s.numNouns && k < s.numNouns
  {
    var x := NounId(t, k + 1);
    (if known1 && groups[k] == g1 then [Commit('a', noun2, IsNot, x)] else []) +
    (if known2 && groups[k] == g2 then [Commit('b', noun1, IsNot, x)] else [])
  }

  lemma OppositeHeadMembers(s: Solver, t: nat, groups: seq<int>, noun1: NounId, noun2: NounId,
                            known1: bool, known2: bool, g1: int, g2: int, k: nat)
    requires |groups| == s.numNouns && k < s.numNouns
    ensures forall c :: c in OppositeHead(s, t, groups, noun1, noun2, known1, known2, g1, g2, k) <==>
      c.verb == IsNot && c.noun2.num == k + 1 &&
      ((known1 && c.sub == 'a' && c.noun1 == noun2 && InGroupOf(s, t, groups, c.noun2, g1)) ||
       (known2 && c.sub == 'b' && c.noun1 == noun1 && InGroupOf(s, t, groups, c.noun2, g2)))
  {
  }

  /**
   * inOppositeGroup: with both groups known it requests nothing and fails
   * exactly when they are equal; with neither known it does nothing; with
   * one known, every request forbids the other noun from a noun of the
   * known group, and when all are accepted every such noun is forbidden.
   */
  lemma OppositeGroupMeaning(s: Solver, t: nat, groups: seq<int>, noun1: NounId, noun2: NounId)
    requires GroupArgs(s, groups, noun1, noun2)
    ensures var a, b := s.SlotOf(noun1, t), s.SlotOf(noun2, t);
      var o := InOppositeGroup(s, t, groups, noun1, noun2);
      (a.Some? && b.Some? ==> o.log == [] && (o.rs == -1 <==> GroupOf(groups, a) == GroupOf(groups, b)) &&
                                             (o.rs == 0 <==> GroupOf(groups, a) != GroupOf(groups, b))) &&
      (a.None? && b.None? ==> o == Outcome(0, [])) &&
      (forall c :: c in o.log ==> OppositeRequest(s, t, groups, noun1, noun2, c)) &&
      (a.Some? != b.Some? && o.rs == 0 ==> forall c :: OppositeRequest(s, t, groups, noun1, noun2, c) ==> c in o.log)
  {
    var a, b := s.SlotOf(noun1, t), s.SlotOf(noun2, t);
    if a.Some? != b.Some? {
      var g1, g2 := GroupOf(groups, a), GroupOf(groups, b);
      var cs := OppositeFrom(s, t, groups, noun1, noun2, a.Some?, b.Some?, g1, g2, 0);
      IssueLog(s, [], cs);
      OppositeFromMembers(s, t, groups, noun1, noun2, a.Some?, b.Some?, g1, g2, 0);
      assert [] + cs == cs;
    }
  }

  /** The rule body of getInOppositeGroup. */
  method InOppositeGroupRule(s: Solver, t: nat, groups: seq<int>, noun1: NounId, noun2: NounId)
    returns (rs: int, log: seq<Commit>)
    requires GroupArgs(s, groups, noun1, noun2)
    ensures Outcome(rs, log) == InOppositeGroup(s, t, groups, noun1, noun2)
  {
    var nounA := if noun1.t == t then Some(noun1) else s.PairNoun(noun1, t);
    var nounB := if noun2.t == t then Some(noun2) else s.PairNoun(noun2, t);
    if nounA == None && nounB == None {
      return 0, [];
    }
    var g1 := if nounA == None then -1 else groups[nounA.value.num - 1];
    var g2 := if nounB == None then -1 else groups[nounB.value.num - 1];
    if nounA != None && nounB != None {
      return (if g1 == g2 then -1 else 0), [];
    }
    rs, log := 0, [];
    ghost var all := OppositeFrom(s, t, groups, noun1, noun2, nounA.Some?, nounB.Some?, g1, g2, 0);
    var k := 0;
    while k < s.numNouns
      invariant 0 <= k <= s.numNouns
      invariant Issue(s, [], all) == Issue(s, log, OppositeFrom(s, t, groups, noun1, noun2, nounA.Some?, nounB.Some?, g1, g2, k))
    {
      ghost var head := OppositeHead(s, t, groups, noun1, noun2, nounA.Some?, nounB.Some?, g1, g2, k);
      ghost var rest := OppositeFrom(s, t, groups, noun1, noun2, nounA.Some?, nounB.Some?, g1, g2, k + 1);
      assert OppositeFrom(s, t, groups, noun1, noun2, nounA.Some?, nounB.Some?, g1, g2, k) == head + rest;
      IssueAppend(s, log, head, rest);
      rs, log := OppositeStep(s, t, groups, noun1, noun2, nounA.Some?, nounB.Some?, g1, g2, k, log);
      if rs != 0 {
        return;
      }
      k := k + 1;
    }
    rs := 0;
  }

  /** One pass of inOppositeGroup's loop: the requests for noun k+1, stopping at a rejection. */
  method OppositeStep(s: Solver, t: nat, groups: seq<int>, noun1: NounId, noun2: NounId,
                      known1: bool, known2: bool, g1: int, g2: int, k: nat, log0: seq<Commit>)
    returns (rs: int, log: seq<Commit>)
    requires |groups| == s.numNouns && k < s.numNouns
    ensures Outcome(rs, log) == Issue(s, log0, OppositeHead(s, t, groups, noun1, noun2, known1, known2, g1, g2, k))
  {
    var noun := NounId(t, k + 1);
    ghost var partB := if known2 && groups[k] == g2 then [Commit('b', noun1, IsNot, noun)] else [];
    ghost var head := OppositeHead(s, t, groups, noun1, noun2, known1, known2, g1, g2, k);
    rs, log := 0, log0;
    if known1 && groups[k] == g1 {
      var c := Commit('a', noun2, IsNot, noun);
      assert head == [c] + partB && head[0] == c && head[1..] == partB;
      rs := s.status(log, c);
      log := log + [c];
      if rs != 0 {
        return;
      }
      assert Issue(s, log0, head) == Issue(s, log, partB);
    } else {
      assert head == partB;
    }
    if known2 && groups[k] == g2 {
      var c := Commit('b', noun1, IsNot, noun);
      assert partB == [c] && partB[1..] == [];
      rs := s.status(log, c);
      assert Issue(s, log, partB) == (if rs != 0 then Outcome(rs, log + [c]) else Issue(s, log + [c], []));
      log := log + [c];
    }
  }

  // ---------------------------------------------------------------- inSameGroup, one group known

  /** "noun is not x" for every x from k+1 on whose group differs from g. */
  function OthersFrom(s: Solver, t: nat, groups: seq<int>, sub: char, noun: NounId, g: int, k: nat): seq<Commit>
    requires |groups| == s.numNouns
    decreases s.numNouns - k
  {
    if k >= s.numNouns then []
    else (if groups[k] == g then [] else [Commit(sub, noun, IsNot, NounId(t, k + 1))]) +
         OthersFrom(s, t, groups, sub, noun, g, k + 1)
  }

  /** A request of inSameGroup with one group g known: noun is not a noun x of the category outside g. */
  predicate OthersRequest(s: Solver, t: nat, groups: seq<int>, sub: char, noun: NounId, g: int, c: Commit)
  {
    c == Commit(sub, noun, IsNot, c.noun2) && c.noun2.t == t && 1 <= c.noun2.num <= s.numNouns &&
    |groups| == s.numNouns && groups[c.noun2.num - 1] != g
  }

  lemma {:induction false} OthersFromMembers(s: Solver, t: nat, groups: seq<int>, sub: char, noun: NounId, g: int, k: nat)
    requires |groups| == s.numNouns
    ensures forall c :: c in OthersFrom(s, t, groups, sub, noun, g, k) <==> OthersRequest(s, t, groups, sub, noun, g, c) && k < c.noun2.num
    decreases s.numNouns - k
  {
    if k < s.numNouns {
      OthersFromMembers(s, t, groups, sub, noun, g, k + 1);
    }
  }

  /** "noun is not x" for every x from k+1 on whose group differs from g. */
  method ForbidOthers(s: Solver, t: nat, groups: seq<int>, sub: char, noun: NounId, g: int)
    returns (rs: int, log: seq<Commit>)
    requires |groups| == s.numNouns
    ensures Outcome(rs, log) == Issue(s, [], OthersFrom(s, t, groups, sub, noun, g, 0))
  {
    rs, log := 0, [];
    ghost var all := OthersFrom(s, t, groups, sub, noun, g, 0);
    var k := 0;
    while k < s.numNouns
      invariant 0 <= k <= s.numNouns
      invariant Issue(s, [], all) == Issue(s, log, OthersFrom(s, t, groups, sub, noun, g, k))
    {
      ghost var here := OthersFrom(s, t, groups, sub, noun, g, k);
      ghost var rest := OthersFrom(s, t, groups, sub, noun, g, k + 1);
      if groups[k] != g {
        var c := Commit(sub, noun, IsNot, NounId(t, k + 1));
        assert here == [c] + rest;
        assert here[0] == c && here[1..] == rest;
        rs := s.status(log, c);
        log := log + [c];
        if rs != 0 {
          return;
        }
      } else {
        assert here == rest;
      }
      k := k + 1;
    }
    rs := 0;
  }

  // ---------------------------------------------------------------- inSameGroup, the group counts

  /** x is a noun of group 0 (first) or of another group (not first). */
  predicate InGroup(groups: seq<int>, first: bool, x: NounId)
  {
    1 <= x.num <= |groups| && ((groups[x.num - 1] == 0) == first)
  }

  /** x is in the group and may still be with noun. */
  function CandidateP(s: Solver, groups: seq<int>, first: bool, noun: NounId): (p: NounId -> bool)
    ensures forall x :: p(x) <==> InGroup(groups, first, x) && s.gridVerb(x, noun) == Maybe
  {
    (x: NounId) => InGroup(groups, first, x) && s.gridVerb(x, noun) == Maybe
  }

  /** x is in the group and may still be with noun1 or with noun2. */
  function EitherP(s: Solver, groups: seq<int>, first: bool, noun1: NounId, noun2: NounId): (p: NounId -> bool)
    ensures forall x :: p(x) <==> InGroup(groups, first, x) && (s.gridVerb(x, noun1) == Maybe || s.gridVerb(x, noun2) == Maybe)
  {
    (x: NounId) => InGroup(groups, first, x) && (s.gridVerb(x, noun1) == Maybe || s.gridVerb(x, noun2) == Maybe)
  }

  /**
   * The group is open to the pair, but too small for it: fewer than two of
   * its nouns are open to either, or none is open to noun1, or none to noun2.
   */
  predicate Short(s: Solver, t: nat, groups: seq<int>, first: bool, noun1: NounId, noun2: NounId)
  {
    var nouns := Category(t, s.numNouns);
    var g := Count(nouns, EitherP(s, groups, first, noun1, noun2));
    (g < 2 || Count(nouns, CandidateP(s, groups, first, noun1)) < 1 || Count(nouns, CandidateP(s, groups, first, noun2)) < 1) && g > 0
  }

  /** The requests "noun is not x" for each x of xs, in order. */
  function Forbid(sub: char, noun: NounId, xs: seq<NounId>): (r: seq<Commit>)
    ensures |r| == |xs| && forall i :: 0 <= i < |xs| ==> r[i] == Commit(sub, noun, IsNot, xs[i])
  {
    seq(|xs|, i requires 0 <= i < |xs| => Commit(sub, noun, IsNot, xs[i]))
  }

  /** doListEliminator2: the nouns of list1 are not with noun1, then those of list2 are not with noun2. */
  function Eliminator2(noun1: NounId, noun2: NounId, list1: seq<NounId>, list2: seq<NounId>): seq<Commit>
  {
    Forbid('a', noun1, list1) + Forbid('b', noun2, list2)
  }

  /** The eliminations for one group: only when it is short, of every noun of it open to noun1 or to noun2. */
  function GroupEliminations(s: Solver, t: nat, groups: seq<int>, first: bool, noun1: NounId, noun2: NounId): seq<Commit>
  {
    var nouns := Category(t, s.numNouns);
    if Short(s, t, groups, first, noun1, noun2) then
      Eliminator2(noun1, noun2, Filter(nouns, CandidateP(s, groups, first, noun1)), Filter(nouns, CandidateP(s, groups, first, noun2)))
    else []
  }

  /** inSameGroup for noun1, noun2 and the category t with its group numbers. */
  function InSameGroup(s: Solver, t: nat, groups: seq<int>, noun1: NounId, noun2: NounId): Outcome
    requires GroupArgs(s, groups, noun1, noun2)
  {
    var a := s.SlotOf(noun1, t);
    var b := s.SlotOf(noun2, t);
    var g1 := GroupOf(groups, a);
    var g2 := GroupOf(groups, b);
    if a.Some? && b.Some? then Outcome(if g1 != g2 then -1 else 0, [])
    else if a.Some? then Issue(s, [], OthersFrom(s, t, groups, 'a', noun2, g1, 0))
    else if b.Some? then Issue(s, [], OthersFrom(s, t, groups, 'b', noun1, g2, 0))
    else Issue(s, [], GroupEliminations(s, t, groups, true, noun1, noun2) + GroupEliminations(s, t, groups, false, noun1, noun2))
  }

  /**
   * A group is short exactly when some noun of it is open to noun1 or
   * noun2, and either no two different nouns of it are, or none is open to
   * noun1, or none is open to noun2.
   */
  lemma ShortMeaning(s: Solver, t: nat, groups: seq<int>, first: bool, noun1: NounId, noun2: NounId)
    ensures var nouns := Category(t, s.numNouns);
      var e := EitherP(s, groups, first, noun1, noun2);
      Short(s, t, groups, first, noun1, noun2) <==>
        (exists i :: 0 <= i < |nouns| && e(nouns[i])) &&
        ((forall i, j :: 0 <= i < |nouns| && 0 <= j < |nouns| && e(nouns[i]) && e(nouns[j]) ==> i == j) ||
         (forall i :: 0 <= i < |nouns| ==> !CandidateP(s, groups, first, noun1)(nouns[i])) ||
         (forall i :: 0 <= i < |nouns| ==> !CandidateP(s, groups, first, noun2)(nouns[i])))
  {
    var nouns := Category(t, s.numNouns);
    CountZero(nouns, EitherP(s, groups, first, noun1, noun2));
    CountAtMostOne(nouns, EitherP(s, groups, first, noun1, noun2));
    CountZero(nouns, CandidateP(s, groups, first, noun1));
    CountZero(nouns, CandidateP(s, groups, first, noun2));
  }

  /** A request of the group-count part: noun1 (or noun2) is not a noun of a short group that is open to it. */
  predicate CountRequest(s: Solver, t: nat, groups: seq<int>, noun1: NounId, noun2: NounId, c: Commit)
  {
    c.verb == IsNot && c.noun2.t == t && c.noun2.num <= s.numNouns &&
    exists first: bool :: Short(s, t, groups, first, noun1, noun2) &&
      ((c.sub == 'a' && c.noun1 == noun1 && CandidateP(s, groups, first, noun1)(c.noun2)) ||
       (c.sub == 'b' && c.noun1 == noun2 && CandidateP(s, groups, first, noun2)(c.noun2)))
  }

  lemma CategoryMembers(t: nat, n: nat)
    ensures forall x: NounId :: x in Category(t, n) <==> x.t == t && 1 <= x.num <= n
  {
    forall x: NounId | x.t == t && 1 <= x.num <= n
      ensures x in Category(t, n)
    {
      assert Category(t, n)[x.num - 1] == x;
    }
  }

  lemma ForbidMembers(sub: char, noun: NounId, xs: seq<NounId>)
    ensures forall c :: c in Forbid(sub, noun, xs) <==> c == Commit(sub, noun, IsNot, c.noun2) && c.noun2 in xs
  {
    forall c: Commit | c == Commit(sub, noun, IsNot, c.noun2) && c.noun2 in xs
      ensures c in Forbid(sub, noun, xs)
    {
      var i :| 0 <= i < |xs| && xs[i] == c.noun2;
      assert Forbid(sub, noun, xs)[i] == c;
    }
  }

  lemma GroupEliminationsMembers(s: Solver, t: nat, groups: seq<int>, first: bool, noun1: NounId, noun2: NounId)
    ensures forall c :: c in GroupEliminations(s, t, groups, first, noun1, noun2) <==>
      c.verb == IsNot && c.noun2.t == t && c.noun2.num <= s.numNouns && Short(s, t, groups, first, noun1, noun2) &&
      ((c.sub == 'a' && c.noun1 == noun1 && CandidateP(s, groups, first, noun1)(c.noun2)) ||
       (c.sub == 'b' && c.noun1 == noun2 && CandidateP(s, groups, first, noun2)(c.noun2)))
  {
    var nouns := Category(t, s.numNouns);
    var p1, p2 := CandidateP(s, groups, first, noun1), CandidateP(s, groups, first, noun2);
    FilterMembers(nouns, p1);
    FilterMembers(nouns, p2);
    CategoryMembers(t, s.numNouns);
    ForbidMembers('a', noun1, Filter(nouns, p1));
    ForbidMembers('b', noun2, Filter(nouns, p2));
    forall c: Commit
      ensures c in GroupEliminations(s, t, groups, first, noun1, noun2) <==>
        c.verb == IsNot && c.noun2.t == t && c.noun2.num <= s.numNouns && Short(s, t, groups, first, noun1, noun2) &&
        ((c.sub == 'a' && c.noun1 == noun1 && p1(c.noun2)) || (c.sub == 'b' && c.noun1 == noun2 && p2(c.noun2)))
    {
      assert c == Commit(c.sub, c.noun1, c.verb, c.noun2);
      if Short(s, t, groups, first, noun1, noun2) {
        var f1, f2 := Forbid('a', noun1, Filter(nouns, p1)), Forbid('b', noun2, Filter(nouns, p2));
        assert GroupEliminations(s, t, groups, first, noun1, noun2) == f1 + f2;
        assert c in f1 + f2 <==> c in f1 || c in f2;
        assert c in f1 <==> c == Commit('a', noun1, IsNot, c.noun2) && c.noun2 in nouns && p1(c.noun2);
        assert c in f2 <==> c == Commit('b', noun2, IsNot, c.noun2) && c.noun2 in nouns && p2(c.noun2);
      }
    }
  }

  /**
   * inSameGroup with a group known: with both known it requests nothing
   * and fails exactly when they differ; with one known, every request
   * forbids the other noun from a noun of another group, and when all are
   * accepted every such noun is forbidden.
   */
  lemma SameGroupKnown(s: Solver, t: nat, groups: seq<int>, noun1: NounId, noun2: NounId)
    requires GroupArgs(s, groups, noun1, noun2)
    ensures var a, b := s.SlotOf(noun1, t), s.SlotOf(noun2, t);
      var o := InSameGroup(s, t, groups, noun1, noun2);
      (a.Some? && b.Some? ==> o.log == [] && (o.rs == -1 <==> GroupOf(groups, a) != GroupOf(groups, b)) &&
                                             (o.rs == 0 <==> GroupOf(groups, a) == GroupOf(groups, b))) &&
      (a.Some? && b.None? ==> (forall c :: c in o.log ==> OthersRequest(s, t, groups, 'a', noun2, GroupOf(groups, a), c)) &&
                              (o.rs == 0 ==> forall c :: OthersRequest(s, t, groups, 'a', noun2, GroupOf(groups, a), c) ==> c in o.log)) &&
      (a.None? && b.Some? ==> (forall c :: c in o.log ==> OthersRequest(s, t, groups, 'b', noun1, GroupOf(groups, b), c)) &&
                              (o.rs == 0 ==> forall c :: OthersRequest(s, t, groups, 'b', noun1, GroupOf(groups, b), c) ==> c in o.log))
  {
    var a, b := s.SlotOf(noun1, t), s.SlotOf(noun2, t);
    if a.Some? && b.None? {
      var cs := OthersFrom(s, t, groups, 'a', noun2, GroupOf(groups, a), 0);
      IssueLog(s, [], cs);
      OthersFromMembers(s, t, groups, 'a', noun2, GroupOf(groups, a), 0);
      assert [] + cs == cs;
    } else if a.None? && b.Some? {
      var cs := OthersFrom(s, t, groups, 'b', noun1, GroupOf(groups, b), 0);
      IssueLog(s, [], cs);
      OthersFromMembers(s, t, groups, 'b', noun1, GroupOf(groups, b), 0);
      assert [] + cs == cs;
    }
  }

  /**
   * inSameGroup with neither group known: every request forbids noun1 or
   * noun2 from a noun of a short group open to it, and when all are
   * accepted every such noun is forbidden.
   */
  lemma SameGroupCounts(s: Solver, t: nat, groups: seq<int>, noun1: NounId, noun2: NounId)
    requires GroupArgs(s, groups, noun1, noun2)
    requires s.SlotOf(noun1, t).None? && s.SlotOf(noun2, t).None?
    ensures var o := InSameGroup(s, t, groups, noun1, noun2);
      (forall c :: c in o.log ==> CountRequest(s, t, groups, noun1, noun2, c)) &&
      (o.rs == 0 ==> forall c :: CountRequest(s, t, groups, noun1, noun2, c) ==> c in o.log)
  {
    var cs := GroupEliminations(s, t, groups, true, noun1, noun2) + GroupEliminations(s, t, groups, false, noun1, noun2);
    assert InSameGroup(s, t, groups, noun1, noun2) == Issue(s, [], cs);
    IssueMembers(s, cs);
    CountRequestsListed(s, t, groups, noun1, noun2);
  }

  /** The eliminations of both groupings are exactly the short-group requests. */
  lemma CountRequestsListed(s: Solver, t: nat, groups: seq<int>, noun1: NounId, noun2: NounId)
    ensures var cs := GroupEliminations(s, t, groups, true, noun1, noun2) + GroupEliminations(s, t, groups, false, noun1, noun2);
      forall c :: c in cs <==> CountRequest(s, t, groups, noun1, noun2, c)
  {
    var e1 := GroupEliminations(s, t, groups, true, noun1, noun2);
    var e2 := GroupEliminations(s, t, groups, false, noun1, noun2);
    GroupEliminationsMembers(s, t, groups, true, noun1, noun2);
    GroupEliminationsMembers(s, t, groups, false, noun1, noun2);
    forall c | c in e1 + e2
      ensures CountRequest(s, t, groups, noun1, noun2, c)
    {
      var first := c in e1;
      assert c in GroupEliminations(s, t, groups, first, noun1, noun2);
    }
    forall c | CountRequest(s, t, groups, noun1, noun2, c)
      ensures c in e1 + e2
    {
      var first: bool :| Short(s, t, groups, first, noun1, noun2) &&
        ((c.sub == 'a' && c.noun1 == noun1 && CandidateP(s, groups, first, noun1)(c.noun2)) ||
         (c.sub == 'b' && c.noun1 == noun2 && CandidateP(s, groups, first, noun2)(c.noun2)));
      assert c in GroupEliminations(s, t, groups, first, noun1, noun2);
    }
  }

  /** Requests made from an empty log are among those asked for, and all of them when all are accepted. */
  lemma IssueMembers(s: Solver, cs: seq<Commit>)
    ensures var o := Issue(s, [], cs);
      (forall c :: c in o.log ==> c in cs) && (o.rs == 0 ==> forall c :: c in cs ==> c in o.log)
  {
    IssueLog(s, [], cs);
    assert [] + cs == cs;
  }

  /** doListEliminator2, after the requests already in log. */
  method ListEliminator2(s: Solver, log0: seq<Commit>, noun1: NounId, noun2: NounId, list1: seq<NounId>, list2: seq<NounId>)
    returns (rs: int, log: seq<Commit>)
    ensures Outcome(rs, log) == Issue(s, log0, Eliminator2(noun1, noun2, list1, list2))
  {
    rs, log := 0, log0;
    ghost var f1, f2 := Forbid('a', noun1, list1), Forbid('b', noun2, list2);
    IssueAppend(s, log0, f1, f2);
    var i := 0;
    while i < |list1|
      invariant 0 <= i <= |list1|
      invariant Issue(s, log0, f1) == Issue(s, log, f1[i..])
    {
      var c := Commit('a', noun1, IsNot, list1[i]);
      assert f1[i..][0] == c && f1[i..][1..] == f1[i + 1..];
      rs := s.status(log, c);
      log := log + [c];
      if rs != 0 {
        return;
      }
      i := i + 1;
    }
    var j := 0;
    while j < |list2|
      invariant 0 <= j <= |list2|
      invariant Issue(s, log0, f1 + f2) == Issue(s, log, f2[j..])
    {
      var c := Commit('b', noun2, IsNot, list2[j]);
      assert f2[j..][0] == c && f2[j..][1..] == f2[j + 1..];
      rs := s.status(log, c);
      log := log + [c];
      if rs != 0 {
        return;
      }
      j := j + 1;
    }
    rs := 0;
  }

  /** The six lists inSameGroup populates: per group, the nouns open to noun1, to noun2, and to either. */
  datatype Groups = Groups(group1: seq<NounId>, group1Noun1: seq<NounId>, group1Noun2: seq<NounId>,
                           group2: seq<NounId>, group2Noun1: seq<NounId>, group2Noun2: seq<NounId>)

  /** The six lists over the nouns xs of the category. */
  function GroupsOver(s: Solver, groups: seq<int>, noun1: NounId, noun2: NounId, xs: seq<NounId>): Groups
  {
    Groups(Filter(xs, EitherP(s, groups, true, noun1, noun2)), Filter(xs, CandidateP(s, groups, true, noun1)), Filter(xs, CandidateP(s, groups, true, noun2)),
           Filter(xs, EitherP(s, groups, false, noun1, noun2)), Filter(xs, CandidateP(s, groups, false, noun1)), Filter(xs, CandidateP(s, groups, false, noun2)))
  }

  /** Adding noun k+1 of the category to the six lists. */
  lemma GroupsStep(s: Solver, t: nat, groups: seq<int>, noun1: NounId, noun2: NounId, k: nat)
    requires |groups| == s.numNouns && k < s.numNouns
    ensures var nouns := Category(t, s.numNouns);
      var x := NounId(t, k + 1);
      var v1, v2, g0 := s.gridVerb(x, noun1) == Maybe, s.gridVerb(x, noun2) == Maybe, groups[k] == 0;
      var gs := GroupsOver(s, groups, noun1, noun2, nouns[..k]);
      GroupsOver(s, groups, noun1, noun2, nouns[..k + 1]) ==
        Groups(gs.group1 + (if (v1 || v2) && g0 then [x] else []),
               gs.group1Noun1 + (if v1 && g0 then [x] else []),
               gs.group1Noun2 + (if v2 && g0 then [x] else []),
               gs.group2 + (if (v1 || v2) && !g0 then [x] else []),
               gs.group2Noun1 + (if v1 && !g0 then [x] else []),
               gs.group2Noun2 + (if v2 && !g0 then [x] else []))
  {
    var nouns := Category(t, s.numNouns);
    assert nouns[k] == NounId(t, k + 1);
    Snoc(nouns, EitherP(s, groups, true, noun1, noun2), k);
    Snoc(nouns, CandidateP(s, groups, true, noun1), k);
    Snoc(nouns, CandidateP(s, groups, true, noun2), k);
    Snoc(nouns, EitherP(s, groups, false, noun1, noun2), k);
    Snoc(nouns, CandidateP(s, groups, false, noun1), k);
    Snoc(nouns, CandidateP(s, groups, false, noun2), k);
  }

  /** Populates the six lists, noun by noun of the category. */
  method Populate(s: Solver, t: nat, groups: seq<int>, noun1: NounId, noun2: NounId) returns (gs: Groups)
    requires |groups| == s.numNouns
    ensures gs == GroupsOver(s, groups, noun1, noun2, Category(t, s.numNouns))
  {
    ghost var nouns := Category(t, s.numNouns);
    gs := Groups([], [], [], [], [], []);
    var k := 0;
    while k < s.numNouns
      invariant 0 <= k <= s.numNouns
      invariant gs == GroupsOver(s, groups, noun1, noun2, nouns[..k])
    {
      var noun := NounId(t, k + 1);
      GroupsStep(s, t, groups, noun1, noun2, k);
      var verb1 := s.gridVerb(noun, noun1);
      if verb1 == Maybe {
        if groups[k] == 0 { gs := gs.(group1Noun1 := gs.group1Noun1 + [noun]); } else { gs := gs.(group2Noun1 := gs.group2Noun1 + [noun]); }
      }
      var verb2 := s.gridVerb(noun, noun2);
      if verb2 == Maybe {
        if groups[k] == 0 { gs := gs.(group1Noun2 := gs.group1Noun2 + [noun]); } else { gs := gs.(group2Noun2 := gs.group2Noun2 + [noun]); }
      }
      if verb1 == Maybe || verb2 == Maybe {
        if groups[k] == 0 { gs := gs.(group1 := gs.group1 + [noun]); } else { gs := gs.(group2 := gs.group2 + [noun]); }
      }
      k := k + 1;
    }
    assert nouns[..k] == nouns;
  }

  /** The rule body of getInSameGroup. */
  method InSameGroupRule(s: Solver, t: nat, groups: seq<int>, noun1: NounId, noun2: NounId)
    returns (rs: int, log: seq<Commit>)
    requires GroupArgs(s, groups, noun1, noun2)
    ensures Outcome(rs, log) == InSameGroup(s, t, groups, noun1, noun2)
  {
    var nounA := if noun1.t == t then Some(noun1) else s.PairNoun(noun1, t);
    var nounB := if noun2.t == t then Some(noun2) else s.PairNoun(noun2, t);
    var g1 := if nounA == None then -1 else groups[nounA.value.num - 1];
    var g2 := if nounB == None then -1 else groups[nounB.value.num - 1];
    if nounA != None && nounB != None {
      return (if g1 != g2 then -1 else 0), [];
    }
    if nounA != None {
      rs, log := ForbidOthers(s, t, groups, 'a', noun2, g1);
      return;
    }
    if nounB != None {
      rs, log := ForbidOthers(s, t, groups, 'b', noun1, g2);
      return;
    }
    var gs := Populate(s, t, groups, noun1, noun2);
    ghost var e1 := GroupEliminations(s, t, groups, true, noun1, noun2);
    ghost var e2 := GroupEliminations(s, t, groups, false, noun1, noun2);
    IssueAppend(s, [], e1, e2);
    rs, log := 0, [];
    if (|gs.group1| < 2 || |gs.group1Noun1| < 1 || |gs.group1Noun2| < 1) && |gs.group1| > 0 {
      rs, log := ListEliminator2(s, log, noun1, noun2, gs.group1Noun1, gs.group1Noun2);
      if rs != 0 {
        return;
      }
    } else {
      assert e1 == [];
    }
    if (|gs.group2| < 2 || |gs.group2Noun1| < 1 || |gs.group2Noun2| < 1) && |gs.group2| > 0 {
      rs, log := ListEliminator2(s, log, noun1, noun2, gs.group2Noun1, gs.group2Noun2);
      if rs != 0 {
        return;
      }
    } else {
      assert e2 == [];
    }
    rs := 0;
  }
}
