/**
 * The matching rules of SmartRule.java: matchAtLeastOne ("noun1 is with
 * at least one noun of a list") with its helpers canBeWith2 and
 * isOnlyNoun, and matchOneToExactlyOne ("exactly one noun of list 1 is
 * with exactly one noun of list 2") with its helper getNumMatches.
 */
module SmartMatch {
  import opened Wrappers
  import opened Ids
  import opened Verbs
  import opened Boundary
  import opened Counting

  // ---------------------------------------------------------------- canBeWith2

  /** noun2 could be noun1's partner: another category, and already its partner or still allowed. */
  predicate Possible(s: Solver, noun1: NounId, noun2: NounId)
  {
    noun1.t != noun2.t && (s.PairNounNum(noun1, noun2.t) == noun2.num || s.canBeWith(noun1, noun2))
  }

  predicate AnyPossible(s: Solver, noun1: NounId, nouns2: seq<NounId>)
  {
    exists j :: 0 <= j < |nouns2| && Possible(s, noun1, nouns2[j])
  }

  /** canBeWith2: whether some list noun could be noun1's partner. */
  method CanBeWith2(s: Solver, noun1: NounId, nouns2: seq<NounId>) returns (b: bool)
    ensures b == AnyPossible(s, noun1, nouns2)
  {
    var j := 0;
    while j < |nouns2|
      invariant 0 <= j <= |nouns2|
      invariant forall k :: 0 <= k < j ==> !Possible(s, noun1, nouns2[k])
    {
      var noun2 := nouns2[j];
      if noun1.t != noun2.t {
        if s.PairNounNum(noun1, noun2.t) == noun2.num {
          return true;
        }
        if s.canBeWith(noun1, noun2) {
          return true;
        }
      }
      j := j + 1;
    }
    return false;
  }

  // ---------------------------------------------------------------- isOnlyNoun

  /** noun2 is in another category and the solver still allows it with noun1. */
  predicate Candidate(s: Solver, noun1: NounId, noun2: NounId)
  {
    noun1.t != noun2.t && s.canBeWith(noun1, noun2)
  }

  function CandidateP(s: Solver, noun1: NounId): NounId -> bool
  {
    (noun2: NounId) => Candidate(s, noun1, noun2)
  }

  /** noun2 is in another category and the pairing cache already puts it with noun1. */
  predicate PairedWith(s: Solver, noun1: NounId, noun2: NounId)
  {
    noun1.t != noun2.t && s.IsPair(noun1, noun2)
  }

  predicate AnyPaired(s: Solver, noun1: NounId, nouns2: seq<NounId>)
  {
    exists j :: 0 <= j < |nouns2| && PairedWith(s, noun1, nouns2[j])
  }

  /** The only list noun noun1 can still be with, when it has no partner in the list yet. */
  function OnlyNoun(s: Solver, noun1: NounId, nouns2: seq<NounId>): Option<NounId>
  {
    if AnyPaired(s, noun1, nouns2) || Count(nouns2, CandidateP(s, noun1)) != 1 then None
    else Some(nouns2[LastIndex(nouns2, CandidateP(s, noun1))])
  }

  /** Exactly one position of the list holds a candidate. */
  predicate ExactlyOneCandidate(s: Solver, noun1: NounId, nouns2: seq<NounId>)
  {
    exists j :: 0 <= j < |nouns2| && Candidate(s, noun1, nouns2[j]) &&
      forall k :: 0 <= k < |nouns2| && Candidate(s, noun1, nouns2[k]) ==> k == j
  }

  /**
   * isOnlyNoun yields a noun exactly when noun1 is paired with no list noun
   * and exactly one list position holds a candidate; the noun is that candidate.
   */
  lemma OnlyNounMeaning(s: Solver, noun1: NounId, nouns2: seq<NounId>)
    ensures OnlyNoun(s, noun1, nouns2).Some? <==>
            !AnyPaired(s, noun1, nouns2) && ExactlyOneCandidate(s, noun1, nouns2)
    ensures OnlyNoun(s, noun1, nouns2).Some? ==>
            var x := OnlyNoun(s, noun1, nouns2).value;
            x in nouns2 && Candidate(s, noun1, x) &&
            forall k :: 0 <= k < |nouns2| && Candidate(s, noun1, nouns2[k]) ==> nouns2[k] == x
  {
    var p := CandidateP(s, noun1);
    CountAtMostOne(nouns2, p);
    CountZero(nouns2, p);
    if Count(nouns2, p) == 1 {
      CountOne(nouns2, p);
    }
    if ExactlyOneCandidate(s, noun1, nouns2) {
      var j :| 0 <= j < |nouns2| && Candidate(s, noun1, nouns2[j]) &&
        forall k :: 0 <= k < |nouns2| && Candidate(s, noun1, nouns2[k]) ==> k == j;
      assert p(nouns2[j]);
    }
  }

  /** isOnlyNoun: scans the list, giving up at a noun already paired with noun1 or at a second candidate. */
  method IsOnlyNoun(s: Solver, noun1: NounId, nouns2: seq<NounId>) returns (noun: Option<NounId>)
    ensures noun == OnlyNoun(s, noun1, nouns2)
  {
    var p := CandidateP(s, noun1);
    noun := None;
    var j := 0;
    while j < |nouns2|
      invariant 0 <= j <= |nouns2|
      invariant !AnyPaired(s, noun1, nouns2[..j])
      invariant Count(nouns2[..j], p) <= 1
      invariant noun == if Count(nouns2[..j], p) == 1 then Some(nouns2[LastIndex(nouns2[..j], p)]) else None
    {
      Snoc(nouns2, p, j);
      var noun2 := nouns2[j];
      if noun1.t != noun2.t {
        if s.PairNoun(noun1, noun2.t) == Some(noun2) {
          assert PairedWith(s, noun1, nouns2[j]);
          return None;
        }
        if s.canBeWith(noun1, noun2) {
          if noun.Some? {
            CountPrefix(nouns2, p, j + 1);
            return None;
          }
          noun := Some(noun2);
        }
      }
      assert !AnyPaired(s, noun1, nouns2[..j + 1]) by {
        assert forall k :: 0 <= k < j + 1 ==> nouns2[..j + 1][k] == nouns2[k];
      }
      j := j + 1;
    }
    assert nouns2[..j] == nouns2;
  }

  // ---------------------------------------------------------------- matchAtLeastOne

  /** No list noun is in category t or may still be with x. */
  predicate Uncovered(s: Solver, nouns2: seq<NounId>, t: nat, x: NounId)
  {
    forall k :: 0 <= k < |nouns2| ==> nouns2[k].t != t && s.gridVerb(nouns2[k], x) == IsNot
  }

  /** noun1 may still be with x, but no list noun can be. */
  predicate Forbidden(s: Solver, noun1: NounId, nouns2: seq<NounId>, x: NounId)
  {
    s.gridVerb(noun1, x) != IsNot && Uncovered(s, nouns2, x.t, x)
  }

  /** The IsNot requests for nouns k+1..numNouns of category t, in order. */
  function ForbidsInType(s: Solver, noun1: NounId, nouns2: seq<NounId>, t: nat, k: nat): seq<Commit>
    decreases s.numNouns - k
  {
    if k >= s.numNouns then []
    else
      (if Forbidden(s, noun1, nouns2, NounId(t, k + 1)) then [Commit(' ', noun1, IsNot, NounId(t, k + 1))] else []) +
      ForbidsInType(s, noun1, nouns2, t, k + 1)
  }

  /** The IsNot requests for categories t..numTypes other than noun1's, in order. */
  function ForbidsFrom(s: Solver, noun1: NounId, nouns2: seq<NounId>, t: nat): seq<Commit>
    decreases s.numTypes + 1 - t
  {
    if t > s.numTypes then []
    else (if t == noun1.t then [] else ForbidsInType(s, noun1, nouns2, t, 0)) + ForbidsFrom(s, noun1, nouns2, t + 1)
  }

  lemma {:induction false} ForbidsInTypeMembers(s: Solver, noun1: NounId, nouns2: seq<NounId>, t: nat, k: nat)
    ensures forall c :: c in ForbidsInType(s, noun1, nouns2, t, k) <==>
              c == Commit(' ', noun1, IsNot, c.noun2) && c.noun2.t == t && k < c.noun2.num <= s.numNouns &&
              Forbidden(s, noun1, nouns2, c.noun2)
    decreases s.numNouns - k
  {
    if k < s.numNouns {
      ForbidsInTypeMembers(s, noun1, nouns2, t, k + 1);
    }
  }

  /** A request of the third phase: "noun1 is not x" for a noun x of another category that is forbidden. */
  predicate ForbidRequest(s: Solver, noun1: NounId, nouns2: seq<NounId>, c: Commit)
  {
    c == Commit(' ', noun1, IsNot, c.noun2) && s.ValidNoun(c.noun2) && c.noun2.t != noun1.t &&
    Forbidden(s, noun1, nouns2, c.noun2)
  }

  /**
   * The phase-three requests are exactly "noun1 is not x" for every
   * noun x of another category that noun1 may be with but no list noun can.
   */
  lemma {:induction false} ForbidsFromMembers(s: Solver, noun1: NounId, nouns2: seq<NounId>, t: nat)
    requires 1 <= t
    ensures forall c :: c in ForbidsFrom(s, noun1, nouns2, t) <==> t <= c.noun2.t && ForbidRequest(s, noun1, nouns2, c)
    decreases s.numTypes + 1 - t
  {
    if t <= s.numTypes {
      ForbidsFromMembers(s, noun1, nouns2, t + 1);
      ForbidsInTypeMembers(s, noun1, nouns2, t, 0);
      assert ForbidsFrom(s, noun1, nouns2, t) ==
             (if t == noun1.t then [] else ForbidsInType(s, noun1, nouns2, t, 0)) + ForbidsFrom(s, noun1, nouns2, t + 1);
    }
  }

  /** The outcome of the second phase: the request for the only candidate, if there is one. */
  function OnlyRequest(s: Solver, noun1: NounId, nouns2: seq<NounId>): Outcome
  {
    match OnlyNoun(s, noun1, nouns2)
    case None => Outcome(0, [])
    case Some(noun2) => Outcome(s.status([], Commit(' ', noun1, Is, noun2)), [Commit(' ', noun1, Is, noun2)])
  }

  /**
   * matchAtLeastOne as written: -1 when no list noun could be noun1's
   * partner; otherwise request "noun1 is noun2" for the only candidate, if
   * there is one, then "noun1 is not x" for every x no list noun can be
   * with. The first request's status is not checked: any later request
   * overwrites it.
   */
  function MatchAtLeastOneAsWritten(s: Solver, noun1: NounId, nouns2: seq<NounId>): Outcome
  {
    if !AnyPossible(s, noun1, nouns2) then Outcome(-1, [])
    else
      var o2 := OnlyRequest(s, noun1, nouns2);
      var forbids := ForbidsFrom(s, noun1, nouns2, 1);
      if |forbids| == 0 then o2 else Issue(s, o2.log, forbids)
  }

  /** matchAtLeastOne with the first request's status checked like every later one. */
  function MatchAtLeastOne(s: Solver, noun1: NounId, nouns2: seq<NounId>): Outcome
  {
    if !AnyPossible(s, noun1, nouns2) then Outcome(-1, [])
    else
      var o2 := OnlyRequest(s, noun1, nouns2);
      if o2.rs != 0 then o2 else Issue(s, o2.log, ForbidsFrom(s, noun1, nouns2, 1))
  }

  /** The rule reports -1 without requesting anything exactly when no list noun could be noun1's partner. */
  lemma AtLeastOneViolation(s: Solver, noun1: NounId, nouns2: seq<NounId>)
    ensures var o := MatchAtLeastOne(s, noun1, nouns2);
      (o.rs == -1 && o.log == []) <==> !AnyPossible(s, noun1, nouns2)
  {
    if AnyPossible(s, noun1, nouns2) {
      var o2 := OnlyRequest(s, noun1, nouns2);
      IssueLog(s, o2.log, ForbidsFrom(s, noun1, nouns2, 1));
    }
  }

  /** When a single candidate remains, the first request places noun1 with it. */
  lemma AtLeastOneTrigger(s: Solver, noun1: NounId, nouns2: seq<NounId>)
    requires OnlyNoun(s, noun1, nouns2).Some?
    ensures var o := MatchAtLeastOne(s, noun1, nouns2);
      |o.log| >= 1 && o.log[0] == Commit(' ', noun1, Is, OnlyNoun(s, noun1, nouns2).value)
  {
    OnlyNounMeaning(s, noun1, nouns2);
    var x := OnlyNoun(s, noun1, nouns2).value;
    var j :| 0 <= j < |nouns2| && nouns2[j] == x;
    assert Possible(s, noun1, nouns2[j]);
    IssueLog(s, [Commit(' ', noun1, Is, x)], ForbidsFrom(s, noun1, nouns2, 1));
  }

  /** The rule reports 0 only when every request it made was accepted. */
  lemma AtLeastOneStatus(s: Solver, noun1: NounId, nouns2: seq<NounId>)
    ensures var o := MatchAtLeastOne(s, noun1, nouns2);
      o.rs == 0 ==> forall i :: 0 <= i < |o.log| ==> s.status(o.log[..i], o.log[i]) == 0
  {
    if AnyPossible(s, noun1, nouns2) {
      var o2 := OnlyRequest(s, noun1, nouns2);
      if o2.rs == 0 {
        var forbids := ForbidsFrom(s, noun1, nouns2, 1);
        var o := Issue(s, o2.log, forbids);
        IssueAccepted(s, o2.log, forbids);
        IssueLog(s, o2.log, forbids);
        if o.rs == 0 && |o2.log| == 1 {
          assert o.log[..0] == [];
          assert o.log[0] == o2.log[0];
        }
      }
    }
  }

  /**
   * A run that reports 0 requested exactly the placement of the only
   * candidate, if there is one, and "noun1 is not x" for every noun x of
   * another category that noun1 may be with but no list noun can.
   */
  lemma AtLeastOneRequests(s: Solver, noun1: NounId, nouns2: seq<NounId>)
    ensures var o := MatchAtLeastOne(s, noun1, nouns2);
      var only := OnlyNoun(s, noun1, nouns2);
      o.rs == 0 ==>
        forall c :: c in o.log <==> (only.Some? && c == Commit(' ', noun1, Is, only.value)) || ForbidRequest(s, noun1, nouns2, c)
  {
    if AnyPossible(s, noun1, nouns2) {
      var o2 := OnlyRequest(s, noun1, nouns2);
      if o2.rs == 0 {
        IssueLog(s, o2.log, ForbidsFrom(s, noun1, nouns2, 1));
        ForbidsFromMembers(s, noun1, nouns2, 1);
      }
    }
  }

  /**
   * As written, a rejected first request is reported as 0 when a later
   * request is accepted: noun1 = (1,1), the list holds only (2,1), the
   * solver rejects every "is" request and accepts every "is not" one, and
   * no list noun may be with the nouns of category 3.
   */
  lemma AtLeastOneAsWrittenLosesStatus()
    ensures var s := Solver(3, 2,
                            (a: NounId, b: NounId) => if a == NounId(2, 1) then IsNot else Maybe,
                            (a: NounId, b: NounId) => b == NounId(2, 1),
                            (n: NounId, t: nat) => None,
                            (log: seq<Commit>, c: Commit) => if c.verb == Is then -1 else 0);
      var o := MatchAtLeastOneAsWritten(s, NounId(1, 1), [NounId(2, 1)]);
      o.rs == 0 && |o.log| > 0 && s.status([], o.log[0]) == -1 &&
      MatchAtLeastOne(s, NounId(1, 1), [NounId(2, 1)]).rs == -1
  {
    var s := Solver(3, 2,
                    (a: NounId, b: NounId) => if a == NounId(2, 1) then IsNot else Maybe,
                    (a: NounId, b: NounId) => b == NounId(2, 1),
                    (n: NounId, t: nat) => None,
                    (log: seq<Commit>, c: Commit) => if c.verb == Is then -1 else 0);
    var noun1, nouns2 := NounId(1, 1), [NounId(2, 1)];
    assert Possible(s, noun1, nouns2[0]);
    assert Candidate(s, noun1, nouns2[0]);
    assert !AnyPaired(s, noun1, nouns2);
    assert Count(nouns2, CandidateP(s, noun1)) == 1 by {
      assert nouns2 == [] + [nouns2[0]];
    }
    var c := Commit(' ', noun1, Is, NounId(2, 1));
    assert OnlyNoun(s, noun1, nouns2) == Some(NounId(2, 1));
    var f1 := Commit(' ', noun1, IsNot, NounId(3, 1));
    var f2 := Commit(' ', noun1, IsNot, NounId(3, 2));
    assert ForbidsInType(s, noun1, nouns2, 2, 0) == [] by {
      assert !Forbidden(s, noun1, nouns2, NounId(2, 1));
      assert !Forbidden(s, noun1, nouns2, NounId(2, 2));
    }
    assert ForbidsInType(s, noun1, nouns2, 3, 0) == [f1, f2] by {
      assert Forbidden(s, noun1, nouns2, NounId(3, 1));
      assert Forbidden(s, noun1, nouns2, NounId(3, 2));
    }
    assert ForbidsFrom(s, noun1, nouns2, 1) == [f1, f2];
    assert Issue(s, [c, f1, f2], []) == Outcome(0, [c, f1, f2]);
    assert Issue(s, [c, f1], [f2]) == Outcome(0, [c, f1, f2]) by {
      assert [f2][1..] == [];
      assert [c, f1] + [f2] == [c, f1, f2];
    }
    assert Issue(s, [c], [f1, f2]) == Outcome(0, [c, f1, f2]) by {
      assert [f1, f2][1..] == [f2];
      assert [c] + [f1] == [c, f1];
    }
  }

  /** Whether some list noun is in category t or may still be with x. */
  method IsCovered(s: Solver, nouns2: seq<NounId>, t: nat, x: NounId) returns (ok: bool)
    ensures ok == !Uncovered(s, nouns2, t, x)
  {
    ok := false;
    var k := 0;
    while k < |nouns2|
      invariant 0 <= k <= |nouns2|
      invariant forall m :: 0 <= m < k ==> nouns2[m].t != t && s.gridVerb(nouns2[m], x) == IsNot
    {
      if nouns2[k].t == t || s.gridVerb(nouns2[k], x) != IsNot {
        ok := true;
        break;
      }
      k := k + 1;
    }
  }

  /** The third phase for category t: requests "noun1 is not x" for each forbidden x of the category. */
  method ForbidInType(s: Solver, noun1: NounId, nouns2: seq<NounId>, t: nat, log0: seq<Commit>)
    returns (rs: int, log: seq<Commit>)
    ensures Outcome(rs, log) == Issue(s, log0, ForbidsInType(s, noun1, nouns2, t, 0))
  {
    rs, log := 0, log0;
    ghost var all := ForbidsInType(s, noun1, nouns2, t, 0);
    var k := 0;
    while k < s.numNouns
      invariant 0 <= k <= s.numNouns
      invariant Issue(s, log0, all) == Issue(s, log, ForbidsInType(s, noun1, nouns2, t, k))
    {
      var x := NounId(t, k + 1);
      ghost var here := ForbidsInType(s, noun1, nouns2, t, k);
      ghost var rest := ForbidsInType(s, noun1, nouns2, t, k + 1);
      if s.gridVerb(noun1, x) != IsNot {
        var ok := IsCovered(s, nouns2, t, x);
        if !ok {
          var c := Commit(' ', noun1, IsNot, x);
          assert here == [c] + rest;
          assert here[0] == c && here[1..] == rest;
          rs := s.status(log, c);
          log := log + [c];
          if rs != 0 {
            return;
          }
        } else {
          assert here == rest;
        }
      } else {
        assert here == rest;
      }
      assert Issue(s, log0, all) == Issue(s, log, rest);
      k := k + 1;
    }
    rs := 0;
  }

  /** The third phase over every category other than noun1's, stopping at the first rejected request. */
  method ForbidAll(s: Solver, noun1: NounId, nouns2: seq<NounId>, log0: seq<Commit>)
    returns (rs: int, log: seq<Commit>)
    ensures Outcome(rs, log) == Issue(s, log0, ForbidsFrom(s, noun1, nouns2, 1))
  {
    rs, log := 0, log0;
    ghost var all := ForbidsFrom(s, noun1, nouns2, 1);
    var t := 1;
    while t <= s.numTypes
      invariant 1 <= t <= s.numTypes + 1
      invariant Issue(s, log0, all) == Issue(s, log, ForbidsFrom(s, noun1, nouns2, t))
      decreases s.numTypes + 1 - t
    {
      ghost var rest := ForbidsFrom(s, noun1, nouns2, t + 1);
      if noun1.t != t {
        ghost var here := ForbidsInType(s, noun1, nouns2, t, 0);
        assert ForbidsFrom(s, noun1, nouns2, t) == here + rest;
        IssueAppend(s, log, here, rest);
        rs, log := ForbidInType(s, noun1, nouns2, t, log);
        if rs != 0 {
          return;
        }
      } else {
        assert ForbidsFrom(s, noun1, nouns2, t) == rest;
      }
      assert Issue(s, log0, all) == Issue(s, log, rest);
      t := t + 1;
    }
    rs := 0;
  }

  /** The rule body of getMatchAtLeastOne, with the first request's status checked. */
  method MatchAtLeastOneRule(s: Solver, noun1: NounId, nouns2: seq<NounId>) returns (rs: int, log: seq<Commit>)
    ensures Outcome(rs, log) == MatchAtLeastOne(s, noun1, nouns2)
  {
    var can := CanBeWith2(s, noun1, nouns2);
    if !can {
      return -1, [];
    }
    rs, log := 0, [];
    var noun2 := IsOnlyNoun(s, noun1, nouns2);
    if noun2.Some? {
      var c := Commit(' ', noun1, Is, noun2.value);
      rs := s.status(log, c);
      log := log + [c];
      if rs != 0 {
        return;
      }
    }
    assert OnlyRequest(s, noun1, nouns2) == Outcome(rs, log);
    rs, log := ForbidAll(s, noun1, nouns2, log);
  }

  // ---------------------------------------------------------------- getNumMatches

  function PairedP(s: Solver, noun1: NounId): NounId -> bool
  {
    (noun2: NounId) => PairedWith(s, noun1, noun2)
  }

  /** How many (noun1, noun2) pairs of the two lists are already together. */
  function NumMatches(s: Solver, nouns1: seq<NounId>, nouns2: seq<NounId>): nat
  {
    if |nouns1| == 0 then 0
    else NumMatches(s, nouns1[..|nouns1| - 1], nouns2) + Count(nouns2, PairedP(s, nouns1[|nouns1| - 1]))
  }

  /** No match between the lists exactly when no noun of list 1 is paired with a noun of list 2. */
  lemma {:induction false} NumMatchesZero(s: Solver, nouns1: seq<NounId>, nouns2: seq<NounId>)
    ensures NumMatches(s, nouns1, nouns2) == 0 <==> forall i :: 0 <= i < |nouns1| ==> !AnyPaired(s, nouns1[i], nouns2)
    decreases |nouns1|
  {
    if |nouns1| > 0 {
      var init := nouns1[..|nouns1| - 1];
      NumMatchesZero(s, init, nouns2);
      var last := nouns1[|nouns1| - 1];
      CountZero(nouns2, PairedP(s, last));
      assert forall i :: 0 <= i < |init| ==> init[i] == nouns1[i];
      if Count(nouns2, PairedP(s, last)) > 0 {
        var j :| 0 <= j < |nouns2| && PairedWith(s, last, nouns2[j]);
      }
    }
  }

  /** getNumMatches. */
  method GetNumMatches(s: Solver, nouns1: seq<NounId>, nouns2: seq<NounId>) returns (cnt: nat)
    ensures cnt == NumMatches(s, nouns1, nouns2)
  {
    cnt := 0;
    var i := 0;
    while i < |nouns1|
      invariant 0 <= i <= |nouns1|
      invariant cnt == NumMatches(s, nouns1[..i], nouns2)
    {
      var noun1 := nouns1[i];
      assert nouns1[..i + 1][..i] == nouns1[..i];
      var j := 0;
      while j < |nouns2|
        invariant 0 <= j <= |nouns2|
        invariant cnt == NumMatches(s, nouns1[..i], nouns2) + Count(nouns2[..j], PairedP(s, noun1))
      {
        Snoc(nouns2, PairedP(s, noun1), j);
        var noun2 := nouns2[j];
        if noun2.t != noun1.t && s.IsPair(noun1, noun2) {
          cnt := cnt + 1;
        }
        j := j + 1;
      }
      assert nouns2[..j] == nouns2;
      i := i + 1;
    }
    assert nouns1[..i] == nouns1;
  }

  // ---------------------------------------------------------------- matchOneToExactlyOne

  /** How many list-2 nouns noun1 can still be with. */
  function RowCount(s: Solver, noun1: NounId, nouns2: seq<NounId>): nat
  {
    Count(nouns2, CandidateP(s, noun1))
  }

  /** The scan of a row gives up: noun1 is already with a list-2 noun, or has two candidates. */
  predicate RowAborts(s: Solver, noun1: NounId, nouns2: seq<NounId>)
  {
    AnyPaired(s, noun1, nouns2) || RowCount(s, noun1, nouns2) >= 2
  }

  function SingleP(s: Solver, nouns2: seq<NounId>): NounId -> bool
  {
    (noun1: NounId) => RowCount(s, noun1, nouns2) == 1
  }

  /** The scan gives up: some row gives up, or two rows have a single candidate. */
  predicate ScanAborts(s: Solver, nouns1: seq<NounId>, nouns2: seq<NounId>)
  {
    (exists i :: 0 <= i < |nouns1| && RowAborts(s, nouns1[i], nouns2)) || Count(nouns1, SingleP(s, nouns2)) >= 2
  }

  /** The request for the only row with a single candidate: that row's noun is with its candidate. */
  function SingleRequest(s: Solver, nouns1: seq<NounId>, nouns2: seq<NounId>): Commit
    requires Count(nouns1, SingleP(s, nouns2)) == 1
  {
    var noun1 := nouns1[LastIndex(nouns1, SingleP(s, nouns2))];
    Commit(' ', noun1, Is, nouns2[LastIndex(nouns2, CandidateP(s, noun1))])
  }

  /**
   * matchOneToExactlyOne: when the scan completes and exactly one noun of
   * list 1 has exactly one candidate in list 2, request that they are
   * together; when it completes and no row has a candidate, -1. In every
   * case still running at the end, -1 when more than one pair of the lists
   * is already together.
   */
  function MatchOneToExactlyOne(s: Solver, nouns1: seq<NounId>, nouns2: seq<NounId>): Outcome
  {
    var many := NumMatches(s, nouns1, nouns2) > 1;
    if ScanAborts(s, nouns1, nouns2) then Outcome(if many then -1 else 0, [])
    else if Count(nouns1, SingleP(s, nouns2)) == 1 then
      var c := SingleRequest(s, nouns1, nouns2);
      var st := s.status([], c);
      if st != 0 then Outcome(st, [c]) else Outcome(if many then -1 else 0, [c])
    else Outcome(-1, [])
  }

  /** When no noun of list 1 is paired with or can be with a noun of list 2, the rule reports -1. */
  lemma ExactlyOneViolation(s: Solver, nouns1: seq<NounId>, nouns2: seq<NounId>)
    ensures var o := MatchOneToExactlyOne(s, nouns1, nouns2);
      (forall i, j :: 0 <= i < |nouns1| && 0 <= j < |nouns2| ==>
         !PairedWith(s, nouns1[i], nouns2[j]) && !Candidate(s, nouns1[i], nouns2[j])) ==>
      o == Outcome(-1, [])
  {
    if forall i, j :: 0 <= i < |nouns1| && 0 <= j < |nouns2| ==>
         !PairedWith(s, nouns1[i], nouns2[j]) && !Candidate(s, nouns1[i], nouns2[j]) {
      forall i | 0 <= i < |nouns1|
        ensures RowCount(s, nouns1[i], nouns2) == 0
      {
        CountZero(nouns2, CandidateP(s, nouns1[i]));
      }
      CountZero(nouns1, SingleP(s, nouns2));
    }
  }

  /**
   * The only request the rule can make puts a noun of list 1 with a noun
   * of list 2 it can be with, when every other noun of list 1 has no
   * candidate, no noun of list 1 is paired in list 2, and that candidate
   * is the noun's only one.
   */
  lemma ExactlyOneTrigger(s: Solver, nouns1: seq<NounId>, nouns2: seq<NounId>)
    ensures var o := MatchOneToExactlyOne(s, nouns1, nouns2);
      |o.log| > 0 ==>
        |o.log| == 1 &&
        exists i, j :: 0 <= i < |nouns1| && 0 <= j < |nouns2| &&
          o.log[0] == Commit(' ', nouns1[i], Is, nouns2[j]) && Candidate(s, nouns1[i], nouns2[j]) &&
          (forall k :: 0 <= k < |nouns2| && Candidate(s, nouns1[i], nouns2[k]) ==> k == j) &&
          (forall k :: 0 <= k < |nouns1| && k != i ==> RowCount(s, nouns1[k], nouns2) == 0) &&
          (forall k :: 0 <= k < |nouns1| ==> !AnyPaired(s, nouns1[k], nouns2))
  {
    if !ScanAborts(s, nouns1, nouns2) && Count(nouns1, SingleP(s, nouns2)) == 1 {
      var i := LastIndex(nouns1, SingleP(s, nouns2));
      var p := CandidateP(s, nouns1[i]);
      var j := LastIndex(nouns2, p);
      CountOne(nouns1, SingleP(s, nouns2));
      CountOne(nouns2, p);
      assert forall k :: 0 <= k < |nouns1| && k != i ==> RowCount(s, nouns1[k], nouns2) == 0 by {
        forall k | 0 <= k < |nouns1| && k != i
          ensures RowCount(s, nouns1[k], nouns2) == 0
        {
          assert !RowAborts(s, nouns1[k], nouns2);
          assert !SingleP(s, nouns2)(nouns1[k]);
        }
      }
      assert forall k :: 0 <= k < |nouns2| && Candidate(s, nouns1[i], nouns2[k]) ==> k == j by {
        forall k | 0 <= k < |nouns2| && Candidate(s, nouns1[i], nouns2[k])
          ensures k == j
        {
          assert p(nouns2[k]);
        }
      }
      assert !RowAborts(s, nouns1[i], nouns2);
    }
  }

  /**
   * Conversely, when a noun of list 1 has a single candidate in list 2,
   * no other noun of list 1 has any, and none is paired in list 2, the
   * rule requests exactly that placement.
   */
  lemma ExactlyOneTriggered(s: Solver, nouns1: seq<NounId>, nouns2: seq<NounId>, i: nat, j: nat)
    ensures (i < |nouns1| && j < |nouns2| && Candidate(s, nouns1[i], nouns2[j]) &&
             (forall k :: 0 <= k < |nouns2| && Candidate(s, nouns1[i], nouns2[k]) ==> k == j) &&
             (forall k :: 0 <= k < |nouns1| && k != i ==> RowCount(s, nouns1[k], nouns2) == 0) &&
             (forall k :: 0 <= k < |nouns1| ==> !AnyPaired(s, nouns1[k], nouns2))) ==>
            MatchOneToExactlyOne(s, nouns1, nouns2).log == [Commit(' ', nouns1[i], Is, nouns2[j])]
  {
    if && i < |nouns1| && j < |nouns2| && Candidate(s, nouns1[i], nouns2[j])
       && (forall k :: 0 <= k < |nouns2| && Candidate(s, nouns1[i], nouns2[k]) ==> k == j)
       && (forall k :: 0 <= k < |nouns1| && k != i ==> RowCount(s, nouns1[k], nouns2) == 0)
       && (forall k :: 0 <= k < |nouns1| ==> !AnyPaired(s, nouns1[k], nouns2))
    {
      var p := CandidateP(s, nouns1[i]);
      assert p(nouns2[j]);
      CountAtMostOne(nouns2, p);
      CountPositive(nouns2, p, j);
      CountOne(nouns2, p);
      var q := SingleP(s, nouns2);
      assert q(nouns1[i]);
      forall k | 0 <= k < |nouns1| && k != i
        ensures !q(nouns1[k])
      {
      }
      CountAtMostOne(nouns1, q);
      CountPositive(nouns1, q, i);
      CountOne(nouns1, q);
      forall k | 0 <= k < |nouns1|
        ensures !RowAborts(s, nouns1[k], nouns2)
      {
      }
      assert !ScanAborts(s, nouns1, nouns2);
    }
  }

  /** More than one pair of the lists already together is a violation on every path, with no request. */
  lemma ExactlyOneTooMany(s: Solver, nouns1: seq<NounId>, nouns2: seq<NounId>)
    ensures NumMatches(s, nouns1, nouns2) > 1 ==> MatchOneToExactlyOne(s, nouns1, nouns2) == Outcome(-1, [])
  {
    ExactlyOneScanNoMatches(s, nouns1, nouns2);
  }

  /** A completed scan means no pair of the lists is together yet. */
  lemma ExactlyOneScanNoMatches(s: Solver, nouns1: seq<NounId>, nouns2: seq<NounId>)
    ensures !ScanAborts(s, nouns1, nouns2) ==> NumMatches(s, nouns1, nouns2) == 0
  {
    NumMatchesZero(s, nouns1, nouns2);
  }

  /** The row scan of matchOneToExactlyOne: gives up, or counts noun1's candidates and remembers the last. */
  method ScanRow(s: Solver, noun1: NounId, nouns2: seq<NounId>, i2in: int)
    returns (abort: bool, count: nat, i2: int)
    ensures abort == RowAborts(s, noun1, nouns2)
    ensures !abort ==> count == RowCount(s, noun1, nouns2) &&
                       i2 == if count == 0 then i2in else LastIndex(nouns2, CandidateP(s, noun1))
  {
    var p := CandidateP(s, noun1);
    abort, count, i2 := false, 0, i2in;
    var j := 0;
    while j < |nouns2|
      invariant 0 <= j <= |nouns2|
      invariant !AnyPaired(s, noun1, nouns2[..j])
      invariant count == Count(nouns2[..j], p) <= 1
      invariant i2 == if count == 0 then i2in else LastIndex(nouns2[..j], p)
    {
      Snoc(nouns2, p, j);
      var noun2 := nouns2[j];
      if noun2.t != noun1.t {
        if s.IsPair(noun1, noun2) {
          assert PairedWith(s, noun1, nouns2[j]);
          return true, count, i2;
        }
        if s.canBeWith(noun1, noun2) {
          count := count + 1;
          if count > 1 {
            CountPrefix(nouns2, p, j + 1);
            return true, count, i2;
          }
          i2 := j;
        }
      }
      assert !AnyPaired(s, noun1, nouns2[..j + 1]) by {
        assert forall k :: 0 <= k < j + 1 ==> nouns2[..j + 1][k] == nouns2[k];
      }
      j := j + 1;
    }
    assert nouns2[..j] == nouns2;
  }

  /** What the scan knows after rows 0..i-1 without giving up. */
  predicate ScanSoFar(s: Solver, nouns1: seq<NounId>, nouns2: seq<NounId>, i: nat, i1: int, i2: int)
    requires i <= |nouns1|
  {
    var q := SingleP(s, nouns2);
    (forall k :: 0 <= k < i ==> !RowAborts(s, nouns1[k], nouns2)) &&
    Count(nouns1[..i], q) <= 1 &&
    i1 == (if Count(nouns1[..i], q) == 1 then LastIndex(nouns1[..i], q) else -1) &&
    (i1 != -1 ==> 0 <= i1 < i && i2 == LastIndex(nouns2, CandidateP(s, nouns1[i1]))) &&
    (i1 == -1 ==> i2 == -1)
  }

  /** One more row scanned without giving up. */
  lemma ScanStep(s: Solver, nouns1: seq<NounId>, nouns2: seq<NounId>, i: nat, i1: int, i2: int, count: nat, j2: int)
    requires i < |nouns1| && ScanSoFar(s, nouns1, nouns2, i, i1, i2)
    requires !RowAborts(s, nouns1[i], nouns2) && count == RowCount(s, nouns1[i], nouns2)
    requires j2 == if count == 0 then i2 else LastIndex(nouns2, CandidateP(s, nouns1[i]))
    requires count == 1 ==> i1 == -1
    ensures ScanSoFar(s, nouns1, nouns2, i + 1, if count == 1 then i else i1, j2)
  {
    Snoc(nouns1, SingleP(s, nouns2), i);
  }

  /** A second row with a single candidate makes the scan give up. */
  lemma ScanSecondSingle(s: Solver, nouns1: seq<NounId>, nouns2: seq<NounId>, i: nat, i1: int, i2: int)
    requires i < |nouns1| && ScanSoFar(s, nouns1, nouns2, i, i1, i2)
    requires RowCount(s, nouns1[i], nouns2) == 1 && i1 != -1
    ensures ScanAborts(s, nouns1, nouns2)
  {
    Snoc(nouns1, SingleP(s, nouns2), i);
    CountPrefix(nouns1, SingleP(s, nouns2), i + 1);
  }

  /** The scan over list 1: whether it completed, the single row (or -1), its candidate's index, and the row counts. */
  method Scan(s: Solver, nouns1: seq<NounId>, nouns2: seq<NounId>)
    returns (scanFlag: bool, i1: int, i2: int, counts: array<nat>)
    ensures scanFlag == !ScanAborts(s, nouns1, nouns2)
    ensures counts.Length == |nouns1|
    ensures scanFlag ==> forall k :: 0 <= k < |nouns1| ==> counts[k] == RowCount(s, nouns1[k], nouns2)
    ensures scanFlag ==> i1 == (if Count(nouns1, SingleP(s, nouns2)) == 1 then LastIndex(nouns1, SingleP(s, nouns2)) else -1)
    ensures scanFlag && i1 != -1 ==> 0 <= i1 < |nouns1| && i2 == LastIndex(nouns2, CandidateP(s, nouns1[i1]))
    ensures scanFlag && i1 == -1 ==> i2 == -1
  {
    counts := new nat[|nouns1|];
    scanFlag, i1, i2 := true, -1, -1;
    var i := 0;
    while i < |nouns1|
      invariant 0 <= i <= |nouns1|
      invariant ScanSoFar(s, nouns1, nouns2, i, i1, i2)
      invariant forall k :: 0 <= k < i ==> counts[k] == RowCount(s, nouns1[k], nouns2)
    {
      var abort, count, j2 := ScanRow(s, nouns1[i], nouns2, i2);
      if abort {
        assert RowAborts(s, nouns1[i], nouns2);
        scanFlag := false;
        return;
      }
      if count == 1 && i1 != -1 {
        ScanSecondSingle(s, nouns1, nouns2, i, i1, i2);
        scanFlag := false;
        return;
      }
      ScanStep(s, nouns1, nouns2, i, i1, i2, count, j2);
      counts[i] := count;
      i2 := j2;
      if count == 1 {
        i1 := i;
      }
      i := i + 1;
    }
    assert nouns1[..i] == nouns1;
  }

  /** The rule body of getMatchOneToExactlyOne. */
  method MatchOneToExactlyOneRule(s: Solver, nouns1: seq<NounId>, nouns2: seq<NounId>) returns (rs: int, log: seq<Commit>)
    ensures Outcome(rs, log) == MatchOneToExactlyOne(s, nouns1, nouns2)
  {
    rs, log := 0, [];
    var scanFlag, i1, i2, counts := Scan(s, nouns1, nouns2);
    if scanFlag {
      if i1 != -1 && i2 != -1 {
        var c := Commit(' ', nouns1[i1], Is, nouns2[i2]);
        assert c == SingleRequest(s, nouns1, nouns2);
        rs := s.status(log, c);
        log := log + [c];
        if rs != 0 {
          return;
        }
      } else {
        assert Count(nouns1, SingleP(s, nouns2)) == 0;
        assert forall k :: 0 <= k < |nouns1| ==> counts[k] == 0 by {
          CountZero(nouns1, SingleP(s, nouns2));
          assert forall k :: 0 <= k < |nouns1| ==> !RowAborts(s, nouns1[k], nouns2);
        }
        // Every count is 0 here, so this re-check never clears scanFlag.
        var i := 0;
        while i < |nouns1|
          invariant 0 <= i <= |nouns1|
          invariant scanFlag
        {
          if counts[i] != 0 {
            scanFlag := false;
            break;
          }
          i := i + 1;
        }
        if scanFlag {
          return -1, [];
        }
      }
    }
    var numMatches := GetNumMatches(s, nouns1, nouns2);
    if numMatches > 1 {
      return -1, log;
    }
  }
}
