/**
 * The boundary between the smart rules and the solver (ISolver.java):
 * the rules read the solver's grid (getGridVerb), ask whether two nouns
 * may still be together (canBeWith), read the pairing cache kept in each
 * noun, and request deductions (addMarkByRule), each of which the solver
 * answers with a status: 0 when accepted, nonzero when it contradicts.
 * All of it is abstract here: a rule invocation sees one fixed snapshot of
 * the grid and cache, and the status of each request comes from an oracle
 * that may depend on the requests made earlier in the same invocation.
 */
module Boundary {
  import opened Wrappers
  import opened Ids
  import opened Verbs
  import Marks

  /** One deduction a rule requests: noun1 verb noun2, tagged with the rule's sub-reference. */
  datatype Commit = Commit(sub: char, noun1: NounId, verb: Verb, noun2: NounId)

  /** What a rule sees of the solver and the puzzle during one invocation. */
  datatype Solver = Solver(
    numTypes: nat,                               // categories 1..numTypes
    numNouns: nat,                               // nouns 1..numNouns in each category
    gridVerb: (NounId, NounId) -> Verb,          // getGridVerb
    canBeWith: (NounId, NounId) -> bool,         // canBeWith
    pairs: (NounId, nat) -> Option<Pairing>,     // noun.pairs[t - 1]
    status: (seq<Commit>, Commit) -> int)        // addMarkByRule, given the requests made so far
  {
    /** A noun of the puzzle. */
    predicate ValidNoun(n: NounId)
    {
      1 <= n.t <= numTypes && 1 <= n.num <= numNouns
    }

    /** Mark.getPairNoun over the cache. */
    function PairNoun(n: NounId, t: nat): (r: Option<NounId>)
      ensures r == None <==> pairs(n, t) == None
    {
      match pairs(n, t)
      case None => None
      case Some(p) => Some(Marks.Other(p, n))
    }

    /** The noun of category t that n is with: n itself when it is of category t, else its partner from the cache, if any. */
    function SlotOf(n: NounId, t: nat): Option<NounId>
    {
      if n.t == t then Some(n) else PairNoun(n, t)
    }

    /** Mark.getPairNounNum over the cache: the paired noun's number, or 0. */
    function PairNounNum(n: NounId, t: nat): (k: nat)
      ensures k == match PairNoun(n, t) case None => 0 case Some(x) => x.num
    {
      match pairs(n, t)
      case None => 0
      case Some(p) => Marks.Other(p, n).num
    }

    /** Mark.isPair over the cache. */
    predicate IsPair(a: NounId, b: NounId)
    {
      PairNoun(a, b.t) == Some(b)
    }

    /** Every cached partner for category t is a noun of category t. */
    ghost predicate PairsValid()
    {
      forall n: NounId, t: nat {:trigger PairNoun(n, t)} ::
        PairNoun(n, t).Some? ==> PairNoun(n, t).value.t == t && ValidNoun(PairNoun(n, t).value)
    }
  }

  /** The mark a rule is invoked on, as far as rules look at it. */
  datatype MarkView = MarkView(verb: Option<Verb>, noun1: Option<NounId>, noun2: Option<NounId>)

  /** A rule's result: its status code and the deductions it requested, in order. */
  datatype Outcome = Outcome(rs: int, log: seq<Commit>)

  /**
   * Requests the commits in order after those already in `log`, stopping at
   * the first one the solver answers with a nonzero status, which becomes
   * the result; 0 when all are accepted.
   */
  function Issue(s: Solver, log: seq<Commit>, cs: seq<Commit>): (o: Outcome)
    decreases |cs|
  {
    if |cs| == 0 then Outcome(0, log)
    else
      var st := s.status(log, cs[0]);
      if st != 0 then Outcome(st, log + [cs[0]]) else Issue(s, log + [cs[0]], cs[1..])
  }

  /**
   * The log grows by a prefix of the requests: by all of them when the
   * status is 0, and otherwise up to and including the rejected one,
   * whose status is the result.
   */
  lemma {:induction false} IssueLog(s: Solver, log: seq<Commit>, cs: seq<Commit>)
    ensures var o := Issue(s, log, cs);
      log <= o.log <= log + cs &&
      (o.rs == 0 ==> o.log == log + cs) &&
      (o.rs != 0 ==> |o.log| > |log| && o.rs == s.status(o.log[..|o.log| - 1], o.log[|o.log| - 1]))
    decreases |cs|
  {
    if |cs| > 0 {
      var st := s.status(log, cs[0]);
      assert log + cs == (log + [cs[0]]) + cs[1..];
      if st == 0 {
        IssueLog(s, log + [cs[0]], cs[1..]);
      } else {
        assert (log + [cs[0]])[..|log|] == log;
      }
    }
  }

  /** A status of 0 means every request made was accepted. */
  lemma {:induction false} IssueAccepted(s: Solver, log: seq<Commit>, cs: seq<Commit>)
    ensures var o := Issue(s, log, cs);
      o.rs == 0 ==> forall i :: |log| <= i < |o.log| ==> s.status(o.log[..i], o.log[i]) == 0
    decreases |cs|
  {
    if |cs| > 0 && s.status(log, cs[0]) == 0 {
      var o := Issue(s, log + [cs[0]], cs[1..]);
      IssueAccepted(s, log + [cs[0]], cs[1..]);
      IssueLog(s, log + [cs[0]], cs[1..]);
      if o.rs == 0 {
        assert o.log[..|log|] == log;
        assert o.log[|log|] == cs[0];
      }
    }
  }

  /** Requesting A then B is requesting A, then, if all of A was accepted, B. */
  lemma {:induction false} IssueAppend(s: Solver, log: seq<Commit>, a: seq<Commit>, b: seq<Commit>)
    ensures Issue(s, log, a + b) ==
            var o := Issue(s, log, a); if o.rs != 0 then o else Issue(s, o.log, b)
    decreases |a|
  {
    if |a| > 0 {
      assert (a + b)[0] == a[0];
      assert (a + b)[1..] == a[1..] + b;
      IssueAppend(s, log + [a[0]], a[1..], b);
    } else {
      assert a + b == b;
    }
  }

  /** A step of a phased rule: stop with status 1, or request some commits. */
  datatype Step = Fail | Emit(cs: seq<Commit>)

  /** Runs steps in order, stopping at a Fail (status 1) or at a rejected request. */
  function Run(s: Solver, log: seq<Commit>, steps: seq<Step>): (o: Outcome)
    decreases |steps|
  {
    if |steps| == 0 then Outcome(0, log)
    else match steps[0]
      case Fail => Outcome(1, log)
      case Emit(cs) =>
        var o := Issue(s, log, cs);
        if o.rs != 0 then o else Run(s, o.log, steps[1..])
  }

  /** Running A then B is running A, then, if it succeeded, B. */
  lemma {:induction false} RunAppend(s: Solver, log: seq<Commit>, a: seq<Step>, b: seq<Step>)
    ensures Run(s, log, a + b) ==
            var o := Run(s, log, a); if o.rs != 0 then o else Run(s, o.log, b)
    decreases |a|
  {
    if |a| > 0 {
      assert (a + b)[0] == a[0];
      assert (a + b)[1..] == a[1..] + b;
      if a[0].Emit? {
        var o := Issue(s, log, a[0].cs);
        if o.rs == 0 {
          RunAppend(s, o.log, a[1..], b);
        }
      }
    } else {
      assert a + b == b;
    }
  }

  /** A run that contains a failing step ends with a nonzero status. */
  lemma {:induction false} RunFails(s: Solver, log: seq<Commit>, steps: seq<Step>, i: nat)
    requires i < |steps| && steps[i] == Fail
    ensures Run(s, log, steps).rs != 0
    decreases |steps|
  {
    if i > 0 && steps[0].Emit? {
      var o := Issue(s, log, steps[0].cs);
      if o.rs == 0 {
        RunFails(s, o.log, steps[1..], i - 1);
      }
    }
  }

  /** Every request a run adds comes from one of its Emit steps. */
  lemma {:induction false} RunLogMembers(s: Solver, log: seq<Commit>, steps: seq<Step>)
    ensures var o := Run(s, log, steps);
      log <= o.log &&
      forall k :: |log| <= k < |o.log| ==> exists i :: 0 <= i < |steps| && steps[i].Emit? && o.log[k] in steps[i].cs
    decreases |steps|
  {
    if |steps| > 0 && steps[0].Emit? {
      var o1 := Issue(s, log, steps[0].cs);
      IssueLog(s, log, steps[0].cs);
      var o := Run(s, log, steps);
      forall k | |log| <= k < |o1.log|
        ensures o1.log[k] in steps[0].cs
      {
        assert o1.log[k] == (log + steps[0].cs)[k];
      }
      if o1.rs == 0 {
        RunLogMembers(s, o1.log, steps[1..]);
        forall k | |o1.log| <= k < |o.log|
          ensures exists i :: 0 <= i < |steps| && steps[i].Emit? && o.log[k] in steps[i].cs
        {
          var i :| 0 <= i < |steps[1..]| && steps[1..][i].Emit? && o.log[k] in steps[1..][i].cs;
          assert steps[i + 1] == steps[1..][i];
        }
      }
    }
  }

  /** A run that ends with status 0 made every request of every one of its steps. */
  lemma {:induction false} RunAllMade(s: Solver, log: seq<Commit>, steps: seq<Step>)
    ensures var o := Run(s, log, steps);
      o.rs == 0 ==>
        log <= o.log && forall i, c :: 0 <= i < |steps| && steps[i].Emit? && c in steps[i].cs ==> c in o.log
    decreases |steps|
  {
    if |steps| > 0 && steps[0].Emit? {
      var o1 := Issue(s, log, steps[0].cs);
      IssueLog(s, log, steps[0].cs);
      var o := Run(s, log, steps);
      if o1.rs == 0 {
        RunAllMade(s, o1.log, steps[1..]);
        if o.rs == 0 {
          forall i, c | 0 <= i < |steps| && steps[i].Emit? && c in steps[i].cs
            ensures c in o.log
          {
            if i == 0 {
              var k :| 0 <= k < |steps[0].cs| && steps[0].cs[k] == c;
              assert o.log[|log| + k] == o1.log[|log| + k] == c;
            } else {
              assert steps[1..][i - 1] == steps[i];
            }
          }
        }
      }
    }
  }

  /** A run of one Emit step is the plain request of its commits. */
  lemma RunSingleEmit(s: Solver, log: seq<Commit>, cs: seq<Commit>)
    ensures Run(s, log, [Emit(cs)]) == Issue(s, log, cs)
  {
    var o := Issue(s, log, cs);
    if o.rs == 0 {
      IssueLog(s, log, cs);
    }
  }
}
