/**
 * isNotBetween of SmartRule.java: noun A is not between nouns B and C,
 * where the slots are the nouns of one category, in order. Each noun's
 * slot is its own number when it is a slot, its partner's number when the
 * pairing cache knows it, and 0 (unknown) otherwise. With all three known
 * the rule only checks; with two known it rules the third out of every
 * slot that would put A between B and C.
 */
module SmartBetween {
  import opened Wrappers
  import opened Ids
  import opened Verbs
  import opened Boundary

  /** The one-based slot of a noun in slot category t, or 0 when unknown. */
  function SlotNum(s: Solver, noun: NounId, t: nat): nat
  {
    if noun.t == t then noun.num else s.PairNounNum(noun, t)
  }

  /** a lies strictly between b and c, in either order. */
  predicate Between(a: int, b: int, c: int)
  {
    (b < a && a < c) || (c < a && a < b)
  }

  /** A sweep: the reference letter, the noun to rule out, and the zero-based slot indexes i1 <= i < i2. */
  datatype Sweep = Sweep(ch: char, noun: NounId, i1: nat, i2: nat)

  /**
   * The sweep for known slots a, b, c (0 when unknown) and n slots: case
   * 'a' is tested first, then the first of cases 'b' to 'f' that holds
   * replaces it.
   */
  function ChooseSweep(noun1: NounId, noun2: NounId, noun3: NounId, a: nat, b: nat, c: nat, n: nat): Option<Sweep>
  {
    var first := if a > 0 && b > a then Some(Sweep('a', noun3, 0, a - 1)) else None;
    var second :=
      if b > 0 && a > b then Some(Sweep('b', noun3, a, n))
      else if a > 0 && c > a then Some(Sweep('c', noun2, 0, a - 1))
      else if c > 0 && a > c then Some(Sweep('d', noun2, a, n))
      else if b > 0 && c > b then Some(Sweep('e', noun1, b, c - 1))
      else if c > 0 && b > c then Some(Sweep('f', noun1, c, b - 1))
      else None;
    if second.Some? then second else first
  }

  /** The sweep's requests from index i on: "noun is not slot i+1" unless the grid already says so. */
  function SweepFrom(s: Solver, t: nat, sw: Sweep, i: nat): seq<Commit>
    decreases sw.i2 - i
  {
    if i >= sw.i2 then []
    else
      var slot := NounId(t, i + 1);
      (if s.gridVerb(sw.noun, slot) == IsNot then [] else [Commit(sw.ch, sw.noun, IsNot, slot)]) + SweepFrom(s, t, sw, i + 1)
  }

  /** isNotBetween for nouns A (noun1), B (noun2), C (noun3) and slot category t. */
  function NotBetween(s: Solver, t: nat, noun1: NounId, noun2: NounId, noun3: NounId): Outcome
  {
    var a, b, c := SlotNum(s, noun1, t), SlotNum(s, noun2, t), SlotNum(s, noun3, t);
    if a > 0 && b > 0 && c > 0 then
      if Between(a, b, c) then Outcome(-1, []) else Outcome(0, [])
    else
      match ChooseSweep(noun1, noun2, noun3, a, b, c, s.numNouns)
      case None => Outcome(0, [])
      case Some(sw) => Issue(s, [], SweepFrom(s, t, sw, sw.i1))
  }

  // ---------------------------------------------------------------- properties

  /** With all three slots known the rule requests nothing, and reports -1 exactly when A is between B and C. */
  lemma NotBetweenKnown(s: Solver, t: nat, noun1: NounId, noun2: NounId, noun3: NounId)
    requires SlotNum(s, noun1, t) > 0 && SlotNum(s, noun2, t) > 0 && SlotNum(s, noun3, t) > 0
    ensures var o := NotBetween(s, t, noun1, noun2, noun3);
      o.log == [] && (o.rs == -1 <==> Between(SlotNum(s, noun1, t), SlotNum(s, noun2, t), SlotNum(s, noun3, t))) &&
      (o.rs == 0 || o.rs == -1)
  {
  }

  /** Exactly one of the three slots is unknown. */
  predicate OneUnknown(a: nat, b: nat, c: nat)
  {
    (a == 0 && b > 0 && c > 0) || (a > 0 && b == 0 && c > 0) || (a > 0 && b > 0 && c == 0)
  }

  /** The noun whose slot is unknown. */
  function Unknown(noun1: NounId, noun2: NounId, noun3: NounId, a: nat, b: nat): NounId
  {
    if a == 0 then noun1 else if b == 0 then noun2 else noun3
  }

  /** Putting the unknown noun in slot x would put A strictly between B and C. */
  predicate WouldBetween(a: nat, b: nat, c: nat, x: int)
  {
    if a == 0 then Between(x, b, c) else if b == 0 then Between(a, x, c) else Between(a, b, x)
  }

  /** The sweep chosen for one unknown slot covers exactly the slots that would put A between B and C. */
  lemma ChooseSweepMeaning(noun1: NounId, noun2: NounId, noun3: NounId, a: nat, b: nat, c: nat, n: nat)
    requires OneUnknown(a, b, c)
    ensures match ChooseSweep(noun1, noun2, noun3, a, b, c, n)
      case None => forall x :: !WouldBetween(a, b, c, x)
      case Some(sw) =>
        sw.noun == Unknown(noun1, noun2, noun3, a, b) &&
        (forall x :: sw.i1 < x <= sw.i2 ==> WouldBetween(a, b, c, x)) &&
        (forall x :: 1 <= x <= n && WouldBetween(a, b, c, x) ==> sw.i1 < x <= sw.i2)
  {
  }

  lemma {:induction false} SweepMembers(s: Solver, t: nat, sw: Sweep, i: nat)
    ensures forall r :: r in SweepFrom(s, t, sw, i) <==>
      r == Commit(sw.ch, sw.noun, IsNot, r.noun2) && r.noun2.t == t && i < r.noun2.num <= sw.i2 &&
      s.gridVerb(sw.noun, r.noun2) != IsNot
    decreases sw.i2 - i
  {
    if i < sw.i2 {
      SweepMembers(s, t, sw, i + 1);
    }
  }

  /**
   * With exactly one slot unknown, every request rules the unknown noun
   * out of a slot it could still take that would put A strictly between B
   * and C; when all are accepted, every such slot has been ruled out.
   */
  lemma NotBetweenSweep(s: Solver, t: nat, noun1: NounId, noun2: NounId, noun3: NounId)
    requires OneUnknown(SlotNum(s, noun1, t), SlotNum(s, noun2, t), SlotNum(s, noun3, t))
    ensures var a, b, c := SlotNum(s, noun1, t), SlotNum(s, noun2, t), SlotNum(s, noun3, t);
      var x0 := Unknown(noun1, noun2, noun3, a, b);
      var o := NotBetween(s, t, noun1, noun2, noun3);
      (forall r :: r in o.log ==>
         r.noun1 == x0 && r.verb == IsNot && r.noun2.t == t && 1 <= r.noun2.num &&
         WouldBetween(a, b, c, r.noun2.num) && s.gridVerb(x0, r.noun2) != IsNot) &&
      (o.rs == 0 ==> forall x :: 1 <= x <= s.numNouns && WouldBetween(a, b, c, x) && s.gridVerb(x0, NounId(t, x)) != IsNot ==>
         exists r :: r in o.log && r.noun1 == x0 && r.verb == IsNot && r.noun2 == NounId(t, x))
  {
    var a, b, c := SlotNum(s, noun1, t), SlotNum(s, noun2, t), SlotNum(s, noun3, t);
    ChooseSweepMeaning(noun1, noun2, noun3, a, b, c, s.numNouns);
    match ChooseSweep(noun1, noun2, noun3, a, b, c, s.numNouns)
    case None =>
    case Some(sw) =>
      var cs := SweepFrom(s, t, sw, sw.i1);
      SweepMembers(s, t, sw, sw.i1);
      IssueLog(s, [], cs);
      assert [] + cs == cs;
      var o := Issue(s, [], cs);
      forall x | 1 <= x <= s.numNouns && WouldBetween(a, b, c, x) && s.gridVerb(sw.noun, NounId(t, x)) != IsNot && o.rs == 0
        ensures Commit(sw.ch, sw.noun, IsNot, NounId(t, x)) in o.log
      {
      }
  }

  /** With fewer than two slots known there is nothing to do. */
  lemma NotBetweenIdle(s: Solver, t: nat, noun1: NounId, noun2: NounId, noun3: NounId)
    requires var a, b, c := SlotNum(s, noun1, t), SlotNum(s, noun2, t), SlotNum(s, noun3, t);
      (a == 0 && b == 0) || (a == 0 && c == 0) || (b == 0 && c == 0)
    ensures NotBetween(s, t, noun1, noun2, noun3) == Outcome(0, [])
  {
  }

  /**
   * B in slot 1 and C in slot 4 of five, A unknown and open everywhere, and
   * every request accepted: A is ruled out of slots 2 and 3.
   */
  lemma NotBetweenExample()
    ensures var s := Solver(2, 5, (x: NounId, y: NounId) => Maybe, (x: NounId, y: NounId) => true,
                            (x: NounId, t: nat) => None, (log: seq<Commit>, r: Commit) => 0);
      NotBetween(s, 1, NounId(2, 1), NounId(1, 1), NounId(1, 4)) ==
        Outcome(0, [Commit('e', NounId(2, 1), IsNot, NounId(1, 2)), Commit('e', NounId(2, 1), IsNot, NounId(1, 3))])
  {
    var s := Solver(2, 5, (x: NounId, y: NounId) => Maybe, (x: NounId, y: NounId) => true,
                    (x: NounId, t: nat) => None, (log: seq<Commit>, r: Commit) => 0);
    var sw := Sweep('e', NounId(2, 1), 1, 3);
    var r2, r3 := Commit('e', NounId(2, 1), IsNot, NounId(1, 2)), Commit('e', NounId(2, 1), IsNot, NounId(1, 3));
    assert SweepFrom(s, 1, sw, 3) == [];
    assert SweepFrom(s, 1, sw, 2) == [r3];
    assert SweepFrom(s, 1, sw, 1) == [r2, r3];
    assert Issue(s, [r2, r3], []) == Outcome(0, [r2, r3]);
    assert Issue(s, [r2], [r3]) == Outcome(0, [r2, r3]);
    assert [r2, r3][1..] == [r3];
  }

  // ---------------------------------------------------------------- the rule

  /** Requests the sweep's commits from i1 on. */
  method RequestSweep(s: Solver, t: nat, sw: Sweep) returns (rs: int, log: seq<Commit>)
    ensures Outcome(rs, log) == Issue(s, [], SweepFrom(s, t, sw, sw.i1))
  {
    rs, log := 0, [];
    ghost var all := SweepFrom(s, t, sw, sw.i1);
    var i := sw.i1;
    while i < sw.i2
      invariant sw.i1 <= i
      invariant i >= sw.i2 ==> i == sw.i1 || i == sw.i2
      invariant Issue(s, [], all) == Issue(s, log, SweepFrom(s, t, sw, i))
      decreases sw.i2 - i
    {
      var slot := NounId(t, i + 1);
      ghost var here := SweepFrom(s, t, sw, i);
      ghost var rest := SweepFrom(s, t, sw, i + 1);
      if s.gridVerb(sw.noun, slot) != IsNot {
        var c := Commit(sw.ch, sw.noun, IsNot, slot);
        assert here == [c] + rest;
        assert here[0] == c && here[1..] == rest;
        rs := s.status(log, c);
        log := log + [c];
        if rs != 0 {
          return;
        }
      } else {
        assert here == rest;
      }
      i := i + 1;
    }
    rs := 0;
  }

  /** The rule body of getIsNotBetween. */
  method IsNotBetweenRule(s: Solver, t: nat, noun1: NounId, noun2: NounId, noun3: NounId)
    returns (rs: int, log: seq<Commit>)
    ensures Outcome(rs, log) == NotBetween(s, t, noun1, noun2, noun3)
  {
    var slotA := if noun1.t == t then noun1.num else s.PairNounNum(noun1, t);
    var slotB := if noun2.t == t then noun2.num else s.PairNounNum(noun2, t);
    var slotC := if noun3.t == t then noun3.num else s.PairNounNum(noun3, t);
    if slotA > 0 && slotB > 0 && slotC > 0 {
      if slotB < slotA && slotA < slotC {
        return -1, [];
      }
      if slotC < slotA && slotA < slotB {
        return -1, [];
      }
      return 0, [];
    }
    var n := s.numNouns;
    var sweep: Option<Sweep> := None;
    if slotA > 0 && slotB > slotA {
      sweep := Some(Sweep('a', noun3, 0, slotA - 1));
    }
    if slotB > 0 && slotA > slotB {
      sweep := Some(Sweep('b', noun3, slotA, n));
    } else if slotA > 0 && slotC > slotA {
      sweep := Some(Sweep('c', noun2, 0, slotA - 1));
    } else if slotC > 0 && slotA > slotC {
      sweep := Some(Sweep('d', noun2, slotA, n));
    } else if slotB > 0 && slotC > slotB {
      sweep := Some(Sweep('e', noun1, slotB, slotC - 1));
    } else if slotC > 0 && slotB > slotC {
      sweep := Some(Sweep('f', noun1, slotC, slotB - 1));
    }
    assert sweep == ChooseSweep(noun1, noun2, noun3, slotA, slotB, slotC, n);
    if sweep.None? {
      return 0, [];
    }
    rs, log := RequestSweep(s, t, sweep.value);
  }
}
