/**
 * matchOneList of SmartRule.java: the nouns of list 1 are with the nouns
 * of exactly one of several lists. When a mark puts a list-1 noun with a
 * noun of one list, the other list-1 nouns are not with the nouns of the
 * other lists; and a list that cannot cover list 1 is ruled out for all
 * of it. Helpers: getListIndex and hasCoverage.
 */
module SmartList {
  import opened Wrappers
  import opened Ids
  import opened Verbs
  import opened Boundary
  import opened Counting

  // ---------------------------------------------------------------- getListIndex

  /** The index of the first list that holds x, or -1. */
  function ListIndex(x: NounId, lists: seq<seq<NounId>>): (r: int)
    ensures -1 <= r < |lists|
    ensures r >= 0 ==> x in lists[r] && forall i :: 0 <= i < r ==> x !in lists[i]
    ensures r == -1 <==> forall i :: 0 <= i < |lists| ==> x !in lists[i]
  {
    if |lists| == 0 then -1
    else if x in lists[0] then 0
    else
      var r := ListIndex(x, lists[1..]);
      if r < 0 then -1 else r + 1
  }

  /** getListIndex on a noun that may be null: a null noun is in no list. */
  function ListIndexOf(x: Option<NounId>, lists: seq<seq<NounId>>): (r: int)
    ensures -1 <= r < |lists|
    ensures r >= 0 ==> x.Some? && r == ListIndex(x.value, lists)
  {
    match x
    case None => -1
    case Some(n) => ListIndex(n, lists)
  }

  /** getListIndex: scans the lists in order and returns at the first one holding x. */
  method GetListIndex(x: Option<NounId>, lists: seq<seq<NounId>>) returns (rs: int)
    ensures rs == ListIndexOf(x, lists)
  {
    var idx := 0;
    while idx < |lists|
      invariant 0 <= idx <= |lists|
      invariant x.Some? ==> forall i :: 0 <= i < idx ==> x.value !in lists[i]
    {
      var list := lists[idx];
      var j := 0;
      while j < |list|
        invariant 0 <= j <= |list|
        invariant x.Some? ==> x.value !in list[..j]
      {
        if Some(list[j]) == x {
          return idx;
        }
        assert list[..j + 1] == list[..j] + [list[j]];
        j := j + 1;
      }
      assert list[..j] == list;
      idx := idx + 1;
    }
    return -1;
  }

  // ---------------------------------------------------------------- hasCoverage

  /** Some noun of list 1 is already with a noun of the list. */
  predicate AnyIs(s: Solver, nouns1: seq<NounId>, nouns2: seq<NounId>)
  {
    exists i, j :: 0 <= i < |nouns1| && 0 <= j < |nouns2| && s.gridVerb(nouns1[i], nouns2[j]) == Is
  }

  /**
   * The distinct list nouns reachable before cell (i, j) in row-major
   * order: those some earlier list-1 noun may still be with (not IsNot).
   */
  function ReachedBefore(s: Solver, nouns1: seq<NounId>, nouns2: seq<NounId>, i: nat, j: nat): set<NounId>
  {
    set k, l | 0 <= k < |nouns1| && 0 <= l < |nouns2| && (k < i || (k == i && l < j)) &&
               s.gridVerb(nouns1[k], nouns2[l]) != IsNot :: nouns2[l]
  }

  /** The distinct list nouns some list-1 noun may still be with. */
  function Reachable(s: Solver, nouns1: seq<NounId>, nouns2: seq<NounId>): set<NounId>
  {
    ReachedBefore(s, nouns1, nouns2, |nouns1|, 0)
  }

  lemma ReachedStep(s: Solver, nouns1: seq<NounId>, nouns2: seq<NounId>, i: nat, j: nat)
    requires i < |nouns1| && j < |nouns2|
    ensures ReachedBefore(s, nouns1, nouns2, i, j + 1) ==
            ReachedBefore(s, nouns1, nouns2, i, j) +
            (if s.gridVerb(nouns1[i], nouns2[j]) != IsNot then {nouns2[j]} else {})
  {
  }

  lemma ReachedRow(s: Solver, nouns1: seq<NounId>, nouns2: seq<NounId>, i: nat)
    requires i < |nouns1|
    ensures ReachedBefore(s, nouns1, nouns2, i, |nouns2|) == ReachedBefore(s, nouns1, nouns2, i + 1, 0)
  {
  }

  /** A list noun that some list-1 noun may still be with is reachable. */
  lemma ReachableHas(s: Solver, nouns1: seq<NounId>, nouns2: seq<NounId>, i: nat, j: nat)
    requires i < |nouns1| && j < |nouns2|
    ensures s.gridVerb(nouns1[i], nouns2[j]) != IsNot ==> nouns2[j] in Reachable(s, nouns1, nouns2)
  {
  }

  /** noun1 can be with no noun of the list. */
  predicate Starved(s: Solver, nouns2: seq<NounId>, noun1: NounId)
  {
    forall j :: 0 <= j < |nouns2| ==> s.gridVerb(noun1, nouns2[j]) == IsNot
  }

  function StarvedP(s: Solver, nouns2: seq<NounId>): NounId -> bool
  {
    (noun1: NounId) => Starved(s, nouns2, noun1)
  }

  /**
   * hasCoverage: true when some list-1 noun is already with a list noun,
   * when no list noun is reachable or every list-1 noun is starved, or when
   * the reachable list nouns are at least as many as list 1 and no list-1
   * noun is starved.
   */
  predicate Covered(s: Solver, nouns1: seq<NounId>, nouns2: seq<NounId>)
  {
    AnyIs(s, nouns1, nouns2) ||
    var d := |Reachable(s, nouns1, nouns2)|;
    var bad := Count(nouns1, StarvedP(s, nouns2));
    d == 0 || bad == |nouns1| || (d >= |nouns1| && bad == 0)
  }

  /** No list noun is reachable exactly when every list-1 noun is starved. */
  lemma ReachableEmpty(s: Solver, nouns1: seq<NounId>, nouns2: seq<NounId>)
    ensures Reachable(s, nouns1, nouns2) == {} <==> forall i :: 0 <= i < |nouns1| ==> Starved(s, nouns2, nouns1[i])
  {
    var reach := Reachable(s, nouns1, nouns2);
    forall i, j | 0 <= i < |nouns1| && 0 <= j < |nouns2|
      ensures s.gridVerb(nouns1[i], nouns2[j]) != IsNot ==> nouns2[j] in reach
    {
      ReachableHas(s, nouns1, nouns2, i, j);
    }
    if reach != {} {
      var x :| x in reach;
      var k, j :| 0 <= k < |nouns1| && 0 <= j < |nouns2| && nouns2[j] == x && s.gridVerb(nouns1[k], nouns2[j]) != IsNot;
      assert !Starved(s, nouns2, nouns1[k]);
    }
  }

  /**
   * Coverage in plain terms: the list covers list 1 unless no list-1 noun
   * is with a list noun yet, some list noun is reachable, and either a
   * list-1 noun is starved or there are fewer reachable list nouns than
   * list-1 nouns.
   */
  lemma CoverageMeaning(s: Solver, nouns1: seq<NounId>, nouns2: seq<NounId>)
    ensures var reach := Reachable(s, nouns1, nouns2);
      Covered(s, nouns1, nouns2) <==>
        AnyIs(s, nouns1, nouns2) || reach == {} ||
        (|reach| >= |nouns1| && forall i :: 0 <= i < |nouns1| ==> !Starved(s, nouns2, nouns1[i]))
  {
    var p := StarvedP(s, nouns2);
    assert (Count(nouns1, p) == |nouns1|) <==> forall i :: 0 <= i < |nouns1| ==> Starved(s, nouns2, nouns1[i]) by {
      CountAll(nouns1, p);
    }
    assert (Count(nouns1, p) == 0) <==> forall i :: 0 <= i < |nouns1| ==> !Starved(s, nouns2, nouns1[i]) by {
      CountZero(nouns1, p);
    }
    ReachableEmpty(s, nouns1, nouns2);
  }

  /** One row of hasCoverage: gathers the row's reachable nouns, stopping if one is already Is. */
  method CoverRow(s: Solver, nouns1: seq<NounId>, nouns2: seq<NounId>, i: nat, nouns0: seq<NounId>)
    returns (isFound: bool, nouns: seq<NounId>, starved: bool)
    requires i < |nouns1|
    requires Distinct(nouns0) && (set x | x in nouns0) == ReachedBefore(s, nouns1, nouns2, i, 0)
    ensures isFound ==> AnyIs(s, nouns1, nouns2)
    ensures !isFound ==>
      Distinct(nouns) && (set x | x in nouns) == ReachedBefore(s, nouns1, nouns2, i + 1, 0) &&
      (starved <==> Starved(s, nouns2, nouns1[i])) &&
      forall j :: 0 <= j < |nouns2| ==> s.gridVerb(nouns1[i], nouns2[j]) != Is
  {
    var noun1 := nouns1[i];
    nouns := nouns0;
    var cnt := 0;
    var j := 0;
    while j < |nouns2|
      invariant 0 <= j <= |nouns2|
      invariant Distinct(nouns)
      invariant (set x | x in nouns) == ReachedBefore(s, nouns1, nouns2, i, j)
      invariant cnt == 0 <==> forall k :: 0 <= k < j ==> s.gridVerb(noun1, nouns2[k]) == IsNot
      invariant forall k :: 0 <= k < j ==> s.gridVerb(noun1, nouns2[k]) != Is
    {
      var noun2 := nouns2[j];
      var verb := s.gridVerb(noun1, noun2);
      if verb == Is {
        return true, nouns, false;
      }
      ReachedStep(s, nouns1, nouns2, i, j);
      if verb != IsNot {
        cnt := cnt + 1;
        if noun2 !in nouns {
          nouns := nouns + [noun2];
        }
      }
      j := j + 1;
    }
    ReachedRow(s, nouns1, nouns2, i);
    return false, nouns, cnt == 0;
  }

  /** hasCoverage, growing the list of distinct reachable nouns and counting starved list-1 nouns. */
  method HasCoverage(s: Solver, nouns1: seq<NounId>, nouns2: seq<NounId>) returns (rs: bool)
    ensures rs == Covered(s, nouns1, nouns2)
  {
    var n := |nouns1|;
    var nouns: seq<NounId> := [];
    var nbad := 0;
    var i := 0;
    while i < n
      invariant 0 <= i <= n
      invariant Distinct(nouns) && (set x | x in nouns) == ReachedBefore(s, nouns1, nouns2, i, 0)
      invariant nbad == Count(nouns1[..i], StarvedP(s, nouns2))
      invariant forall k, j :: 0 <= k < i && 0 <= j < |nouns2| ==> s.gridVerb(nouns1[k], nouns2[j]) != Is
    {
      var isFound, starved;
      isFound, nouns, starved := CoverRow(s, nouns1, nouns2, i, nouns);
      if isFound {
        return true;
      }
      if starved {
        nbad := nbad + 1;
      }
      Snoc(nouns1, StarvedP(s, nouns2), i);
      i := i + 1;
    }
    assert nouns1[..n] == nouns1;
    DistinctCard(nouns);
    rs := |nouns| == 0 || nbad == n || (|nouns| >= n && nbad == 0);
  }

  // ---------------------------------------------------------------- the anchor

  /** A list-1 noun the mark puts with a noun of one of the lists: the two nouns and that list's index. */
  datatype Anchor = Anchor(x1: NounId, x2: NounId, idx: nat)

  /** The mark's other noun when noun is one of its nouns, looking at the mark's first noun first. */
  function OtherOf(m: MarkView, noun: NounId): (r: Option<NounId>)
    ensures r.Some? ==> (m.noun1 == Some(noun) && m.noun2 == r) || (m.noun1 == r && m.noun2 == Some(noun))
  {
    if m.noun1 == Some(noun) then m.noun2
    else if m.noun2 == Some(noun) then m.noun1
    else None
  }

  /** The mark puts noun with a noun of one of the lists. */
  predicate Linked(m: MarkView, noun: NounId, lists: seq<seq<NounId>>)
  {
    ListIndexOf(OtherOf(m, noun), lists) >= 0
  }

  /** The first list-1 noun from position k on that the mark links to a list. */
  function AnchorFrom(m: MarkView, nouns1: seq<NounId>, lists: seq<seq<NounId>>, k: nat): (r: Option<Anchor>)
    ensures r.None? <==> forall i :: k <= i < |nouns1| ==> !Linked(m, nouns1[i], lists)
    ensures r.Some? ==>
      exists i :: k <= i < |nouns1| && nouns1[i] == r.value.x1 && Linked(m, nouns1[i], lists) &&
        forall i' :: k <= i' < i ==> !Linked(m, nouns1[i'], lists)
    ensures r.Some? ==>
      OtherOf(m, r.value.x1) == Some(r.value.x2) && r.value.idx == ListIndex(r.value.x2, lists)
    decreases |nouns1| - k
  {
    if k >= |nouns1| then None
    else
      var x2 := OtherOf(m, nouns1[k]);
      var idx := ListIndexOf(x2, lists);
      if idx >= 0 then Some(Anchor(nouns1[k], x2.value, idx)) else AnchorFrom(m, nouns1, lists, k + 1)
  }

  /** The anchor search of matchOneList: stops at the first list-1 noun the mark links to a list. */
  method FindAnchor(m: MarkView, nouns1: seq<NounId>, lists: seq<seq<NounId>>) returns (found: Option<Anchor>)
    ensures found == AnchorFrom(m, nouns1, lists, 0)
  {
    var nounX1: Option<NounId> := None;
    var nounX2: Option<NounId> := None;
    var idx2 := -1;
    var k := 0;
    while k < |nouns1|
      invariant 0 <= k <= |nouns1|
      invariant idx2 == -1
      invariant AnchorFrom(m, nouns1, lists, 0) == AnchorFrom(m, nouns1, lists, k)
    {
      var noun := nouns1[k];
      if m.noun1 == Some(noun) {
        nounX1, nounX2 := m.noun1, m.noun2;
        idx2 := GetListIndex(nounX2, lists);
      } else if m.noun2 == Some(noun) {
        nounX1, nounX2 := m.noun2, m.noun1;
        idx2 := GetListIndex(nounX2, lists);
      }
      if idx2 > -1 {
        return Some(Anchor(noun, nounX2.value, idx2));
      }
      k := k + 1;
    }
    return None;
  }

  // ---------------------------------------------------------------- the requests

  /** "n is not noun2" for every list-1 noun n from position k on except x1. */
  function OthersNot(x1: NounId, nouns1: seq<NounId>, noun2: NounId, k: nat): seq<Commit>
    decreases |nouns1| - k
  {
    if k >= |nouns1| then []
    else (if nouns1[k] == x1 then [] else [Commit('a', nouns1[k], IsNot, noun2)]) + OthersNot(x1, nouns1, noun2, k + 1)
  }

  /** OthersNot for every noun of list from position j on except the anchor's partner. */
  function ListNot(a: Anchor, nouns1: seq<NounId>, list: seq<NounId>, j: nat): seq<Commit>
    decreases |list| - j
  {
    if j >= |list| then []
    else (if list[j] == a.x2 then [] else OthersNot(a.x1, nouns1, list[j], 0)) + ListNot(a, nouns1, list, j + 1)
  }

  /** ListNot for every list from index i on except the anchor's list. */
  function OtherListsNot(a: Anchor, nouns1: seq<NounId>, lists: seq<seq<NounId>>, i: nat): seq<Commit>
    decreases |lists| - i
  {
    if i >= |lists| then []
    else (if i == a.idx then [] else ListNot(a, nouns1, lists[i], 0)) + OtherListsNot(a, nouns1, lists, i + 1)
  }

  /** "noun1 is not n" for every n of nouns2, in order. */
  function RowNot(noun1: NounId, nouns2: seq<NounId>): seq<Commit>
  {
    seq(|nouns2|, j requires 0 <= j < |nouns2| => Commit('a', noun1, IsNot, nouns2[j]))
  }

  /** RowNot for every list-1 noun from position k on. */
  function AllNot(nouns1: seq<NounId>, nouns2: seq<NounId>, k: nat): seq<Commit>
    decreases |nouns1| - k
  {
    if k >= |nouns1| then [] else RowNot(nouns1[k], nouns2) + AllNot(nouns1, nouns2, k + 1)
  }

  /** AllNot for every list from index i on that does not cover list 1. */
  function Uncovering(s: Solver, nouns1: seq<NounId>, lists: seq<seq<NounId>>, i: nat): seq<Commit>
    decreases |lists| - i
  {
    if i >= |lists| then []
    else (if Covered(s, nouns1, lists[i]) then [] else AllNot(nouns1, lists[i], 0)) + Uncovering(s, nouns1, lists, i + 1)
  }

  /** The requests matchOneList makes while every one is accepted: the anchor's first, then the uncovered lists'. */
  function ListRequests(s: Solver, m: MarkView, nouns1: seq<NounId>, lists: seq<seq<NounId>>): seq<Commit>
  {
    var first :=
      if m.verb != Some(Is) then []
      else match AnchorFrom(m, nouns1, lists, 0)
        case None => []
        case Some(a) => OtherListsNot(a, nouns1, lists, 0);
    first + Uncovering(s, nouns1, lists, 0)
  }

  /** matchOneList: the requests in order, stopping at the first one the solver rejects. */
  function MatchOneList(s: Solver, m: MarkView, nouns1: seq<NounId>, lists: seq<seq<NounId>>): Outcome
  {
    Issue(s, [], ListRequests(s, m, nouns1, lists))
  }

  // ---------------------------------------------------------------- what is requested

  /** A "not together" request of the rule's first reference. */
  predicate NotRequest(c: Commit)
  {
    c == Commit('a', c.noun1, IsNot, c.noun2)
  }

  lemma {:induction false} OthersNotMembers(x1: NounId, nouns1: seq<NounId>, noun2: NounId, k: nat)
    requires k <= |nouns1|
    ensures forall c :: c in OthersNot(x1, nouns1, noun2, k) <==>
              NotRequest(c) && c.noun2 == noun2 && c.noun1 != x1 && c.noun1 in nouns1[k..]
    decreases |nouns1| - k
  {
    if k < |nouns1| {
      OthersNotMembers(x1, nouns1, noun2, k + 1);
      assert nouns1[k..] == [nouns1[k]] + nouns1[k + 1..];
    }
  }

  lemma {:induction false} ListNotMembers(a: Anchor, nouns1: seq<NounId>, list: seq<NounId>, j: nat)
    requires j <= |list|
    ensures forall c :: c in ListNot(a, nouns1, list, j) <==>
              NotRequest(c) && c.noun1 != a.x1 && c.noun1 in nouns1 && c.noun2 != a.x2 && c.noun2 in list[j..]
    decreases |list| - j
  {
    if j < |list| {
      ListNotMembers(a, nouns1, list, j + 1);
      OthersNotMembers(a.x1, nouns1, list[j], 0);
      assert list[j..] == [list[j]] + list[j + 1..];
      assert nouns1[0..] == nouns1;
    }
  }

  /** A request of the anchor's: another list-1 noun is not with another noun of another list. */
  predicate AnchorRequest(a: Anchor, nouns1: seq<NounId>, lists: seq<seq<NounId>>, i: nat, c: Commit)
  {
    NotRequest(c) && c.noun1 != a.x1 && c.noun1 in nouns1 && c.noun2 != a.x2 &&
    exists i' :: i <= i' < |lists| && i' != a.idx && c.noun2 in lists[i']
  }

  lemma {:induction false} OtherListsNotMembers(a: Anchor, nouns1: seq<NounId>, lists: seq<seq<NounId>>, i: nat)
    ensures forall c :: c in OtherListsNot(a, nouns1, lists, i) <==> AnchorRequest(a, nouns1, lists, i, c)
    decreases |lists| - i
  {
    if i < |lists| {
      OtherListsNotMembers(a, nouns1, lists, i + 1);
      ListNotMembers(a, nouns1, lists[i], 0);
      assert lists[i][0..] == lists[i];
    }
  }

  lemma {:induction false} AllNotMembers(nouns1: seq<NounId>, nouns2: seq<NounId>, k: nat)
    requires k <= |nouns1|
    ensures forall c :: c in AllNot(nouns1, nouns2, k) <==> NotRequest(c) && c.noun1 in nouns1[k..] && c.noun2 in nouns2
    decreases |nouns1| - k
  {
    if k < |nouns1| {
      AllNotMembers(nouns1, nouns2, k + 1);
      assert nouns1[k..] == [nouns1[k]] + nouns1[k + 1..];
      forall c | NotRequest(c) && c.noun1 == nouns1[k] && c.noun2 in nouns2
        ensures c in RowNot(nouns1[k], nouns2)
      {
        var j :| 0 <= j < |nouns2| && nouns2[j] == c.noun2;
        assert RowNot(nouns1[k], nouns2)[j] == c;
      }
    }
  }

  /** A request for an uncovered list: a list-1 noun is not with a noun of a list from i on that does not cover list 1. */
  predicate UncoveredRequest(s: Solver, nouns1: seq<NounId>, lists: seq<seq<NounId>>, i: nat, c: Commit)
  {
    NotRequest(c) && c.noun1 in nouns1 &&
    exists i' :: i <= i' < |lists| && !Covered(s, nouns1, lists[i']) && c.noun2 in lists[i']
  }

  lemma {:induction false} UncoveringMembers(s: Solver, nouns1: seq<NounId>, lists: seq<seq<NounId>>, i: nat)
    ensures forall c :: c in Uncovering(s, nouns1, lists, i) <==> UncoveredRequest(s, nouns1, lists, i, c)
    decreases |lists| - i
  {
    if i < |lists| {
      UncoveringMembers(s, nouns1, lists, i + 1);
      AllNotMembers(nouns1, lists[i], 0);
      assert nouns1[0..] == nouns1;
    }
  }

  /** A request matchOneList may make for mark m. */
  predicate OneListRequest(s: Solver, m: MarkView, nouns1: seq<NounId>, lists: seq<seq<NounId>>, c: Commit)
  {
    UncoveredRequest(s, nouns1, lists, 0, c) ||
    (m.verb == Some(Is) && match AnchorFrom(m, nouns1, lists, 0)
       case None => false
       case Some(a) => AnchorRequest(a, nouns1, lists, 0, c))
  }

  /**
   * Every request of matchOneList is one of its two kinds: when the mark
   * puts a list-1 noun x1 with a noun x2 of list idx, another list-1 noun
   * is not with a noun other than x2 of another list; and any list-1 noun
   * is not with a noun of a list that does not cover list 1. When all are
   * accepted (status 0), every such request has been made.
   */
  lemma OneListRequests(s: Solver, m: MarkView, nouns1: seq<NounId>, lists: seq<seq<NounId>>)
    ensures var o := MatchOneList(s, m, nouns1, lists);
      (forall k :: 0 <= k < |o.log| ==> OneListRequest(s, m, nouns1, lists, o.log[k])) &&
      (o.rs == 0 ==> forall c :: OneListRequest(s, m, nouns1, lists, c) ==> c in o.log)
  {
    var cs := ListRequests(s, m, nouns1, lists);
    var o := Issue(s, [], cs);
    IssueLog(s, [], cs);
    UncoveringMembers(s, nouns1, lists, 0);
    match AnchorFrom(m, nouns1, lists, 0)
    case None =>
    case Some(a) => OtherListsNotMembers(a, nouns1, lists, 0);
    assert [] + cs == cs;
    forall k | 0 <= k < |o.log|
      ensures OneListRequest(s, m, nouns1, lists, o.log[k])
    {
      assert o.log[k] == cs[k];
    }
  }

  // ---------------------------------------------------------------- the rule

  /** Requests "n is not noun2" for each list-1 noun n but x1. */
  method RequestOthersNot(s: Solver, x1: NounId, nouns1: seq<NounId>, noun2: NounId, log0: seq<Commit>)
    returns (rs: int, log: seq<Commit>)
    ensures Outcome(rs, log) == Issue(s, log0, OthersNot(x1, nouns1, noun2, 0))
  {
    rs, log := 0, log0;
    ghost var all := OthersNot(x1, nouns1, noun2, 0);
    var k := 0;
    while k < |nouns1|
      invariant 0 <= k <= |nouns1|
      invariant Issue(s, log0, all) == Issue(s, log, OthersNot(x1, nouns1, noun2, k))
    {
      ghost var here := OthersNot(x1, nouns1, noun2, k);
      ghost var rest := OthersNot(x1, nouns1, noun2, k + 1);
      var noun1 := nouns1[k];
      if noun1 != x1 {
        var c := Commit('a', noun1, IsNot, noun2);
        assert here == [c] + rest;
        assert here[0] == c && here[1..] == rest;
        rs := s.status(log, c);
        log := log + [c];
        if rs != 0 {
          return;
        }
      } else {
        assert here == rest;
      }
      k := k + 1;
    }
    rs := 0;
  }

  /** Requests OthersNot for each noun of the list but x2. */
  method RequestListNot(s: Solver, a: Anchor, nouns1: seq<NounId>, list: seq<NounId>, log0: seq<Commit>)
    returns (rs: int, log: seq<Commit>)
    ensures Outcome(rs, log) == Issue(s, log0, ListNot(a, nouns1, list, 0))
  {
    rs, log := 0, log0;
    ghost var all := ListNot(a, nouns1, list, 0);
    var j := 0;
    while j < |list|
      invariant 0 <= j <= |list|
      invariant Issue(s, log0, all) == Issue(s, log, ListNot(a, nouns1, list, j))
    {
      ghost var rest := ListNot(a, nouns1, list, j + 1);
      var noun2 := list[j];
      if noun2 != a.x2 {
        ghost var here := OthersNot(a.x1, nouns1, noun2, 0);
        assert ListNot(a, nouns1, list, j) == here + rest;
        IssueAppend(s, log, here, rest);
        rs, log := RequestOthersNot(s, a.x1, nouns1, noun2, log);
        if rs != 0 {
          return;
        }
      } else {
        assert ListNot(a, nouns1, list, j) == rest;
      }
      j := j + 1;
    }
    rs := 0;
  }

  /** The first part of matchOneList: ListNot for every list but the anchor's. */
  method RequestOtherListsNot(s: Solver, a: Anchor, nouns1: seq<NounId>, lists: seq<seq<NounId>>, log0: seq<Commit>)
    returns (rs: int, log: seq<Commit>)
    ensures Outcome(rs, log) == Issue(s, log0, OtherListsNot(a, nouns1, lists, 0))
  {
    rs, log := 0, log0;
    ghost var all := OtherListsNot(a, nouns1, lists, 0);
    var idx := 0;
    while idx < |lists|
      invariant 0 <= idx <= |lists|
      invariant Issue(s, log0, all) == Issue(s, log, OtherListsNot(a, nouns1, lists, idx))
    {
      ghost var rest := OtherListsNot(a, nouns1, lists, idx + 1);
      if idx != a.idx {
        ghost var here := ListNot(a, nouns1, lists[idx], 0);
        assert OtherListsNot(a, nouns1, lists, idx) == here + rest;
        IssueAppend(s, log, here, rest);
        rs, log := RequestListNot(s, a, nouns1, lists[idx], log);
        if rs != 0 {
          return;
        }
      } else {
        assert OtherListsNot(a, nouns1, lists, idx) == rest;
      }
      idx := idx + 1;
    }
    rs := 0;
  }

  /** Requests "noun1 is not n" for each n of nouns2. */
  method RequestRowNot(s: Solver, noun1: NounId, nouns2: seq<NounId>, log0: seq<Commit>)
    returns (rs: int, log: seq<Commit>)
    ensures Outcome(rs, log) == Issue(s, log0, RowNot(noun1, nouns2))
  {
    rs, log := 0, log0;
    ghost var row := RowNot(noun1, nouns2);
    var j := 0;
    while j < |nouns2|
      invariant 0 <= j <= |nouns2|
      invariant Issue(s, log0, row) == Issue(s, log, row[j..])
    {
      var c := Commit('a', noun1, IsNot, nouns2[j]);
      assert row[j..][0] == c && row[j..][1..] == row[j + 1..];
      rs := s.status(log, c);
      log := log + [c];
      if rs != 0 {
        return;
      }
      j := j + 1;
    }
    rs := 0;
  }

  /** Requests RowNot for each list-1 noun. */
  method RequestAllNot(s: Solver, nouns1: seq<NounId>, nouns2: seq<NounId>, log0: seq<Commit>)
    returns (rs: int, log: seq<Commit>)
    ensures Outcome(rs, log) == Issue(s, log0, AllNot(nouns1, nouns2, 0))
  {
    rs, log := 0, log0;
    ghost var all := AllNot(nouns1, nouns2, 0);
    var k := 0;
    while k < |nouns1|
      invariant 0 <= k <= |nouns1|
      invariant Issue(s, log0, all) == Issue(s, log, AllNot(nouns1, nouns2, k))
    {
      IssueAppend(s, log, RowNot(nouns1[k], nouns2), AllNot(nouns1, nouns2, k + 1));
      rs, log := RequestRowNot(s, nouns1[k], nouns2, log);
      if rs != 0 {
        return;
      }
      k := k + 1;
    }
    rs := 0;
  }

  /** The second part of matchOneList: AllNot for every list that does not cover list 1. */
  method RequestUncovering(s: Solver, nouns1: seq<NounId>, lists: seq<seq<NounId>>, log0: seq<Commit>)
    returns (rs: int, log: seq<Commit>)
    ensures Outcome(rs, log) == Issue(s, log0, Uncovering(s, nouns1, lists, 0))
  {
    rs, log := 0, log0;
    ghost var all := Uncovering(s, nouns1, lists, 0);
    var i := 0;
    while i < |lists|
      invariant 0 <= i <= |lists|
      invariant Issue(s, log0, all) == Issue(s, log, Uncovering(s, nouns1, lists, i))
    {
      ghost var rest := Uncovering(s, nouns1, lists, i + 1);
      var covered := HasCoverage(s, nouns1, lists[i]);
      if !covered {
        ghost var here := AllNot(nouns1, lists[i], 0);
        assert Uncovering(s, nouns1, lists, i) == here + rest;
        IssueAppend(s, log, here, rest);
        rs, log := RequestAllNot(s, nouns1, lists[i], log);
        if rs != 0 {
          return;
        }
      } else {
        assert Uncovering(s, nouns1, lists, i) == rest;
      }
      i := i + 1;
    }
    rs := 0;
  }

  /** The rule body of getMatchOneList for mark m. */
  method MatchOneListRule(s: Solver, m: MarkView, nouns1: seq<NounId>, lists: seq<seq<NounId>>)
    returns (rs: int, log: seq<Commit>)
    ensures Outcome(rs, log) == MatchOneList(s, m, nouns1, lists)
  {
    rs, log := 0, [];
    ghost var first: seq<Commit> := [];
    if m.verb == Some(Is) {
      var anchor := FindAnchor(m, nouns1, lists);
      if anchor.Some? {
        first := OtherListsNot(anchor.value, nouns1, lists, 0);
        IssueAppend(s, [], first, Uncovering(s, nouns1, lists, 0));
        rs, log := RequestOtherListsNot(s, anchor.value, nouns1, lists, []);
        if rs != 0 {
          return;
        }
      }
    }
    assert ListRequests(s, m, nouns1, lists) == first + Uncovering(s, nouns1, lists, 0);
    if first == [] {
      assert first + Uncovering(s, nouns1, lists, 0) == Uncovering(s, nouns1, lists, 0);
    }
    rs, log := RequestUncovering(s, nouns1, lists, log);
  }
}
