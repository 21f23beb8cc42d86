/**
 * isRelated of SmartRule.java: noun1 is related by a link to at least one
 * noun of a list. The slots are the nouns of the link's category, and f is
 * the link's relation between slots. When noun1's slot is known the rule
 * checks three violations and may place the only list noun that can still
 * be related to it; when it is unknown, noun1 is ruled out of every slot
 * whose related slots no list noun can take.
 */
module SmartRelated {
  import opened Wrappers
  import opened Ids
  import opened Verbs
  import opened Boundary
  import opened Counting

  /** Slot k of category t (one-based). */
  function Slot(t: nat, k: nat): NounId
  {
    NounId(t, k)
  }

  // ---------------------------------------------------------------- the three violations

  /** Some list noun has no slot yet, or sits in a slot related to slot1. */
  predicate ListRelated(s: Solver, t: nat, f: (NounId, NounId) -> Verb, slot1: NounId, nouns2: seq<NounId>)
  {
    exists j :: 0 <= j < |nouns2| && (s.SlotOf(nouns2[j], t).None? || f(slot1, s.SlotOf(nouns2[j], t).value) == Is)
  }

  /** Some list noun is free to take slot: the slot is not paired in the noun's category, or is paired with it. */
  predicate HasRoom(s: Solver, slot: NounId, nouns2: seq<NounId>)
  {
    exists j :: 0 <= j < |nouns2| && (s.PairNoun(slot, nouns2[j].t) == None || s.PairNoun(slot, nouns2[j].t) == Some(nouns2[j]))
  }

  /** The grid still allows slot to be with some list noun. */
  predicate MayHold(s: Solver, slot: NounId, nouns2: seq<NounId>)
  {
    exists j :: 0 <= j < |nouns2| && s.gridVerb(slot, nouns2[j]) != IsNot
  }

  /** Some slot related to slot1 has room for a list noun. */
  predicate RoomLeft(s: Solver, t: nat, f: (NounId, NounId) -> Verb, slot1: NounId, nouns2: seq<NounId>)
  {
    exists k :: 1 <= k <= s.numNouns && f(slot1, Slot(t, k)) == Is && HasRoom(s, Slot(t, k), nouns2)
  }

  /** Some slot related to slot1 may still hold a list noun. */
  predicate CanHold(s: Solver, t: nat, f: (NounId, NounId) -> Verb, slot1: NounId, nouns2: seq<NounId>)
  {
    exists k :: 1 <= k <= s.numNouns && f(slot1, Slot(t, k)) == Is && MayHold(s, Slot(t, k), nouns2)
  }

  // ---------------------------------------------------------------- the trigger scan

  /** A list noun and a slot related to slot1, as the trigger scan visits them. */
  datatype Cell = Cell(noun: NounId, slot: NounId)

  /** The scan's counter and the cell it last found open. */
  datatype Tally = Tally(cnt: nat, pick: Option<Cell>)

  /** The cell's noun is already in the cell's slot. */
  predicate Occupied(s: Solver, t: nat, cell: Cell)
  {
    s.PairNoun(cell.noun, t) == Some(cell.slot)
  }

  /** The cell's noun has no slot yet and may still take the cell's slot. */
  predicate Open(s: Solver, t: nat, cell: Cell)
  {
    s.PairNoun(cell.noun, t) == None && s.gridVerb(cell.noun, cell.slot) == Maybe
  }

  function OpenP(s: Solver, t: nat): Cell -> bool
  {
    (cell: Cell) => Open(s, t, cell)
  }

  /** The cells of one related slot, in list order. */
  function RowCells(slot: NounId, nouns2: seq<NounId>): seq<Cell>
  {
    seq(|nouns2|, j requires 0 <= j < |nouns2| => Cell(nouns2[j], slot))
  }

  /** The cells of the slots k+1..n related to slot1, slot by slot. */
  function CellsFrom(s: Solver, t: nat, f: (NounId, NounId) -> Verb, slot1: NounId, nouns2: seq<NounId>, k: nat): seq<Cell>
    decreases s.numNouns - k
  {
    if k >= s.numNouns then []
    else (if f(slot1, Slot(t, k + 1)) == Is then RowCells(Slot(t, k + 1), nouns2) else []) +
         CellsFrom(s, t, f, slot1, nouns2, k + 1)
  }

  /**
   * One cell of the scan: once the counter passes 1 nothing changes; a
   * list noun already in the slot sets it to 2; a list noun slotted
   * elsewhere is skipped; an open cell counts, and the first one is kept.
   */
  function Step(s: Solver, t: nat, st: Tally, cell: Cell): Tally
  {
    if st.cnt > 1 then st
    else if Occupied(s, t, cell) then Tally(2, st.pick)
    else if s.PairNoun(cell.noun, t).Some? then st
    else if s.gridVerb(cell.noun, cell.slot) == Maybe then
      if st.cnt + 1 > 1 then Tally(st.cnt + 1, st.pick) else Tally(1, Some(cell))
    else st
  }

  /** The scan over cells from state st. */
  function Fold(s: Solver, t: nat, st: Tally, cells: seq<Cell>): (r: Tally)
    ensures st.cnt <= 2 && (st.cnt == 1 ==> st.pick.Some?) ==> r.cnt <= 2 && (r.cnt == 1 ==> r.pick.Some?)
  {
    if |cells| == 0 then st else Step(s, t, Fold(s, t, st, cells[..|cells| - 1]), cells[|cells| - 1])
  }

  /** The trigger scan of isRelated. */
  function Trigger(s: Solver, t: nat, f: (NounId, NounId) -> Verb, slot1: NounId, nouns2: seq<NounId>): (r: Tally)
    ensures r.cnt == 1 ==> r.pick.Some?
  {
    Fold(s, t, Tally(0, None), CellsFrom(s, t, f, slot1, nouns2, 0))
  }

  lemma {:induction false} FoldAppend(s: Solver, t: nat, st: Tally, a: seq<Cell>, b: seq<Cell>)
    ensures Fold(s, t, st, a + b) == Fold(s, t, Fold(s, t, st, a), b)
    decreases |b|
  {
    if |b| == 0 {
      assert a + b == a;
    } else {
      assert (a + b)[..|a + b| - 1] == a + b[..|b| - 1];
      FoldAppend(s, t, st, a, b[..|b| - 1]);
    }
  }

  /** A scan whose counter has passed 1 is finished. */
  lemma {:induction false} FoldStuck(s: Solver, t: nat, st: Tally, cells: seq<Cell>)
    requires st.cnt > 1
    ensures Fold(s, t, st, cells) == st
    decreases |cells|
  {
    if |cells| > 0 {
      FoldStuck(s, t, st, cells[..|cells| - 1]);
    }
  }

  /** Some cell's noun already sits in the cell's slot. */
  predicate AnyOccupied(s: Solver, t: nat, cells: seq<Cell>)
  {
    exists i :: 0 <= i < |cells| && Occupied(s, t, cells[i])
  }

  /**
   * The scan from a zero counter ends at 1 exactly when no cell is occupied
   * and exactly one cell is open, and then it keeps that cell; otherwise it
   * ends at 0 (nothing open) or 2.
   */
  lemma {:induction false} FoldMeaning(s: Solver, t: nat, cells: seq<Cell>)
    ensures var r := Fold(s, t, Tally(0, None), cells);
      var n := Count(cells, OpenP(s, t));
      r.cnt == (if AnyOccupied(s, t, cells) then 2 else if n > 1 then 2 else n) &&
      (r.cnt == 1 ==> r.pick == Some(cells[LastIndex(cells, OpenP(s, t))]))
    decreases |cells|
  {
    if |cells| > 0 {
      var init := cells[..|cells| - 1];
      var last := cells[|cells| - 1];
      FoldMeaning(s, t, init);
      assert cells == init + [last];
      assert AnyOccupied(s, t, cells) <==> AnyOccupied(s, t, init) || Occupied(s, t, last) by {
        if AnyOccupied(s, t, cells) && !Occupied(s, t, last) {
          var i :| 0 <= i < |cells| && Occupied(s, t, cells[i]);
          assert i < |init| && init[i] == cells[i];
        }
        if AnyOccupied(s, t, init) {
          var i :| 0 <= i < |init| && Occupied(s, t, init[i]);
          assert cells[i] == init[i];
        }
      }
    }
  }

  lemma {:induction false} CellsFromMembers(s: Solver, t: nat, f: (NounId, NounId) -> Verb, slot1: NounId, nouns2: seq<NounId>, k: nat)
    ensures forall cell :: cell in CellsFrom(s, t, f, slot1, nouns2, k) <==>
      cell.noun in nouns2 && cell.slot.t == t && k < cell.slot.num <= s.numNouns && f(slot1, cell.slot) == Is
    decreases s.numNouns - k
  {
    if k < s.numNouns {
      CellsFromMembers(s, t, f, slot1, nouns2, k + 1);
      var row := RowCells(Slot(t, k + 1), nouns2);
      forall cell: Cell | cell.noun in nouns2 && cell.slot == Slot(t, k + 1)
        ensures cell in row
      {
        var j :| 0 <= j < |nouns2| && nouns2[j] == cell.noun;
        assert row[j] == cell;
      }
    }
  }

  // ---------------------------------------------------------------- ruling noun1 out of slots

  /** The grid still allows some list noun to be in slot. */
  predicate MayBeHeld(s: Solver, slot: NounId, nouns2: seq<NounId>)
  {
    exists j :: 0 <= j < |nouns2| && s.gridVerb(nouns2[j], slot) != IsNot
  }

  /** Some slot related to slotX may still hold a list noun. */
  predicate Supported(s: Solver, t: nat, f: (NounId, NounId) -> Verb, slotX: NounId, nouns2: seq<NounId>)
  {
    exists k :: 1 <= k <= s.numNouns && f(slotX, Slot(t, k)) == Is && MayBeHeld(s, Slot(t, k), nouns2)
  }

  /** "noun1 is not slot x" for every slot x from k+1 on that noun1 may take but that has no support. */
  function ExclusionsFrom(s: Solver, t: nat, f: (NounId, NounId) -> Verb, noun1: NounId, nouns2: seq<NounId>, k: nat): seq<Commit>
    decreases s.numNouns - k
  {
    if k >= s.numNouns then []
    else
      var slotX := Slot(t, k + 1);
      (if s.gridVerb(noun1, slotX) == Maybe && !Supported(s, t, f, slotX, nouns2) then [Commit('b', noun1, IsNot, slotX)] else []) +
      ExclusionsFrom(s, t, f, noun1, nouns2, k + 1)
  }

  /** A request of the unslotted case: noun1 is not a slot it may take but that no list noun can be related to. */
  predicate Exclusion(s: Solver, t: nat, f: (NounId, NounId) -> Verb, noun1: NounId, nouns2: seq<NounId>, c: Commit)
  {
    c == Commit('b', noun1, IsNot, c.noun2) && c.noun2.t == t && 1 <= c.noun2.num <= s.numNouns &&
    s.gridVerb(noun1, c.noun2) == Maybe && !Supported(s, t, f, c.noun2, nouns2)
  }

  lemma {:induction false} ExclusionsFromMembers(s: Solver, t: nat, f: (NounId, NounId) -> Verb, noun1: NounId, nouns2: seq<NounId>, k: nat)
    ensures forall c :: c in ExclusionsFrom(s, t, f, noun1, nouns2, k) <==>
      Exclusion(s, t, f, noun1, nouns2, c) && k < c.noun2.num
    decreases s.numNouns - k
  {
    if k < s.numNouns {
      ExclusionsFromMembers(s, t, f, noun1, nouns2, k + 1);
    }
  }

  // ---------------------------------------------------------------- the rule

  /** isRelated for noun1, the link's slot category t and relation f, and the list nouns2. */
  function IsRelated(s: Solver, t: nat, f: (NounId, NounId) -> Verb, noun1: NounId, nouns2: seq<NounId>): Outcome
  {
    match s.SlotOf(noun1, t)
    case Some(slot1) =>
      if !ListRelated(s, t, f, slot1, nouns2) || !RoomLeft(s, t, f, slot1, nouns2) || !CanHold(s, t, f, slot1, nouns2) then
        Outcome(-1, [])
      else
        var tally := Trigger(s, t, f, slot1, nouns2);
        if tally.cnt == 1 then
          var c := Commit('a', tally.pick.value.noun, Is, tally.pick.value.slot);
          Outcome(s.status([], c), [c])
        else Outcome(0, [])
    case None => Issue(s, [], ExclusionsFrom(s, t, f, noun1, nouns2, 0))
  }

  /**
   * The rule reports -1 without requesting anything exactly when noun1's
   * slot is known and either no list noun can be related to it, or no
   * related slot has room for a list noun, or none may hold one.
   */
  lemma RelatedViolation(s: Solver, t: nat, f: (NounId, NounId) -> Verb, noun1: NounId, nouns2: seq<NounId>)
    ensures var o := IsRelated(s, t, f, noun1, nouns2);
      (o.rs == -1 && o.log == []) <==>
        match s.SlotOf(noun1, t)
        case None => false
        case Some(slot1) =>
          !ListRelated(s, t, f, slot1, nouns2) || !RoomLeft(s, t, f, slot1, nouns2) || !CanHold(s, t, f, slot1, nouns2)
  {
    if s.SlotOf(noun1, t).None? {
      var cs := ExclusionsFrom(s, t, f, noun1, nouns2, 0);
      IssueLog(s, [], cs);
    }
  }

  /**
   * With noun1's slot known and no violation, the rule requests one
   * placement exactly when no list noun already sits in a slot related to
   * noun1's and exactly one (list noun, related slot) cell is open; the
   * request puts that noun in that slot, and every open cell is that one.
   */
  lemma RelatedTrigger(s: Solver, t: nat, f: (NounId, NounId) -> Verb, noun1: NounId, nouns2: seq<NounId>)
    requires s.SlotOf(noun1, t).Some?
    requires var slot1 := s.SlotOf(noun1, t).value;
      ListRelated(s, t, f, slot1, nouns2) && RoomLeft(s, t, f, slot1, nouns2) && CanHold(s, t, f, slot1, nouns2)
    ensures var slot1 := s.SlotOf(noun1, t).value;
      var cells := CellsFrom(s, t, f, slot1, nouns2, 0);
      var o := IsRelated(s, t, f, noun1, nouns2);
      (o.log != [] <==> !AnyOccupied(s, t, cells) && Count(cells, OpenP(s, t)) == 1) &&
      (o.log != [] ==>
         exists cell :: cell in cells && Open(s, t, cell) && o.log == [Commit('a', cell.noun, Is, cell.slot)] &&
           forall other :: other in cells && Open(s, t, other) ==> other == cell)
  {
    var slot1 := s.SlotOf(noun1, t).value;
    var cells := CellsFrom(s, t, f, slot1, nouns2, 0);
    var p := OpenP(s, t);
    FoldMeaning(s, t, cells);
    if !AnyOccupied(s, t, cells) && Count(cells, p) == 1 {
      var i := LastIndex(cells, p);
      CountOne(cells, p);
      forall other | other in cells && Open(s, t, other)
        ensures other == cells[i]
      {
        var m :| 0 <= m < |cells| && cells[m] == other;
        assert p(cells[m]);
      }
    }
  }

  /**
   * With noun1's slot unknown, every request rules noun1 out of a slot it
   * may take but whose related slots no list noun can take; when all are
   * accepted, every such slot has been ruled out.
   */
  lemma RelatedExclusions(s: Solver, t: nat, f: (NounId, NounId) -> Verb, noun1: NounId, nouns2: seq<NounId>)
    requires s.SlotOf(noun1, t).None?
    ensures var o := IsRelated(s, t, f, noun1, nouns2);
      (forall c :: c in o.log ==> Exclusion(s, t, f, noun1, nouns2, c)) &&
      (o.rs == 0 ==> forall c :: Exclusion(s, t, f, noun1, nouns2, c) ==> c in o.log)
  {
    var cs := ExclusionsFrom(s, t, f, noun1, nouns2, 0);
    IssueLog(s, [], cs);
    ExclusionsFromMembers(s, t, f, noun1, nouns2, 0);
    assert [] + cs == cs;
  }

  // ---------------------------------------------------------------- the methods

  method CheckListRelated(s: Solver, t: nat, f: (NounId, NounId) -> Verb, slot1: NounId, nouns2: seq<NounId>)
    returns (ok: bool)
    ensures ok == ListRelated(s, t, f, slot1, nouns2)
  {
    ok := false;
    var j := 0;
    while j < |nouns2|
      invariant 0 <= j <= |nouns2|
      invariant forall m :: 0 <= m < j ==> s.SlotOf(nouns2[m], t).Some? && f(slot1, s.SlotOf(nouns2[m], t).value) != Is
    {
      var noun2 := nouns2[j];
      var slot := if noun2.t == t then Some(noun2) else s.PairNoun(noun2, t);
      if slot == None || f(slot1, slot.value) == Is {
        ok := true;
        break;
      }
      j := j + 1;
    }
  }

  method RowHasRoom(s: Solver, slot: NounId, nouns2: seq<NounId>) returns (ok: bool)
    ensures ok == HasRoom(s, slot, nouns2)
  {
    ok := false;
    var j := 0;
    while j < |nouns2|
      invariant 0 <= j <= |nouns2|
      invariant forall m :: 0 <= m < j ==> s.PairNoun(slot, nouns2[m].t) != None && s.PairNoun(slot, nouns2[m].t) != Some(nouns2[m])
    {
      var nounB := s.PairNoun(slot, nouns2[j].t);
      if nounB == None || nounB == Some(nouns2[j]) {
        ok := true;
        break;
      }
      j := j + 1;
    }
  }

  method CheckRoomLeft(s: Solver, t: nat, f: (NounId, NounId) -> Verb, slot1: NounId, nouns2: seq<NounId>)
    returns (ok: bool)
    ensures ok == RoomLeft(s, t, f, slot1, nouns2)
  {
    ok := false;
    var k := 1;
    while k <= s.numNouns
      invariant 1 <= k <= s.numNouns + 1
      invariant forall m :: 1 <= m < k ==> !(f(slot1, Slot(t, m)) == Is && HasRoom(s, Slot(t, m), nouns2))
      decreases s.numNouns + 1 - k
    {
      var slot := Slot(t, k);
      if f(slot1, slot) == Is {
        ok := RowHasRoom(s, slot, nouns2);
        if ok {
          break;
        }
      }
      k := k + 1;
    }
  }

  method RowMayHold(s: Solver, slot: NounId, nouns2: seq<NounId>) returns (ok: bool)
    ensures ok == MayHold(s, slot, nouns2)
  {
    ok := false;
    var j := 0;
    while j < |nouns2|
      invariant 0 <= j <= |nouns2|
      invariant forall m :: 0 <= m < j ==> s.gridVerb(slot, nouns2[m]) == IsNot
    {
      if s.gridVerb(slot, nouns2[j]) != IsNot {
        ok := true;
        break;
      }
      j := j + 1;
    }
  }

  method CheckCanHold(s: Solver, t: nat, f: (NounId, NounId) -> Verb, slot1: NounId, nouns2: seq<NounId>)
    returns (ok: bool)
    ensures ok == CanHold(s, t, f, slot1, nouns2)
  {
    ok := false;
    var k := 1;
    while k <= s.numNouns
      invariant 1 <= k <= s.numNouns + 1
      invariant forall m :: 1 <= m < k ==> !(f(slot1, Slot(t, m)) == Is && MayHold(s, Slot(t, m), nouns2))
      decreases s.numNouns + 1 - k
    {
      var slot := Slot(t, k);
      if f(slot1, slot) == Is {
        ok := RowMayHold(s, slot, nouns2);
        if ok {
          break;
        }
      }
      k := k + 1;
    }
  }

  /** The trigger scan over the list nouns for one related slot, from state st0. */
  method ScanSlot(s: Solver, t: nat, slot: NounId, nouns2: seq<NounId>, st0: Tally) returns (st: Tally)
    requires st0.cnt <= 1
    ensures st == Fold(s, t, st0, RowCells(slot, nouns2))
  {
    var row := RowCells(slot, nouns2);
    st := st0;
    var j := 0;
    while j < |nouns2|
      invariant 0 <= j <= |nouns2|
      invariant st == Fold(s, t, st0, row[..j])
      invariant st.cnt <= 1
    {
      var noun := nouns2[j];
      var slotX := s.PairNoun(noun, t);
      assert row[..j + 1] == row[..j] + [row[j]];
      assert row[..j + 1][..j] == row[..j];
      if slotX == Some(slot) {
        st := Tally(2, st.pick);
        FoldAppend(s, t, st0, row[..j + 1], row[j + 1..]);
        assert row[..j + 1] + row[j + 1..] == row;
        FoldStuck(s, t, st, row[j + 1..]);
        return;
      }
      if slotX == None && s.gridVerb(noun, slot) == Maybe {
        if st.cnt + 1 > 1 {
          st := Tally(st.cnt + 1, st.pick);
          FoldAppend(s, t, st0, row[..j + 1], row[j + 1..]);
          assert row[..j + 1] + row[j + 1..] == row;
          FoldStuck(s, t, st, row[j + 1..]);
          return;
        }
        st := Tally(1, Some(Cell(noun, slot)));
      }
      j := j + 1;
    }
    assert row[..j] == row;
  }

  /** The trigger scan over the slots related to slot1. */
  method Scan(s: Solver, t: nat, f: (NounId, NounId) -> Verb, slot1: NounId, nouns2: seq<NounId>) returns (st: Tally)
    ensures st == Trigger(s, t, f, slot1, nouns2)
  {
    st := Tally(0, None);
    ghost var all := CellsFrom(s, t, f, slot1, nouns2, 0);
    var k := 0;
    while k < s.numNouns
      invariant 0 <= k <= s.numNouns
      invariant st.cnt <= 1
      invariant Fold(s, t, Tally(0, None), all) == Fold(s, t, st, CellsFrom(s, t, f, slot1, nouns2, k))
    {
      var slot := NounId(t, k + 1);
      ghost var rest := CellsFrom(s, t, f, slot1, nouns2, k + 1);
      if f(slot1, slot) == Is {
        ghost var row := RowCells(slot, nouns2);
        assert CellsFrom(s, t, f, slot1, nouns2, k) == row + rest;
        FoldAppend(s, t, st, row, rest);
        st := ScanSlot(s, t, slot, nouns2, st);
        if st.cnt > 1 {
          FoldStuck(s, t, st, rest);
          return;
        }
      } else {
        assert CellsFrom(s, t, f, slot1, nouns2, k) == rest;
      }
      k := k + 1;
    }
  }

  method RowMayBeHeld(s: Solver, slot: NounId, nouns2: seq<NounId>) returns (ok: bool)
    ensures ok == MayBeHeld(s, slot, nouns2)
  {
    ok := false;
    var j := 0;
    while j < |nouns2|
      invariant 0 <= j <= |nouns2|
      invariant forall m :: 0 <= m < j ==> s.gridVerb(nouns2[m], slot) == IsNot
    {
      if s.gridVerb(nouns2[j], slot) != IsNot {
        ok := true;
        break;
      }
      j := j + 1;
    }
  }

  method CheckSupported(s: Solver, t: nat, f: (NounId, NounId) -> Verb, slotX: NounId, nouns2: seq<NounId>)
    returns (ok: bool)
    ensures ok == Supported(s, t, f, slotX, nouns2)
  {
    ok := false;
    var k := 1;
    while k <= s.numNouns
      invariant 1 <= k <= s.numNouns + 1
      invariant forall m :: 1 <= m < k ==> !(f(slotX, Slot(t, m)) == Is && MayBeHeld(s, Slot(t, m), nouns2))
      decreases s.numNouns + 1 - k
    {
      var slot2 := Slot(t, k);
      if f(slotX, slot2) == Is {
        ok := RowMayBeHeld(s, slot2, nouns2);
        if ok {
          break;
        }
      }
      k := k + 1;
    }
  }

  /** The unslotted case: rules noun1 out of every slot it may take that has no support. */
  method Exclude(s: Solver, t: nat, f: (NounId, NounId) -> Verb, noun1: NounId, nouns2: seq<NounId>)
    returns (rs: int, log: seq<Commit>)
    ensures Outcome(rs, log) == Issue(s, [], ExclusionsFrom(s, t, f, noun1, nouns2, 0))
  {
    rs, log := 0, [];
    ghost var all := ExclusionsFrom(s, t, f, noun1, nouns2, 0);
    var k := 0;
    while k < s.numNouns
      invariant 0 <= k <= s.numNouns
      invariant Issue(s, [], all) == Issue(s, log, ExclusionsFrom(s, t, f, noun1, nouns2, k))
    {
      var slotX := NounId(t, k + 1);
      ghost var here := ExclusionsFrom(s, t, f, noun1, nouns2, k);
      ghost var rest := ExclusionsFrom(s, t, f, noun1, nouns2, k + 1);
      var ok := true;
      if s.gridVerb(noun1, slotX) == Maybe {
        ok := CheckSupported(s, t, f, slotX, nouns2);
      }
      if !ok {
        var c := Commit('b', noun1, IsNot, slotX);
        assert here == [c] + rest;
        assert here[0] == c && here[1..] == rest;
        rs := s.status(log, c);
        log := log + [c];
        if rs != 0 {
          return;
        }
      } else {
        assert here == rest;
      }
      k := k + 1;
    }
    rs := 0;
  }

  /** The rule body of getIsRelated. */
  method IsRelatedRule(s: Solver, t: nat, f: (NounId, NounId) -> Verb, noun1: NounId, nouns2: seq<NounId>)
    returns (rs: int, log: seq<Commit>)
    ensures Outcome(rs, log) == IsRelated(s, t, f, noun1, nouns2)
  {
    var slot1 := if noun1.t == t then Some(noun1) else s.PairNoun(noun1, t);
    if slot1.Some? {
      var ok := CheckListRelated(s, t, f, slot1.value, nouns2);
      if !ok {
        return -1, [];
      }
      ok := CheckRoomLeft(s, t, f, slot1.value, nouns2);
      if !ok {
        return -1, [];
      }
      ok := CheckCanHold(s, t, f, slot1.value, nouns2);
      if !ok {
        return -1, [];
      }
      var st := Scan(s, t, f, slot1.value, nouns2);
      if st.cnt == 1 {
        var c := Commit('a', st.pick.value.noun, Is, st.pick.value.slot);
        rs := s.status([], c);
        return rs, [c];
      }
      return 0, [];
    }
    rs, log := Exclude(s, t, f, noun1, nouns2);
  }
}
