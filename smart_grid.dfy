/**
 * The matchOneToOne rule of SmartRule.java: each noun of list 1 is with
 * exactly one noun of list 2. The rule keeps a grid of verbs, list 1 down
 * the rows and list 2 across the columns, fills it from the solver's grid
 * and then works through four phases:
 *   a) a row with two Is cells is a violation; a row with one closes its open cells;
 *   b) the same for each column;
 *   c) a row whose cells are all IsNot is a violation; a row with a single
 *      open cell and every other cell IsNot opens it to Is;
 *   d) the same for each column.
 * Violations of this rule report status 1.
 */
module SmartGrid {
  import opened Ids
  import opened Verbs
  import opened Boundary
  import opened Counting
  import Helper

  /** A grid of verbs by rows. */
  type Matrix = seq<seq<Verb>>

  predicate Rect(g: Matrix, rows: nat, cols: nat)
  {
    |g| == rows && forall r :: 0 <= r < rows ==> |g[r]| == cols
  }

  function VerbP(v: Verb): Verb -> bool
  {
    (x: Verb) => x == v
  }

  /** How many cells of a line hold v. */
  function Tally(line: seq<Verb>, v: Verb): nat
  {
    Count(line, VerbP(v))
  }

  function Column(g: Matrix, cols: nat, c: nat): (col: seq<Verb>)
    requires Rect(g, |g|, cols) && c < cols
    ensures |col| == |g| && forall r :: 0 <= r < |g| ==> col[r] == g[r][c]
  {
    seq(|g|, r requires 0 <= r < |g| => g[r][c])
  }

  /** The cell for noun1 and noun2: IsNot within a category, otherwise the solver's verb. */
  function Cell(s: Solver, noun1: NounId, noun2: NounId): Verb
  {
    if noun1.t == noun2.t then IsNot else s.gridVerb(noun1, noun2)
  }

  /** The grid as populated at the start of each invocation. */
  function Populated(s: Solver, nouns1: seq<NounId>, nouns2: seq<NounId>): (g: Matrix)
    ensures Rect(g, |nouns1|, |nouns2|)
    ensures forall r, c :: 0 <= r < |nouns1| && 0 <= c < |nouns2| ==> g[r][c] == Cell(s, nouns1[r], nouns2[c])
  {
    seq(|nouns1|, r requires 0 <= r < |nouns1| => seq(|nouns2|, c requires 0 <= c < |nouns2| => Cell(s, nouns1[r], nouns2[c])))
  }

  /**
   * The request about the k-th cell of a line: for a row, its own noun
   * (of list 1) with the k-th noun of list 2; for a column, the k-th noun
   * of list 1 with its own noun (of list 2).
   */
  function LineCommit(sub: char, own: NounId, across: seq<NounId>, byRow: bool, k: nat, v: Verb): Commit
    requires k < |across|
  {
    if byRow then Commit(sub, own, v, across[k]) else Commit(sub, across[k], v, own)
  }

  /** "Not together" requests for the open cells of a line, from position k on. */
  function LineForbids(sub: char, own: NounId, across: seq<NounId>, byRow: bool, line: seq<Verb>, k: nat): seq<Commit>
    requires |line| == |across|
    decreases |line| - k
  {
    if k >= |line| then []
    else
      (if line[k] == Maybe then [LineCommit(sub, own, across, byRow, k, IsNot)] else []) +
      LineForbids(sub, own, across, byRow, line, k + 1)
  }

  /** Phases a and b on one line: two Is cells are a violation; a single one closes the open cells. */
  function CloseStep(sub: char, own: NounId, across: seq<NounId>, byRow: bool, line: seq<Verb>): Step
    requires |line| == |across|
  {
    if Tally(line, Is) > 1 then Fail
    else if Tally(line, Is) == 1 then Emit(LineForbids(sub, own, across, byRow, line, 0))
    else Emit([])
  }

  /**
   * A line after phase a or b: when it holds a single Is, its open cells
   * are closed; Is cells stay as they are, IsNot cells stay IsNot, and no
   * cell is newly opened.
   */
  function Closed(line: seq<Verb>): (r: seq<Verb>)
    ensures |r| == |line|
    ensures forall k :: 0 <= k < |line| ==>
              (r[k] == Is <==> line[k] == Is) && (line[k] == IsNot ==> r[k] == IsNot) && (r[k] == Maybe ==> line[k] == Maybe)
    ensures Tally(line, Is) == 1 ==> forall k :: 0 <= k < |line| ==> r[k] != Maybe
  {
    if Tally(line, Is) == 1 then seq(|line|, k requires 0 <= k < |line| => if line[k] == Maybe then IsNot else line[k])
    else line
  }

  /** Each cell of a closed line: open cells become IsNot exactly when the line holds a single Is. */
  lemma ClosedAt(line: seq<Verb>, k: nat)
    requires k < |line| && Tally(line, Is) <= 1
    ensures Closed(line)[k] == if Tally(line, Is) == 1 && line[k] == Maybe then IsNot else line[k]
  {
  }

  /** A single open cell, every other of the n cells IsNot and none Is. */
  predicate LastOpen(line: seq<Verb>, n: nat)
  {
    Tally(line, IsNot) == n - 1 && Tally(line, Is) == 0 && Tally(line, Maybe) == 1
  }

  /** The position of a line's last open cell. */
  function OpenAt(line: seq<Verb>): (k: nat)
    requires Tally(line, Maybe) >= 1
    ensures k < |line| && line[k] == Maybe
  {
    LastIndex(line, VerbP(Maybe))
  }

  /** Phases c and d on one line: all n cells IsNot is a violation; a last open cell becomes Is. */
  function OpenStep(sub: char, own: NounId, across: seq<NounId>, byRow: bool, line: seq<Verb>, n: nat): Step
    requires |line| == |across|
  {
    if Tally(line, IsNot) == n then Fail
    else if LastOpen(line, n) then Emit([LineCommit(sub, own, across, byRow, OpenAt(line), Is)])
    else Emit([])
  }

  /** A line after phase c or d: at most its last open cell becomes Is; IsNot cells stay IsNot. */
  function Opened(line: seq<Verb>, n: nat): (r: seq<Verb>)
    ensures |r| == |line|
    ensures forall k :: 0 <= k < |line| ==> (line[k] == IsNot ==> r[k] == IsNot) && (r[k] == Maybe ==> line[k] == Maybe)
    ensures forall k :: 0 <= k < |line| && r[k] != line[k] ==> LastOpen(line, n) && k == OpenAt(line) && r[k] == Is
  {
    if LastOpen(line, n) then line[OpenAt(line) := Is] else line
  }

  function StepsA(nouns1: seq<NounId>, nouns2: seq<NounId>, g: Matrix): (steps: seq<Step>)
    requires Rect(g, |nouns1|, |nouns2|)
    ensures |steps| == |nouns1|
  {
    seq(|nouns1|, r requires 0 <= r < |nouns1| => CloseStep('a', nouns1[r], nouns2, true, g[r]))
  }

  function AfterA(g: Matrix): (g1: Matrix)
    ensures |g1| == |g| && forall r :: 0 <= r < |g| ==> g1[r] == Closed(g[r])
  {
    seq(|g|, r requires 0 <= r < |g| => Closed(g[r]))
  }

  function StepsB(nouns1: seq<NounId>, nouns2: seq<NounId>, g: Matrix): (steps: seq<Step>)
    requires Rect(g, |nouns1|, |nouns2|)
    ensures |steps| == |nouns2|
  {
    seq(|nouns2|, c requires 0 <= c < |nouns2| => CloseStep('b', nouns2[c], nouns1, false, Column(g, |nouns2|, c)))
  }

  function AfterB(g: Matrix, cols: nat): (g2: Matrix)
    requires Rect(g, |g|, cols)
    ensures Rect(g2, |g|, cols)
    ensures forall r, c :: 0 <= r < |g| && 0 <= c < cols ==> g2[r][c] == Closed(Column(g, cols, c))[r]
  {
    seq(|g|, r requires 0 <= r < |g| => seq(cols, c requires 0 <= c < cols => Closed(Column(g, cols, c))[r]))
  }

  function StepsC(nouns1: seq<NounId>, nouns2: seq<NounId>, g: Matrix): (steps: seq<Step>)
    requires Rect(g, |nouns1|, |nouns2|)
    ensures |steps| == |nouns1|
  {
    seq(|nouns1|, r requires 0 <= r < |nouns1| => OpenStep('c', nouns1[r], nouns2, true, g[r], |nouns1|))
  }

  function AfterC(g: Matrix, n: nat): (g3: Matrix)
    ensures |g3| == |g| && forall r :: 0 <= r < |g| ==> g3[r] == Opened(g[r], n)
  {
    seq(|g|, r requires 0 <= r < |g| => Opened(g[r], n))
  }

  function StepsD(nouns1: seq<NounId>, nouns2: seq<NounId>, g: Matrix): (steps: seq<Step>)
    requires Rect(g, |nouns1|, |nouns2|)
    ensures |steps| == |nouns2|
  {
    seq(|nouns2|, c requires 0 <= c < |nouns2| => OpenStep('d', nouns2[c], nouns1, false, Column(g, |nouns2|, c), |nouns1|))
  }

  /** The grids between the phases: populated, after a, after b, after c. */
  function Grids(s: Solver, nouns1: seq<NounId>, nouns2: seq<NounId>): (gs: seq<Matrix>)
    ensures |gs| == 4 && forall i :: 0 <= i < 4 ==> Rect(gs[i], |nouns1|, |nouns2|)
  {
    var g0 := Populated(s, nouns1, nouns2);
    var g1 := AfterA(g0);
    var g2 := AfterB(g1, |nouns2|);
    var g3 := AfterC(g2, |nouns1|);
    [g0, g1, g2, g3]
  }

  /** The four phases of one invocation, in order. */
  function AllSteps(s: Solver, nouns1: seq<NounId>, nouns2: seq<NounId>): seq<Step>
  {
    var gs := Grids(s, nouns1, nouns2);
    StepsA(nouns1, nouns2, gs[0]) + (StepsB(nouns1, nouns2, gs[1]) +
      (StepsC(nouns1, nouns2, gs[2]) + StepsD(nouns1, nouns2, gs[3])))
  }

  /** matchOneToOne: the outcome of running the four phases. */
  function MatchOneToOne(s: Solver, nouns1: seq<NounId>, nouns2: seq<NounId>): Outcome
  {
    Run(s, [], AllSteps(s, nouns1, nouns2))
  }

  /** Cells keep their decisions from one phase to the next: Is and IsNot stay, and no cell reopens. */
  lemma GridsKeep(s: Solver, nouns1: seq<NounId>, nouns2: seq<NounId>)
    ensures var gs := Grids(s, nouns1, nouns2);
      forall r, c :: 0 <= r < |nouns1| && 0 <= c < |nouns2| ==>
        (gs[1][r][c] == Is <==> gs[0][r][c] == Is) &&
        (gs[0][r][c] == IsNot ==> gs[1][r][c] == IsNot && gs[2][r][c] == IsNot && gs[3][r][c] == IsNot) &&
        (gs[1][r][c] == Maybe ==> gs[0][r][c] == Maybe) &&
        (gs[2][r][c] == Maybe ==> gs[0][r][c] == Maybe) &&
        (gs[3][r][c] == Maybe ==> gs[0][r][c] == Maybe)
  {
    var gs := Grids(s, nouns1, nouns2);
    forall r, c | 0 <= r < |nouns1| && 0 <= c < |nouns2|
      ensures (gs[1][r][c] == Is <==> gs[0][r][c] == Is) &&
        (gs[0][r][c] == IsNot ==> gs[1][r][c] == IsNot && gs[2][r][c] == IsNot && gs[3][r][c] == IsNot) &&
        (gs[1][r][c] == Maybe ==> gs[0][r][c] == Maybe) &&
        (gs[2][r][c] == Maybe ==> gs[0][r][c] == Maybe) &&
        (gs[3][r][c] == Maybe ==> gs[0][r][c] == Maybe)
    {
      assert gs[1][r] == Closed(gs[0][r]);
      assert gs[2][r][c] == Closed(Column(gs[1], |nouns2|, c))[r];
      assert gs[3][r] == Opened(gs[2][r], |nouns1|);
    }
  }

  lemma Concat4At<T>(a: seq<T>, b: seq<T>, c: seq<T>, d: seq<T>)
    ensures var all := a + (b + (c + d));
      |all| == |a| + |b| + |c| + |d| &&
      (forall i :: 0 <= i < |a| ==> all[i] == a[i]) &&
      (forall i :: 0 <= i < |b| ==> all[|a| + i] == b[i]) &&
      (forall i :: 0 <= i < |c| ==> all[|a| + |b| + i] == c[i]) &&
      (forall i :: 0 <= i < |d| ==> all[|a| + |b| + |c| + i] == d[i])
  {
  }

  /** Where each phase's steps sit among all steps. */
  lemma AllStepsAt(s: Solver, nouns1: seq<NounId>, nouns2: seq<NounId>)
    ensures var gs := Grids(s, nouns1, nouns2);
      var steps := AllSteps(s, nouns1, nouns2);
      var n1, n2 := |nouns1|, |nouns2|;
      |steps| == 2 * (n1 + n2) &&
      (forall r :: 0 <= r < n1 ==> steps[r] == StepsA(nouns1, nouns2, gs[0])[r]) &&
      (forall c :: 0 <= c < n2 ==> steps[n1 + c] == StepsB(nouns1, nouns2, gs[1])[c]) &&
      (forall r :: 0 <= r < n1 ==> steps[n1 + n2 + r] == StepsC(nouns1, nouns2, gs[2])[r]) &&
      (forall c :: 0 <= c < n2 ==> steps[n1 + n2 + n1 + c] == StepsD(nouns1, nouns2, gs[3])[c])
  {
    var gs := Grids(s, nouns1, nouns2);
    Concat4At(StepsA(nouns1, nouns2, gs[0]), StepsB(nouns1, nouns2, gs[1]),
              StepsC(nouns1, nouns2, gs[2]), StepsD(nouns1, nouns2, gs[3]));
  }

  /** A noun of list 1 already marked with two nouns of list 2 is a violation. */
  lemma OneToOneRowViolation(s: Solver, nouns1: seq<NounId>, nouns2: seq<NounId>, r: nat)
    requires r < |nouns1| && Tally(Populated(s, nouns1, nouns2)[r], Is) > 1
    ensures MatchOneToOne(s, nouns1, nouns2).rs != 0
  {
    var gs := Grids(s, nouns1, nouns2);
    assert |AllSteps(s, nouns1, nouns2)| == 2 * (|nouns1| + |nouns2|) &&
      AllSteps(s, nouns1, nouns2)[r] == StepsA(nouns1, nouns2, gs[0])[r] by { AllStepsAt(s, nouns1, nouns2); }
    AllStepsFail(s, nouns1, nouns2, r);
  }

  /** A failing step makes the whole invocation fail. */
  lemma AllStepsFail(s: Solver, nouns1: seq<NounId>, nouns2: seq<NounId>, i: nat)
    requires i < |AllSteps(s, nouns1, nouns2)| && AllSteps(s, nouns1, nouns2)[i] == Fail
    ensures MatchOneToOne(s, nouns1, nouns2).rs != 0
  {
    RunFails(s, [], AllSteps(s, nouns1, nouns2), i);
  }

  /** Phase b keeps the Is cells of phase a's input, so a column with two of them fails in phase b. */
  lemma ColumnFailsInB(s: Solver, nouns1: seq<NounId>, nouns2: seq<NounId>, c: nat)
    requires c < |nouns2| && Tally(Column(Populated(s, nouns1, nouns2), |nouns2|, c), Is) > 1
    ensures StepsB(nouns1, nouns2, Grids(s, nouns1, nouns2)[1])[c] == Fail
  {
    var gs := Grids(s, nouns1, nouns2);
    var col0, col1 := Column(gs[0], |nouns2|, c), Column(gs[1], |nouns2|, c);
    forall r | 0 <= r < |nouns1|
      ensures VerbP(Is)(col1[r]) <==> VerbP(Is)(col0[r])
    {
      assert gs[1][r] == Closed(gs[0][r]);
    }
    CountPointwise(col1, col0, VerbP(Is));
  }

  /** A noun of list 2 already marked with two nouns of list 1 is a violation. */
  lemma OneToOneColumnViolation(s: Solver, nouns1: seq<NounId>, nouns2: seq<NounId>, c: nat)
    requires c < |nouns2| && Tally(Column(Populated(s, nouns1, nouns2), |nouns2|, c), Is) > 1
    ensures MatchOneToOne(s, nouns1, nouns2).rs != 0
  {
    ColumnFailsInB(s, nouns1, nouns2, c);
    var gs := Grids(s, nouns1, nouns2);
    assert |AllSteps(s, nouns1, nouns2)| == 2 * (|nouns1| + |nouns2|) &&
      AllSteps(s, nouns1, nouns2)[|nouns1| + c] == StepsB(nouns1, nouns2, gs[1])[c] by { AllStepsAt(s, nouns1, nouns2); }
    AllStepsFail(s, nouns1, nouns2, |nouns1| + c);
  }

  /** No phase reopens an IsNot cell, so with lists of equal length a row of them fails in phase c. */
  lemma RowFailsInC(s: Solver, nouns1: seq<NounId>, nouns2: seq<NounId>, r: nat)
    requires |nouns1| == |nouns2| && r < |nouns1|
    requires forall c :: 0 <= c < |nouns2| ==> Cell(s, nouns1[r], nouns2[c]) == IsNot
    ensures StepsC(nouns1, nouns2, Grids(s, nouns1, nouns2)[2])[r] == Fail
  {
    var gs := Grids(s, nouns1, nouns2);
    forall c | 0 <= c < |nouns2|
      ensures VerbP(IsNot)(gs[2][r][c])
    {
      assert gs[1][r] == Closed(gs[0][r]);
      assert gs[2][r][c] == Closed(Column(gs[1], |nouns2|, c))[r];
    }
    CountAll(gs[2][r], VerbP(IsNot));
  }

  /** With lists of equal length, a noun of list 1 ruled out with every noun of list 2 is a violation. */
  lemma OneToOneDeadRow(s: Solver, nouns1: seq<NounId>, nouns2: seq<NounId>, r: nat)
    requires |nouns1| == |nouns2| && r < |nouns1|
    requires forall c :: 0 <= c < |nouns2| ==> Cell(s, nouns1[r], nouns2[c]) == IsNot
    ensures MatchOneToOne(s, nouns1, nouns2).rs != 0
  {
    var gs := Grids(s, nouns1, nouns2);
    assert StepsC(nouns1, nouns2, gs[2])[r] == Fail by {
      RowFailsInC(s, nouns1, nouns2, r);
    }
    var i := |nouns1| + |nouns2| + r;
    assert i < |AllSteps(s, nouns1, nouns2)| && AllSteps(s, nouns1, nouns2)[i] == Fail by {
      AllStepsAt(s, nouns1, nouns2);
    }
    AllStepsFail(s, nouns1, nouns2, i);
  }

  /** No phase reopens an IsNot cell, so a column of them fails in phase d. */
  lemma ColumnFailsInD(s: Solver, nouns1: seq<NounId>, nouns2: seq<NounId>, c: nat)
    requires c < |nouns2|
    requires forall r :: 0 <= r < |nouns1| ==> Cell(s, nouns1[r], nouns2[c]) == IsNot
    ensures StepsD(nouns1, nouns2, Grids(s, nouns1, nouns2)[3])[c] == Fail
  {
    var gs := Grids(s, nouns1, nouns2);
    var col3 := Column(gs[3], |nouns2|, c);
    forall r | 0 <= r < |nouns1|
      ensures VerbP(IsNot)(col3[r])
    {
      assert gs[1][r] == Closed(gs[0][r]);
      assert gs[2][r][c] == Closed(Column(gs[1], |nouns2|, c))[r];
      assert gs[3][r] == Opened(gs[2][r], |nouns1|);
    }
    CountAll(col3, VerbP(IsNot));
  }

  /** A noun of list 2 ruled out with every noun of list 1 is a violation. */
  lemma OneToOneDeadColumn(s: Solver, nouns1: seq<NounId>, nouns2: seq<NounId>, c: nat)
    requires c < |nouns2|
    requires forall r :: 0 <= r < |nouns1| ==> Cell(s, nouns1[r], nouns2[c]) == IsNot
    ensures MatchOneToOne(s, nouns1, nouns2).rs != 0
  {
    var gs := Grids(s, nouns1, nouns2);
    assert StepsD(nouns1, nouns2, gs[3])[c] == Fail by {
      ColumnFailsInD(s, nouns1, nouns2, c);
    }
    var i := |nouns1| + |nouns2| + |nouns1| + c;
    assert i < |AllSteps(s, nouns1, nouns2)| && AllSteps(s, nouns1, nouns2)[i] == Fail by {
      AllStepsAt(s, nouns1, nouns2);
    }
    AllStepsFail(s, nouns1, nouns2, i);
  }

  /**
   * Why phase sub owes a request for row r and column c: phase a closes the
   * open cells of a row holding a single Is; phase b those of a column
   * holding a single Is, when the row did not (phase a closed those
   * already); phases c and d place the last open cell of a row after phase
   * b, or of a column after phase c.
   */
  predicate OwedAt(s: Solver, nouns1: seq<NounId>, nouns2: seq<NounId>, sub: char, r: nat, c: nat)
    requires r < |nouns1| && c < |nouns2|
  {
    var gs := Grids(s, nouns1, nouns2);
    if sub == 'a' then Tally(gs[0][r], Is) == 1 && gs[0][r][c] == Maybe
    else if sub == 'b' then Tally(Column(gs[0], |nouns2|, c), Is) == 1 && Tally(gs[0][r], Is) != 1 && gs[0][r][c] == Maybe
    else if sub == 'c' then LastOpen(gs[2][r], |nouns1|) && gs[2][r][c] == Maybe
    else sub == 'd' && LastOpen(Column(gs[3], |nouns2|, c), |nouns1|) && gs[3][r][c] == Maybe
  }

  /**
   * A request about a pair of the lists whose cell the solver left open and
   * whose line owes it, IsNot from phases a and b, Is from c and d.
   */
  predicate OpenRequest(s: Solver, nouns1: seq<NounId>, nouns2: seq<NounId>, cm: Commit)
  {
    (exists r, c :: 0 <= r < |nouns1| && 0 <= c < |nouns2| &&
       cm.noun1 == nouns1[r] && cm.noun2 == nouns2[c] && Cell(s, nouns1[r], nouns2[c]) == Maybe &&
       OwedAt(s, nouns1, nouns2, cm.sub, r, c)) &&
    (cm.sub == 'a' || cm.sub == 'b' || cm.sub == 'c' || cm.sub == 'd') &&
    (cm.verb == IsNot <==> cm.sub == 'a' || cm.sub == 'b') && cm.verb != Maybe
  }

  lemma {:induction false} LineForbidsMembers(sub: char, own: NounId, across: seq<NounId>, byRow: bool, line: seq<Verb>, k: nat)
    requires |line| == |across|
    ensures forall cm :: cm in LineForbids(sub, own, across, byRow, line, k) ==>
              exists j :: k <= j < |line| && line[j] == Maybe && cm == LineCommit(sub, own, across, byRow, j, IsNot)
    decreases |line| - k
  {
    if k < |line| {
      LineForbidsMembers(sub, own, across, byRow, line, k + 1);
    }
  }

  /** Step i of the invocation, within the first phase, is a step of phase a. */
  lemma StepInA(s: Solver, nouns1: seq<NounId>, nouns2: seq<NounId>, i: nat)
    requires i < |nouns1|
    ensures i < |AllSteps(s, nouns1, nouns2)| &&
      AllSteps(s, nouns1, nouns2)[i] == StepsA(nouns1, nouns2, Grids(s, nouns1, nouns2)[0])[i]
  {
    AllStepsAt(s, nouns1, nouns2);
  }

  /** Phase a only closes open cells of a row of the solver's grid. */
  lemma StepARequest(s: Solver, nouns1: seq<NounId>, nouns2: seq<NounId>, r: nat, cm: Commit)
    requires r < |nouns1|
    requires var st := StepsA(nouns1, nouns2, Grids(s, nouns1, nouns2)[0])[r]; st.Emit? && cm in st.cs
    ensures OpenRequest(s, nouns1, nouns2, cm)
  {
    var gs := Grids(s, nouns1, nouns2);
    LineForbidsMembers('a', nouns1[r], nouns2, true, gs[0][r], 0);
    var j :| 0 <= j < |nouns2| && gs[0][r][j] == Maybe && cm == LineCommit('a', nouns1[r], nouns2, true, j, IsNot);
    assert Cell(s, nouns1[r], nouns2[j]) == Maybe && OwedAt(s, nouns1, nouns2, 'a', r, j);
  }

  /** The step of the invocation for column c in the second phase is that column's step of phase b. */
  lemma StepInB(s: Solver, nouns1: seq<NounId>, nouns2: seq<NounId>, c: nat)
    requires c < |nouns2|
    ensures |nouns1| + c < |AllSteps(s, nouns1, nouns2)| &&
      AllSteps(s, nouns1, nouns2)[|nouns1| + c] == StepsB(nouns1, nouns2, Grids(s, nouns1, nouns2)[1])[c]
  {
    AllStepsAt(s, nouns1, nouns2);
  }

  /** Phase b only closes open cells of a column, and those cells were open in the solver's grid. */
  lemma StepBRequest(s: Solver, nouns1: seq<NounId>, nouns2: seq<NounId>, c: nat, cm: Commit)
    requires c < |nouns2|
    requires var st := StepsB(nouns1, nouns2, Grids(s, nouns1, nouns2)[1])[c]; st.Emit? && cm in st.cs
    ensures OpenRequest(s, nouns1, nouns2, cm)
  {
    var gs := Grids(s, nouns1, nouns2);
    var col := Column(gs[1], |nouns2|, c);
    LineForbidsMembers('b', nouns2[c], nouns1, false, col, 0);
    var j :| 0 <= j < |nouns1| && col[j] == Maybe && cm == LineCommit('b', nouns2[c], nouns1, false, j, IsNot);
    assert gs[1][j] == Closed(gs[0][j]);
    ColumnIsKept(s, nouns1, nouns2, c);
    assert Cell(s, nouns1[j], nouns2[c]) == Maybe && OwedAt(s, nouns1, nouns2, 'b', j, c);
  }

  /** The step of the invocation for row r in the third phase is that row's step of phase c. */
  lemma StepInC(s: Solver, nouns1: seq<NounId>, nouns2: seq<NounId>, r: nat)
    requires r < |nouns1|
    ensures |nouns1| + |nouns2| + r < |AllSteps(s, nouns1, nouns2)| &&
      AllSteps(s, nouns1, nouns2)[|nouns1| + |nouns2| + r] == StepsC(nouns1, nouns2, Grids(s, nouns1, nouns2)[2])[r]
  {
    AllStepsAt(s, nouns1, nouns2);
  }

  /** Phase c only places a row's last open cell, and that cell was open in the solver's grid. */
  lemma StepCRequest(s: Solver, nouns1: seq<NounId>, nouns2: seq<NounId>, r: nat, cm: Commit)
    requires r < |nouns1|
    requires var st := StepsC(nouns1, nouns2, Grids(s, nouns1, nouns2)[2])[r]; st.Emit? && cm in st.cs
    ensures OpenRequest(s, nouns1, nouns2, cm)
  {
    var gs := Grids(s, nouns1, nouns2);
    var j := OpenAt(gs[2][r]);
    assert cm == Commit('c', nouns1[r], Is, nouns2[j]);
    assert gs[2][r][j] == Closed(Column(gs[1], |nouns2|, j))[r];
    assert gs[1][r] == Closed(gs[0][r]);
    assert Cell(s, nouns1[r], nouns2[j]) == Maybe && OwedAt(s, nouns1, nouns2, 'c', r, j);
  }

  /** Phase d only places a column's last open cell, and that cell was open in the solver's grid. */
  lemma StepDRequest(s: Solver, nouns1: seq<NounId>, nouns2: seq<NounId>, c: nat, cm: Commit)
    requires c < |nouns2|
    requires var st := StepsD(nouns1, nouns2, Grids(s, nouns1, nouns2)[3])[c]; st.Emit? && cm in st.cs
    ensures OpenRequest(s, nouns1, nouns2, cm)
  {
    var gs := Grids(s, nouns1, nouns2);
    var col := Column(gs[3], |nouns2|, c);
    var j := OpenAt(col);
    assert cm == Commit('d', nouns1[j], Is, nouns2[c]);
    assert gs[3][j] == Opened(gs[2][j], |nouns1|);
    assert gs[2][j][c] == Closed(Column(gs[1], |nouns2|, c))[j];
    assert gs[1][j] == Closed(gs[0][j]);
    assert Cell(s, nouns1[j], nouns2[c]) == Maybe && OwedAt(s, nouns1, nouns2, 'd', j, c);
  }

  /** The step of the invocation for column c in the last phase is that column's step of phase d. */
  lemma StepInD(s: Solver, nouns1: seq<NounId>, nouns2: seq<NounId>, c: nat)
    requires c < |nouns2|
    ensures |nouns1| + |nouns2| + |nouns1| + c < |AllSteps(s, nouns1, nouns2)| &&
      AllSteps(s, nouns1, nouns2)[|nouns1| + |nouns2| + |nouns1| + c] == StepsD(nouns1, nouns2, Grids(s, nouns1, nouns2)[3])[c]
  {
    AllStepsAt(s, nouns1, nouns2);
  }

  /**
   * Every request of an invocation is about a pair of the lists the
   * solver's grid left open (and in different categories): "not together"
   * from phases a and b, "together" from phases c and d.
   */
  lemma OneToOneRequestsOpen(s: Solver, nouns1: seq<NounId>, nouns2: seq<NounId>)
    ensures var o := MatchOneToOne(s, nouns1, nouns2);
      forall k :: 0 <= k < |o.log| ==> OpenRequest(s, nouns1, nouns2, o.log[k])
  {
    var gs := Grids(s, nouns1, nouns2);
    var a, b := StepsA(nouns1, nouns2, gs[0]), StepsB(nouns1, nouns2, gs[1]);
    var c, d := StepsC(nouns1, nouns2, gs[2]), StepsD(nouns1, nouns2, gs[3]);
    forall r, cm | 0 <= r < |a| && a[r].Emit? && cm in a[r].cs ensures OpenRequest(s, nouns1, nouns2, cm) {
      StepARequest(s, nouns1, nouns2, r, cm);
    }
    forall j, cm | 0 <= j < |b| && b[j].Emit? && cm in b[j].cs ensures OpenRequest(s, nouns1, nouns2, cm) {
      StepBRequest(s, nouns1, nouns2, j, cm);
    }
    forall r, cm | 0 <= r < |c| && c[r].Emit? && cm in c[r].cs ensures OpenRequest(s, nouns1, nouns2, cm) {
      StepCRequest(s, nouns1, nouns2, r, cm);
    }
    forall j, cm | 0 <= j < |d| && d[j].Emit? && cm in d[j].cs ensures OpenRequest(s, nouns1, nouns2, cm) {
      StepDRequest(s, nouns1, nouns2, j, cm);
    }
    RequestsOpenConcat(s, nouns1, nouns2, c, d);
    RequestsOpenConcat(s, nouns1, nouns2, b, c + d);
    RequestsOpenConcat(s, nouns1, nouns2, a, b + (c + d));
    var steps := AllSteps(s, nouns1, nouns2);
    var o := Run(s, [], steps);
    RunLogMembers(s, [], steps);
  }

  /** Every request of every step of steps is an OpenRequest. */
  predicate RequestsOpen(s: Solver, nouns1: seq<NounId>, nouns2: seq<NounId>, steps: seq<Step>)
  {
    forall i, cm :: 0 <= i < |steps| && steps[i].Emit? && cm in steps[i].cs ==> OpenRequest(s, nouns1, nouns2, cm)
  }

  lemma RequestsOpenConcat(s: Solver, nouns1: seq<NounId>, nouns2: seq<NounId>, a: seq<Step>, b: seq<Step>)
    requires RequestsOpen(s, nouns1, nouns2, a) && RequestsOpen(s, nouns1, nouns2, b)
    ensures RequestsOpen(s, nouns1, nouns2, a + b)
  {
    forall i, cm | 0 <= i < |a + b| && (a + b)[i].Emit? && cm in (a + b)[i].cs
      ensures OpenRequest(s, nouns1, nouns2, cm)
    {
      if i >= |a| {
        assert (a + b)[i] == b[i - |a|];
      }
    }
  }

  /** Every open cell of a line, from position k on, gets its "not together" request. */
  lemma {:induction false} LineForbidsHas(sub: char, own: NounId, across: seq<NounId>, byRow: bool, line: seq<Verb>, k: nat, j: nat)
    requires |line| == |across| && k <= j < |line| && line[j] == Maybe
    ensures LineCommit(sub, own, across, byRow, j, IsNot) in LineForbids(sub, own, across, byRow, line, k)
    decreases j - k
  {
    if k < j {
      LineForbidsHas(sub, own, across, byRow, line, k + 1, j);
    }
  }

  /** An invocation that reports 0 made every request of each of its steps. */
  lemma AllStepsMade(s: Solver, nouns1: seq<NounId>, nouns2: seq<NounId>, i: nat, cm: Commit)
    requires var steps := AllSteps(s, nouns1, nouns2); i < |steps| && steps[i].Emit? && cm in steps[i].cs
    ensures var o := MatchOneToOne(s, nouns1, nouns2); o.rs == 0 ==> cm in o.log
  {
    RunAllMade(s, [], AllSteps(s, nouns1, nouns2));
  }

  /** The only open cell of a line with a single one is the one OpenAt finds. */
  lemma OpenAtUnique(line: seq<Verb>, k: nat)
    requires Tally(line, Maybe) == 1 && k < |line| && line[k] == Maybe
    ensures OpenAt(line) == k
  {
    assert VerbP(Maybe)(line[k]);
    CountOne(line, VerbP(Maybe));
  }

  /**
   * Phase a: when a noun of list 1 is marked with exactly one noun of
   * list 2, an invocation that reports 0 has requested "not together" for
   * every cell of its row the solver left open.
   */
  lemma OneToOneRowTrigger(s: Solver, nouns1: seq<NounId>, nouns2: seq<NounId>, r: nat, c: nat)
    requires r < |nouns1| && c < |nouns2|
    requires Tally(Populated(s, nouns1, nouns2)[r], Is) == 1 && Cell(s, nouns1[r], nouns2[c]) == Maybe
    ensures var o := MatchOneToOne(s, nouns1, nouns2);
      o.rs == 0 ==> Commit('a', nouns1[r], IsNot, nouns2[c]) in o.log
  {
    var gs := Grids(s, nouns1, nouns2);
    StepInA(s, nouns1, nouns2, r);
    LineForbidsHas('a', nouns1[r], nouns2, true, gs[0][r], 0, c);
    AllStepsMade(s, nouns1, nouns2, r, Commit('a', nouns1[r], IsNot, nouns2[c]));
  }

  /** Phase a changes no Is cell, so each column holds as many Is cells afterwards. */
  lemma ColumnIsKept(s: Solver, nouns1: seq<NounId>, nouns2: seq<NounId>, c: nat)
    requires c < |nouns2|
    ensures var gs := Grids(s, nouns1, nouns2);
      Tally(Column(gs[1], |nouns2|, c), Is) == Tally(Column(gs[0], |nouns2|, c), Is)
  {
    var gs := Grids(s, nouns1, nouns2);
    var col0, col1 := Column(gs[0], |nouns2|, c), Column(gs[1], |nouns2|, c);
    forall r | 0 <= r < |nouns1|
      ensures VerbP(Is)(col1[r]) <==> VerbP(Is)(col0[r])
    {
      assert gs[1][r] == Closed(gs[0][r]);
    }
    CountPointwise(col1, col0, VerbP(Is));
  }

  /**
   * Phase b: when a noun of list 2 is marked with exactly one noun of
   * list 1, an invocation that reports 0 has requested "not together" for
   * every cell of its column that the solver left open and phase a did not
   * already close (its row does not hold a single Is).
   */
  lemma OneToOneColumnTrigger(s: Solver, nouns1: seq<NounId>, nouns2: seq<NounId>, r: nat, c: nat)
    requires r < |nouns1| && c < |nouns2|
    requires var g := Populated(s, nouns1, nouns2);
      Tally(Column(g, |nouns2|, c), Is) == 1 && Tally(g[r], Is) != 1 && Cell(s, nouns1[r], nouns2[c]) == Maybe
    ensures var o := MatchOneToOne(s, nouns1, nouns2);
      o.rs == 0 ==> Commit('b', nouns1[r], IsNot, nouns2[c]) in o.log
  {
    var gs := Grids(s, nouns1, nouns2);
    var col1 := Column(gs[1], |nouns2|, c);
    ColumnIsKept(s, nouns1, nouns2, c);
    assert gs[1][r] == Closed(gs[0][r]);
    assert col1[r] == Maybe;
    StepInB(s, nouns1, nouns2, c);
    LineForbidsHas('b', nouns2[c], nouns1, false, col1, 0, r);
    AllStepsMade(s, nouns1, nouns2, |nouns1| + c, Commit('b', nouns1[r], IsNot, nouns2[c]));
  }

  /**
   * Phase c: when, after phases a and b, a row has a single open cell and
   * every other cell IsNot, an invocation that reports 0 has requested
   * "together" for that cell.
   */
  lemma OneToOneRowLastOpen(s: Solver, nouns1: seq<NounId>, nouns2: seq<NounId>, r: nat, c: nat)
    requires r < |nouns1| && c < |nouns2|
    requires var g := Grids(s, nouns1, nouns2)[2]; LastOpen(g[r], |nouns1|) && g[r][c] == Maybe
    ensures var o := MatchOneToOne(s, nouns1, nouns2);
      o.rs == 0 ==> Commit('c', nouns1[r], Is, nouns2[c]) in o.log
  {
    var i := |nouns1| + |nouns2| + r;
    var cm := Commit('c', nouns1[r], Is, nouns2[c]);
    assert AllSteps(s, nouns1, nouns2)[i] == Emit([cm]) by {
      RowPlaced(nouns1, nouns2, Grids(s, nouns1, nouns2)[2], r, c);
      StepInC(s, nouns1, nouns2, r);
    }
    AllStepsMade(s, nouns1, nouns2, i, cm);
  }

  /** Phase c on a row whose single open cell is in column c places that cell. */
  lemma RowPlaced(nouns1: seq<NounId>, nouns2: seq<NounId>, g: Matrix, r: nat, c: nat)
    requires Rect(g, |nouns1|, |nouns2|) && r < |nouns1| && c < |nouns2|
    requires LastOpen(g[r], |nouns1|) && g[r][c] == Maybe
    ensures StepsC(nouns1, nouns2, g)[r] == Emit([Commit('c', nouns1[r], Is, nouns2[c])])
  {
    OpenAtUnique(g[r], c);
  }

  /**
   * Phase d: when, after phase c, a column has a single open cell and
   * every other cell IsNot, an invocation that reports 0 has requested
   * "together" for that cell.
   */
  lemma OneToOneColumnLastOpen(s: Solver, nouns1: seq<NounId>, nouns2: seq<NounId>, r: nat, c: nat)
    requires r < |nouns1| && c < |nouns2|
    requires var g := Grids(s, nouns1, nouns2)[3]; LastOpen(Column(g, |nouns2|, c), |nouns1|) && g[r][c] == Maybe
    ensures var o := MatchOneToOne(s, nouns1, nouns2);
      o.rs == 0 ==> Commit('d', nouns1[r], Is, nouns2[c]) in o.log
  {
    var i := |nouns1| + |nouns2| + |nouns1| + c;
    var cm := Commit('d', nouns1[r], Is, nouns2[c]);
    assert AllSteps(s, nouns1, nouns2)[i] == Emit([cm]) by {
      ColumnPlaced(nouns1, nouns2, Grids(s, nouns1, nouns2)[3], r, c);
      StepInD(s, nouns1, nouns2, c);
    }
    AllStepsMade(s, nouns1, nouns2, i, cm);
  }

  /** Phase d on a column whose single open cell is in row r places that cell. */
  lemma ColumnPlaced(nouns1: seq<NounId>, nouns2: seq<NounId>, g: Matrix, r: nat, c: nat)
    requires Rect(g, |nouns1|, |nouns2|) && r < |nouns1| && c < |nouns2|
    requires LastOpen(Column(g, |nouns2|, c), |nouns1|) && g[r][c] == Maybe
    ensures StepsD(nouns1, nouns2, g)[c] == Emit([Commit('d', nouns1[r], Is, nouns2[c])])
  {
    OpenAtUnique(Column(g, |nouns2|, c), r);
  }

  /** The rule object returned by getMatchOneToOne, with the grid it allocates once. */
  class OneToOneRule {
    const nouns1: seq<NounId>
    const nouns2: seq<NounId>
    const grid: array2<Verb>

    predicate Valid()
    {
      grid.Length0 == |nouns1| && grid.Length1 == |nouns1| && |nouns2| <= |nouns1|
    }

    /** The grid agrees with g on the cells the rule uses. */
    ghost predicate Shows(g: Matrix)
      requires Valid()
      reads grid
    {
      Rect(g, |nouns1|, |nouns2|) &&
      forall r, c :: 0 <= r < |nouns1| && 0 <= c < |nouns2| ==> grid[r, c] == g[r][c]
    }

    /** getMatchOneToOne: a square grid as wide as list 1, every cell undecided. */
    constructor(nouns1: seq<NounId>, nouns2: seq<NounId>)
      requires |nouns2| <= |nouns1|
      ensures Valid() && this.nouns1 == nouns1 && this.nouns2 == nouns2
      ensures fresh(grid)
    {
      this.nouns1 := nouns1;
      this.nouns2 := nouns2;
      var g := Helper.GetArray2D(|nouns1|, |nouns1|, Maybe);
      grid := g;
    }

    /** Fills the grid from the solver, IsNot within a category. */
    method Populate(s: Solver)
      requires Valid()
      modifies grid
      ensures Shows(Populated(s, nouns1, nouns2))
    {
      var row := 0;
      while row < |nouns1|
        invariant 0 <= row <= |nouns1|
        invariant forall r, c :: 0 <= r < row && 0 <= c < |nouns2| ==> grid[r, c] == Cell(s, nouns1[r], nouns2[c])
      {
        var noun1 := nouns1[row];
        var col := 0;
        while col < |nouns2|
          invariant 0 <= col <= |nouns2|
          invariant forall r, c :: 0 <= r < row && 0 <= c < |nouns2| ==> grid[r, c] == Cell(s, nouns1[r], nouns2[c])
          invariant forall c :: 0 <= c < col ==> grid[row, c] == Cell(s, noun1, nouns2[c])
        {
          var noun2 := nouns2[col];
          grid[row, col] := s.gridVerb(noun1, noun2);
          if noun1.t == noun2.t {
            grid[row, col] := IsNot;
          }
          col := col + 1;
        }
        row := row + 1;
      }
    }

    /** How many cells of a row hold v. */
    method TallyRow(ghost line: seq<Verb>, row: nat, v: Verb) returns (cnt: nat)
      requires Valid() && row < |nouns1| && |line| == |nouns2|
      requires forall c :: 0 <= c < |nouns2| ==> grid[row, c] == line[c]
      ensures cnt == Tally(line, v)
    {
      cnt := 0;
      var col := 0;
      while col < |nouns2|
        invariant 0 <= col <= |nouns2|
        invariant cnt == Tally(line[..col], v)
      {
        Snoc(line, VerbP(v), col);
        if grid[row, col] == v {
          cnt := cnt + 1;
        }
        col := col + 1;
      }
      assert line[..col] == line;
    }

    /** How many cells of a column hold v. */
    method TallyCol(ghost line: seq<Verb>, col: nat, v: Verb) returns (cnt: nat)
      requires Valid() && col < |nouns2| && |line| == |nouns1|
      requires forall r :: 0 <= r < |nouns1| ==> grid[r, col] == line[r]
      ensures cnt == Tally(line, v)
    {
      cnt := 0;
      var row := 0;
      while row < |nouns1|
        invariant 0 <= row <= |nouns1|
        invariant cnt == Tally(line[..row], v)
      {
        Snoc(line, VerbP(v), row);
        if grid[row, col] == v {
          cnt := cnt + 1;
        }
        row := row + 1;
      }
      assert line[..row] == line;
    }
  
    /** Phase a on a row holding a single Is: "not together" for each open cell, which then closes. */
    method CloseRow(s: Solver, ghost line: seq<Verb>, row: nat, log0: seq<Commit>) returns (rs: int, log: seq<Commit>)
      requires Valid() && row < |nouns1| && |line| == |nouns2|
      requires forall c :: 0 <= c < |nouns2| ==> grid[row, c] == line[c]
      modifies grid
      ensures Outcome(rs, log) == Issue(s, log0, LineForbids('a', nouns1[row], nouns2, true, line, 0))
      ensures rs == 0 ==> forall c :: 0 <= c < |nouns2| ==> grid[row, c] == if line[c] == Maybe then IsNot else line[c]
      ensures forall r, c :: 0 <= r < |nouns1| && 0 <= c < |nouns1| && r != row ==> grid[r, c] == old(grid[r, c])
    {
      var noun1 := nouns1[row];
      ghost var all := LineForbids('a', noun1, nouns2, true, line, 0);
      rs, log := 0, log0;
      var col := 0;
      while col < |nouns2|
        invariant 0 <= col <= |nouns2|
        invariant Issue(s, log0, all) == Issue(s, log, LineForbids('a', noun1, nouns2, true, line, col))
        invariant forall c :: 0 <= c < |nouns2| ==> grid[row, c] == if c < col && line[c] == Maybe then IsNot else line[c]
        invariant forall r, c :: 0 <= r < |nouns1| && 0 <= c < |nouns1| && r != row ==> grid[r, c] == old(grid[r, c])
      {
        ghost var here := LineForbids('a', noun1, nouns2, true, line, col);
        ghost var rest := LineForbids('a', noun1, nouns2, true, line, col + 1);
        if grid[row, col] == Maybe {
          var c := Commit('a', noun1, IsNot, nouns2[col]);
          assert here == [c] + rest;
          assert here[0] == c && here[1..] == rest;
          rs := s.status(log, c);
          log := log + [c];
          if rs != 0 {
            return;
          }
          grid[row, col] := IsNot;
        } else {
          assert here == rest;
        }
        assert Issue(s, log0, all) == Issue(s, log, rest);
        col := col + 1;
      }
      rs := 0;
    }

    /** Phase b on a column holding a single Is: "not together" for each open cell, which then closes. */
    method CloseCol(s: Solver, ghost line: seq<Verb>, col: nat, log0: seq<Commit>) returns (rs: int, log: seq<Commit>)
      requires Valid() && col < |nouns2| && |line| == |nouns1|
      requires forall r :: 0 <= r < |nouns1| ==> grid[r, col] == line[r]
      modifies grid
      ensures Outcome(rs, log) == Issue(s, log0, LineForbids('b', nouns2[col], nouns1, false, line, 0))
      ensures rs == 0 ==> forall r :: 0 <= r < |nouns1| ==> grid[r, col] == if line[r] == Maybe then IsNot else line[r]
      ensures forall r, c :: 0 <= r < |nouns1| && 0 <= c < |nouns1| && c != col ==> grid[r, c] == old(grid[r, c])
    {
      var noun2 := nouns2[col];
      ghost var all := LineForbids('b', noun2, nouns1, false, line, 0);
      rs, log := 0, log0;
      var row := 0;
      while row < |nouns1|
        invariant 0 <= row <= |nouns1|
        invariant Issue(s, log0, all) == Issue(s, log, LineForbids('b', noun2, nouns1, false, line, row))
        invariant forall r :: 0 <= r < |nouns1| ==> grid[r, col] == if r < row && line[r] == Maybe then IsNot else line[r]
        invariant forall r, c :: 0 <= r < |nouns1| && 0 <= c < |nouns1| && c != col ==> grid[r, c] == old(grid[r, c])
      {
        ghost var here := LineForbids('b', noun2, nouns1, false, line, row);
        ghost var rest := LineForbids('b', noun2, nouns1, false, line, row + 1);
        if grid[row, col] == Maybe {
          var c := Commit('b', nouns1[row], IsNot, noun2);
          assert here == [c] + rest;
          assert here[0] == c && here[1..] == rest;
          rs := s.status(log, c);
          log := log + [c];
          if rs != 0 {
            return;
          }
          grid[row, col] := IsNot;
        } else {
          assert here == rest;
        }
        assert Issue(s, log0, all) == Issue(s, log, rest);
        row := row + 1;
      }
      rs := 0;
    }

    /** Phase a over all rows. */
    method CloseRows(s: Solver, ghost g: Matrix, log0: seq<Commit>) returns (rs: int, log: seq<Commit>)
      requires Valid() && Shows(g)
      modifies grid
      ensures Outcome(rs, log) == Run(s, log0, StepsA(nouns1, nouns2, g))
      ensures rs == 0 ==> Shows(AfterA(g))
    {
      ghost var steps := StepsA(nouns1, nouns2, g);
      rs, log := 0, log0;
      var row := 0;
      while row < |nouns1|
        invariant 0 <= row <= |nouns1|
        invariant Run(s, log0, steps) == Run(s, log, steps[row..])
        invariant forall r, c :: 0 <= r < |nouns1| && 0 <= c < |nouns2| ==>
                    grid[r, c] == if r < row then Closed(g[r])[c] else g[r][c]
      {
        var cnt := TallyRow(g[row], row, Is);
        assert steps[row..][0] == steps[row] && steps[row..][1..] == steps[row + 1..];
        if cnt > 1 {
          return 1, log;
        }
        if cnt == 1 {
          rs, log := CloseRow(s, g[row], row, log);
          if rs != 0 {
            return;
          }
        }
        row := row + 1;
      }
      rs := 0;
    }

    /** Phase b on one column: a violation with two Is cells, otherwise its open cells closed when it holds one. */
    method CloseColumn(s: Solver, ghost line: seq<Verb>, col: nat, log0: seq<Commit>) returns (rs: int, log: seq<Commit>)
      requires Valid() && col < |nouns2| && |line| == |nouns1|
      requires forall r :: 0 <= r < |nouns1| ==> grid[r, col] == line[r]
      modifies grid
      ensures var st := CloseStep('b', nouns2[col], nouns1, false, line);
        if st.Fail? then rs == 1 && log == log0 else Outcome(rs, log) == Issue(s, log0, st.cs)
      ensures rs == 0 ==> forall r :: 0 <= r < |nouns1| ==> grid[r, col] == Closed(line)[r]
      ensures forall r, c :: 0 <= r < |nouns1| && 0 <= c < |nouns1| && c != col ==> grid[r, c] == old(grid[r, c])
    {
      var cnt := TallyCol(line, col, Is);
      if cnt > 1 {
        return 1, log0;
      }
      if cnt == 1 {
        rs, log := CloseCol(s, line, col, log0);
      } else {
        rs, log := 0, log0;
      }
      if rs == 0 {
        forall r | 0 <= r < |nouns1|
          ensures grid[r, col] == Closed(line)[r]
        {
          ClosedAt(line, r);
        }
      }
    }

    /** Phase b over all columns. */
    method CloseCols(s: Solver, ghost g: Matrix, log0: seq<Commit>) returns (rs: int, log: seq<Commit>)
      requires Valid() && Shows(g)
      modifies grid
      ensures Outcome(rs, log) == Run(s, log0, StepsB(nouns1, nouns2, g))
      ensures rs == 0 ==> Shows(AfterB(g, |nouns2|))
    {
      ghost var steps := StepsB(nouns1, nouns2, g);
      rs, log := 0, log0;
      var col := 0;
      while col < |nouns2|
        invariant 0 <= col <= |nouns2|
        invariant Run(s, log0, steps) == Run(s, log, steps[col..])
        invariant forall r, c :: 0 <= r < |nouns1| && 0 <= c < |nouns2| ==>
                    grid[r, c] == if c < col then Closed(Column(g, |nouns2|, c))[r] else g[r][c]
      {
        ghost var line := Column(g, |nouns2|, col);
        assert steps[col..][0] == steps[col] && steps[col..][1..] == steps[col + 1..];
        rs, log := CloseColumn(s, line, col, log);
        if rs != 0 {
          return;
        }
        col := col + 1;
      }
      rs := 0;
    }

    /** The IsNot, Is and open cells of a row, counted by verb number, and the last open column (or -1). */
    method CountRow(ghost line: seq<Verb>, row: nat) returns (cnts: array<nat>, i: int)
      requires Valid() && row < |nouns1| && |line| == |nouns2|
      requires forall c :: 0 <= c < |nouns2| ==> grid[row, c] == line[c]
      ensures fresh(cnts) && cnts.Length == 3
      ensures cnts[0] == Tally(line, IsNot) && cnts[1] == Tally(line, Is) && cnts[2] == Tally(line, Maybe)
      ensures i == LastIndex(line, VerbP(Maybe))
    {
      i := -1;
      cnts := new nat[3](_ => 0);
      var col := 0;
      while col < |nouns2|
        invariant 0 <= col <= |nouns2|
        invariant cnts[0] == Tally(line[..col], IsNot) && cnts[1] == Tally(line[..col], Is)
        invariant cnts[2] == Tally(line[..col], Maybe)
        invariant i == LastIndex(line[..col], VerbP(Maybe))
      {
        Snoc(line, VerbP(IsNot), col);
        Snoc(line, VerbP(Is), col);
        Snoc(line, VerbP(Maybe), col);
        var verb := grid[row, col];
        cnts[verb.Num()] := cnts[verb.Num()] + 1;
        if verb == Maybe {
          i := col;
        }
        col := col + 1;
      }
      assert line[..col] == line;
    }

    /** The IsNot, Is and open cells of a column, counted by verb number, and the last open row (or -1). */
    method CountCol(ghost line: seq<Verb>, col: nat) returns (cnts: array<nat>, i: int)
      requires Valid() && col < |nouns2| && |line| == |nouns1|
      requires forall r :: 0 <= r < |nouns1| ==> grid[r, col] == line[r]
      ensures fresh(cnts) && cnts.Length == 3
      ensures cnts[0] == Tally(line, IsNot) && cnts[1] == Tally(line, Is) && cnts[2] == Tally(line, Maybe)
      ensures i == LastIndex(line, VerbP(Maybe))
    {
      i := -1;
      cnts := new nat[3](_ => 0);
      var row := 0;
      while row < |nouns1|
        invariant 0 <= row <= |nouns1|
        invariant cnts[0] == Tally(line[..row], IsNot) && cnts[1] == Tally(line[..row], Is)
        invariant cnts[2] == Tally(line[..row], Maybe)
        invariant i == LastIndex(line[..row], VerbP(Maybe))
      {
        Snoc(line, VerbP(IsNot), row);
        Snoc(line, VerbP(Is), row);
        Snoc(line, VerbP(Maybe), row);
        var verb := grid[row, col];
        cnts[verb.Num()] := cnts[verb.Num()] + 1;
        if verb == Maybe {
          i := row;
        }
        row := row + 1;
      }
      assert line[..row] == line;
    }

    /** Phase c on one row: all IsNot is a violation; a last open cell is requested as Is and opened. */
    method OpenRow(s: Solver, ghost line: seq<Verb>, row: nat, log0: seq<Commit>) returns (rs: int, log: seq<Commit>)
      requires Valid() && row < |nouns1| && |line| == |nouns2|
      requires forall c :: 0 <= c < |nouns2| ==> grid[row, c] == line[c]
      modifies grid
      ensures Outcome(rs, log) == Run(s, log0, [OpenStep('c', nouns1[row], nouns2, true, line, |nouns1|)])
      ensures rs == 0 ==> forall c :: 0 <= c < |nouns2| ==> grid[row, c] == Opened(line, |nouns1|)[c]
      ensures forall r, c :: 0 <= r < |nouns1| && 0 <= c < |nouns1| && r != row ==> grid[r, c] == old(grid[r, c])
    {
      var listLength := |nouns1|;
      var cnts, i := CountRow(line, row);
      ghost var step := OpenStep('c', nouns1[row], nouns2, true, line, |nouns1|);
      if cnts[0] == listLength {
        assert step == Fail;
        return 1, log0;
      }
      rs, log := 0, log0;
      if cnts[0] == listLength - 1 && cnts[1] == 0 && cnts[2] == 1 {
        var c := Commit('c', nouns1[row], Is, nouns2[i]);
        assert step == Emit([c]) && [step][1..] == [] && [c][1..] == [];
        rs := s.status(log, c);
        log := log + [c];
        if rs != 0 {
          return;
        }
        assert Issue(s, log0 + [c], []) == Outcome(0, log);
        assert Issue(s, log0, [c]) == Outcome(0, log);
        assert Run(s, log, []) == Outcome(0, log);
        grid[row, i] := Is;
      } else {
        assert step == Emit([]) && [step][1..] == [];
      }
    }

    /** Phase d on one column: all IsNot is a violation; a last open cell is requested as Is and opened. */
    method OpenCol(s: Solver, ghost line: seq<Verb>, col: nat, log0: seq<Commit>) returns (rs: int, log: seq<Commit>)
      requires Valid() && col < |nouns2| && |line| == |nouns1|
      requires forall r :: 0 <= r < |nouns1| ==> grid[r, col] == line[r]
      modifies grid
      ensures Outcome(rs, log) == Run(s, log0, [OpenStep('d', nouns2[col], nouns1, false, line, |nouns1|)])
      ensures forall r, c :: 0 <= r < |nouns1| && 0 <= c < |nouns1| && c != col ==> grid[r, c] == old(grid[r, c])
    {
      var listLength := |nouns1|;
      var cnts, i := CountCol(line, col);
      ghost var step := OpenStep('d', nouns2[col], nouns1, false, line, |nouns1|);
      if cnts[0] == listLength {
        assert step == Fail;
        return 1, log0;
      }
      rs, log := 0, log0;
      if cnts[0] == listLength - 1 && cnts[1] == 0 && cnts[2] == 1 {
        var c := Commit('d', nouns1[i], Is, nouns2[col]);
        assert step == Emit([c]) && [step][1..] == [] && [c][1..] == [];
        rs := s.status(log, c);
        log := log + [c];
        if rs != 0 {
          return;
        }
        assert Issue(s, log0 + [c], []) == Outcome(0, log);
        assert Issue(s, log0, [c]) == Outcome(0, log);
        assert Run(s, log, []) == Outcome(0, log);
        grid[i, col] := Is;
      } else {
        assert step == Emit([]) && [step][1..] == [];
      }
    }

    /** Phase c over all rows. */
    method OpenRows(s: Solver, ghost g: Matrix, log0: seq<Commit>) returns (rs: int, log: seq<Commit>)
      requires Valid() && Shows(g)
      modifies grid
      ensures Outcome(rs, log) == Run(s, log0, StepsC(nouns1, nouns2, g))
      ensures rs == 0 ==> Shows(AfterC(g, |nouns1|))
    {
      ghost var steps := StepsC(nouns1, nouns2, g);
      rs, log := 0, log0;
      var row := 0;
      while row < |nouns1|
        invariant 0 <= row <= |nouns1|
        invariant Run(s, log0, steps) == Run(s, log, steps[row..])
        invariant forall r, c :: 0 <= r < |nouns1| && 0 <= c < |nouns2| ==>
                    grid[r, c] == if r < row then Opened(g[r], |nouns1|)[c] else g[r][c]
      {
        assert steps[row..] == [steps[row]] + steps[row + 1..];
        RunAppend(s, log, [steps[row]], steps[row + 1..]);
        rs, log := OpenRow(s, g[row], row, log);
        if rs != 0 {
          return;
        }
        row := row + 1;
      }
      rs := 0;
    }

    /** Phase d over all columns. */
    method OpenCols(s: Solver, ghost g: Matrix, log0: seq<Commit>) returns (rs: int, log: seq<Commit>)
      requires Valid() && Shows(g)
      modifies grid
      ensures Outcome(rs, log) == Run(s, log0, StepsD(nouns1, nouns2, g))
    {
      ghost var steps := StepsD(nouns1, nouns2, g);
      rs, log := 0, log0;
      var col := 0;
      while col < |nouns2|
        invariant 0 <= col <= |nouns2|
        invariant Run(s, log0, steps) == Run(s, log, steps[col..])
        invariant forall r, c :: 0 <= r < |nouns1| && 0 <= c < |nouns2| && c >= col ==> grid[r, c] == g[r][c]
      {
        assert steps[col..] == [steps[col]] + steps[col + 1..];
        RunAppend(s, log, [steps[col]], steps[col + 1..]);
        rs, log := OpenCol(s, Column(g, |nouns2|, col), col, log);
        if rs != 0 {
          return;
        }
        col := col + 1;
      }
      rs := 0;
    }

    /** One invocation of the rule: populate the grid, then phases a to d. */
    method Apply(s: Solver) returns (rs: int, log: seq<Commit>)
      requires Valid()
      modifies grid
      ensures Outcome(rs, log) == MatchOneToOne(s, nouns1, nouns2)
    {
      Populate(s);
      ghost var gs := Grids(s, nouns1, nouns2);
      ghost var sa, sb := StepsA(nouns1, nouns2, gs[0]), StepsB(nouns1, nouns2, gs[1]);
      ghost var sc, sd := StepsC(nouns1, nouns2, gs[2]), StepsD(nouns1, nouns2, gs[3]);
      RunAppend(s, [], sa, sb + (sc + sd));
      rs, log := CloseRows(s, gs[0], []);
      if rs != 0 {
        return;
      }
      RunAppend(s, log, sb, sc + sd);
      rs, log := CloseCols(s, gs[1], log);
      if rs != 0 {
        return;
      }
      RunAppend(s, log, sc, sd);
      rs, log := OpenRows(s, gs[2], log);
      if rs != 0 {
        return;
      }
      rs, log := OpenCols(s, gs[3], log);
    }
  }
}
