/**
 * What validate in Puzzle.java checks, stated over a value view of the
 * puzzle: the checks run in a fixed order and the first one that fails
 * decides the error. Each error of the Java code (a thrown Error with a
 * message) is a `Violation` value here.
 */
module Validation {
  import opened Wrappers
  import opened Ids
  import opened Verbs

  /** A category as validate sees it: its number and how many nouns it has. */
  datatype TypeView = TypeView(num: nat, size: nat)

  /** A link as validate sees it: number, category (if any) and whether it has a function. */
  datatype LinkView = LinkView(num: nat, nounType: Option<nat>, hasF: bool)

  /** A fact as validate sees it, with its link's number and category. */
  datatype FactView = FactView(num: nat, verb: Verb, noun1: NounId, noun2: NounId, linkNum: nat, linkType: Option<nat>)

  /** A rule as validate sees it: number and whether it has a function. */
  datatype RuleView = RuleView(num: nat, hasF: bool)

  datatype PuzzleView = PuzzleView(
    name: Option<string>, title: Option<string>, types: seq<TypeView>, numVerbs: nat,
    links: seq<LinkView>, facts: seq<FactView>, rules: seq<RuleView>)

  /** The errors validate raises, in the order it checks for them. */
  datatype Violation =
    | NoName | NoTitle | FewNounTypes | FewNouns | UnequalNouns(typeNum: nat) | VerbCount | NoLinks
    | LinkNoType(linkNum: nat) | LinkNoFunction(linkNum: nat)
    | FactMaybe(factNum: nat) | FactSameNoun(factNum: nat) | FactSameType(factNum: nat) | FactLinkType(factNum: nat)
    | RuleNoFunction(ruleNum: nat) | NothingToSolve
  {
    /** One of the four errors about a single fact. */
    predicate IsFact()
    {
      FactMaybe? || FactSameNoun? || FactSameType? || FactLinkType?
    }
  }

  /** The first error a check reports over a list, scanning from the front. */
  function FirstIssue<T>(xs: seq<T>, check: T -> Option<Violation>): Option<Violation>
  {
    if |xs| == 0 then None
    else if check(xs[0]).Some? then check(xs[0])
    else FirstIssue(xs[1..], check)
  }

  function TypeIssue(size: nat, t: TypeView): Option<Violation>
  {
    if t.size != size then Some(UnequalNouns(t.num)) else None
  }

  /**
   * A link without a category or without a function. The first link
   * (With) is exempt from the category check, because validate gives it
   * the first category when it has none.
   */
  function LinkIssue(l: LinkView, first: bool): Option<Violation>
  {
    if l.nounType.None? && !first then Some(LinkNoType(l.num))
    else if !l.hasF then Some(LinkNoFunction(l.num))
    else None
  }

  function FirstLinkIssue(ls: seq<LinkView>): Option<Violation>
  {
    if |ls| == 0 then None
    else if LinkIssue(ls[0], true).Some? then LinkIssue(ls[0], true)
    else FirstIssue(ls[1..], l => LinkIssue(l, false))
  }

  /** The four fact checks, in order. */
  function FactIssue(f: FactView): Option<Violation>
  {
    if f.verb == Maybe then Some(FactMaybe(f.num))
    else if f.noun1 == f.noun2 then Some(FactSameNoun(f.num))
    else if f.linkNum < 1 && f.noun1.t == f.noun2.t then Some(FactSameType(f.num))
    else if f.linkType == Some(f.noun1.t) && f.linkType == Some(f.noun2.t) then Some(FactLinkType(f.num))
    else None
  }

  function RuleIssue(r: RuleView): Option<Violation>
  {
    if !r.hasF then Some(RuleNoFunction(r.num)) else None
  }

  /** The checks on name, title, categories, verbs and links count, in validate's order. */
  function HeaderIssue(p: PuzzleView): Option<Violation>
  {
    if p.name.None? || |p.name.value| == 0 then Some(NoName)
    else if p.title.None? || |p.title.value| == 0 then Some(NoTitle)
    else if |p.types| < 2 then Some(FewNounTypes)
    else if p.types[0].size < 2 then Some(FewNouns)
    else if FirstIssue(p.types, t => TypeIssue(p.types[0].size, t)).Some? then FirstIssue(p.types, t => TypeIssue(p.types[0].size, t))
    else if p.numVerbs != MAX_VERBS then Some(VerbCount)
    else if |p.links| < 1 then Some(NoLinks)
    else None
  }

  /** The checks after the links: every fact, every rule, then that there is something to solve. */
  function ContentIssue(facts: seq<FactView>, rules: seq<RuleView>): Option<Violation>
  {
    if FirstIssue(facts, FactIssue).Some? then FirstIssue(facts, FactIssue)
    else if FirstIssue(rules, RuleIssue).Some? then FirstIssue(rules, RuleIssue)
    else if |facts| < 1 && |rules| < 1 then Some(NothingToSolve)
    else None
  }

  /** validate's verdict: the first violation met, or None when the puzzle is valid. */
  function FirstViolation(p: PuzzleView): Option<Violation>
  {
    if HeaderIssue(p).Some? then HeaderIssue(p)
    else if FirstLinkIssue(p.links).Some? then FirstLinkIssue(p.links)
    else ContentIssue(p.facts, p.rules)
  }

  /** Everything validate demands of a puzzle, stated directly. */
  predicate Acceptable(p: PuzzleView)
  {
    && p.name.Some? && |p.name.value| > 0
    && p.title.Some? && |p.title.value| > 0
    && |p.types| >= 2 && p.types[0].size >= 2
    && (forall i :: 0 <= i < |p.types| ==> p.types[i].size == p.types[0].size)
    && p.numVerbs == MAX_VERBS
    && |p.links| >= 1
    && (forall i :: 0 <= i < |p.links| ==> (i == 0 || p.links[i].nounType.Some?) && p.links[i].hasF)
    && (forall i :: 0 <= i < |p.facts| ==> FactAcceptable(p.facts[i]))
    && (forall i :: 0 <= i < |p.rules| ==> p.rules[i].hasF)
    && (|p.facts| >= 1 || |p.rules| >= 1)
  }

  predicate FactAcceptable(f: FactView)
  {
    && f.verb != Maybe
    && f.noun1 != f.noun2
    && !(f.linkNum < 1 && f.noun1.t == f.noun2.t)
    && !(f.linkType == Some(f.noun1.t) && f.linkType == Some(f.noun2.t))
  }

  lemma {:induction false} FirstIssueNone<T>(xs: seq<T>, check: T -> Option<Violation>)
    ensures FirstIssue(xs, check).None? <==> forall i :: 0 <= i < |xs| ==> check(xs[i]).None?
    decreases |xs|
  {
    if |xs| > 0 {
      FirstIssueNone(xs[1..], check);
      assert forall i :: 1 <= i < |xs| ==> xs[i] == xs[1..][i - 1];
    }
  }

  /** A reported error comes from some element, and every element before it passed. */
  lemma {:induction false} FirstIssueSome<T>(xs: seq<T>, check: T -> Option<Violation>) returns (i: nat)
    requires FirstIssue(xs, check).Some?
    ensures i < |xs| && check(xs[i]) == FirstIssue(xs, check)
    ensures forall j :: 0 <= j < i ==> check(xs[j]).None?
    decreases |xs|
  {
    if check(xs[0]).Some? {
      i := 0;
    } else {
      var k := FirstIssueSome(xs[1..], check);
      i := k + 1;
      assert forall j :: 1 <= j < i ==> xs[j] == xs[1..][j - 1];
    }
  }

  /** When every element before i passes and element i fails, the error reported is element i's. */
  lemma {:induction false} FirstIssueAt<T>(xs: seq<T>, check: T -> Option<Violation>, i: nat)
    requires i < |xs| && check(xs[i]).Some?
    requires forall j :: 0 <= j < i ==> check(xs[j]).None?
    ensures FirstIssue(xs, check) == check(xs[i])
    decreases i
  {
    if i > 0 {
      assert forall j :: 0 <= j < i - 1 ==> xs[1..][j] == xs[j + 1];
      FirstIssueAt(xs[1..], check, i - 1);
    }
  }

  /** The link checks scan the links in order, the first one exempt from the category check. */
  lemma FirstLinkIssueAt(ls: seq<LinkView>, i: nat)
    requires i < |ls| && LinkIssue(ls[i], i == 0).Some?
    requires forall j :: 0 <= j < i ==> LinkIssue(ls[j], j == 0).None?
    ensures FirstLinkIssue(ls) == LinkIssue(ls[i], i == 0)
  {
    if i > 0 {
      assert forall j :: 0 <= j < i - 1 ==> ls[1..][j] == ls[j + 1];
      FirstIssueAt(ls[1..], l => LinkIssue(l, false), i - 1);
    }
  }

  /** The link checks pass when every link passes its own. */
  lemma FirstLinkIssueNone(ls: seq<LinkView>)
    requires forall j :: 0 <= j < |ls| ==> LinkIssue(ls[j], j == 0).None?
    ensures FirstLinkIssue(ls).None?
  {
    if |ls| > 0 {
      assert forall j :: 0 <= j < |ls| - 1 ==> ls[1..][j] == ls[j + 1];
      FirstIssueNone(ls[1..], l => LinkIssue(l, false));
    }
  }

  /** validate accepts exactly the puzzles that meet every requirement. */
  lemma ValidateAccepts(p: PuzzleView)
    ensures FirstViolation(p).None? <==> Acceptable(p)
  {
    if |p.types| >= 2 {
      FirstIssueNone(p.types, t => TypeIssue(p.types[0].size, t));
    }
    if |p.links| >= 1 {
      FirstIssueNone(p.links[1..], l => LinkIssue(l, false));
      assert forall i :: 1 <= i < |p.links| ==> p.links[i] == p.links[1..][i - 1];
    }
    FirstIssueNone(p.facts, FactIssue);
    FirstIssueNone(p.rules, RuleIssue);
  }

  /** The header checks report only header errors. */
  lemma HeaderIssueKinds(p: PuzzleView)
    ensures HeaderIssue(p).Some? ==> !HeaderIssue(p).value.IsFact()
  {
    if |p.types| >= 2 && FirstIssue(p.types, t => TypeIssue(p.types[0].size, t)).Some? {
      var k := FirstIssueSome(p.types, t => TypeIssue(p.types[0].size, t));
    }
  }

  /** The link checks report only link errors. */
  lemma LinkIssueKinds(ls: seq<LinkView>)
    ensures FirstLinkIssue(ls).Some? ==> FirstLinkIssue(ls).value.LinkNoType? || FirstLinkIssue(ls).value.LinkNoFunction?
  {
    if |ls| >= 1 && FirstIssue(ls[1..], l => LinkIssue(l, false)).Some? {
      var k := FirstIssueSome(ls[1..], l => LinkIssue(l, false));
    }
  }

  /** The rule check reports only rule errors. */
  lemma RuleIssueKinds(rs: seq<RuleView>)
    ensures FirstIssue(rs, RuleIssue).Some? ==> FirstIssue(rs, RuleIssue).value.RuleNoFunction?
  {
    if FirstIssue(rs, RuleIssue).Some? {
      var k := FirstIssueSome(rs, RuleIssue);
    }
  }

  /** A fact error names a fact that breaks that check, after every header and link check passed and every earlier fact was accepted. */
  lemma FactViolationIsFirst(p: PuzzleView)
    requires FirstViolation(p).Some? && FirstViolation(p).value.IsFact()
    ensures HeaderIssue(p).None? && FirstLinkIssue(p.links).None?
    ensures exists i :: 0 <= i < |p.facts| && FactIssue(p.facts[i]) == FirstViolation(p) &&
                        p.facts[i].num == FirstViolation(p).value.factNum &&
                        forall j :: 0 <= j < i ==> FactAcceptable(p.facts[j])
  {
    HeaderIssueKinds(p);
    LinkIssueKinds(p.links);
    RuleIssueKinds(p.rules);
    var i := FirstIssueSome(p.facts, FactIssue);
    assert FactIssue(p.facts[i]) == FirstViolation(p) && p.facts[i].num == FirstViolation(p).value.factNum;
  }

  /**
   * Whether a fact passes does not depend on its link's category when the
   * link is link 0: a fact whose nouns share that category is already
   * refused as a same-category pair under link 0.
   */
  lemma FactIssueIgnoresWithType(f: FactView, linkType: Option<nat>)
    requires f.linkNum == 0
    ensures FactIssue(f) == FactIssue(f.(linkType := linkType))
  {
  }

  /** The same facts up to the category of link 0. */
  predicate SameUpToWith(fs: seq<FactView>, gs: seq<FactView>)
  {
    |fs| == |gs| &&
    forall i :: 0 <= i < |fs| ==> fs[i] == gs[i].(linkType := fs[i].linkType) && (fs[i].linkType == gs[i].linkType || fs[i].linkNum == 0)
  }

  /** Giving link 0 a category does not change the fact verdict. */
  lemma {:induction false} FactIssuesUpToWith(fs: seq<FactView>, gs: seq<FactView>)
    requires SameUpToWith(fs, gs)
    ensures FirstIssue(fs, FactIssue) == FirstIssue(gs, FactIssue)
    decreases |fs|
  {
    if |fs| > 0 {
      if fs[0].linkNum == 0 {
        FactIssueIgnoresWithType(fs[0], gs[0].linkType);
      }
      assert SameUpToWith(fs[1..], gs[1..]) by {
        forall i | 0 <= i < |fs| - 1
          ensures fs[1..][i] == gs[1..][i].(linkType := fs[1..][i].linkType)
        {
          assert fs[1..][i] == fs[i + 1] && gs[1..][i] == gs[i + 1];
        }
      }
      FactIssuesUpToWith(fs[1..], gs[1..]);
    }
  }

  /** Nor does it change the verdict of the checks after the links. */
  lemma ContentIssueUpToWith(fs: seq<FactView>, gs: seq<FactView>, rs: seq<RuleView>)
    requires SameUpToWith(fs, gs)
    ensures ContentIssue(fs, rs) == ContentIssue(gs, rs)
  {
    FactIssuesUpToWith(fs, gs);
  }

  /** Giving the first link a category does not change the link verdict either. */
  lemma FirstLinkIssueIgnoresWithType(ls: seq<LinkView>, nounType: Option<nat>)
    requires |ls| >= 1
    ensures FirstLinkIssue(ls) == FirstLinkIssue(ls[0 := ls[0].(nounType := nounType)])
  {
    assert ls[1..] == ls[0 := ls[0].(nounType := nounType)][1..];
  }
}
