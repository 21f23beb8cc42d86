/**
 * Marks (Mark.java, with MAX_LEVELS from ISolver.java): one entry of the
 * solver's deduction journal, plus the pairing-cache lookups and the
 * reversible renaming of nouns ("placers") a mark carries.
 */
module Marks {
  import opened Wrappers
  import opened Ids
  import opened Verbs
  import opened Facts
  import opened Nouns

  /** The highest solver level; user marks and top-level marks are guesses. */
  const MAX_LEVELS: int := 4

  /** Who entered a mark. */
  datatype MarkType = NoneType | User | Level | Law | Rule

  // ---------------------------------------------------------------- decimal text

  function DigitChar(d: nat): (c: char)
    requires d < 10
    ensures '0' <= c <= '9'
  {
    ('0' as int + d) as char
  }

  /** The decimal digits of n, most significant first, as "%d" writes them. */
  function NatDigits(n: nat): (s: string)
    ensures |s| >= 1
    ensures forall i :: 0 <= i < |s| ==> '0' <= s[i] <= '9'
    decreases n
  {
    if n < 10 then [DigitChar(n)] else NatDigits(n / 10) + [DigitChar(n % 10)]
  }

  /** The value a string of decimal digits denotes. */
  function DigitsValue(s: string): nat
    requires forall i :: 0 <= i < |s| ==> '0' <= s[i] <= '9'
  {
    if |s| == 0 then 0 else 10 * DigitsValue(s[..|s| - 1]) + (s[|s| - 1] as int - '0' as int)
  }

  /** Reading the digits back gives the number: the rendering loses nothing. */
  lemma {:induction false} NatDigitsRoundTrip(n: nat)
    ensures DigitsValue(NatDigits(n)) == n
    decreases n
  {
    if n >= 10 {
      NatDigitsRoundTrip(n / 10);
      var s := NatDigits(n);
      assert s[..|s| - 1] == NatDigits(n / 10);
    }
  }

  /** An int as "%d" formats it. */
  function Decimal(n: int): (s: string)
    ensures n >= 0 ==> s == NatDigits(n)
    ensures n < 0 ==> s == ['-'] + NatDigits(-n)
  {
    if n < 0 then ['-'] + NatDigits(-n) else NatDigits(n)
  }

  // ---------------------------------------------------------------- pairing lookups

  /** The other noun of a pairing that contains `id`. */
  function Other(p: Pairing, id: NounId): (o: NounId)
    ensures id == p.noun1 || id == p.noun2 ==> {id, o} == {p.noun1, p.noun2}
  {
    if p.noun1 == id then p.noun2 else p.noun1
  }

  /** getPairNoun: the noun that noun1's cache entry for category t2 pairs it with, if any. */
  function GetPairNoun(noun1: Noun, t2: nat): (r: Option<NounId>)
    reads noun1, noun1.pairs
    requires noun1.pairs != null && 1 <= t2 <= noun1.pairs.Length
    ensures r == None <==> noun1.pairs[t2 - 1] == None
    ensures r.Some? && noun1.Id() in {noun1.pairs[t2 - 1].value.noun1, noun1.pairs[t2 - 1].value.noun2} ==>
              {noun1.Id(), r.value} == {noun1.pairs[t2 - 1].value.noun1, noun1.pairs[t2 - 1].value.noun2}
  {
    match noun1.pairs[t2 - 1]
    case None => None
    case Some(p) => Some(Other(p, noun1.Id()))
  }

  /** getPairNounNum: the number of getPairNoun's noun, or 0 when there is none. */
  function GetPairNounNum(noun1: Noun, t2: nat): (k: nat)
    reads noun1, noun1.pairs
    requires noun1.pairs != null && 1 <= t2 <= noun1.pairs.Length
    ensures k == match GetPairNoun(noun1, t2) case None => 0 case Some(n) => n.num
  {
    var entry := noun1.pairs[t2 - 1];
    if entry == None then 0 else Other(entry.value, noun1.Id()).num
  }

  /** isPair: noun1's cache entry for noun2's category names noun2. */
  predicate IsPair(noun1: Noun, noun2: Noun)
    reads noun1, noun1.pairs
    requires noun1.pairs != null && 1 <= noun2.typeNum <= noun1.pairs.Length
    ensures IsPair(noun1, noun2) <==> GetPairNoun(noun1, noun2.typeNum) == Some(noun2.Id())
    ensures IsPair(noun1, noun2) ==> noun1.pairs[noun2.typeNum - 1].Some?
  {
    GetPairNoun(noun1, noun2.typeNum) == Some(noun2.Id())
  }

  /** When the cache entry contains noun1, isPair holds exactly when the entry pairs noun1 with noun2. */
  lemma IsPairIffEntry(noun1: Noun, noun2: Noun)
    requires noun1.pairs != null && 1 <= noun2.typeNum <= noun1.pairs.Length
    requires noun1.Id() != noun2.Id()
    requires noun1.pairs[noun2.typeNum - 1].Some?
    requires noun1.Id() in {noun1.pairs[noun2.typeNum - 1].value.noun1, noun1.pairs[noun2.typeNum - 1].value.noun2}
    ensures IsPair(noun1, noun2) <==>
              {noun1.pairs[noun2.typeNum - 1].value.noun1, noun1.pairs[noun2.typeNum - 1].value.noun2} ==
              {noun1.Id(), noun2.Id()}
  {
    var p := noun1.pairs[noun2.typeNum - 1].value;
    if {p.noun1, p.noun2} == {noun1.Id(), noun2.Id()} {
      assert p.noun1 == noun1.Id() ==> p.noun2 == noun2.Id();
    }
  }

  // ---------------------------------------------------------------- the mark

  class Mark {
    /** One-based number of the mark. */
    const num: nat
    var name: string
    var markType: MarkType
    var valid: bool
    var levelNum: int
    var levelSub: char
    var levelAsString: string
    var refNum: int
    var refSub: char
    var noun1: Option<NounId>
    var verb: Option<Verb>
    var noun2: Option<NounId>
    var facts: seq<Fact>
    var lonerNum: int
    var refMark: Mark?
    var disabledFacts: seq<Fact>
    var guess: bool
    /** Nouns renamed by the rule now being applied to this mark. */
    var rulePlacers: seq<Noun>
    /** Nouns renamed by all the rules applied to this mark. */
    var placers: seq<Noun>

    /** The state reset leaves: nothing recorded. */
    predicate Blank()
      reads this
    {
      name == "" && markType == NoneType && !valid && levelNum == 0 && levelSub == ' ' &&
      levelAsString == "" && refNum == 0 && refSub == ' ' && noun1 == None && verb == None &&
      noun2 == None && facts == [] && lonerNum == -1 && refMark == null && disabledFacts == [] &&
      !guess && rulePlacers == [] && placers == []
    }

    /** The constructor takes the current number of marks and numbers this one after them. */
    constructor (count: nat)
      ensures num == count + 1
      ensures Blank()
    {
      num := count + 1;
      new;
      Reset();
    }

    /** Sets the fields naming what the mark was derived from (shared by reset and update). */
    method SetReference(refNum: int, refSub: char, noun1: Option<NounId>, verb: Option<Verb>, noun2: Option<NounId>,
                        lonerNum: int, refMark: Mark?)
      modifies this`refNum, this`refSub, this`noun1, this`verb, this`noun2, this`lonerNum, this`refMark
      ensures this.refNum == refNum && this.refSub == refSub && this.noun1 == noun1 && this.verb == verb
      ensures this.noun2 == noun2 && this.lonerNum == lonerNum && this.refMark == refMark
    {
      this.refNum := refNum;
      this.refSub := refSub;
      this.noun1 := noun1;
      this.verb := verb;
      this.noun2 := noun2;
      this.lonerNum := lonerNum;
      this.refMark := refMark;
    }

    /** Sets the fields naming the mark and its level (shared by reset and update). */
    method SetLevel(name: string, markType: MarkType, levelNum: int, levelSub: char, levelAsString: string)
      modifies this`name, this`markType, this`valid, this`levelNum, this`levelSub, this`levelAsString
      ensures this.name == name && this.markType == markType && !valid
      ensures this.levelNum == levelNum && this.levelSub == levelSub && this.levelAsString == levelAsString
    {
      this.name := name;
      this.markType := markType;
      this.valid := false;
      this.levelNum := levelNum;
      this.levelSub := levelSub;
      this.levelAsString := levelAsString;
    }

    /** Replaces the mark's facts by a copy of `copy` (none if absent), empties its disabled facts and sets the guess flag. */
    method SetFacts(copy: Option<seq<Fact>>, guess: bool)
      modifies this`facts, this`disabledFacts, this`guess
      ensures facts == (if copy.Some? then copy.value else []) && disabledFacts == [] && this.guess == guess
    {
      facts := [];
      disabledFacts := [];
      this.guess := guess;
      if copy.Some? {
        facts := facts + copy.value;
      }
    }

    /** reset: clears every field but the number. */
    method Reset()
      modifies this
      ensures Blank()
    {
      SetLevel("", NoneType, 0, ' ', "");
      SetReference(0, ' ', None, None, None, -1, null);
      SetFacts(None, false);
      rulePlacers := [];
      placers := [];
    }

    /**
     * update: records a new deduction. User marks are placed at the top
     * level; a mark is a guess when entered by the user or at the top level.
     */
    method Update(name: string, alevelNum: int, levelSub: char, markType: MarkType, refNum: int, refSub: char,
                  noun1: Option<NounId>, verb: Option<Verb>, noun2: Option<NounId>, facts: Option<seq<Fact>>,
                  lonerNum: int, refMark: Mark?)
      modifies this
      ensures this.levelNum == if markType == User then MAX_LEVELS else alevelNum
      ensures guess <==> markType == User || (markType == Level && alevelNum == MAX_LEVELS)
      ensures this.levelAsString == Decimal(this.levelNum) + [levelSub]
      ensures this.facts == (if facts.Some? then facts.value else [])
      ensures disabledFacts == [] && !valid
      ensures rulePlacers == old(rulePlacers) && placers == old(placers)
      ensures this.name == name && this.markType == markType && this.levelSub == levelSub
      ensures this.refNum == refNum && this.refSub == refSub && this.noun1 == noun1 && this.verb == verb
      ensures this.noun2 == noun2 && this.lonerNum == lonerNum && this.refMark == refMark
    {
      var level := if markType == User then MAX_LEVELS else alevelNum;
      SetLevel(name, markType, level, levelSub, Decimal(level) + [levelSub]);
      SetReference(refNum, refSub, noun1, verb, noun2, lonerNum, refMark);
      SetFacts(facts, markType == User || (markType == Level && level == MAX_LEVELS));
    }

    /** addPlacer: renames the noun and records it as renamed by the current rule. */
    method AddPlacer(noun: Noun, value: string)
      modifies this, noun
      ensures noun.name == value && noun.title == value && noun.oldName == Some(old(noun.name))
      ensures rulePlacers == old(rulePlacers) + [noun] && placers == old(placers)
    {
      noun.UpdatePlacer(value);
      rulePlacers := rulePlacers + [noun];
    }

    /** addPlacer with an integer value, renamed to its decimal text. */
    method AddPlacerInt(noun: Noun, value: int)
      modifies this, noun
      ensures noun.name == Decimal(value) && noun.title == Decimal(value)
      ensures rulePlacers == old(rulePlacers) + [noun] && placers == old(placers)
    {
      AddPlacer(noun, Decimal(value));
    }

    /** updatePlacers: moves the current rule's placers, in order, to the end of the mark's placers. */
    method UpdatePlacers()
      modifies this
      ensures placers == old(placers) + old(rulePlacers) && rulePlacers == []
    {
      placers := placers + rulePlacers;
      rulePlacers := [];
    }

    /** clearPlacers: restores every renamed noun to its original name and title, then forgets them. */
    method ClearPlacers()
      modifies this, set n | n in placers + rulePlacers
      ensures placers == [] && rulePlacers == []
      ensures forall n :: n in old(placers) + old(rulePlacers) ==> n.Unrenamed()
    {
      UpdatePlacers();
      var i := 0;
      while i < |placers|
        invariant 0 <= i <= |placers|
        invariant placers == old(placers) + old(rulePlacers) && rulePlacers == []
        invariant forall k :: 0 <= k < i ==> placers[k].Unrenamed()
      {
        placers[i].ResetPlacer();
        i := i + 1;
      }
      placers := [];
    }

    /**
     * undoDisabledFacts: re-enables the facts this mark disabled and
     * returns the lowest-numbered of those that were disabled, if any.
     */
    method UndoDisabledFacts() returns (rs: Option<Fact>)
      modifies set f | f in disabledFacts
      ensures disabledFacts == old(disabledFacts)
      ensures forall f :: f in disabledFacts ==> f.enabled
      ensures rs == None <==> forall f :: f in disabledFacts ==> old(f.enabled)
      ensures rs.Some? ==> rs.value in disabledFacts && !old(rs.value.enabled)
      ensures rs.Some? ==> forall f :: f in disabledFacts && !old(f.enabled) ==> rs.value.num <= f.num
      ensures forall f :: f in disabledFacts ==> f.hits == old(f.hits)
    {
      rs := None;
      var i := 0;
      while i < |disabledFacts|
        invariant 0 <= i <= |disabledFacts|
        invariant forall k :: 0 <= k < i ==> disabledFacts[k].enabled
        invariant forall f :: f in disabledFacts ==> f.hits == old(f.hits)
        invariant forall f :: f in disabledFacts && f !in disabledFacts[..i] ==> f.enabled == old(f.enabled)
        invariant rs == None <==> forall k :: 0 <= k < i ==> old(disabledFacts[k].enabled)
        invariant rs.Some? ==> rs.value in disabledFacts[..i] && !old(rs.value.enabled)
        invariant rs.Some? ==> forall k :: 0 <= k < i && !old(disabledFacts[k].enabled) ==> rs.value.num <= disabledFacts[k].num
      {
        var fact := disabledFacts[i];
        if !fact.enabled {
          fact.enabled := true;
          if rs == None || fact.num < rs.value.num {
            rs := Some(fact);
          }
        }
        i := i + 1;
      }
    }
  }
}
