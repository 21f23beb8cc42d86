/**
 * Nouns and categories (Noun.java, NounType.java). A noun is numbered
 * 1..n within its category, which is numbered 1..m within the puzzle; the
 * pair of ordinals is its identity (`Ids.NounId`).
 */
module Nouns {
  import opened Wrappers
  import opened Ids
  import opened Facts
  import Helper

  /** The default title of a noun: its name in title case. */
  function DefaultTitle(name: string): (t: string)
    ensures |t| == |name|
  {
    Helper.TitleCased(name, Helper.IsSpaceChar, Helper.TitleCaseChar)
  }

  class Noun {
    /** One-based number of the noun within its category. */
    const num: nat
    /** Ordinal of the noun's category. */
    const typeNum: nat
    var name: string
    var title: string
    /**
     * The pairing cache: entry t-1 is the pairing that places this noun
     * with a noun of category t, if any. Null until the puzzle is validated.
     */
    var pairs: array?<Option<Pairing>>
    /** Facts that mention this noun, filled by validation. */
    var facts: seq<Fact>
    const originalName: string
    const originalTitle: string
    /** The name before the last placer update or reset. */
    var oldName: Option<string>

    function Id(): (id: NounId)
      ensures id.t == typeNum && id.num == num
    {
      NounId(typeNum, num)
    }

    /** Name and title are the ones the noun was created with. */
    predicate Unrenamed()
      reads this
    {
      name == originalName && title == originalTitle
    }

    /** The constructor; an absent title defaults to the name in title case. */
    constructor (num: nat, typeNum: nat, name: string, title: Option<string>)
      ensures this.num == num && this.typeNum == typeNum && this.name == name
      ensures this.title == if title.Some? then title.value else DefaultTitle(name)
      ensures Unrenamed()
      ensures pairs == null && facts == [] && oldName == None
    {
      this.num := num;
      this.typeNum := typeNum;
      this.name := name;
      var t: string;
      if title.Some? {
        t := title.value;
      } else {
        t := Helper.ToTitleCase(name, Helper.IsSpaceChar, Helper.TitleCaseChar);
      }
      this.title := t;
      this.originalName := name;
      this.originalTitle := t;
      this.pairs := null;
      this.facts := [];
      this.oldName := None;
    }

    /** updatePlacer: renames the noun to `value`, remembering the previous name. */
    method UpdatePlacer(value: string)
      modifies this
      ensures oldName == Some(old(name))
      ensures name == value && title == value
      ensures pairs == old(pairs) && facts == old(facts)
    {
      oldName := Some(name);
      name := value;
      title := value;
    }

    /** resetPlacer: restores the original name and title, remembering the name it replaces. */
    method ResetPlacer()
      modifies this
      ensures oldName == Some(old(name))
      ensures Unrenamed()
      ensures pairs == old(pairs) && facts == old(facts)
    {
      oldName := Some(name);
      name := originalName;
      title := originalTitle;
    }

    /** reset: restores the placer state and clears every pairing entry, keeping the array. */
    method Reset()
      requires pairs != null
      modifies this, pairs
      ensures Unrenamed() && oldName == Some(old(name))
      ensures pairs == old(pairs) && pairs.Length == old(pairs.Length) && facts == old(facts)
      ensures forall i :: 0 <= i < pairs.Length ==> pairs[i] == None
    {
      ResetPlacer();
      var i := 0;
      while i < pairs.Length
        invariant pairs == old(pairs) && facts == old(facts)
        invariant 0 <= i <= pairs.Length
        invariant Unrenamed() && oldName == Some(old(name))
        invariant forall k :: 0 <= k < i ==> pairs[k] == None
      {
        pairs[i] := None;
        i := i + 1;
      }
    }
  }

  /** The noun is back at its original name and title with no pairing recorded. */
  ghost predicate Blank(noun: Noun)
    reads noun, noun.pairs
  {
    noun.Unrenamed() && noun.pairs != null && forall i :: 0 <= i < noun.pairs.Length ==> noun.pairs[i] == None
  }

  class NounType {
    /** One-based number of the category. */
    const num: nat
    const name: string
    var nouns: seq<Noun>

    /** The ordinal numbering invariant: nouns[i] is noun i+1 of this category. */
    ghost predicate Valid()
      reads this
    {
      forall i :: 0 <= i < |nouns| ==> nouns[i].num == i + 1 && nouns[i].typeNum == num
    }

    constructor (num: nat, name: string)
      ensures this.num == num && this.name == name && nouns == []
      ensures Valid()
    {
      this.num := num;
      this.name := name;
      nouns := [];
    }

    /** addNoun: appends a fresh noun numbered after the existing ones. */
    method AddNoun(name: string, title: Option<string>) returns (noun: Noun)
      requires Valid()
      modifies this
      ensures Valid()
      ensures fresh(noun) && nouns == old(nouns) + [noun]
      ensures noun.num == |old(nouns)| + 1 && noun.typeNum == num && noun.name == name
      ensures noun.title == if title.Some? then title.value else DefaultTitle(name)
      ensures noun.pairs == null && noun.facts == []
    {
      noun := new Noun(|nouns| + 1, num, name, title);
      nouns := nouns + [noun];
    }

    /** getNoun: the noun with one-based number k, which carries that number. */
    function GetNoun(k: nat): (noun: Noun)
      reads this, nouns
      requires Valid()
      requires 1 <= k <= |nouns|
      ensures noun in nouns && noun.num == k && noun.typeNum == num
    {
      nouns[k - 1]
    }

    /** reset: resets every noun of the category and nothing else. */
    method Reset()
      requires forall n :: n in nouns ==> n.pairs != null
      modifies set n | n in nouns, set n | n in nouns :: n.pairs
      ensures nouns == old(nouns)
      ensures forall n :: n in nouns ==> Blank(n)
      ensures forall n :: n in nouns ==> n.pairs == old(n.pairs) && n.facts == old(n.facts)
    {
      var i := 0;
      while i < |nouns|
        invariant 0 <= i <= |nouns|
        invariant forall n :: n in nouns ==> n.pairs == old(n.pairs) && n.facts == old(n.facts)
        invariant forall k :: 0 <= k < i ==> Blank(nouns[k])
      {
        nouns[i].Reset();
        i := i + 1;
      }
    }
  }
}
