/** Rules (Rule.java): a clue the facts cannot express, enforced by a function the solver calls on each new mark. */
module Rules {
  import opened Wrappers
  import opened Ids

  /**
   * The function a rule enforces, as the factory of SmartRule.java that
   * built it together with the arguments it captured; Custom stands for a
   * function a puzzle writes itself.
   */
  datatype RuleFn =
    | MatchAtLeastOne(noun1: NounId, nouns2: seq<NounId>)
    | MatchOneToExactlyOne(nouns1: seq<NounId>, nouns2: seq<NounId>)
    | MatchOneToOne(nouns1: seq<NounId>, nouns2: seq<NounId>)
    | MatchOneList(nouns1: seq<NounId>, lists: seq<seq<NounId>>)
    | IsNotBetween(slotType: nat, noun1: NounId, noun2: NounId, noun3: NounId)
    | IsRelated(noun1: NounId, linkNum: nat, nouns2: seq<NounId>)
    | InOppositeGroup(noun1: NounId, noun2: NounId, groupType: nat, groups: seq<int>)
    | InSameGroup(noun1: NounId, noun2: NounId, groupType: nat, groups: seq<int>)
    | Custom(tag: nat)

  class Rule {
    /** One-based number of the rule. */
    const num: nat
    const name: string
    /** The nouns the rule mentions, when given. */
    const nouns: Option<seq<NounId>>
    const initEnabled: bool
    var enabled: bool
    /** Number of times the solver referenced the rule. */
    var hits: nat
    /** The rule's function, set by the puzzle after construction. */
    var f: Option<RuleFn>

    constructor (num: nat, name: string, nouns: Option<seq<NounId>>, initEnabled: bool)
      ensures this.num == num && this.name == name && this.nouns == nouns && this.initEnabled == initEnabled
      ensures enabled == initEnabled && hits == 0 && f == None
    {
      this.num := num;
      this.name := name;
      this.nouns := nouns;
      this.enabled := initEnabled;
      this.initEnabled := initEnabled;
      this.hits := 0;
      this.f := None;
    }

    /** reset: back to the initial enabled state with no hits; the function is kept, and a second call changes nothing. */
    method Reset()
      modifies this`enabled, this`hits
      ensures enabled == initEnabled && hits == 0
    {
      enabled := initEnabled;
      hits := 0;
    }
  }
}
