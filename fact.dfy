/** Facts (Fact.java): one clue statement "noun1 verb link noun2". */
module Facts {
  import opened Wrappers
  import opened Ids
  import opened Verbs
  import opened Links

  /**
   * The fact type, decided in this order: 1 for the With link (link 0);
   * 2 when either noun lies in the link's category; 3 when both nouns
   * share a category; 4 otherwise.
   */
  function FactType(linkNum: nat, linkType: Option<nat>, t1: nat, t2: nat): (k: nat)
    ensures 1 <= k <= 4
  {
    if linkNum == 0 then 1
    else if linkType == Some(t1) || linkType == Some(t2) then 2
    else if t1 == t2 then 3
    else 4
  }

  /** The type does not depend on which noun is written first. */
  lemma FactTypeSymmetric(linkNum: nat, linkType: Option<nat>, t1: nat, t2: nat)
    ensures FactType(linkNum, linkType, t1, t2) == FactType(linkNum, linkType, t2, t1)
  {
  }

  /** Type 4 facts relate nouns of two different categories, neither of them the link's. */
  lemma FactTypeFour(linkNum: nat, linkType: Option<nat>, t1: nat, t2: nat)
    ensures FactType(linkNum, linkType, t1, t2) == 4 <==>
            linkNum != 0 && t1 != t2 && linkType != Some(t1) && linkType != Some(t2)
  {
  }

  class Fact {
    /** One-based number of the fact. */
    const num: nat
    const name: string
    const noun1: NounId
    const verb: Verb
    const link: Link
    const noun2: NounId
    const initEnabled: bool
    /** 1, 2, 3 or 4, fixed at construction from the link as it then stood. */
    const factType: nat
    var enabled: bool
    /** Number of times the solver referenced the fact. */
    var hits: nat

    constructor (num: nat, name: string, noun1: NounId, verb: Verb, link: Link, noun2: NounId, initEnabled: bool)
      ensures this.num == num && this.name == name && this.noun1 == noun1 && this.verb == verb
      ensures this.link == link && this.noun2 == noun2 && this.initEnabled == initEnabled
      ensures factType == FactType(link.num, link.nounType, noun1.t, noun2.t)
      ensures 1 <= factType <= 4
      ensures enabled == initEnabled && hits == 0
    {
      this.num := num;
      this.name := name;
      this.noun1 := noun1;
      this.verb := verb;
      this.link := link;
      this.noun2 := noun2;
      this.enabled := initEnabled;
      this.initEnabled := initEnabled;
      this.hits := 0;
      var t := 0;
      if link.num == 0 {
        t := 1;
      } else if link.nounType == Some(noun1.t) || link.nounType == Some(noun2.t) {
        t := 2;
      } else if noun1.t == noun2.t {
        t := 3;
      } else if noun1.t != noun2.t {
        t := 4;
      }
      this.factType := t;
    }

    /** reset: back to the initial enabled state with no hits; calling it twice changes nothing more. */
    method Reset()
      modifies this`enabled, this`hits
      ensures enabled == initEnabled && hits == 0
    {
      enabled := initEnabled;
      hits := 0;
    }
  }
}
