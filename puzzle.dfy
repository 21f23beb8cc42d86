/**
 * The puzzle (Puzzle.java): categories of nouns, links, facts and rules,
 * built up by the add methods, then checked and prepared for the solver
 * by validate.
 */
module Puzzles {
  import opened Wrappers
  import opened Ids
  import opened Verbs
  import opened SmartLink
  import opened Links
  import opened Facts
  import opened Nouns
  import Marks
  import Rules
  import opened ClueMessages
  import opened FactRequests
  import opened Validation

  /** What addFact compares of two facts: their nouns, verb and link. */
  datatype FactKey = FactKey(noun1: NounId, verb: Verb, link: Link, noun2: NounId)

  function KeyOf(f: Fact): FactKey
  {
    FactKey(f.noun1, f.verb, f.link, f.noun2)
  }

  function Keys(fs: seq<Fact>): seq<FactKey>
  {
    seq(|fs|, i requires 0 <= i < |fs| => KeyOf(fs[i]))
  }

  function RequestKey(r: Request): FactKey
  {
    FactKey(r.noun1.Id(), r.verb, r.link, r.noun2.Id())
  }

  function RequestKeys(rs: seq<Request>): seq<FactKey>
  {
    seq(|rs|, i requires 0 <= i < |rs| => RequestKey(rs[i]))
  }

  /**
   * addFact's duplicate test of an existing fact against a new one: the
   * same verb, and either the same nouns and link, or the nouns swapped
   * under the With link.
   */
  predicate Duplicates(existing: FactKey, k: FactKey, with: Link)
  {
    existing.verb == k.verb &&
    ((existing.noun1 == k.noun1 && existing.link == k.link && existing.noun2 == k.noun2) ||
     (existing.noun1 == k.noun2 && existing.link == k.link && existing.link == with && existing.noun2 == k.noun1))
  }

  /** Some existing fact duplicates k. */
  predicate Known(keys: seq<FactKey>, k: FactKey, with: Link)
  {
    exists i :: 0 <= i < |keys| && Duplicates(keys[i], k, with)
  }

  /** The facts after one addFact: unchanged on a duplicate, else the new fact appended. */
  function AddKey(keys: seq<FactKey>, k: FactKey, with: Link): seq<FactKey>
  {
    if Known(keys, k, with) then keys else keys + [k]
  }

  /** The facts after one addFact per key, in order. */
  function AddKeys(keys: seq<FactKey>, ks: seq<FactKey>, with: Link): seq<FactKey>
    decreases |ks|
  {
    if |ks| == 0 then keys else AddKey(AddKeys(keys, ks[..|ks| - 1], with), ks[|ks| - 1], with)
  }

  /** No fact duplicates an earlier one. */
  predicate NoDuplicates(keys: seq<FactKey>, with: Link)
  {
    forall i, j :: 0 <= i < j < |keys| ==> !Duplicates(keys[i], keys[j], with)
  }

  /** addFact keeps the fact list free of duplicates. */
  lemma {:induction false} AddKeysNoDuplicates(keys: seq<FactKey>, ks: seq<FactKey>, with: Link)
    requires NoDuplicates(keys, with)
    ensures NoDuplicates(AddKeys(keys, ks, with), with)
    decreases |ks|
  {
    if |ks| > 0 {
      AddKeysNoDuplicates(keys, ks[..|ks| - 1], with);
      var before := AddKeys(keys, ks[..|ks| - 1], with);
      var after := AddKey(before, ks[|ks| - 1], with);
      forall i, j | 0 <= i < j < |after|
        ensures !Duplicates(after[i], after[j], with)
      {
        if j == |before| {
          assert after[i] == before[i];
        }
      }
    }
  }

  /** The earlier facts stay, and every submitted fact is afterwards present or duplicated. */
  lemma {:induction false} AddKeysCovers(keys: seq<FactKey>, ks: seq<FactKey>, with: Link)
    ensures keys <= AddKeys(keys, ks, with)
    ensures forall k :: k in ks ==> Known(AddKeys(keys, ks, with), k, with)
    decreases |ks|
  {
    if |ks| > 0 {
      var init := ks[..|ks| - 1];
      var last := ks[|ks| - 1];
      AddKeysCovers(keys, init, with);
      var before := AddKeys(keys, init, with);
      var after := AddKey(before, last, with);
      assert before <= after;
      forall k | k in ks
        ensures Known(after, k, with)
      {
        if k == last {
          if !Known(before, last, with) {
            assert Duplicates(after[|before|], last, with);
          }
        } else {
          assert k in init;
          var i :| 0 <= i < |before| && Duplicates(before[i], k, with);
          assert after[i] == before[i];
        }
      }
    }
  }

  /** Every fact beyond the earlier ones is one of the submitted ones. */
  lemma {:induction false} AddKeysFromSubmitted(keys: seq<FactKey>, ks: seq<FactKey>, with: Link)
    ensures |keys| <= |AddKeys(keys, ks, with)| <= |keys| + |ks|
    ensures forall i :: |keys| <= i < |AddKeys(keys, ks, with)| ==> AddKeys(keys, ks, with)[i] in ks
    decreases |ks|
  {
    if |ks| > 0 {
      var init := ks[..|ks| - 1];
      AddKeysFromSubmitted(keys, init, with);
      var before := AddKeys(keys, init, with);
      forall i | |keys| <= i < |before|
        ensures before[i] in ks
      {
        assert before[i] in init;
      }
    }
  }

  /** Adding the same fact twice adds it once. */
  lemma AddKeyIdempotent(keys: seq<FactKey>, k: FactKey, with: Link)
    ensures AddKey(AddKey(keys, k, with), k, with) == AddKey(keys, k, with)
  {
    if !Known(keys, k, with) {
      assert Duplicates((keys + [k])[|keys|], k, with);
    }
  }

  /** Under With, a fact and its mirror image count as one fact. */
  lemma WithMirrorIsDuplicate(keys: seq<FactKey>, n1: NounId, verb: Verb, n2: NounId, with: Link)
    ensures var once := AddKey(keys, FactKey(n1, verb, with, n2), with);
            AddKey(once, FactKey(n2, verb, with, n1), with) == once
  {
    var k := FactKey(n1, verb, with, n2);
    var once := AddKey(keys, k, with);
    if Known(keys, k, with) {
      var i :| 0 <= i < |keys| && Duplicates(keys[i], k, with);
      assert Duplicates(once[i], FactKey(n2, verb, with, n1), with);
    } else {
      assert Duplicates(once[|keys|], FactKey(n2, verb, with, n1), with);
    }
  }

  /** The identities of a list of nouns. */
  function NounIds(ns: seq<Noun>): (ids: seq<NounId>)
    ensures |ids| == |ns|
    ensures forall i :: 0 <= i < |ns| ==> ids[i].t == ns[i].typeNum && ids[i].num == ns[i].num
  {
    seq(|ns|, i requires 0 <= i < |ns| => ns[i].Id())
  }

  /** sayFact: the default fact text, "PARENT noun1 verb link noun2." */
  function SayFact(noun1Name: string, verb: Verb, linkName: string, noun2Name: string): string
  {
    "PARENT " + noun1Name + " " + PuzzleVerbs()[verb.Num()].name + " " + linkName + " " + noun2Name + "."
  }

  /** The text a fact is named by: the given name, or sayFact when the name is absent or empty. */
  function FactText(name: Option<string>, noun1: Noun, verb: Verb, link: Link, noun2: Noun): string
    reads noun1, noun2
  {
    if name.None? || |name.value| < 1 then SayFact(noun1.name, verb, link.name, noun2.name) else name.value
  }

  /** The categories as validate's checks see them. */
  function TypeViews(ts: seq<NounType>): (vs: seq<TypeView>)
    reads set t | t in ts
    ensures |vs| == |ts|
    ensures forall i :: 0 <= i < |ts| ==> vs[i] == TypeView(ts[i].num, |ts[i].nouns|)
  {
    seq(|ts|, i requires 0 <= i < |ts| reads set t | t in ts => TypeView(ts[i].num, |ts[i].nouns|))
  }

  /** The links as validate's checks see them. */
  function LinkViews(ls: seq<Link>): (vs: seq<LinkView>)
    reads set l | l in ls
    ensures |vs| == |ls|
    ensures forall i :: 0 <= i < |ls| ==> vs[i] == LinkView(ls[i].num, ls[i].nounType, ls[i].f.Some?)
  {
    seq(|ls|, i requires 0 <= i < |ls| reads set l | l in ls => LinkView(ls[i].num, ls[i].nounType, ls[i].f.Some?))
  }

  /** The facts as validate's checks see them, each with its link's number and category. */
  function FactViews(fs: seq<Fact>): (vs: seq<FactView>)
    reads set f | f in fs :: f.link
    ensures |vs| == |fs|
    ensures forall i :: 0 <= i < |fs| ==>
              vs[i] == FactView(fs[i].num, fs[i].verb, fs[i].noun1, fs[i].noun2, fs[i].link.num, fs[i].link.nounType)
  {
    seq(|fs|, i requires 0 <= i < |fs| reads set f | f in fs :: f.link =>
      FactView(fs[i].num, fs[i].verb, fs[i].noun1, fs[i].noun2, fs[i].link.num, fs[i].link.nounType))
  }

  /** The rules as validate's checks see them. */
  function RuleViews(rs: seq<Rules.Rule>): (vs: seq<RuleView>)
    reads set r | r in rs
    ensures |vs| == |rs|
    ensures forall i :: 0 <= i < |rs| ==> vs[i] == RuleView(rs[i].num, rs[i].f.Some?)
  {
    seq(|rs|, i requires 0 <= i < |rs| reads set r | r in rs => RuleView(rs[i].num, rs[i].f.Some?))
  }

  /** A link's cached flags agree with its function over `size` slots. */
  ghost predicate LinkUpdated(l: Link, size: nat)
    reads l
  {
    l.f.Some? && l.oneToOne == OneToOne(l.f.value, size) &&
    l.ssNeg == InSameSlot(l.f.value, IsNot, size) && l.ssPos == InSameSlot(l.f.value, Is, size)
  }

  /**
   * Whether validate lists fact f under the noun `id` when f's link has
   * category t: the link is not With, neither noun is of category t, and
   * the fact mentions the noun.
   */
  predicate ListedWith(f: Fact, t: Option<nat>, id: NounId)
  {
    f.link.num >= 1 && t != Some(f.noun1.t) && t != Some(f.noun2.t) && (f.noun1 == id || f.noun2 == id)
  }

  /** Whether validate lists fact f under the noun `id`, with its link's current category. */
  predicate ListedUnder(f: Fact, id: NounId)
    reads f.link
  {
    ListedWith(f, f.link.nounType, id)
  }

  /** The facts validate lists under a noun, in fact order. */
  function FactsOf(fs: seq<Fact>, id: NounId): seq<Fact>
    reads set f | f in fs :: f.link
  {
    if |fs| == 0 then []
    else FactsOf(fs[..|fs| - 1], id) + (if ListedUnder(fs[|fs| - 1], id) then [fs[|fs| - 1]] else [])
  }

  /** A noun's list holds exactly the facts that mention it under a link of another category, in their order. */
  lemma {:induction false} FactsOfMembers(fs: seq<Fact>, id: NounId)
    ensures forall f :: f in FactsOf(fs, id) <==> f in fs && ListedUnder(f, id)
    ensures |FactsOf(fs, id)| <= |fs|
    decreases |fs|
  {
    if |fs| > 0 {
      var init := fs[..|fs| - 1];
      FactsOfMembers(init, id);
      assert fs == init + [fs[|fs| - 1]];
    }
  }

  /** Facts look the same to validate's checks after a change of category on link 0 only. */
  twostate lemma FactViewsUpToWith(fs: seq<Fact>)
    requires forall f :: f in fs ==> f.link.num == 0 || f.link.nounType == old(f.link.nounType)
    ensures SameUpToWith(old(FactViews(fs)), FactViews(fs))
  {
    forall i | 0 <= i < |fs|
      ensures fs[i].link.num == 0 || fs[i].link.nounType == old(fs[i].link.nounType)
    {
      assert fs[i] in fs;
    }
  }

  /** The category of each fact's link, in fact order. */
  function LinkTypes(fs: seq<Fact>): (ts: seq<Option<nat>>)
    reads set f | f in fs :: f.link
    ensures |ts| == |fs|
    ensures forall i :: 0 <= i < |fs| ==> ts[i] == fs[i].link.nounType
  {
    seq(|fs|, i requires 0 <= i < |fs| reads set f | f in fs :: f.link => fs[i].link.nounType)
  }

  /** FactsOf with the links' categories given as `ts`. */
  function Listed(fs: seq<Fact>, ts: seq<Option<nat>>, id: NounId): seq<Fact>
    requires |ts| == |fs|
  {
    if |fs| == 0 then []
    else Listed(fs[..|fs| - 1], ts[..|fs| - 1], id) + (if ListedWith(fs[|fs| - 1], ts[|fs| - 1], id) then [fs[|fs| - 1]] else [])
  }

  /** A noun's list depends on the heap only through the categories of the facts' links. */
  lemma {:induction false} FactsOfListed(fs: seq<Fact>, id: NounId)
    ensures FactsOf(fs, id) == Listed(fs, LinkTypes(fs), id)
    decreases |fs|
  {
    if |fs| > 0 {
      var init := fs[..|fs| - 1];
      FactsOfListed(init, id);
      assert LinkTypes(fs)[..|fs| - 1] == LinkTypes(init);
    }
  }

  class Puzzle {
    var myName: Option<string>
    var myTitle: Option<string>
    var nounTypes: seq<NounType>
    /** IsNot, Is and Maybe, by verb number. */
    const verbs: seq<VerbInfo>
    var links: seq<Link>
    var facts: seq<Fact>
    var rules: seq<Rules.Rule>
    var maxNounTypes: nat
    /** The number of nouns per category, once validate has checked that they agree. */
    var maxNouns: nat
    var maxLinks: nat
    var maxFacts: nat
    var maxRules: nat
    var isValid: bool
    /** The expected solution, if known: entry [t-2][k] is the zero-based partner in category t of noun k+1 of category 1. */
    var answer: Option<seq<seq<int>>>
    /** Link 0, "with": two nouns share a slot. */
    const with: Link

    /**
     * The numbering invariant: category i+1 at index i, link i at index i
     * (with With first), fact and rule i+1 at index i; each count field
     * holds the length of its list.
     */
    ghost predicate Valid()
      reads this, (set t | t in nounTypes)
    {
      && (forall i :: 0 <= i < |nounTypes| ==> nounTypes[i].num == i + 1 && nounTypes[i].Valid())
      && |links| >= 1 && links[0] == with
      && (forall i :: 0 <= i < |links| ==> links[i].num == i)
      && (forall i :: 0 <= i < |facts| ==> facts[i].num == i + 1)
      && (forall i :: 0 <= i < |rules| ==> rules[i].num == i + 1)
      && maxNounTypes == |nounTypes| && maxLinks == |links| && maxFacts == |facts| && maxRules == |rules|
    }

    /** Every noun of every category. */
    ghost function NounSet(): set<Noun>
      reads this`nounTypes, (set t | t in nounTypes)
    {
      set t, n | t in nounTypes && n in t.nouns :: n
    }

    /** The pairing arrays of the nouns. */
    ghost function PairArrays(): set<array<Option<Pairing>>>
      reads this`nounTypes, (set t | t in nounTypes), NounSet()
    {
      set n | n in NounSet() && n.pairs != null :: n.pairs
    }

    /** The puzzle as Java's constructor leaves it: only the With link, on no category yet. */
    constructor ()
      ensures Valid()
      ensures myName == None && myTitle == None && nounTypes == [] && facts == [] && rules == []
      ensures verbs == PuzzleVerbs() && links == [with] && fresh(with)
      ensures with.name == "with" && with.nounType == None && with.f == Some(IsWith)
      ensures maxNouns == 0 && !isValid && answer == None
    {
      var w := new Link(0, "with", None);
      w.f := Some(IsWith);
      myName := None;
      myTitle := None;
      nounTypes := [];
      verbs := PuzzleVerbs();
      links := [w];
      facts := [];
      rules := [];
      maxNounTypes := 0;
      maxNouns := 0;
      maxLinks := 1;
      maxFacts := 0;
      maxRules := 0;
      isValid := false;
      answer := None;
      with := w;
    }

    /** addNounType: appends a new empty category; the first one becomes With's category. */
    method AddNounType(name: string) returns (nounType: NounType)
      requires Valid()
      modifies this`nounTypes, this`maxNounTypes, this`maxNouns, with`nounType
      ensures Valid()
      ensures fresh(nounType) && nounTypes == old(nounTypes) + [nounType]
      ensures nounType.num == |nounTypes| && nounType.name == name && nounType.nouns == []
      ensures nounType.num == 1 ==> maxNouns == 0 && with.nounType == Some(1)
      ensures nounType.num != 1 ==> maxNouns == old(maxNouns) && with.nounType == old(with.nounType)
    {
      nounType := new NounType(|nounTypes| + 1, name);
      nounTypes := nounTypes + [nounType];
      maxNounTypes := |nounTypes|;
      if nounType.num == 1 {
        maxNouns := |nounType.nouns|;
        with.nounType := Some(nounType.num);
      }
    }

    /** addLink: appends a new link, numbered by its position, on the given category. */
    method AddLink(name: string, nounType: Option<nat>) returns (link: Link)
      requires Valid()
      modifies this`links, this`maxLinks
      ensures Valid()
      ensures fresh(link) && links == old(links) + [link]
      ensures link.num == |old(links)| && link.name == name && link.nounType == nounType && link.f == None
      ensures maxLinks == |links|
    {
      link := new Link(|links|, name, nounType);
      links := links + [link];
      maxLinks := |links|;
    }

    /**
     * addFact for one pair of nouns: nothing happens when an existing fact
     * duplicates it; otherwise a new fact numbered after the others is
     * appended, named by the given name (or sayFact) with the clue label.
     */
    method AddFact(clueNum: Option<string>, noun1: Noun, verb: Verb, link: Link, noun2: Noun, name: Option<string>, initEnabled: bool)
      returns (fact: Option<Fact>)
      requires Valid()
      modifies this`facts, this`maxFacts
      ensures Valid()
      ensures Keys(facts) == AddKey(Keys(old(facts)), FactKey(noun1.Id(), verb, link, noun2.Id()), with)
      ensures Known(Keys(old(facts)), FactKey(noun1.Id(), verb, link, noun2.Id()), with) ==>
                fact == None && facts == old(facts)
      ensures !Known(Keys(old(facts)), FactKey(noun1.Id(), verb, link, noun2.Id()), with) ==>
                && fact.Some? && fresh(fact.value) && facts == old(facts) + [fact.value]
                && fact.value.num == |facts|
                && fact.value.name == ClueNumMsg(clueNum, FactText(name, noun1, verb, link, noun2))
                && fact.value.initEnabled == initEnabled && fact.value.enabled == initEnabled && fact.value.hits == 0
    {
      var txt: string;
      if name.None? || |name.value| < 1 {
        txt := SayFact(noun1.name, verb, link.name, noun2.name);
      } else {
        txt := name.value;
      }
      var k := FactKey(noun1.Id(), verb, link, noun2.Id());
      var i := 0;
      while i < |facts|
        invariant 0 <= i <= |facts|
        invariant forall j :: 0 <= j < i ==> !Duplicates(Keys(facts)[j], k, with)
      {
        var oldFact := facts[i];
        if oldFact.verb == verb {
          var ok := true;
          if oldFact.noun1 == noun1.Id() && oldFact.link == link && oldFact.noun2 == noun2.Id() {
            ok := false;
          } else if oldFact.noun1 == noun2.Id() && oldFact.link == link && oldFact.link == with && oldFact.noun2 == noun1.Id() {
            ok := false;
          }
          if !ok {
            assert Duplicates(Keys(facts)[i], k, with);
            return None;
          }
        }
        i := i + 1;
      }
      var f := new Fact(|facts| + 1, ClueNumMsg(clueNum, txt), noun1.Id(), verb, link, noun2.Id(), initEnabled);
      facts := facts + [f];
      maxFacts := |facts|;
      fact := Some(f);
      assert Keys(facts) == Keys(old(facts)) + [k];
    }

    /**
     * The loop every list-taking addFact overload runs: the single-fact
     * addFact once per request, returning what the last call returned.
     */
    method AddRequests(clueNum: Option<string>, reqs: seq<Request>, name: Option<string>, initEnabled: bool)
      returns (fact: Option<Fact>)
      requires Valid()
      modifies this`facts, this`maxFacts
      ensures Valid()
      ensures Keys(facts) == AddKeys(Keys(old(facts)), RequestKeys(reqs), with)
      ensures |reqs| == 0 ==> fact == None
      ensures fact.Some? ==> |facts| >= 1 && fact.value == facts[|facts| - 1] && KeyOf(fact.value) == RequestKey(reqs[|reqs| - 1])
    {
      fact := None;
      var i := 0;
      while i < |reqs|
        invariant 0 <= i <= |reqs|
        invariant Valid()
        invariant Keys(facts) == AddKeys(Keys(old(facts)), RequestKeys(reqs[..i]), with)
        invariant i == 0 ==> fact == None
        invariant fact.Some? ==> i >= 1 && |facts| >= 1 && fact.value == facts[|facts| - 1] && KeyOf(fact.value) == RequestKey(reqs[i - 1])
      {
        var r := reqs[i];
        fact := AddFact(clueNum, r.noun1, r.verb, r.link, r.noun2, name, initEnabled);
        assert RequestKeys(reqs[..i + 1])[..i] == RequestKeys(reqs[..i]);
        assert RequestKeys(reqs[..i + 1])[i] == RequestKey(r);
        if fact.Some? {
          assert Keys(facts)[|facts| - 1] == KeyOf(fact.value);
        }
        i := i + 1;
      }
      assert reqs[..i] == reqs;
    }

    /** addFact with one noun and a list of nouns. */
    method AddFactOneToMany(clueNum: Option<string>, noun1: Noun, verb: Verb, link: Link, nouns2: seq<Noun>, name: Option<string>, initEnabled: bool)
      returns (fact: Option<Fact>)
      requires Valid()
      modifies this`facts, this`maxFacts
      ensures Valid()
      ensures Keys(facts) == AddKeys(Keys(old(facts)), RequestKeys(OneToMany(noun1, verb, link, nouns2, with)), with)
    {
      fact := AddRequests(clueNum, OneToMany(noun1, verb, link, nouns2, with), name, initEnabled);
    }

    /** addFact with a list of nouns and one noun. */
    method AddFactManyToOne(clueNum: Option<string>, nouns1: seq<Noun>, verb: Verb, link: Link, noun2: Noun, name: Option<string>, initEnabled: bool)
      returns (fact: Option<Fact>)
      requires Valid()
      modifies this`facts, this`maxFacts
      ensures Valid()
      ensures Keys(facts) == AddKeys(Keys(old(facts)), RequestKeys(ManyToOne(nouns1, verb, link, noun2, with)), with)
    {
      fact := AddRequests(clueNum, ManyToOne(nouns1, verb, link, noun2, with), name, initEnabled);
    }

    /** addFact with two lists of nouns, the second possibly empty. */
    method AddFactManyToMany(clueNum: Option<string>, nouns1: seq<Noun>, verb: Verb, link: Link, nouns2: seq<Noun>, name: Option<string>, initEnabled: bool)
      returns (fact: Option<Fact>)
      requires Valid()
      modifies this`facts, this`maxFacts
      ensures Valid()
      ensures Keys(facts) == AddKeys(Keys(old(facts)), RequestKeys(ManyToMany(nouns1, verb, link, nouns2, with)), with)
    {
      fact := AddRequests(clueNum, ManyToMany(nouns1, verb, link, nouns2, with), name, initEnabled);
    }

    /** addFactsInSequence. */
    method AddFactsInSequence(clueNum: Option<string>, nouns: seq<Noun>, verb: Verb, link: Link, name: Option<string>, initEnabled: bool)
      returns (fact: Option<Fact>)
      requires Valid()
      modifies this`facts, this`maxFacts
      ensures Valid()
      ensures Keys(facts) == AddKeys(Keys(old(facts)), RequestKeys(InSequence(nouns, verb, link)), with)
    {
      fact := AddRequests(clueNum, InSequence(nouns, verb, link), name, initEnabled);
    }

    /** addFactsOneToOne over two lists. */
    method AddFactsOneToOne(clueNum: Option<string>, nouns1: seq<Noun>, verb: Verb, link: Link, nouns2: seq<Noun>, name: Option<string>, initEnabled: bool)
      returns (fact: Option<Fact>)
      requires Valid()
      modifies this`facts, this`maxFacts
      ensures Valid()
      ensures Keys(facts) == AddKeys(Keys(old(facts)), RequestKeys(OneToOneLists(nouns1, verb, link, nouns2)), with)
    {
      fact := AddRequests(clueNum, OneToOneLists(nouns1, verb, link, nouns2), name, initEnabled);
    }

    /** addFactsOneToOne over two categories; the second must have at least as many nouns as the first. */
    method AddFactsOneToOneTypes(clueNum: Option<string>, nounType1: NounType, verb: Verb, link: Link, nounType2: NounType, name: Option<string>, initEnabled: bool)
      returns (fact: Option<Fact>)
      requires Valid()
      requires |nounType1.nouns| <= |nounType2.nouns|
      modifies this`facts, this`maxFacts
      ensures Valid()
      ensures Keys(facts) == AddKeys(Keys(old(facts)), RequestKeys(Zip(nounType1.nouns, verb, link, nounType2.nouns)), with)
    {
      fact := AddRequests(clueNum, Zip(nounType1.nouns, verb, link, nounType2.nouns), name, initEnabled);
    }

    /** addFactsStartsWith; every noun of the category needs a non-empty name. */
    method AddFactsStartsWith(clueNum: Option<string>, noun1: Noun, nounType2: NounType, flag: bool, ch: char, name: Option<string>, initEnabled: bool)
      returns (fact: Option<Fact>)
      requires Valid()
      requires forall n :: n in nounType2.nouns ==> |n.name| >= 1
      modifies this`facts, this`maxFacts
      ensures Valid()
      ensures Keys(facts) == AddKeys(Keys(old(facts)), RequestKeys(StartsWith(noun1, nounType2.nouns, flag, ch, with)), with)
    {
      fact := AddRequests(clueNum, StartsWith(noun1, nounType2.nouns, flag, ch, with), name, initEnabled);
    }

    /** addFactsIsNotFirstChar; every noun of both categories needs a non-empty name. */
    method AddFactsIsNotFirstChar(clueNum: Option<string>, nounType1: NounType, nounType2: NounType, flag: bool, name: Option<string>, initEnabled: bool)
      returns (fact: Option<Fact>)
      requires Valid()
      requires forall n :: n in nounType1.nouns ==> |n.name| >= 1
      requires forall n :: n in nounType2.nouns ==> |n.name| >= 1
      modifies this`facts, this`maxFacts
      ensures Valid()
      ensures Keys(facts) == AddKeys(Keys(old(facts)), RequestKeys(FirstChar(nounType1.nouns, nounType2.nouns, flag, with)), with)
    {
      fact := AddRequests(clueNum, FirstChar(nounType1.nouns, nounType2.nouns, flag, with), name, initEnabled);
    }

    /** addFactsNotConsecutive, over the slots of the link's category, which the link must have. */
    method AddFactsNotConsecutive(clueNum: Option<string>, nouns: seq<Noun>, link: Link, name: Option<string>, initEnabled: bool)
      returns (fact: Option<Fact>)
      requires Valid()
      requires link.nounType.Some? && 1 <= link.nounType.value <= |nounTypes|
      modifies this`facts, this`maxFacts
      ensures Valid()
      ensures Keys(facts) == AddKeys(Keys(old(facts)),
                RequestKeys(NotConsecutive(nouns, link, nounTypes[link.nounType.value - 1].nouns, with)), with)
    {
      var slots := nounTypes[link.nounType.value - 1].nouns;
      fact := AddRequests(clueNum, NotConsecutive(nouns, link, slots, with), name, initEnabled);
    }

    /** addRule: appends a new rule numbered after the others, its name carrying the clue label. */
    method AddRule(clueNum: Option<string>, name: string, nouns: Option<seq<Noun>>, initEnabled: bool) returns (rule: Rules.Rule)
      requires Valid()
      modifies this`rules, this`maxRules
      ensures Valid()
      ensures fresh(rule) && rules == old(rules) + [rule] && rule.num == |rules| && maxRules == |rules|
      ensures rule.name == ClueNumMsg(clueNum, name)
      ensures rule.nouns == if nouns.Some? then Some(NounIds(nouns.value)) else None
      ensures rule.initEnabled == initEnabled && rule.enabled == initEnabled && rule.hits == 0 && rule.f == None
    {
      var msg := ClueNumMsg(clueNum, name);
      var ids := if nouns.Some? then Some(NounIds(nouns.value)) else None;
      rule := new Rules.Rule(|rules| + 1, msg, ids, initEnabled);
      rules := rules + [rule];
      maxRules := |rules|;
    }

    /** getNounType: the category with the given one-based number. */
    function GetNounType(num: nat): (t: NounType)
      reads this, (set t | t in nounTypes)
      requires Valid() && 1 <= num <= |nounTypes|
      ensures t in nounTypes && t.num == num
    {
      nounTypes[num - 1]
    }

    /** getNoun: the noun with the given category and noun numbers, which is the noun so identified. */
    function GetNoun(typeNum: nat, num: nat): (n: Noun)
      reads this, (set t | t in nounTypes)
      requires Valid() && 1 <= typeNum <= |nounTypes| && 1 <= num <= |nounTypes[typeNum - 1].nouns|
      ensures n in NounSet() && n.Id() == NounId(typeNum, num)
    {
      var t := nounTypes[typeNum - 1];
      assert t in nounTypes && t.nouns[num - 1] in t.nouns;
      t.nouns[num - 1]
    }

    /** getVerb: the verb with the given zero-based number. */
    function GetVerb(num: nat): (v: VerbInfo)
      requires num < |verbs|
      ensures verbs == PuzzleVerbs() ==> v.num == num
    {
      assert num < MAX_VERBS ==> FromNum(num).Num() == num;
      verbs[num]
    }

    /** Every noun has a pairing array (true once validate has run). */
    ghost predicate PairsAllocated()
      reads this, (set t | t in nounTypes), NounSet()
    {
      forall n :: n in NounSet() ==> n.pairs != null
    }

    /** The first loop of reset: every category resets its nouns. */
    method ResetNounTypes()
      requires Valid() && PairsAllocated()
      modifies NounSet(), PairArrays()
      ensures forall n :: n in NounSet() ==> Blank(n) && n.pairs == old(n.pairs) && n.facts == old(n.facts)
    {
      var i := 0;
      while i < |nounTypes|
        invariant 0 <= i <= |nounTypes|
        invariant forall n :: n in NounSet() ==> n.pairs == old(n.pairs) && n.facts == old(n.facts)
        invariant forall j, n :: 0 <= j < i && n in nounTypes[j].nouns ==> Blank(n)
      {
        var current := nounTypes[i];
        label Before:
        current.Reset();
        forall j, n | 0 <= j <= i && n in nounTypes[j].nouns
          ensures Blank(n)
        {
          if j < i {
            var k :| 0 <= k < |nounTypes[j].nouns| && nounTypes[j].nouns[k] == n;
            assert n.typeNum == j + 1 != current.num;
            assert n !in current.nouns;
            assert old@Before(Blank(n));
            assert n.name == old@Before(n.name) && n.title == old@Before(n.title);
            if m :| m in current.nouns && m.pairs == n.pairs {
              assert Blank(m);
            }
          }
        }
        i := i + 1;
      }
    }

    /** Every fact back to its initial state: enabled as it was created, and no hits. */
    ghost predicate FactsRestarted()
      reads this, set f | f in facts
    {
      forall f :: f in facts ==> f.enabled == f.initEnabled && f.hits == 0
    }

    /** Every rule back to its initial state: enabled as it was created, and no hits. */
    ghost predicate RulesRestarted()
      reads this, set r | r in rules
    {
      forall r :: r in rules ==> r.enabled == r.initEnabled && r.hits == 0
    }

    /** The second loop of reset: every fact back to its initial state. */
    method ResetFacts()
      modifies set f | f in facts
      ensures FactsRestarted()
    {
      var i := 0;
      while i < |facts|
        invariant 0 <= i <= |facts|
        invariant forall j :: 0 <= j < i ==> facts[j].enabled == facts[j].initEnabled && facts[j].hits == 0
      {
        facts[i].Reset();
        i := i + 1;
      }
    }

    /** The third loop of reset: every rule back to its initial state. */
    method ResetRules()
      modifies set r | r in rules
      ensures RulesRestarted()
    {
      var i := 0;
      while i < |rules|
        invariant 0 <= i <= |rules|
        invariant forall j :: 0 <= j < i ==> rules[j].enabled == rules[j].initEnabled && rules[j].hits == 0
      {
        rules[i].Reset();
        i := i + 1;
      }
    }

    /** reset: every noun blank again, every fact and rule back to its initial state. */
    method Reset()
      requires Valid() && PairsAllocated()
      modifies NounSet(), PairArrays(), (set f | f in facts), (set r | r in rules)
      ensures forall n :: n in NounSet() ==> Blank(n) && n.pairs == old(n.pairs) && n.facts == old(n.facts)
      ensures FactsRestarted()
      ensures RulesRestarted()
    {
      ResetNounTypes();
      ghost var nouns := NounSet();
      ResetFacts();
      ResetRules();
      assert NounSet() == nouns;
    }

    /** The puzzle as validate's checks see it. */
    function View(): PuzzleView
      reads this`myName, this`myTitle, this`nounTypes, this`links, this`facts, this`rules, (set t | t in nounTypes), (set l | l in links), (set f | f in facts :: f.link), (set r | r in rules)
    {
      PuzzleView(myName, myTitle, TypeViews(nounTypes), |verbs|, LinkViews(links), FactViews(facts), RuleViews(rules))
    }

    /** The loop of validate that checks every category has `size` nouns. */
    method CheckNounCounts(size: nat) returns (v: Option<Violation>)
      ensures v == FirstIssue(TypeViews(nounTypes), t => TypeIssue(size, t))
    {
      ghost var ts := TypeViews(nounTypes);
      var i := 0;
      while i < |nounTypes|
        invariant 0 <= i <= |nounTypes|
        invariant forall j :: 0 <= j < i ==> TypeIssue(size, ts[j]).None?
      {
        if |nounTypes[i].nouns| != size {
          FirstIssueAt(ts, t => TypeIssue(size, t), i);
          return Some(UnequalNouns(nounTypes[i].num));
        }
        i := i + 1;
      }
      FirstIssueNone(ts, t => TypeIssue(size, t));
      return None;
    }

    /**
     * The link loop of validate: each link in turn must have a category
     * and a function, and then records its flags for `size` slots.
     */
    method UpdateLinks(size: nat) returns (v: Option<Violation>)
      requires Valid() && links[0].nounType.Some?
      modifies set l | l in links
      ensures v == FirstLinkIssue(old(LinkViews(links)))
      ensures forall j :: 0 <= j < |links| ==> links[j].nounType == old(links[j].nounType) && links[j].f == old(links[j].f)
      ensures v.None? ==> forall j :: 0 <= j < |links| ==> LinkUpdated(links[j], size)
    {
      ghost var ls := LinkViews(links);
      var i := 0;
      while i < |links|
        invariant 0 <= i <= |links|
        invariant forall j :: 0 <= j < |links| ==> links[j].nounType == old(links[j].nounType) && links[j].f == old(links[j].f)
        invariant forall j :: 0 <= j < i ==> LinkIssue(ls[j], j == 0).None? && LinkUpdated(links[j], size)
      {
        var link := links[i];
        if link.nounType.None? {
          FirstLinkIssueAt(ls, i);
          return Some(LinkNoType(link.num));
        }
        if link.f.None? {
          FirstLinkIssueAt(ls, i);
          return Some(LinkNoFunction(link.num));
        }
        link.Update(size);
        i := i + 1;
      }
      FirstLinkIssueNone(ls);
      return None;
    }

    /** The fact loop of validate: the four checks on each fact in turn. */
    method CheckFacts() returns (v: Option<Violation>)
      ensures v == FirstIssue(FactViews(facts), FactIssue)
    {
      ghost var fs := FactViews(facts);
      var i := 0;
      while i < |facts|
        invariant 0 <= i <= |facts|
        invariant forall j :: 0 <= j < i ==> FactIssue(fs[j]).None?
      {
        var fact := facts[i];
        var issue: Option<Violation> := None;
        if fact.verb == Maybe {
          issue := Some(FactMaybe(fact.num));
        } else if fact.noun1 == fact.noun2 {
          issue := Some(FactSameNoun(fact.num));
        } else {
          var link := fact.link;
          var nounType := link.nounType;
          if link.num < 1 && fact.noun1.t == fact.noun2.t {
            issue := Some(FactSameType(fact.num));
          } else if nounType == Some(fact.noun1.t) && nounType == Some(fact.noun2.t) {
            issue := Some(FactLinkType(fact.num));
          }
        }
        if issue.Some? {
          FirstIssueAt(fs, FactIssue, i);
          return issue;
        }
        i := i + 1;
      }
      FirstIssueNone(fs, FactIssue);
      return None;
    }

    /** The rule loop of validate: every rule must have a function. */
    method CheckRules() returns (v: Option<Violation>)
      ensures v == FirstIssue(RuleViews(rules), RuleIssue)
    {
      ghost var rs := RuleViews(rules);
      var i := 0;
      while i < |rules|
        invariant 0 <= i <= |rules|
        invariant forall j :: 0 <= j < i ==> RuleIssue(rs[j]).None?
      {
        if rules[i].f.None? {
          FirstIssueAt(rs, RuleIssue, i);
          return Some(RuleNoFunction(rules[i].num));
        }
        i := i + 1;
      }
      FirstIssueNone(rs, RuleIssue);
      return None;
    }

    /** For one noun: a fresh pairing array with one entry per category, and the facts it is listed under appended. */
    method IndexNoun(noun: Noun)
      modifies noun`pairs, noun`facts
      ensures noun.pairs != null && fresh(noun.pairs) && noun.pairs.Length == |nounTypes|
      ensures noun.facts == old(noun.facts) + FactsOf(facts, noun.Id())
    {
      var pairs := new Option<Pairing>[|nounTypes|](_ => None);
      noun.pairs := pairs;
      var j := 0;
      while j < |facts|
        invariant 0 <= j <= |facts|
        invariant noun.pairs == pairs
        invariant noun.facts == old(noun.facts) + FactsOf(facts[..j], noun.Id())
      {
        var fact := facts[j];
        var link := fact.link;
        if link.num >= 1 && link.nounType != Some(fact.noun1.t) && link.nounType != Some(fact.noun2.t) {
          if fact.noun1 == noun.Id() || fact.noun2 == noun.Id() {
            noun.facts := noun.facts + [fact];
          }
        }
        assert facts[..j + 1][..j] == facts[..j];
        j := j + 1;
      }
      assert facts[..j] == facts;
    }

    /** IndexNoun for every noun of one category. */
    method IndexNounType(t: NounType)
      requires t.Valid()
      modifies set n | n in t.nouns
      ensures forall n :: n in t.nouns ==>
                n.pairs != null && fresh(n.pairs) && n.pairs.Length == |nounTypes| && n.facts == old(n.facts) + FactsOf(facts, n.Id())
    {
      var k := 0;
      while k < |t.nouns|
        invariant 0 <= k <= |t.nouns|
        invariant forall j :: 0 <= j < k ==>
                    t.nouns[j].pairs != null && fresh(t.nouns[j].pairs) && t.nouns[j].pairs.Length == |nounTypes| &&
                    t.nouns[j].facts == old(t.nouns[j].facts) + FactsOf(facts, t.nouns[j].Id())
        invariant forall j :: k <= j < |t.nouns| ==> t.nouns[j].facts == old(t.nouns[j].facts)
      {
        IndexNoun(t.nouns[k]);
        k := k + 1;
      }
    }

    /** The indexing loop of validate, over every noun of every category. */
    method IndexNouns()
      requires Valid()
      modifies NounSet()
      ensures forall n :: n in NounSet() ==>
                n.pairs != null && fresh(n.pairs) && n.pairs.Length == |nounTypes| && n.facts == old(n.facts) + FactsOf(facts, n.Id())
    {
      var i := 0;
      while i < |nounTypes|
        invariant 0 <= i <= |nounTypes|
        invariant forall j, n :: 0 <= j < i && n in nounTypes[j].nouns ==>
                    n.pairs != null && fresh(n.pairs) && n.pairs.Length == |nounTypes| && n.facts == old(n.facts) + FactsOf(facts, n.Id())
        invariant forall j, n :: i <= j < |nounTypes| && n in nounTypes[j].nouns ==> n.facts == old(n.facts)
      {
        var current := nounTypes[i];
        IndexNounType(current);
        forall j, n | 0 <= j < |nounTypes| && j != i && n in nounTypes[j].nouns
          ensures n !in current.nouns
        {
          var k :| 0 <= k < |nounTypes[j].nouns| && nounTypes[j].nouns[k] == n;
          assert n.typeNum == j + 1 != current.num;
        }
        i := i + 1;
      }
    }

    /**
     * The first checks of validate: name, title, number of categories,
     * nouns per category, number of verbs; it records the number of
     * categories and of nouns per category on the way.
     */
    method ValidateHeader() returns (v: Option<Violation>)
      requires Valid()
      modifies this`maxNounTypes, this`maxNouns
      ensures Valid()
      ensures v == HeaderIssue(View())
      ensures v.None? ==> |nounTypes| >= 2 && maxNouns == |nounTypes[0].nouns|
    {
      if myName.None? || |myName.value| == 0 {
        return Some(NoName);
      }
      if myTitle.None? || |myTitle.value| == 0 {
        return Some(NoTitle);
      }
      maxNounTypes := |nounTypes|;
      if maxNounTypes < 2 {
        return Some(FewNounTypes);
      }
      maxNouns := |nounTypes[0].nouns|;
      if maxNouns < 2 {
        return Some(FewNouns);
      }
      v := CheckNounCounts(maxNouns);
      if v.Some? {
        return;
      }
      if |verbs| != MAX_VERBS {
        return Some(VerbCount);
      }
      // Link 0 always exists, so the check for at least one link passes.
      return None;
    }

    /**
     * The link phase of validate: With gets the first category when it
     * has none, then every link is checked and updated in turn. Only
     * With's category changes, so the facts look the same to the fact
     * checks except through link 0.
     */
    method ValidateLinks() returns (v: Option<Violation>)
      requires Valid() && |nounTypes| >= 1
      modifies this`maxLinks, set l | l in links
      ensures Valid()
      ensures v == FirstLinkIssue(old(LinkViews(links)))
      ensures forall j :: 0 <= j < |links| ==>
                links[j].f == old(links[j].f) &&
                links[j].nounType == if j == 0 && old(links[0].nounType).None? then Some(1) else old(links[j].nounType)
      ensures SameUpToWith(old(FactViews(facts)), FactViews(facts))
      ensures v.None? ==> forall j :: 0 <= j < |links| ==> LinkUpdated(links[j], maxNouns)
    {
      ghost var ls := LinkViews(links);
      maxLinks := |links|;
      if links[0].nounType.None? {
        links[0].nounType := Some(nounTypes[0].num);
      }
      assert LinkViews(links) == ls[0 := ls[0].(nounType := links[0].nounType)];
      FirstLinkIssueIgnoresWithType(ls, links[0].nounType);
      label Defaulted:
      v := UpdateLinks(maxNouns);
      forall f | f in facts
        ensures f.link.num == 0 || f.link.nounType == old(f.link.nounType)
      {
        var l := f.link;
        if l in links {
          var j :| 0 <= j < |links| && links[j] == l;
          assert j == 0 || l.nounType == old(l.nounType);
        } else {
          assert l.nounType == old@Defaulted(l.nounType) == old(l.nounType);
        }
      }
      FactViewsUpToWith(facts);
    }

    /**
     * A link after a successful validate: flags recorded for `size` slots,
     * function kept, category kept except that With gets the first one
     * when it had none.
     */
    ghost predicate LinkPrepared(l: Link, size: nat, oldF: Option<Relation>, oldType: Option<nat>, first: bool)
      reads l
    {
      LinkUpdated(l, size) && l.f == oldF && l.nounType == if first && oldType.None? then Some(1) else oldType
    }

    /**
     * A noun after a successful validate: a blank pairing array with one
     * entry per category, and the facts listed under it appended to the
     * ones it had.
     */
    ghost predicate NounPrepared(n: Noun, oldFacts: seq<Fact>)
      reads this, n, n.pairs, (set f | f in facts :: f.link)
    {
      n.pairs != null && n.pairs.Length == |nounTypes| && Blank(n) && n.facts == oldFacts + FactsOf(facts, n.Id())
    }

    /** The end of a successful validate: nouns indexed, the puzzle marked valid and reset. */
    method Prepare()
      requires Valid()
      modifies this`isValid, NounSet(), (set f | f in facts), (set r | r in rules)
      ensures Valid() && isValid
      ensures forall n :: n in NounSet() ==> fresh(n.pairs) && NounPrepared(n, old(n.facts))
      ensures FactsRestarted()
      ensures RulesRestarted()
    {
      isValid := true;
      IndexNouns();
      ghost var types := LinkTypes(facts);
      forall id
        ensures FactsOf(facts, id) == Listed(facts, types, id)
      {
        FactsOfListed(facts, id);
      }
      label Indexed:
      Reset();
      assert LinkTypes(facts) == types;
      forall n | n in NounSet()
        ensures fresh(n.pairs) && NounPrepared(n, old(n.facts))
      {
        assert n in old@Indexed(NounSet());
        assert n.pairs == old@Indexed(n.pairs) && n.facts == old@Indexed(n.facts);
        FactsOfListed(facts, n.Id());
      }
    }

    /** The checks of validate after the links: facts, rules, then that there is something to solve. */
    method CheckContents() returns (v: Option<Violation>)
      requires Valid()
      modifies this`maxFacts, this`maxRules
      ensures Valid()
      ensures v == ContentIssue(old(FactViews(facts)), old(RuleViews(rules)))
    {
      maxFacts := |facts|;
      v := CheckFacts();
      if v.Some? {
        return;
      }
      maxRules := |rules|;
      v := CheckRules();
      if v.Some? {
        return;
      }
      if |facts| < 1 && |rules| < 1 {
        return Some(NothingToSolve);
      }
    }

    /** Every check of validate, in order, with the updates to the links it makes on the way. */
    method ValidateChecks(ghost pv: PuzzleView) returns (v: Option<Violation>)
      requires Valid() && pv == View()
      modifies this`maxNounTypes, this`maxNouns, this`maxLinks, this`maxFacts, this`maxRules, (set l | l in links)
      ensures Valid()
      ensures v == FirstViolation(pv)
      ensures v.None? ==> |nounTypes| >= 2 && maxNouns == |nounTypes[0].nouns|
      ensures v.None? ==> forall j :: 0 <= j < |links| ==>
                LinkPrepared(links[j], maxNouns, old(links[j].f), old(links[j].nounType), j == 0)
    {
      v := ValidateHeader();
      if v.Some? {
        return;
      }
      v := ValidateLinks();
      if v.Some? {
        return;
      }
      ghost var fs := FactViews(facts);
      assert RuleViews(rules) == pv.rules;
      ContentIssueUpToWith(pv.facts, fs, pv.rules);
      v := CheckContents();
    }

    /**
     * validate: the first violation, in the order the Java code checks,
     * of the puzzle as it stood; when there is none, the links carry their
     * flags and the puzzle is reset and marked valid. What happens to the
     * nouns is stated on Prepare, which it ends with.
     */
    method Validate() returns (v: Option<Violation>)
      requires Valid()
      modifies this`maxNounTypes, this`maxNouns, this`maxLinks, this`maxFacts, this`maxRules, this`isValid
      modifies (set l | l in links), NounSet(), (set f | f in facts), (set r | r in rules)
      ensures Valid()
      ensures v == FirstViolation(old(View()))
      ensures v.Some? ==> isValid == old(isValid)
      ensures v.None? ==> isValid && |nounTypes| >= 2 && maxNouns == |nounTypes[0].nouns|
      ensures v.None? ==> forall j :: 0 <= j < |links| ==>
                LinkPrepared(links[j], maxNouns, old(links[j].f), old(links[j].nounType), j == 0)
      ensures v.None? ==> FactsRestarted()
      ensures v.None? ==> RulesRestarted()
    {
      ghost var pv := View();
      v := ValidateChecks(pv);
      if v.Some? {
        return;
      }
      Prepare();
    }

    /** What isAnswer reads: a first category, answer rows for the others, and the pairing arrays of its nouns. */
    ghost predicate AnswerShaped()
      reads this, (set t | t in nounTypes), NounSet()
    {
      answer.Some? ==>
        && |nounTypes| >= 1
        && |answer.value| >= |nounTypes| - 1
        && (forall r :: 0 <= r < |nounTypes| - 1 ==> |answer.value[r]| >= |nounTypes[0].nouns|)
        && (forall n :: n in nounTypes[0].nouns ==> n.pairs != null && n.pairs.Length >= |nounTypes|)
    }

    /**
     * The solution check: with no answer recorded, anything passes;
     * otherwise every category-1 noun's partner number in every other
     * category t, less one, is the recorded entry.
     */
    ghost predicate Answered()
      reads this, (set t | t in nounTypes), NounSet(), PairArrays()
      requires Valid() && AnswerShaped()
    {
      assert |nounTypes| >= 1 ==> nounTypes[0] in nounTypes;
      assert |nounTypes| >= 1 ==> forall n :: n in nounTypes[0].nouns ==> n in NounSet();
      assert answer.Some? ==> forall n :: n in nounTypes[0].nouns ==> n.pairs in PairArrays();
      answer.None? ||
      forall k, t :: 0 <= k < |nounTypes[0].nouns| && 2 <= t <= |nounTypes| ==>
        Marks.GetPairNounNum(nounTypes[0].nouns[k], t) - 1 == answer.value[t - 2][nounTypes[0].nouns[k].num - 1]
    }

    /** isAnswer: checks the pairings against the recorded answer. */
    method IsAnswer() returns (b: bool)
      requires Valid() && AnswerShaped()
      ensures b == Answered()
    {
      if answer.None? {
        return true;
      }
      var nounType1 := nounTypes[0];
      var k := 0;
      while k < |nounType1.nouns|
        invariant 0 <= k <= |nounType1.nouns|
        invariant forall k', t :: 0 <= k' < k && 2 <= t <= |nounTypes| ==>
                    Marks.GetPairNounNum(nounType1.nouns[k'], t) - 1 == answer.value[t - 2][nounType1.nouns[k'].num - 1]
      {
        var noun1 := nounType1.nouns[k];
        var j := 0;
        while j < |nounTypes|
          invariant 0 <= j <= |nounTypes|
          invariant forall t :: 2 <= t <= j ==>
                      Marks.GetPairNounNum(noun1, t) - 1 == answer.value[t - 2][noun1.num - 1]
        {
          var nounType2 := nounTypes[j];
          if nounType2.num != 1 {
            if Marks.GetPairNounNum(noun1, nounType2.num) - 1 != answer.value[nounType2.num - 2][noun1.num - 1] {
              return false;
            }
          }
          j := j + 1;
        }
        k := k + 1;
      }
      return true;
    }
  }

  /** With an answer recorded, a passing check means each recorded entry is the partner's number less one, and -1 where there is no partner. */
  lemma AnsweredMeaning(p: Puzzle, k: nat, t: nat)
    requires p.Valid() && p.AnswerShaped() && p.Answered() && p.answer.Some?
    requires k < |p.nounTypes[0].nouns| && 2 <= t <= |p.nounTypes|
    ensures var noun := p.nounTypes[0].nouns[k];
            var entry := p.answer.value[t - 2][k];
            (entry >= 0 ==> exists m :: Marks.GetPairNoun(noun, t) == Some(m) && m.num == entry + 1) &&
            (Marks.GetPairNoun(noun, t) == None ==> entry == -1)
  {
    var noun := p.nounTypes[0].nouns[k];
    assert noun.num == k + 1;
    var entry := p.answer.value[t - 2][k];
    assert Marks.GetPairNounNum(noun, t) - 1 == p.answer.value[t - 2][noun.num - 1];
    if entry >= 0 {
      var m := Marks.GetPairNoun(noun, t).value;
      assert m.num == entry + 1;
    }
  }
}
