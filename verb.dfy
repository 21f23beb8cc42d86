/**
 * The three truth values a grid cell can hold (Verb.java) and the verb
 * constants a puzzle uses (Puzzle.java).
 */
module Verbs {

  /** Maximum number of verbs in a puzzle. */
  const MAX_VERBS: nat := 3

  /**
   * The puzzle's verbs. Java keeps them as static mutable singletons;
   * here they are immutable values compared by constructor.
   */
  datatype Verb = IsNot | Is | Maybe {

    /** Zero-based verb number: IsNot is 0, Is is 1, Maybe is 2. */
    function Num(): (n: nat)
      ensures n < MAX_VERBS
      ensures n == 0 <==> this == IsNot
      ensures n == 1 <==> this == Is
    {
      match this
      case IsNot => 0
      case Is => 1
      case Maybe => 2
    }
  }

  /** The verb with the given zero-based number. */
  function FromNum(n: nat): (v: Verb)
    requires n < MAX_VERBS
    ensures v.Num() == n
  {
    if n == 0 then IsNot else if n == 1 then Is else Maybe
  }

  /** Verb numbers and verbs correspond one to one. */
  lemma FromNumOfNum(v: Verb)
    ensures FromNum(v.Num()) == v
  {
  }

  /** Type names indexed by verb number. */
  const Types: seq<string> := ["False", "True", "Unknown"]

  /** A verb entity: number, display name, type name and one-character code. */
  datatype VerbInfo = VerbInfo(num: nat, name: string, typeName: string, code: string)

  /**
   * The verb constructor: it stores name and code verbatim and takes the
   * type name from the number, which must index `Types`.
   */
  function NewVerb(num: nat, name: string, code: string): (v: VerbInfo)
    requires num < MAX_VERBS
    ensures v.num == num && v.name == name && v.code == code
    ensures num == 0 ==> v.typeName == "False"
    ensures num == 1 ==> v.typeName == "True"
    ensures num == 2 ==> v.typeName == "Unknown"
  {
    VerbInfo(num, name, Types[num], code)
  }

  /** The verbs array every puzzle builds: IsNot, Is, Maybe, numbered 0, 1, 2. */
  function PuzzleVerbs(): (vs: seq<VerbInfo>)
    ensures |vs| == MAX_VERBS
    ensures forall v: Verb :: vs[v.Num()].num == v.Num()
    ensures vs[IsNot.Num()].typeName == "False" && vs[Is.Num()].typeName == "True" && vs[Maybe.Num()].typeName == "Unknown"
  {
    [NewVerb(0, "is not", "X"), NewVerb(1, "is", "O"), NewVerb(2, "may be", " ")]
  }
}
