# Logic-grid puzzle engine: puzzle model and smart rules

This project models the puzzle side of a logic-grid ("Mystery Master") puzzle
engine. A puzzle has categories of nouns (noun types), verbs (is not, is,
may be), links that relate the nouns of one category, facts that state
whether two nouns are together, and rules that react to each new mark the
solver records.

The model covers:

- the puzzle's data model: `Noun`, `NounType`, `Link`, `Fact`, `Rule`, `Mark`, `Verb`;
- the relations a link can apply to two nouns (`SmartLink`);
- the puzzle builder: adding noun types, links, facts with duplicate
  suppression and all the bulk `addFact…` forms, and rules;
- the puzzle's validation and its answer check;
- the text helpers the core uses: clue labels, title case, list rendering
  and list difference;
- every smart rule the engine provides. Each rule checks for a violation
  and then asks the solver to record the marks it implies: matchAtLeastOne,
  matchOneToExactlyOne, matchOneToOne, matchOneList, isNotBetween,
  isRelated, inOppositeGroup and inSameGroup.

Each smart rule has three parts in the model:

- a specification function that returns its `Outcome`, that is, the status
  code and the requests it made in order;
- a method that computes the outcome with the source's loops, proved equal
  to that function;
- lemmas that state what the outcome means: when the rule reports a
  violation, which requests it can make, and that, when every request was
  accepted, every request it owed was made.

The solver is outside the model. A rule sees it through `Boundary.Solver`,
which supplies:

- the current grid verb of any two nouns;
- which nouns are paired;
- `status`, which gives the answer to each request given the requests
  already made.

Classes model the entities whose fields the source updates in place.
Values model the rest.

## Model

| member | source | states |
|---|---|---|
| Verbs.Verb.Num | Verb.java:11-14 | the verb number is below MAX_VERBS (3); 0 exactly for "is not" and 1 exactly for "is" |
| Verbs.FromNum | Puzzle.java:466-468 | the verb looked up by number has that number |
| Verbs.FromNumOfNum | Puzzle.java:90 | looking a verb up by its own number gives the verb back |
| Verbs.NewVerb | Verb.java:39-46 | a new verb keeps its number, name and code; its type is False, True or Unknown by number |
| Verbs.PuzzleVerbs | Puzzle.java:16-22 | the puzzle has exactly three verbs, each at the index of its number, typed False/True/Unknown |
| SmartLink.Apply | SmartLink.java:24-109 | a link relation never answers "may be", and answers "is" exactly when its arithmetic condition on the two noun numbers holds |
| SmartLink.WithIsIdentity | SmartLink.java:24-26 | isWith relates exactly equal numbers; it is reflexive and symmetric |
| SmartLink.LessThanIsMoreThanSwapped | SmartLink.java:35-58 | isLessThan(n) holds iff a < b - n, and equals isMoreThan(n) with the nouns swapped |
| SmartLink.LessByIsMoreBySwapped | SmartLink.java:45-68 | isLessBy(n) holds iff a == b - n, and equals isMoreBy(n) with the nouns swapped |
| SmartLink.NextToIsOffsetByOne | SmartLink.java:75-88 | isNextTo is symmetric and is isOffsetBy(1) |
| SmartLink.OffsetByIsLessByOrMoreBy | SmartLink.java:86-88 | isOffsetBy(n) holds iff isLessBy(n) or isMoreBy(n) holds |
| SmartLink.OutsideOfIsDistance | SmartLink.java:96-98 | isOutsideOf(n) holds iff the two numbers are more than n apart |
| SmartLink.RatioSwapped | SmartLink.java:107-109 | hasRatio(n1, n2) between a and b is hasRatio(n2, n1) between b and a |
| SmartLink.RatioAtMostOnePartner | SmartLink.java:107-109 | with n2 nonzero, hasRatio(n1, n2) relates each number a to at most one number b |
| Links.CountAtMostOneIffUnique | Link.java:70-80 | a slot relates to at most one slot iff its partner is unique |
| Links.CountZeroIffNone | Link.java:70-80 | a slot's count of related slots is zero iff no slot is related |
| Links.OneToOneIffUniquePartners | Link.java:70-80 | a link is one-to-one iff every slot has at most one partner |
| Links.InSameSlot | Link.java:89-95 | the result is true iff some slot is related to itself by the given verb |
| Links.WithFlags | Link.java:89-102 | the with link is one-to-one; a slot is "with" itself iff there is a slot; no slot is "not with" itself |
| Links.Link.constructor | Link.java:45-53 | a new link keeps number, name and category; it is not one-to-one, has no function, and both same-slot flags are true |
| Links.Link.GetVerb | Link.java:61-63 | the link's verb for two nouns is never "may be", and is "is" exactly when its relation holds |
| Links.Link.IsOneToOne | Link.java:70-80 | the loop's answer equals `OneToOne` of the link's relation over its slots |
| Links.Link.Update | Link.java:98-102 | afterwards oneToOne, ssNeg and ssPos equal the relation's one-to-one and same-slot properties; category and function are unchanged |
| Links.Link.CanBeWith | Link.java:109-111 | the answer is always ssPos, because no verb has a negative number |
| Links.CountMonotone | Link.java:72-77 | counting related slots over a longer range never gives less |
| Facts.FactType | Fact.java:68-75 | the fact type is always 1 to 4 |
| Facts.FactTypeSymmetric | Fact.java:68-75 | swapping the two nouns keeps the fact type |
| Facts.FactTypeFour | Fact.java:68-75 | type 4 exactly when the link is not "with", neither noun is of the link's category, and the nouns' categories differ |
| Facts.Fact.constructor | Fact.java:58-76 | the new fact keeps its fields, is enabled iff initEnabled, has no hits, and gets the type of `FactType` |
| Facts.Fact.Reset | Fact.java:79-82 | reset restores enabled to initEnabled and clears hits |
| Rules.Rule.constructor | Rule.java:49-56 | the new rule keeps its fields, is enabled iff initEnabled, has no hits and no function |
| Rules.Rule.Reset | Rule.java:59-62 | reset restores enabled to initEnabled and clears hits |
| Nouns.DefaultTitle | Noun.java:62 | the default title has the name's length |
| Nouns.Noun.Id | Noun.java:13-20 | a noun's identity is its category number and its own number |
| Nouns.Noun.constructor | Noun.java:58-65 | the new noun keeps number, category and name; its title is the given one or the title-cased name; it is not renamed |
| Nouns.Noun.UpdatePlacer | Noun.java:87-91 | the old name is remembered and both name and title become the value |
| Nouns.Noun.ResetPlacer | Noun.java:94-98 | the old name is remembered and name and title return to the originals |
| Nouns.Noun.Reset | Noun.java:78-81 | the noun is unrenamed and every pairing slot is empty, with the same array |
| Nouns.NounType.constructor | NounType.java:35-39 | a new category keeps number and name and has no nouns |
| Nouns.NounType.AddNoun | NounType.java:58-62 | the new noun is appended, numbered one past the previous count, in this category |
| Nouns.NounType.GetNoun | NounType.java:69-71 | noun k of the category has number k |
| Nouns.NounType.Reset | NounType.java:74-76 | every noun of the category is blank again; arrays and fact lists are kept |
| Helper.Except | Helper.java:324-339 | the difference is no longer than the first list and holds only its elements that are not in the second |
| Helper.ExceptMultiplicity | Helper.java:324-339 | each element keeps its multiplicity from the first list unless the second list holds it, in which case it has none |
| Helper.GetListExcept | Helper.java:324-339 | the nested loop computes `Except` |
| Helper.GetArrayExcept | Helper.java:347-362 | the new array holds `Except` of the two arrays |
| Helper.GetArray2D | Helper.java:239-264 | a fresh d1×d2 array with every cell equal to v |
| Helper.JoinLength | Helper.java:122-163 | a joined list is as long as its items plus one separator between each two |
| Helper.Enclose | Helper.java:122-163 | nothing for a missing list; otherwise the items joined by the separator between the brackets |
| Helper.GetArrayAsString | Helper.java:122-134 | as `Enclose`, in braces |
| Helper.GetListAsString | Helper.java:151-163 | as `Enclose`, in square brackets |
| Helper.TitleCased | Helper.java:90-105 | title case keeps length and spaces and changes only characters that start a word |
| Helper.ToTitleCase | Helper.java:90-105 | the loop computes `TitleCased` |
| Helper.TitleCaseChar | Helper.java:98 | a lower-case ASCII letter becomes the capital of the same letter; every other character is kept |
| Marks.NatDigitsRoundTrip | Mark.java:171 | reading back the decimal digits of n gives n |
| Marks.Decimal | Mark.java:171 | the decimal text of a number: its digits, after a minus sign when negative |
| Marks.Other | Mark.java:116 | for a noun of the pairing, the result is the other noun |
| Marks.GetPairNoun | Mark.java:113-117 | none exactly when the pairing slot is empty; otherwise the other noun of the pairing |
| Marks.GetPairNounNum | Mark.java:125-129 | 0 when unpaired, otherwise the number of the paired noun |
| Marks.IsPair | Mark.java:103-105 | two nouns are a pair iff the first's partner in the second's category is the second |
| Marks.IsPairIffEntry | Mark.java:103-117 | with a pairing recorded for noun1, noun2 is its pair iff noun2 is the pairing's other noun |
| Marks.Mark.constructor | Mark.java:135-138 | a new mark is numbered count + 1 and is blank |
| Marks.Mark.Reset | Mark.java:141-160 | every field returns to its blank value and every list is emptied |
| Marks.Mark.Update | Mark.java:163-184 | user marks get level MAX_LEVELS; guess iff user mark or level mark at MAX_LEVELS; facts copied; disabled facts cleared; not valid; placers untouched |
| Marks.Mark.AddPlacer | Mark.java:238-241 | the noun is renamed to the value and appended to the rule placers |
| Marks.Mark.AddPlacerInt | Mark.java:249-251 | as `AddPlacer`, with the number's decimal text |
| Marks.Mark.UpdatePlacers | Mark.java:257-260 | the rule placers are appended to the placers and cleared |
| Marks.Mark.ClearPlacers | Mark.java:263-268 | both placer lists end empty and every noun that was in either is unrenamed |
| Marks.Mark.UndoDisabledFacts | Mark.java:274-283 | every disabled fact is re-enabled; the result is the lowest-numbered one that was disabled, or none if none was |
| ClueMessages.Label | Puzzle.java:485-498 | the label is "analysis…" for 'A', "intro" for '0', otherwise "clue(s) " and the clue number |
| ClueMessages.ClueNumMsg | Puzzle.java:476-502 | no clue number or empty name leaves the name; otherwise the label in parentheses goes before the name's last character |
| ClueMessages.StripClueNumMsg | Puzzle.java:476-502 | removing the inserted label gives the name back |
| ClueMessages.ClueLabelPlural | Puzzle.java:493-497 | a clue label is plural exactly when the clue number contains a comma |
| ClueMessages.IntroLabelsAgree | Puzzle.java:490-492 | for any name, every clue number starting with '0' gives the same message |
| ClueMessages.LabelInjective | Puzzle.java:485-498 | different clue numbers (other than intro) give different labels |
| Boundary.IssueLog | SmartRule.java:112-113 | the requests made are a prefix of those asked for, after the earlier ones; stopping early means the last request failed |
| Boundary.IssueAccepted | SmartRule.java:112-113 | status 0 means every request made was accepted and all were made |
| Boundary.IssueAppend | SmartRule.java:98-116 | issuing a + b is issuing a, then b if a was accepted |
| Boundary.RunAppend | SmartRule.java:266-362 | running phases a + b is running a, then b if a was accepted |
| Boundary.RunFails | SmartRule.java:276-278 | a failing step makes the whole run fail |
| Boundary.RunLogMembers | SmartRule.java:266-362 | every request of a run comes from one of its steps |
| Boundary.RunAllMade | SmartRule.java:266-362 | a run that ends with status 0 made every request of every one of its steps, after the earlier log |
| Validation.FirstIssueNone | Puzzle.java:543-545 | no violation in a list iff no element has one |
| Validation.FirstIssueSome | Puzzle.java:570-585 | a violation found is the one of some element, and every earlier element has none |
| Validation.ValidateAccepts | Puzzle.java:534-598 | validation finds no violation iff the puzzle is acceptable: named, titled, at least two categories of at least two nouns and equal size, three verbs, every link with a category and a function, every fact and rule well-formed, something to solve |
| Validation.HeaderIssueKinds | Puzzle.java:534-552 | header checks only report header violations |
| Validation.LinkIssueKinds | Puzzle.java:558-566 | link checks only report a missing category or function |
| Validation.RuleIssueKinds | Puzzle.java:589-593 | rule checks only report a missing function |
| Validation.FactViolationIsFirst | Puzzle.java:570-585 | a fact violation is reported only when the header and links are fine, and it is the first faulty fact's |
| Validation.FactIssueIgnoresWithType | Puzzle.java:555-583 | a fact's violation does not depend on the with link's category |
| Validation.FactIssuesUpToWith | Puzzle.java:555-585 | setting the with link's category does not change which fact fails |
| Validation.ContentIssueUpToWith | Puzzle.java:555-598 | setting the with link's category does not change the content checks |
| Validation.FirstLinkIssueIgnoresWithType | Puzzle.java:555-566 | the first link's missing category is never reported: it is filled in first |
| FactRequests.InSequence | Puzzle.java:273-279 | one request per consecutive pair, in order |
| FactRequests.Zip | Puzzle.java:312-320 | one request per position, pairing equal positions |
| FactRequests.OneToOneLists | Puzzle.java:282-292 | nothing when the lists differ in length, otherwise one request per position |
| FactRequests.OneToManyMembers | Puzzle.java:196-203 | exactly the requests noun1–x for x of the list, except when x is noun1 or shares its category under with |
| FactRequests.ManyToOneMembers | Puzzle.java:217-224 | exactly the requests x–noun2 for x of the list, with the same exceptions |
| FactRequests.ProductMembers | Puzzle.java:253-260 | exactly the pairs of the two lists, with the same exceptions |
| FactRequests.PairsMembers | Puzzle.java:243-252 | exactly the pairs i < j of one list, with the same exceptions |
| FactRequests.OneToManyDistinct | Puzzle.java:196-203 | a list without repeats gives requests without repeats |
| FactRequests.PairsDistinct | Puzzle.java:243-252 | a list without repeats gives pairs without repeats |
| FactRequests.ManyToManyNeverSkipped | Puzzle.java:241-262 | no request is for a noun with itself or, under with, two nouns of one category |
| FactRequests.StartsWithMembers | Puzzle.java:332-340 | exactly "noun1 is not with x" for x whose initial is ch iff flag |
| FactRequests.FirstCharMembers | Puzzle.java:352-362 | exactly "x is not with y" for pairs whose initials agree iff flag |
| FactRequests.OddSlotsMembers | Puzzle.java:379-386 | exactly "x is not with slot k" for every noun x and odd index k |
| FactRequests.BothWaysMembers | Puzzle.java:387-396 | exactly "x is not linked to y" both ways round for every pair i < j |
| Puzzles.AddKeysNoDuplicates | Puzzle.java:164-175 | facts added with the duplicate check never hold two duplicates |
| Puzzles.AddKeysCovers | Puzzle.java:164-181 | old facts stay, and every submitted fact is afterwards known (itself or a duplicate) |
| Puzzles.AddKeysFromSubmitted | Puzzle.java:164-181 | only submitted facts are added, at most one each |
| Puzzles.AddKeyIdempotent | Puzzle.java:164-175 | adding the same fact twice adds it once |
| Puzzles.WithMirrorIsDuplicate | Puzzle.java:170-171 | under with, a fact with its nouns swapped is a duplicate |
| Puzzles.FactsOfMembers | Puzzle.java:605-612 | a noun's fact list holds exactly the facts naming it whose link is not with and whose nouns are not in the link's category |
| Puzzles.Puzzle.constructor | Puzzle.java:83-96 | a new puzzle has the three verbs and only the with link, with isWith as its function |
| Puzzles.Puzzle.AddNounType | Puzzle.java:115-124 | the category is appended with the next number; the first one becomes the with link's category |
| Puzzles.Puzzle.AddLink | Puzzle.java:132-137 | the link is appended, numbered by the previous count, with no function |
| Puzzles.Puzzle.AddFact | Puzzle.java:158-182 | the fact is appended exactly when it is not a duplicate of an existing one, numbered one past the count, with the clue message |
| Puzzles.Puzzle.AddRequests | Puzzle.java:196-262 | the facts become the old ones plus every submitted request that is not a duplicate; the result is the last fact added |
| Puzzles.Puzzle.AddFactOneToMany | Puzzle.java:196-203 | adds `OneToMany` through the duplicate check |
| Puzzles.Puzzle.AddFactManyToOne | Puzzle.java:217-224 | adds `ManyToOne` through the duplicate check |
| Puzzles.Puzzle.AddFactManyToMany | Puzzle.java:241-262 | adds `ManyToMany` through the duplicate check |
| Puzzles.Puzzle.AddFactsInSequence | Puzzle.java:273-279 | adds `InSequence` through the duplicate check |
| Puzzles.Puzzle.AddFactsOneToOne | Puzzle.java:282-292 | adds `OneToOneLists` through the duplicate check |
| Puzzles.Puzzle.AddFactsOneToOneTypes | Puzzle.java:312-320 | adds `Zip` of the two categories through the duplicate check |
| Puzzles.Puzzle.AddFactsStartsWith | Puzzle.java:332-340 | adds `StartsWith` through the duplicate check |
| Puzzles.Puzzle.AddFactsIsNotFirstChar | Puzzle.java:352-362 | adds `FirstChar` through the duplicate check |
| Puzzles.Puzzle.AddFactsNotConsecutive | Puzzle.java:373-399 | adds `NotConsecutive`: the odd slots when 2n − 1 equals the number of slots, otherwise both-ways pairs |
| Puzzles.Puzzle.AddRule | Puzzle.java:430-436 | the rule is appended, numbered by the new count, named by the clue message |
| Puzzles.Puzzle.GetNounType | Puzzle.java:447-449 | category k has number k |
| Puzzles.Puzzle.GetNoun | Puzzle.java:457-459 | noun (t, k) has that identity |
| Puzzles.Puzzle.GetVerb | Puzzle.java:466-468 | verb k has number k |
| Puzzles.Puzzle.Reset | Puzzle.java:102-106 | every noun is blank, and every fact and rule is back to its initial enabled state with no hits |
| Puzzles.Puzzle.UpdateLinks | Puzzle.java:558-566 | returns the first link violation; with none, every link's flags are updated |
| Puzzles.Puzzle.IndexNoun | Puzzle.java:603-612 | the noun gets a fresh pairing array with one slot per category, and its facts are extended by `FactsOf` |
| Puzzles.Puzzle.Prepare | Puzzle.java:599-617 | the puzzle is valid; every noun has a fresh blank pairing array with one slot per category, and its fact list gains exactly the facts `FactsOf` lists under it; every fact and rule is reset |
| Puzzles.Puzzle.Validate | Puzzle.java:530-624 | returns `FirstViolation` of the puzzle as it was; with none, the puzzle is valid, each link keeps its function and category (With defaulted to the first category) with its flags updated, and every fact and rule is reset |
| Puzzles.Puzzle.IsAnswer | Puzzle.java:638-648 | true iff there is no answer or every noun of the first category is paired as the answer says |
| Puzzles.AnsweredMeaning | Puzzle.java:644 | an answered puzzle pairs each first-category noun with the answer's noun in every other category |
| SmartMatch.CanBeWith2 | SmartRule.java:44-51 | true iff some list noun can still be with noun1 |
| SmartMatch.OnlyNounMeaning | SmartRule.java:61-71 | a single candidate is found iff noun1 is paired with no list noun and exactly one list noun is possible for it |
| SmartMatch.IsOnlyNoun | SmartRule.java:61-71 | the loop computes `OnlyNoun` |
| SmartMatch.ForbidsFromMembers | SmartRule.java:98-116 | the forbid phase asks exactly "noun1 is not x" for every x no list noun can be with |
| SmartMatch.AtLeastOneViolation | SmartRule.java:86 | -1 with no request iff no list noun can be noun1's partner |
| SmartMatch.AtLeastOneTrigger | SmartRule.java:89-93 | with a single candidate, the first request places noun1 with it |
| SmartMatch.AtLeastOneStatus | SmartRule.java:89-117 | status 0 means every request made was accepted |
| SmartMatch.AtLeastOneRequests | SmartRule.java:89-117 | with status 0 the requests made are exactly the placement of the only candidate, if there is one, and "noun1 is not x" for every noun x of another category that noun1 may be with and no list noun can |
| SmartMatch.AtLeastOneAsWrittenLosesStatus | SmartRule.java:89-117 | as written, a rejected first request is reported as success once a later one succeeds |
| SmartMatch.MatchAtLeastOneRule | SmartRule.java:81-119 | computes the corrected `MatchAtLeastOne` (see Findings), not the code as written |
| SmartMatch.NumMatchesZero | SmartRule.java:225-234 | no match iff no list-1 noun is paired with a list-2 noun |
| SmartMatch.GetNumMatches | SmartRule.java:225-234 | the loop counts list-1 nouns paired in list 2 |
| SmartMatch.ExactlyOneViolation | SmartRule.java:191-207 | nothing paired and nothing possible is a violation |
| SmartMatch.ExactlyOneTrigger | SmartRule.java:191-199 | the only request puts the single list-1 noun with a candidate with its only candidate, when no other has one and none is paired |
| SmartMatch.ExactlyOneTriggered | SmartRule.java:138-139 | conversely, when one list-1 noun has a single candidate, no other list-1 noun has any and none is paired in list 2, the rule requests exactly that placement |
| SmartMatch.ExactlyOneTooMany | SmartRule.java:213 | more than one match returns -1 with no request |
| SmartMatch.MatchOneToExactlyOneRule | SmartRule.java:133-217 | computes `MatchOneToExactlyOne` |
| SmartGrid.GridsKeep | SmartRule.java:266-362 | no phase changes an Is or IsNot cell or reopens one |
| SmartGrid.OneToOneRowViolation | SmartRule.java:266-287 | a row with two Is cells is a violation |
| SmartGrid.OneToOneColumnViolation | SmartRule.java:291-312 | a column with two Is cells is a violation |
| SmartGrid.OneToOneDeadRow | SmartRule.java:316-337 | with lists of equal length, a row of IsNot cells is a violation |
| SmartGrid.OneToOneDeadColumn | SmartRule.java:341-362 | a column of IsNot cells is a violation |
| SmartGrid.OneToOneRequestsOpen | SmartRule.java:266-362 | every request concerns a cell the grid left open, and its line owed it (`OwedAt`): IsNot for an open cell of a row with one Is (a) or of a column with one Is whose row had none or several (b); Is for the one open cell of a row after phase b (c) or of a column after phase c (d) that holds no Is and one IsNot fewer than list 1 has nouns |
| SmartGrid.OneToOneRowTrigger | SmartRule.java:276-286 | with status 0, every open cell of a row holding one Is was requested "not together" by phase a |
| SmartGrid.OneToOneColumnTrigger | SmartRule.java:301-311 | with status 0, every open cell of a column holding one Is, in a row not holding one Is, was requested "not together" by phase b |
| SmartGrid.OneToOneRowLastOpen | SmartRule.java:329-336 | with status 0, the one open cell of a row that, after phase b, holds no Is and one IsNot fewer than list 1 has nouns was requested "together" by phase c |
| SmartGrid.OneToOneColumnLastOpen | SmartRule.java:354-361 | with status 0, the one open cell of a column that, after phase c, holds no Is and one IsNot fewer than list 1 has nouns was requested "together" by phase d |
| SmartGrid.OneToOneRule.constructor | SmartRule.java:248-250 | the grid is square, as wide as list 1 |
| SmartGrid.OneToOneRule.Populate | SmartRule.java:255-262 | the grid shows the solver's verbs, IsNot within one category |
| SmartGrid.OneToOneRule.CloseRows | SmartRule.java:266-287 | phase a runs `StepsA`; on success the grid shows `AfterA` |
| SmartGrid.OneToOneRule.CloseCols | SmartRule.java:291-312 | phase b runs `StepsB`; on success the grid shows `AfterB` |
| SmartGrid.OneToOneRule.OpenRows | SmartRule.java:316-337 | phase c runs `StepsC`; on success the grid shows `AfterC` |
| SmartGrid.OneToOneRule.OpenCols | SmartRule.java:341-362 | phase d runs `StepsD` |
| SmartGrid.OneToOneRule.Apply | SmartRule.java:252-365 | one invocation computes `MatchOneToOne` |
| SmartList.ListIndex | SmartRule.java:476-486 | the index of the first list holding the noun, or -1 iff none does |
| SmartList.GetListIndex | SmartRule.java:476-486 | the loop computes `ListIndexOf` |
| SmartList.ReachableEmpty | SmartRule.java:381-402 | no list noun is reachable iff every list-1 noun is ruled out with all of them |
| SmartList.CoverageMeaning | SmartRule.java:381-402 | coverage holds iff some pair is already "is", nothing is reachable, or enough list nouns are reachable and no list-1 noun is starved |
| SmartList.HasCoverage | SmartRule.java:381-402 | the loop computes `Covered` |
| SmartList.FindAnchor | SmartRule.java:421-434 | the loop finds `AnchorFrom`: the first list-1 noun the mark links to a list noun |
| SmartList.OneListRequests | SmartRule.java:412-468 | every request is an anchor exclusion or an uncovered-list exclusion, and with status 0 all of them were made |
| SmartList.MatchOneListRule | SmartRule.java:412-468 | computes `MatchOneList` |
| SmartBetween.NotBetweenKnown | SmartRule.java:508-517 | with all three slots known: no request, and -1 iff A is between B and C |
| SmartBetween.ChooseSweepMeaning | SmartRule.java:526-549 | the chosen sweep covers exactly the slots that would put A between B and C |
| SmartBetween.NotBetweenSweep | SmartRule.java:526-558 | every request rules the unknown noun out of such a slot; with status 0 every such open slot was ruled out |
| SmartBetween.NotBetweenIdle | SmartRule.java:519-560 | with fewer than two slots known nothing happens |
| SmartBetween.NotBetweenExample | SmartRule.java:502-562 | B in slot 1 and C in slot 4 of 5 rules A out of slots 2 and 3 |
| SmartBetween.IsNotBetweenRule | SmartRule.java:502-562 | computes `NotBetween` |
| SmartRelated.FoldMeaning | SmartRule.java:621-644 | the scan ends at 1 iff no list noun is already in a related slot and exactly one cell is open, and then keeps that cell |
| SmartRelated.RelatedViolation | SmartRule.java:588-619 | -1 with no request iff noun1's slot is known and no list noun can relate, no related slot has room, or none may hold one |
| SmartRelated.RelatedTrigger | SmartRule.java:621-650 | the one placement is requested iff nothing occupies a related slot and exactly one cell is open; it places that cell |
| SmartRelated.RelatedExclusions | SmartRule.java:653-675 | with noun1 unslotted, each request excludes a slot with no support, and with status 0 every such slot is excluded |
| SmartRelated.IsRelatedRule | SmartRule.java:577-679 | computes `IsRelated` |
| SmartGroup.OppositeGroupMeaning | SmartRule.java:701-731 | both known: -1 iff same group; neither: nothing; one known: the other noun is forbidden from exactly that group's nouns |
| SmartGroup.InOppositeGroupRule | SmartRule.java:697-733 | computes `InOppositeGroup` |
| SmartGroup.ShortMeaning | SmartRule.java:806-812 | a group is short iff some noun of it is open to noun1 or noun2, and fewer than two are, or none is open to noun1, or none to noun2 |
| SmartGroup.SameGroupKnown | SmartRule.java:746-775 | both known: -1 iff different groups; one known: the other noun is forbidden from exactly the other groups' nouns |
| SmartGroup.SameGroupCounts | SmartRule.java:778-817 | neither known: each request forbids a noun of a short group; with status 0 all such were made |
| SmartGroup.ListEliminator2 | SmartRule.java:834-845 | issues list 1 against noun1, then list 2 against noun2 |
| SmartGroup.Populate | SmartRule.java:785-802 | the loop builds the six group lists |
| SmartGroup.InSameGroupRule | SmartRule.java:739-819 | computes `InSameGroup` |

## Left out

- The solver itself is not modelled. It is `Boundary.Solver`. The grid the
  rules read is fixed during one rule invocation. In the program, an
  accepted request can change what later reads of the same invocation see.
- Messages are not modelled. The text built for each mark, the "jot"
  output and sayFact are left out; a fact's default name is a plain
  concatenation of its nouns, verb and link.
- `Helper.TitleCaseChar`: it handles ASCII letters only. The program's title
  case uses Unicode mappings, and `IsSpaceChar` lists the Unicode space
  separators without any other Unicode data.
- `SmartLink.Apply`: for hasRatio the program multiplies 32-bit ints, so it
  can overflow. The model's integers are unbounded.
- Verbs are modelled as a datatype. The program's shared verb objects,
  whose names the constructor rewrites, are not modelled.
- Link functions and rule functions are modelled as tagged values
  (`Relation`, `RuleFn`). The lambdas themselves are not modelled.
- Validation errors are `Violation` values. The program throws an
  exception with a message.
- Left out for lack of role in constraint propagation:
  - toString/asString rendering;
  - the chart and puzzle text renderers;
  - solveEquations (floating point);
  - isInt/toInt;
  - the placer message builders.
- A noun's `pairs` hold only the two nouns of each mark (`Pairing`). The
  other fields of a mark are not part of a pairing.
- `SmartGrid.OneToOneRule.constructor`: requires list 2 to be no longer
  than list 1. The program's square grid is sized by list 1, and a longer
  list 2 would index outside it.
- `Links.Link.CanBeWith`: this is the program's behaviour, not a weakening.
  It answers ssPos for every verb, because no verb number is negative, so
  ssNeg is never consulted.
- `Puzzles.Puzzle.AddFactsOneToOneTypes`: requires the second category to
  have at least as many nouns as the first. With fewer, the program adds
  the facts for the nouns the second category has, then throws an index
  error at Puzzle.java:317. Neither the exception nor those partial
  additions are modelled.
- `Puzzles.Puzzle.AddFactsStartsWith`: requires every noun of the category
  to have a non-empty name. On an empty name, `charAt(0)` throws at
  Puzzle.java:335, after the earlier nouns' facts were added; this is not
  modelled.
- `Puzzles.Puzzle.AddFactsIsNotFirstChar`: requires non-empty names in both
  categories. On an empty name, `charAt(0)` throws at Puzzle.java:356, after
  the earlier pairs' facts were added; this is not modelled.
- `Puzzles.Puzzle.AddFactsNotConsecutive`: requires the link to have a
  category. Without one, the program throws a null-pointer error at
  Puzzle.java:376-377 before adding anything; this is not modelled.
- `Puzzles.Puzzle.IsAnswer`: requires `AnswerShaped`, that is answer rows
  long enough and pairing arrays allocated with a slot per category.
  Otherwise the program throws at Puzzle.java:644 (a short answer row, or
  a noun with no pairing array before validate). This is not modelled.
- `Puzzles.Puzzle.Validate`: on success, validation appends each noun's
  facts to the list it already has, so validating twice repeats them. The
  model does the same.
- `Puzzles.Puzzle.Validate`: when a violation is found after the header
  checks, With may already have its default category and the links checked
  before it their updated flags. On that path the contract states only the
  violation and that `isValid` is unchanged.
- `Puzzles.Puzzle.Validate`: its contract does not restate what happens to
  the nouns (a fresh blank pairing array and the fact list for each).
  `Puzzles.Puzzle.Prepare`, which it ends with, states both.

## Findings

| source | as written | input that shows it | evidently intended | confidence | as-written member | corrected member |
|---|---|---|---|---|---|---|
| SmartRule.java:89-117 | the status of the "noun1 is noun2" request is not checked. The forbid loop then overwrites it, so a rejected placement is reported as success when a later request is accepted | noun1 = (1,1), list = [(2,1)], the solver rejects every "is" request and accepts every "is not"; no list noun can be with category 3's nouns, so the forbid loop requests them | return the failing status at once, as every other request of the rule does | not executed | SmartMatch.AtLeastOneAsWrittenLosesStatus | SmartMatch.MatchAtLeastOne |
