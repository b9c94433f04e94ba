# A verified model of the Aontu core

Dafny models of the algorithms in the Go port that carry a law of their own, with the laws
proved for every input. `dafny verify dfyconfig.toml` checks the whole project.

**Format grammars** (`Ranges`, `Grammar`, `Walk`, `Attributes`, `AttributeLoop`, `Leading`,
`Flow`, `FollowLoop`, `FollowExact`, `Machine*`, `Analyse`, `Recognise`; `Abnf*`, `CoreRules`, `Formats`). `Grammar` gives a
grammar's language by parse trees, under RFC 5234 and section 2.1 of RFC 7405, with no word about
FIRST sets or stacks.
The analysis and the explicit-stack recogniser are judged against it: for every grammar the
analysis accepts and every text, the recogniser's verdict within its step bound is membership, and
a refused index is exact. A grammar is accepted exactly where one character decides it at the least
solution of the attribute equations (`Refusals`: a refused one could not be run with any other).
Soundness follows the run backwards; completeness is by induction on
parse trees, from the disjointness checks; that the machine ends, in steps
linear in the text, is by the order the leading walk leaves. `AbnfSpelling` gives every spelling of
the elements of a rule and what it means, `AbnfLayout` every layout of a source; a text is read
exactly where it is such a spelling or layout, and as what that means (`AbnfSpelled`). `Formats`
puts reader, analysis and recogniser together: from the source of a grammar to a verdict that is
membership in the language the source defines.

**The constraint algebra** (`Scaled`, `Scalars`, `Sorting`, `Residuals`, `Atoms`, `Intersection`,
`Emptiness`, `NormalForm`, `Subsumption`, `Coverage`, `Trials`). A residual's meaning is the scalars
it admits, and those are the ones all atoms it was met from hold of. The meet is intersection and the greatest lower bound of subsumption, a conflict is
reported exactly where the bounds of both leave no number, the stored form of a numeric residual
does not depend on the order of meets, and counting checks with a memo, an early exit and a budget
answer as trying every branch afresh would.

**The formatter** (`Chain`, `Patience`, `UnifiedDiff`, `Hunks`, `DiffText`; `Statements`,
`MergeRuns`, `MergeLaws`, `MergeSettled`, `RepeatLines`, `RepeatForms`, `MergedRepeats`). The text of a diff is a
patch from the old lines to the new, out of a script that keeps as many lines as any chain of lines
unique in both. Of the lawful rewrites, the merge keeps every comment in its
place; when they keep the meaning of a body, as the set of what its statements say at each path, and
when a repeat keeps every comment, is told exactly, alone and one after the other.

**Exact numbers** (`Decimals`, `Numerals`, `DecimalText`, `ExactNumbers`, `ExactRefusals`), **alias expansion**
(`Aliases`), **admission by what a meet fills in** (`Fills`), the **JSON Schema importer**'s anyOf
and oneOf (`Branches`, `AnyOf`, `Alternatives`,
`BranchParts`) and the chains it builds, writes and has read back (`Writer`,
`WrittenBack`, `Junctions`), and **escapes** (`Coding`, `Utf8`, `Escapes`, `EscapedText`) are smaller cores.

## Where the code and a law part

- Subsumption answers yes for `string & empty()` over `path`, though the first admits no path
  (`Subsumption.PathsEscape`); for all inputs the general side refuses exactly the paths
  (`Subsumption.SubsumedAdmits`).
- A text, not empty, that no newline ends has the lines of the text with U+0000 and a newline behind it, so a diff
  between the two is empty (`UnifiedDiff.MarkTakenForNoNewline`). No other texts share their lines
  (`UnifiedDiff.SameLinesSameText`), so a diff is empty only of equal texts and of these
  (`DiffText.Diff`).
- A decimal of scale 4096 is within its budget, but its rendering has one digit too many to be read
  back (`DecimalText.BudgetReadBack`).
- Merging a declaration with a field of its key loses a separator (`MergeLaws.MixedSeparators`): for
  every body exactly those that nothing kept says (`MergeLaws.MergedLoses`, `MergeLaws.MergedKeeps`). A
  map of comments and blank lines only is repeated into no statement (`RepeatLines.BlankRepeats`), also
  where it stands in a map that has one (`MergedRepeats.MapUnsaid`); for every map the lines mean it
  exactly where something is heard and says all that is not (`RepeatLines.RepeatMeans`,
  `MergedRepeats.MergedRepeatMeans`). The formatter's check of the two spellings stands behind both.
- A repeat puts a statement's comment behind the last line of its map, and where that is a blank line
  the comment is lost; no check stands behind this one, which compares meanings only. The merge makes
  such maps of bodies read without any (`MergedRepeats.CommentLost`). It happens exactly where
  `RepeatLines.RepeatWritten` and `MergedRepeats.MergedRepeatWritten` say, and never to a body whose
  maps all have entries and end in none of them blank (`MergedRepeats.NeatRepeats`).
- Whether a whole number past the exactness budget is refused depends on how it is spelled
  (`ExactRefusals.SpellingMatters`), exactly for the nonzero whole multiples of a power of ten past the
  budget (`ExactRefusals.AgreesIff`); of a spelling it is told from its digits and exponent
  (`ExactRefusals.RefusedIs`).
- The importer groups a chain so that no written chain is longer than 32, but a disjunction directly
  in another, as a default makes one, stands unbracketed and can be (`Junctions.NestedWide`); it is
  so exactly where the expression is not narrow (`WrittenBack.WrittenReads`), never where no chain
  stands directly in one of its kind (`Junctions.TightNarrow`).

## Model

| member | source | states |
|---|---|---|
| Ranges.UnionAll | go/formatgrammar.go:54-70 | the union of any sets is the one canonical list: ordered, a gap between neighbours, exactly the points of the sets |
| Ranges.Meet | go/formatgrammar.go:71-87 | two ordered lists give an ordered list of exactly the points in both |
| Ranges.Shared | go/formatgrammar.go:88-103 | the least point two of the sets hold, or -1 exactly where no two share one |
| Ranges.Holds | go/formatgrammar.go:104-118 | the binary search answers membership exactly |
| Ranges.SameRanges | go/formatgrammar.go:827-839 | on canonical lists it answers whether the two sets are equal |
| Ranges.CanonicalUnique | go/formatgrammar.go:54-70 | two canonical lists of the same points are the same list |
| Walk.DepthFirst | go/formatgrammar.go:455-491 | every rule asked for is finished once; with no call back the finishing order is topological; each call back is at a rule on a cycle |
| Walk.CallsBackIff | go/formatgrammar.go:455-491 | the walk calls back exactly when some rule reaches itself |
| Attributes.NulComplete | go/formatgrammar.go:642-664 | at a fixpoint a node with a tree of the empty text is nullable |
| Attributes.FirstComplete | go/formatgrammar.go:642-664 | at a fixpoint FIRST holds the first character of every text a node derives |
| Attributes.AttributesExact | go/formatgrammar.go:642-675 | nullable iff the empty text is derived; FIRST has every first character, exactly those when all rules are productive; `one` means the language is the characters of FIRST |
| AttributeLoop.CaseOf | go/formatgrammar.go:815-825 | the set of a case-insensitive first character is exactly the characters that match it under section 2.3 of RFC 5234 |
| AttributeLoop.Lead | go/formatgrammar.go:495-503 | the nullable items in front and one more |
| AttributeLoop.AttrsOf | go/formatgrammar.go:642-664 | one node brought up to date: the three attributes as the equations over its kids define them |
| AttributeLoop.Round | go/formatgrammar.go:665-675 | a round keeps the claims true, and one that moves something leaves fewer facts unclaimed |
| AttributeLoop.Solve | go/formatgrammar.go:629-675 | the loop ends at a fixpoint of the equations that claims no more than any other: the least one; and every claim is true |
| Flow.FollowClosed | go/formatgrammar.go:681-728 | FOLLOW of a referenced rule holds what can follow the reference |
| Flow.RuleChecked | go/formatgrammar.go:777-810 | the checks over all visits check each rule against its own FOLLOW, node by node |
| Flow.CheckedLess | go/formatgrammar.go:777-810 | what is decided against a set is decided against any part of it |
| FollowLoop.Needed | go/formatgrammar.go:730-760 | the fewest rules are marked that a choice, or a reference to a marked rule, at their end marks |
| FollowLoop.Grow | go/formatgrammar.go:762-775 | the growing loop ends with sets that hold nothing that cannot follow and with every needed reference settled |
| FollowLoop.NeededExact | go/formatgrammar.go:730-775 | the set grown for a needed rule is its full FOLLOW |
| FollowLoop.SameVerdict | go/formatgrammar.go:730-813 | every determinism check has the verdict it would have with FOLLOW of all rules |
| Analyse.Reach | go/formatgrammar.go:589-604 | the references of a node, all or only the leading ones |
| Analyse.EdgesOf | go/formatgrammar.go:605-613 | the reference graph of the grammar, whole or leading |
| Analyse.CheckAlt | go/formatgrammar.go:781-803 | no refusal iff one character decides the alternation; a refusal names a true reason and its least character |
| Analyse.CheckVisit | go/formatgrammar.go:781-809 | no refusal iff the visited choice is decided |
| Analyse.CheckAll | go/formatgrammar.go:777-810 | no refusal only for a deterministic grammar; a refusal holds of the grammar |
| Analyse.Attributed | go/formatgrammar.go:529-675 | the attributes are the least solution over the nodes of the grammar |
| Analyse.LeastUnique | go/formatgrammar.go:629-675 | there is but one least solution |
| Analyse.Analyse | go/formatgrammar.go:529-813 | a grammar is accepted iff it is deterministic and without left recursion at the least solution; then it is ready for the machine, and `empty` says whether the empty text is a member; a refusal gives a reason that holds there |
| Analyse.RankedNotLeft | go/formatgrammar.go:676-679 | in a grammar the leading walk orders, no rule reaches itself before a character |
| Refusals.RefusalFinal | go/formatgrammar.go:676-813 | a grammar refused at the least solution is never ready to run, whatever attributes it is given |
| Refusals.DeterministicLess | go/formatgrammar.go:777-813 | a grammar deterministic with more first characters is so with fewer |
| MachineSound.RunBack | go/formatgrammar.go:901-981 | whatever the stack derives after a run, before it it derives with what the run read in front |
| MachineSound.AcceptedDerives | go/formatgrammar.go:901-981 | a run that empties the stack has read a text the start rule derives |
| MachineComplete.NulApart | go/formatgrammar.go:777-813 | what a nullable node can begin with cannot follow it |
| MachineComplete.PickRight | go/formatgrammar.go:901-981 | the alternative taken is the one whose tree the text holds |
| MachineComplete.DerivedAccepted | go/formatgrammar.go:901-981 | a text the start rule derives is read to its end by some run |
| MachineEnds.AlwaysEnds | go/formatgrammar.go:901-981 | without the step bound the machine ends on every text, in steps linear in its length at the pace of the grammar |
| MachineRefusal.ReadExtends | go/formatgrammar.go:901-981 | where every rule is productive, what was read before a refusal extends to a member |
| MachineRefusal.NothingBeyond | go/formatgrammar.go:901-981 | no member begins with the text up to and including the refused character |
| Recognise.PickAlt | go/formatgrammar.go:904-981 | the alternative the next character begins, else the first that can match nothing |
| Recognise.ReadString | go/formatgrammar.go:904-981 | the index of the first character of a string that differs |
| Recognise.SameIs | go/formatgrammar.go:1020-1026 | the recogniser compares characters as section 2.3 of RFC 5234 says |
| Recognise.Turn | go/formatgrammar.go:904-981 | one turn of the loop is one step of the machine |
| Recognise.RecogniseFormat | go/formatgrammar.go:888-981 | within the step bound: -1 exactly on the texts the start rule derives; a refused index is exact on both sides; the bound suffices for every text short enough for the pace |
| Recognise.BoundSuffices | go/formatgrammar.go:888-981 | the step bound suffices where the pace times one more than the length is within it |
| Recognise.VerdictDecides | go/formatgrammar.go:888-981 | wherever a run ends, its verdict is membership |
| Recognise.DecidesEveryText | go/formatgrammar.go:888-981 | for every accepted grammar and text some run ends, in linearly many steps, with the verdict membership has |
| Chain.LongestChain | go/format.go:1824-1864 | a chain of the pairs, increasing on both sides, that no chain of them exceeds in length |
| Chain.NoLonger | go/format.go:1824-1864 | no chain is longer than there are piles |
| Patience.UniquePairs | go/format.go:1866-1918 | exactly the lines that stand once on each side, left to right |
| Patience.PatienceDiff | go/format.go:1866-1918 | the script reads exactly the left lines and writes exactly the right, changes nothing where they are equal, keeps as many lines as any chain of lines unique on both sides, and leaves no block of changes with a line unique in both its halves or an end in common; and it ends |
| UnifiedDiff.JoinSplit | go/format.go:1811-1822 | splitting at newlines and joining gives the text |
| UnifiedDiff.TextOfLines | go/format.go:1811-1822 | the lines give the text back iff it does not end in U+0000 and a newline |
| UnifiedDiff.SameLinesSameText | go/format.go:1811-1822 | two texts have the same lines iff they are equal, or one is the other, which no newline ends, with U+0000 and a newline behind it |
| UnifiedDiff.MarkTakenForNoNewline | go/format.go:1811-1822 | every such pair of different texts has the same lines |
| Hunks.Group | go/format.go:1926-1941 | changes at most six apart share a span, neighbours in one are at most six apart, every change is in one, and there is none iff nothing changes |
| Hunks.HunksOf | go/format.go:1943-1981 | every hunk is its part of the script with exact places and counts, and nothing changes outside them |
| Hunks.CutsWell | go/format.go:1943-1981 | hunks are ordered, disjoint, cover every change, hold three kept lines on each side or as many as there are, and no two neighbouring changes more than six apart |
| Hunks.PatchWhole | go/format.go:1920-1983 | applying the hunks, places and counts checked, turns the old lines into the new |
| DiffText.HeadRead | go/format.go:1977-1990 | a hunk head reads back as both starts and both counts |
| DiffText.BodyRead | go/format.go:1960-1978 | a hunk body reads back as its edits by its counts alone, unterminated last lines included |
| DiffText.RenderedRead | go/format.go:1943-1990 | the text of a diff reads back as its hunks, for every file name without a newline |
| DiffText.Diff | go/format.go:1920-1983 | the diff is empty iff the texts are equal or such a pair; its text, read back and applied to the lines before, gives the lines after |
| Scaled.CmpIsOrder | go/numcmp.go:86-105 | comparing scaled numerators is comparing the exact rationals |
| Scaled.MultipleIs | go/numcmp.go:132-137 | the remainder test answers whether one rational is a whole multiple of the other |
| Scaled.IntegralIs | go/numcmp.go:153-163 | the integrality test is exact |
| Scaled.FloorBigIs | go/numcmp.go:165-174 | the floor by truncated division is the floor, negative values included |
| Scalars.CmpTrans | go/constraint.go:606-614 | the order of scalars is transitive, with equality only through equalities |
| Scalars.SameIs | go/constraint.go:588-604 | identity by leaf and value is equality |
| Sorting.SortSorted | go/constraint.go:2675-2691 | the stable sort sorts |
| Sorting.SqueezeStrict | go/constraint.go:2640-2691 | a sorted list squeezed of like neighbours is strictly sorted |
| Sorting.StrictUnique | go/constraint.go:2640-2691 | a strictly sorted list is fixed by its elements |
| Sorting.SqueezeLoop | go/constraint.go:2675-2691 | the dedup loop against the last element kept |
| Sorting.SqueezeNeighbours | go/constraint.go:2640-2656 | the dedup loop against the element in front keeps the same |
| Intersection.LowerBoth | go/constraint.go:2609-2638 | the tighter lower bound admits exactly what both do |
| Intersection.UpperBoth | go/constraint.go:2609-2638 | the tighter upper bound admits exactly what both do |
| Intersection.MultsBoth | go/constraint.go:2640-2656 | dropping divisors that show the same loses no constraint |
| Intersection.EmptyCount | go/constraint.go:2354-2413 | a count taken for empty is met by no length |
| Intersection.EmptyAdmitsNone | go/constraint.go:2354-2413 | a state taken for empty admits no scalar, the floor and ceiling gap of integral states included |
| Intersection.MergeGood | go/constraint.go:1443-1479 | a merged state keeps the invariant that its parts imply a domain |
| Intersection.MergeBoth | go/constraint.go:1443-1479 | the merged state admits a scalar iff both sides do |
| Intersection.DisagreeDisjoint | go/constraint.go:1419-1434 | sides whose domain, kind or path flags disagree admit nothing in common |
| Intersection.MeetIntersects | go/constraint.go:1419-1479 | the meet is intersection, and a conflict is reported only where no scalar is admitted by both |
| NormalForm.MeetCommutes | go/constraint.go:1419-1479 | on numeric residuals the two orders of a meet store the same parts or conflict together |
| NormalForm.MeetAssociates | go/constraint.go:1419-1479 | and so do the two groupings of three |
| NormalForm.MeetIdempotent | go/constraint.go:1419-1479 | a stored residual met with itself is itself |
| NormalForm.MeetStored | go/constraint.go:2640-2691 | what a meet gives is stored in the normal form |
| NormalForm.EmptyKept | go/constraint.go:2354-2397 | a state once empty is empty under every further merge |
| NormalForm.MultsLeast | go/constraint.go:2640-2656 | what is stored of the divisors is, of each shown value, the one lowest in the tower |
| NormalForm.OrderFree | go/constraint.go:1419-1479 | a chain of meets gives the same stored residual, or the same conflict, in every order |
| Subsumption.StateSound | go/constraint.go:2148-2256 | what a subsumed state admits the general state admits |
| Subsumption.SubsumedAdmits | go/constraint.go:2148-2256 | of what the specific side admits, the general side refuses exactly the paths, and those only where it met `string` |
| Subsumption.SubsumesSound | go/constraint.go:2148-2256 | the verdict is sound where a general side with `empty()` has a specific side that met `string` |
| Subsumption.PathsEscape | go/constraint.go:2148-2256 | without that guard it is not: `string & empty()` is said to subsume `path` |
| Subsumption.SubsumesReflexive | go/constraint.go:2148-2256 | every residual subsumes itself |
| Subsumption.SubsumesTransitive | go/constraint.go:2148-2256 | subsumption is transitive, through the divisor rule and the counts |
| Subsumption.MeetBelow | go/constraint.go:1419-1479 | both sides subsume their meet |
| Subsumption.MeetGreatest | go/constraint.go:1419-1479 | and the meet subsumes whatever both sides do |
| Trials.CountSpan | go/constraint.go:1924-1940 | all, none or some of a run of numbers, exactly |
| Trials.AdmittingWithin | go/constraint.go:1196-1210 | the branches left untried add at most themselves to the count |
| Trials.Decided | go/constraint.go:1196-1222 | a span of all or none settles the count whatever the untried branches would say |
| Trials.TrialState.AdmitsSettled | go/admit.go:246-270 | the answer is a fresh verdict; a new key is charged once; it fails only with the budget spent and the key new |
| Trials.TrialState.CheckNof | go/constraint.go:1196-1222 | one count: it passes iff it takes the number of branches a fresh trial of each admits, with the range it reports |
| Trials.TrialState.CheckNofs | go/constraint.go:1181-1226 | the first count that fails is named, and the budget gives out only where the distinct keys outnumber it |
| Statements.MembersFacts | go/format.go:1109-1128 | sinking a comment changes no meaning |
| Statements.MembersWritten | go/format.go:1109-1128 | and leaves it behind what it stood behind |
| MergeRuns.MergeRunsLoop | go/format.go:1130-1183 | the loops compute the merge the laws are about |
| MergeRuns.TakeRun | go/format.go:1149-1182 | the inner loop takes the whole run, comments and blank lines that end it left behind |
| MergeLaws.MergedFacts | go/format.go:1130-1221 | what the merged body says and what the body said, told from the runs of the body, at every depth |
| MergeLaws.MergedLoses | go/format.go:1130-1221 | the merge loses exactly the separators of joined statements that differ from the first of their run and that nothing kept says |
| MergeLaws.MergedKeeps | go/format.go:1130-1221 | the merge keeps the meaning of a body, at every depth, iff each such separator is said by something kept |
| MergeLaws.SeparateKeeps | go/format.go:1130-1221 | so it does wherever no path is both declared and a field |
| MergeLaws.MergedKeepsFields | go/format.go:1130-1221 | separators left aside, it keeps it always |
| MergeLaws.MixedSeparators | go/format.go:1159-1179 | the input that shows it: a declaration merged with a field of its key loses the field |
| MergeLaws.MergedWritten | go/format.go:1109-1221 | every value and comment stands, in its order, after the merge |
| MergeSettled.MergedOne | go/format.go:1159-1196 | no map gets two spreads |
| MergeSettled.MergedSettled | go/format.go:1130-1221 | at every depth no two statements with only comments and blank lines between them have one key, one optional mark and plain maps, unless both hold a spread |
| RepeatLines.RepeatLoop | go/format.go:1250-1315 | the loop over entries computes the lines the laws are about |
| RepeatLines.RepeatHeard | go/format.go:1250-1315 | the lines of any map, each read back with its heads, say the map without the maps below that have no statement |
| RepeatLines.HeardParts | go/format.go:1250-1315 | a map says what is heard of it and what is not, told from the map |
| RepeatLines.RepeatMeans | go/format.go:1250-1315 | the lines of any map mean it iff something is heard of it and says all that is not |
| RepeatLines.SpokenMeans | go/format.go:1250-1315 | so where every map repeated below has a statement, iff the map has one |
| RepeatLines.StatementRepeats | go/format.go:1330-1345 | so a statement repeated means the statement iff something is heard of its map and says all that is not |
| RepeatLines.RepeatWritten | go/format.go:1250-1315 | every value and comment stands in the lines, in order, iff no statement with a comment is written below in lines that end blank |
| RepeatLines.BlankRepeats | go/format.go:1250-1315 | the input that shows it: two empty statements with a blank line between merge into a map that is repeated as nothing |
| MergedRepeats.StatementsMerged | go/format.go:1130-1221 | the map of every statement of a merged body is itself a merged body |
| MergedRepeats.MergedRepeatMeans | go/format.go:1321-1402 | merged and repeated, any body says what it said iff something is heard of its merge and says every separator lost and every map not heard |
| MergedRepeats.MergedRepeatWritten | go/format.go:1321-1402 | merged and repeated, everything a body holds stands iff no comment of the merged body is put behind a blank line |
| MergedRepeats.MergedNeat | go/format.go:1130-1221 | the merge of a body whose maps have entries and end in no blank line is such a body |
| MergedRepeats.NeatRepeats | go/format.go:1321-1402 | of such a body the merge and the repeat lose no comment and no value, and no meaning iff the merge loses none |
| MergedRepeats.CommentLost | go/format.go:1305-1309 | the input that shows it: a body as read whose merge leaves a blank line last and whose comment is then lost |
| MergedRepeats.MapUnsaid | go/format.go:1250-1315 | the input that shows it: a body as read that has a statement and whose merge, repeated, leaves another unsaid |
| Aliases.Reaches | go/alias.go:222-247 | the search finds a reference to the alias iff there is one |
| Aliases.Expander.Loops | go/alias.go:269-280 | the memo answers as the search would |
| Aliases.Expander.Visit | go/alias.go:249-282 | every reference visited is expanded unless its target reaches the alias |
| Aliases.Expander.ExpandAliases | go/alias.go:210-293 | all that the root, the declarations and the operands lead to is visited |
| Aliases.NoLoop | go/alias.go:210-293 | following expansions never comes back to a value |
| Aliases.RenderingEnds | go/hcanon.go:94-99 | every value visited renders to a finite text, no deeper than there are values |
| Decimals.NewDecimal | go/decimal.go:21-46 | the loop gives the normal form of the value |
| Decimals.NormalUnique | go/decimal.go:21-46 | normal forms are equal iff their values are |
| Decimals.NegIs | go/decimal.go:48-53 | negation is exact and normal |
| Decimals.AddIs | go/decimal.go:55-66 | addition is exact and normal |
| Decimals.MulIs | go/decimal.go:68-71 | multiplication is exact and normal |
| Decimals.CeilFloorIs | go/decimal.go:73-84 | rounding is the floor or the ceiling of the exact value |
| Decimals.CmpOrders | go/decimal.go:93-106 | the order is that of the values, and 0 only for equal decimals |
| DecimalText.DigitsReadBack | go/lang.go:1199-1225 | rendered digits read back as the same decimal iff they fit the budget |
| DecimalText.BudgetReadBack | go/decimal.go:86-132 | a decimal within its budget reads back iff its scale is below 4096 |
| DecimalText.LastScaleRefused | go/decimal.go:86-132 | 10^-4096 is within the budget and its rendering is refused |
| DecimalText.DigitsTell | go/decimal.go:119-132 | two decimals render alike only when equal |
| ExactNumbers.ExactIs | go/lang.go:933-936 | a magnitude is exact iff 53 significant bits hold it |
| ExactNumbers.LeafIsStorable | go/exactnum.go:31-37 | the integer leaf and 64-bit storability differ at -2^63 only |
| ExactNumbers.ReadExactNumber | go/exactnum.go:39-91 | the value is kept and placed in the leaf it selects, or refused |
| ExactNumbers.PlaceUnique | go/exactnum.go:39-91 | a value has one place |
| ExactNumbers.OneLeafPerValue | go/exactnum.go:39-103 | of spellings not refused, equal values have one leaf and one text, and different values differ in both |
| ExactRefusals.RefusedIs | go/exactnum.go:55-82 | a spelling is refused iff its exponent, its places or its digits exceed the budget, spare zeros aside |
| ExactRefusals.SpellingMatters | go/exactnum.go:67-71 | a nonzero whole multiple of a power of ten past the budget is refused with an exponent and read when written out |
| ExactRefusals.AgreesIff | go/exactnum.go:39-91 | all spellings of a value are refused together iff it is not such a multiple |
| Branches.KindsCover | go/jsonschema_import.go:1862-1929 | an instance whose meet with an expression survives is of a kind kindsOf names |
| Branches.LiteralsMeet | go/jsonschema_import.go:1931-1953 | what is nothing but literals admits exactly them, inside a disjunction too |
| Branches.ApartMeet | go/jsonschema_import.go:2023-2042 | no instance survives the meet with two branches that are apart |
| AnyOf.ImportAnyOf | go/jsonschema_import.go:2044-2089 | the loops choose the form the laws are about |
| AnyOf.AnyOfAdmits | go/jsonschema_import.go:2044-2089 | admitted iff some branch admits (section 10.2.1.2 of JSON Schema Core 2020-12) |
| AnyOf.AnyOfWrites | go/jsonschema_import.go:2044-2089 | a disjunction of branches not all literal is written only where no instance survives the meet with two |
| AnyOf.ImportOneOf | go/jsonschema_import.go:2091-2112 | the loop over seen texts chooses the form the laws are about |
| AnyOf.OneOfAdmits | go/jsonschema_import.go:2091-2112 | admitted iff exactly one branch admits (section 10.2.1.3 of JSON Schema Core 2020-12) |
| Coding.DecodedEncoded | go/escape.go:351-385 | a decoder that takes back what an encoder writes per item undoes it on every input |
| Utf8.DecodingIs | go/escape.go:291-316 | bytes decode to a text iff they are its encoding: nothing overlong, cut short or outside section 3 of RFC 3629 |
| Escapes.CTaken | go/escape.go:50-154 | one character in either quote, control characters as `\u` escapes included, is read back |
| Escapes.PairTaken | go/escape.go:126-140 | a surrogate pair is read as its character |
| Escapes.LoneRefused | go/escape.go:118-140 | half a pair is refused |
| Escapes.XmlTaken | go/escape.go:231-275 | the entities are prefix-free, so each is read back |
| Escapes.UriStrict | go/escape.go:291-316 | percent-decoding answers exactly where the bytes are the UTF-8 of the answer |
| Escapes.UnescapeEscape | go/escape.go:351-385 | for every variant and text, unescaping the escaped text gives the text |
| AbnfShown.ElementsReadable | go/formatgrammar.go:270-457 | whatever is read is a readable node, nested within the bound: no empty choice, no class or string out of range, bounds the right way round, names lower-case |
| AbnfBack.Back | go/formatgrammar.go:270-457 | a readable node's text, at any level and before any text that may stand behind it, is read as the node and no more |
| AbnfBack.ElementsBack | go/formatgrammar.go:270-457 | the nodes the reader can make are exactly the readable ones within the nesting bound, and each is read from its own text |
| AbnfRules.CoreShaped | go/formatgrammar.go:122-143 | every rule of appendix B.1 of RFC 5234 is shaped as the analysis asks |
| AbnfRules.DefsLoop | go/formatgrammar.go:194-211 | a definition to each line that does not begin with space, later lines that do joined to it, comments cut and blank lines passed over; refused only for a continuation before any rule |
| AbnfRules.TableLoop | go/formatgrammar.go:212-234 | the loop over the definitions makes the table they make one by one, refusing one that is no rule, a rule defined twice or extended before it is defined |
| AbnfRules.TableGood | go/formatgrammar.go:212-234 | the table has each rule once, in an order that starts with the start, every rule shaped |
| AbnfRules.Refer | go/formatgrammar.go:238-257 | the rules reached are added once each; it fails only where no closed rules have the names, and adds only what all closed rules have |
| AbnfRules.ReadGrammar | go/formatgrammar.go:191-262 | refused exactly where no closed rules complete the source; read as the fewest that do, shaped and named as the analysis asks |
| AbnfSource.LineBack | go/formatgrammar.go:146-216 | a definition's text is cut by no comment, trimmed of nothing and read back as the definition |
| AbnfSource.SourceBack | go/formatgrammar.go:191-234 | a grammar written a rule to a line reads back as its definitions |
| Formats.ReadFormat | go/formatgrammar.go:854-886 | no grammar, a reason that holds of the rules read, or a format ready to run; usable iff one character decides the rules of the source at their least solution |
| Formats.LanguageRead | go/formatgrammar.go:854-886 | whatever rules complete a source, its language is that of the rules read |
| Formats.Matches | go/formatgrammar.go:854-981 | from the grammar's text to the verdict: within the step bound, which suffices for every text short enough, matched exactly the texts of the language the source defines |
| Formats.WrittenLanguage | go/formatgrammar.go:191-262 | a grammar written out and read again has the language of its definitions |
| Fills.SameIs | go/admit.go:101-132 | sameJSON is equality of JSON values, whole numbers of either width being one |
| Fills.FillsListed | go/admit.go:38-64 | exactly the positions the generated JSON holds, the data lacks and no optional key excuses are listed |
| Fills.AdmitsOwnIs | go/admit.go:272-287 | a meet that held admits a value iff it generates the value's own JSON with members it makes optional added, at any depth, and nothing else |
| Fills.OwnAdmitted | go/admit.go:66-88 | a value is an instance of whatever generates its own JSON |
| Writer.WriteLevel | go/jsonschema_import.go:598-607 | the least level whose groups hold the members |
| Writer.WriteExpr | go/jsonschema_import.go:511-566 | the text of an expression is the specified sequence of parts, signs and brackets |
| Writer.WriteChain | go/jsonschema_import.go:609-633 | the loop over groups writes the specified chain |
| WrittenBack.ChainBack | go/jsonschema_import.go:609-633 | a chain written at any level is read as members that, ungrouped, are its own; how many, and whether their chains are short, is told exactly |
| WrittenBack.WrittenReads | go/jsonschema_import.go:511-633 | what is written reads back whole as the same meet or disjunction; its chains are no longer than a group iff the expression is narrow |
| Junctions.WrittenSays | go/jsonschema_import.go:511-633 | what is read says what was written, whatever the parts say |
| Junctions.TightNarrow | go/jsonschema_import.go:598-633 | with no chain directly in a chain of its kind, no written chain is longer than a group |
| Junctions.NestedWide | go/jsonschema_import.go:445-451 | a full disjunction in a disjunction is written as a chain longer than a group |
| Junctions.MeetLoop | go/jsonschema_import.go:414-443 | iand's loops build the meet the laws are about |
| Junctions.MeetHolds | go/jsonschema_import.go:412-443 | iand holds exactly where every part holds, `any` always and `nil` never |
| Junctions.MeetTight | go/jsonschema_import.go:414-443 | iand of tight parts has no meet in a meet |
| Junctions.EitherHolds | go/jsonschema_import.go:445-451 | ior holds exactly where some part holds |
| Junctions.EitherTight | go/jsonschema_import.go:445-451 | ior of tight parts is tight iff it is one part or no part is a disjunction |
| AbnfSpelling.CountRead | go/formatgrammar.go:312-330 | each count, without a star or around one, is read as the bounds it says, without one as exactly that many |
| AbnfSpelling.ChoiceRead | go/formatgrammar.go:283-453 | elements spelled in any way, with any spaces, groups, counts, marks and number bases, are read as what they mean, in front of whatever may follow |
| AbnfSpelled.ReadIff | go/formatgrammar.go:270-457 | a text is read as a node exactly where it is a spelling of it under section 4 of RFC 5234 and section 2.1 of RFC 7405, counts of nine digits and 64 groups deep |
| AbnfSpelled.RefusedIff | go/formatgrammar.go:270-457 | and refused exactly where it spells nothing |
| AbnfCounts.CountedShown | go/formatgrammar.go:312-334 | a count in front of any readable element is read as that many of the element |
| AbnfCounts.TimesDerives | go/formatgrammar.go:312-334 | a counted element derives exactly the texts in as many parts as the count allows, each derived by the element |
| AbnfCounts.ExactlyDerives | go/formatgrammar.go:312-334 | a plain number in front of an element stands for exactly so many of it |
| AbnfLayout.CommentCut | go/formatgrammar.go:147-167 | a line loses its comment, from the first semicolon outside strings and prose values on, and nothing else |
| AbnfLayout.EndingsRead | go/formatgrammar.go:194-196 | lines are the same whichever of the three endings stand behind them |
| AbnfLayout.DefsIff | go/formatgrammar.go:194-211 | lines have these definitions exactly where they are laid out so: blank lines, then rows that begin one and rows that go on with it, their texts joined by a space |
| AbnfLayout.ContinuedFirst | go/formatgrammar.go:201-205 | a row that goes on with a definition is refused where none is begun |
| AbnfLayout.DefIff | go/formatgrammar.go:216-221 | a definition is read exactly where it is a name, a sign and spelled elements, as what it says |
| AbnfLayout.TableIff | go/formatgrammar.go:212-234 | definitions make a table exactly where each name is defined before it is extended and never twice; a rule is its one definition or the alternatives of all of them in their order |
| AbnfLayout.LayoutRead | go/formatgrammar.go:191-238 | however a grammar is laid out and spelled it is read as the table of its definitions, and refused exactly where one is not in its turn |
| AbnfLayout.ReadLaid | go/formatgrammar.go:191-238 | and whatever is read is laid out and spelled so |
| Formats.SpelledLanguage | go/formatgrammar.go:191-262 | whatever the layout and spelling, the language decided is that of the definitions |
| Emptiness.CrossedIff | go/constraint.go:2361-2367 | the bounds are taken to cross exactly where no number lies between them |
| Emptiness.NoWholeIff | go/constraint.go:2369-2387 | the gap rule fires exactly where no whole number lies between the bounds, open ends counted |
| Emptiness.PointIff | go/constraint.go:2389-2397 | the exclusion rule fires exactly where one number alone is left and it is excluded in the kind admitted |
| Emptiness.EmptyIff | go/constraint.go:2354-2413 | a number's state is empty exactly where its bounds leave no number, no whole one where whole ones alone count, or one that is excluded, or something else is asked |
| Emptiness.EmptyOtherIff | go/constraint.go:2398-2410 | any other state exactly where its count leaves no length, or, for text, for what is asked of containers or bounds that cross |
| Emptiness.TextCrossedIff | go/constraint.go:2361-2367 | bounds on any scalars, unless both are open, cross exactly where nothing lies between them |
| Emptiness.ConflictIff | go/constraint.go:1419-1479 | two residuals that agree, one of them numeric, conflict exactly where the bounds of both leave no number for both, no whole one where a side takes whole ones alone, or one that is excluded, or something else is asked |
| Emptiness.ConflictOtherIff | go/constraint.go:1419-1479 | two of no number exactly where their counts leave no length, or, for text, for containers or crossed bounds |
| Coverage.LowerCoversIff | go/constraint.go:2171-2179 | a lower end is covered exactly where every number above the specific one is above it |
| Coverage.UpperCoversIff | go/constraint.go:2180-2188 | an upper end likewise |
| Coverage.SetsIff | go/constraint.go:2189-2241 | exclusions, patterns, formats and keys are covered exactly where the specific side has each |
| Coverage.WholeCovers | go/constraint.go:2203-2215 | divisors 1 is a multiple of are covered by a side of whole numbers alone |
| Coverage.WholeCoversIff | go/constraint.go:2203-2215 | where whole numbers are all the specific side asks for, exactly the divisors of every whole number are covered |
| Coverage.DivisorCoversIff | go/constraint.go:2203-2215 | where one divisor is, exactly those that every multiple of it is a multiple of |
| EscapedText.LiteralClosed | go/escape.go:50-79 | a quoted literal ends where it is closed, whatever follows, and holds no control character |
| EscapedText.ShortestLiteral | go/escape.go:50-154 | no safe text read back as the same is shorter |
| EscapedText.SqlClosed | go/escape.go:186-188 | an SQL literal ends where it is closed |
| EscapedText.SqlOne | go/escape.go:186-205 | exactly the one text written is read back as its text |
| EscapedText.ShellWhole | go/escape.go:207-212 | in single quotes it is one word of the POSIX shell, and that word is the text |
| EscapedText.ShellOne | go/escape.go:210-229 | exactly the one text written is read back as its text |
| EscapedText.XmlOne | go/escape.go:231-275 | of the texts with no markup character but entities exactly the one written is read back as its text |
| EscapedText.XmlRefusedIff | go/escape.go:253-275 | refused exactly for an ampersand that begins no entity |
| EscapedText.RegexOne | go/escape.go:317-347 | of the patterns with every metacharacter behind a backslash exactly the one written is read back as its text |
| EscapedText.RegexRefusedIff | go/escape.go:331-347 | refused exactly for a backslash with no metacharacter behind it |
| EscapedText.UriWritten | go/escape.go:277-289 | only unreserved characters and percent signs with two upper-case hexadecimal digits |
| EscapedText.UriBare | go/escape.go:277-289 | unreserved characters are written as they stand |
| Alternatives.MayBeIs | go/jsonschema_import.go:1862-1931 | the kinds read from the shape of an expression are those of which an instance survives |
| Alternatives.CountedIff | go/jsonschema_import.go:2023-2089 | anyOf is written as a count exactly where, of branches not all literal, one is a blocker or two may be of one kind; as `or` everywhere else |
| Alternatives.OneOfCountedIff | go/jsonschema_import.go:2091-2112 | oneOf of two or more branches is a count unless all are literal and no literal stands twice |
| CoreRules.CoreDerives | go/formatgrammar.go:122-143 | each core rule derives exactly the texts appendix B.1 of RFC 5234 gives it |
| FollowExact.FollowIsExact | go/formatgrammar.go:681-728 | where all rules derive something, whatever a rule derives some rule derives with any character of its FOLLOW behind it, a repeat of none taken for an option |
| FollowExact.FollowPlain | go/formatgrammar.go:681-728 | so it is, to the letter, of a grammar without a repeat of none |
| Aliases.LeadsIs | go/alias.go:215-247 | the search goes step by step through what values hold, through each reference's own target, fixed or held, and through residuals of aliases |
| Aliases.RightIff | go/alias.go:250-300 | a reference keeps its target exactly where that does not come to the alias again |
| DecimalText.ExactDecimalIs | go/lang.go:1199-1225 | a spelling is read as its value in normal form, refused exactly over 4096 digits or a scale past 4096 either way, and malformed exactly without a digit |
| BranchParts.BlockerIff | go/jsonschema_import.go:1955-2021 | an expression is a blocker exactly where some part of it, however deep, blocks |
| BranchParts.LiteralIff | go/jsonschema_import.go:1931-1953 | an expression is literal exactly where every part is a literal, a disjunction or a rider on one |
| BranchParts.WrittenInOrder | go/jsonschema_import.go:2062-2087 | branches of different kinds are written in the order of the kinds they may be of, disjunctions spread out |
| RepeatForms.InlineIff | go/format.go:637-733 | a node has a one-line spelling exactly where nothing in it, however deep, keeps it from one |
| RepeatForms.RecordIff | go/format.go:1223-1242 | a map is kept as a block exactly where it is two fields or more, no spread, and no field to go into |
| RepeatForms.RepeatFormed | go/format.go:1250-1315 | every line written fits and has one-line values, every block is of fields alone |
| RepeatForms.FitsAlone | go/format.go:1285-1289 | a statement is one line exactly where its value has a one-line spelling that fits |
| EscapedText.UnescapeIff | go/escape.go:85-154 | between quotes a text is read as another exactly where it can be cut into pieces that spell that other's characters: bare, a letter behind a backslash, or one or a surrogate pair of four-digit codes |
| CoreRules.FoundIs | go/formatgrammar.go:238-249 | a name is looked up among the core rules and then in the library |
| Subsumption.MultipleTold | go/numcmp.go:112-137 | one number is a multiple of another where it is a whole number of times the other, a double taken as the decimal it shows |
| ExactNumbers.TextSpells | go/exactnum.go:90-103 | the text of a number spells its value: bare in the integer leaf, past it with the marker behind the sign, and with a point exactly where it has places |
| Atoms.AtomRead | go/constraint.go:616-850 | an atom read admits exactly what it says: a bound by its order, exclusions by leaf and value, a divisor by what is shown, a pattern or format by its verdict, a length by the number of characters; one refused is an invalid call or holds of no scalar |
| Atoms.AtomsMet | go/constraint.go:1419-1480 | a residual met from any atoms admits exactly the scalars all of them hold of, and where a conflict is reported no scalar has them all |
| Atoms.CmpTextBefore | go/constraint.go:602-611 | text is ordered by the first character that differs, a beginning of another first |

## Left out

- The texts of refusals in the reader of ABNF and in the analysis, and the cache of grammars read.
- AbnfSource.SourceBack: is for grammars written a rule to a line; any other layout is
  `AbnfLayout.LayoutRead`.
- Emptiness.EmptyOtherIff: says of text bounds that they cross; between two open ends there may be no
  text though they do not (`Emptiness.TextCrossedIff` has the others).
- Coverage.DivisorCoversIff: is for one divisor; of several the code asks each alone, so a divisor only
  their common multiples have is not taken for covered.
- EscapedText.ShortestLiteral: leaves the case of the digits in a `\u` escape open.
- Formats.Matches: a format library is any set of shaped rules, as reading one makes them; the JSON
  Schema formats that meet several grammars at once (`formatOf`) are left out.
- Node identity in the grammar: attributes are per node structure, not per pointer; unions and
  clashes are recomputed where the source memoises them by set number.
- Band B checks in meet and subsumption (`must`, `nof`, `when`, `contains`, `rest`), their messages
  and their order; the count atom of a container (a count is of a string's length here).
- Intersection.MeetIntersects: leaves out `empty()`, whose waiver widens a meet by design.
- NormalForm.OrderFree: is for numeric residuals; exclusions of paths and strings have no order
  between them.
- Atoms.AtomRead: takes patterns and formats that can be read, and arguments that are settled.
- Pattern matching, formats and the digits a binary float shows: functions of the world a residual is
  read in, the last faithful to wholeness and to identity; infinities are left out.
- Trials.TrialState.CheckNofs: takes a verdict to be a function of its key, so trials that run
  trials, and a budget spent inside one, are left out, and so are the texts of refusals.
- The formatter's line layout: whether a line fits is any function; source positions, the check of
  the two spellings, lint, lists and expressions are left out.
- Resolving references: a document is its settled values, each holding only values before it.
- Decimal scales as 32-bit numbers: every stored scale is within 4096 of zero.
- Matching a JSON number and a decimal literal against their patterns: spellings come in parts.
- The value a meet comes to in the importer: an oracle asked only where every part survives; printing
  as the identity of expressions, which is structural here, and the marks of an expression.
- AnyOf.AnyOfAdmits: assumes of the unifier, which is not part of this model, that a branch with no blocker settles inside
  a disjunction as it does alone; the oracle for branches in a disjunction is asked only of blockers.
- AnyOf.OneOfAdmits: assumes the same of the branches it writes as a disjunction.
- Writer.WriteExpr: a part that is no chain (a literal, a call, a list, a map) is one token.
- Fills.AdmitsOwnIs: the meet, and what it generates, are given; binary floats are the reals they
  are, so not-a-number is left out.
- Bytes that are not UTF-8: texts are sequences of Unicode scalar values.
