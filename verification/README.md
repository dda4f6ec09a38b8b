# Verified model of the web console's client algorithms

The web console of this repository ships three JavaScript libraries whose algorithms keep state
in the page. This project models that state and proves what the algorithms promise. A document
is a finite ordered tree; a node is named by its path from the root.

**Sizzle and Deferreds (jQuery 1.6.2).** `Sizzle.dfy` runs the combinator engine: a check set of
slots is rewritten in place from right to left, and walks along `parentNode` or
`previousSibling` are shortened by marks left on nodes. The memoised walk is proved equal to the
naive one, and `Combinators.dfy` measures the result against section 8 of Selectors Level 3:
every result is a real match, and for chains of a safe shape that stays below the root every
match is a result, unless a leading combinator meets a document. `CombinatorLimits.dfy` shows which shapes of chains lose no match in any
document, and which lose none in any detached tree: exactly these. `NthChild.dfy` is the
nth-child test with its cached index. `DocumentOrder.dfy` proves the fallback comparator and `uniqueSort`. `Deferred.dfy`
and `DeferredRuns.dfy` run the two callback lists under arbitrary re-entrant user code as a
machine with a stack, which a deferred object with its two lists refines; `WhenAll.dfy` is
`when`.

**jsTree.** `TreeLinks.dfy` and `TreeEdits.dfy` hold the tree as parent and child links, where
being a tree is an invariant. `MovePreparation.dfy`, `TypeRules.dfy` and `JsTree.dfy` model
moving and creating nodes under the rules of the types plugin, and `OwnLimits.dfy` reads their
decisions off the rules of the types. `Checkbox.dfy` models the
three-state checkboxes, `TreeWalk.dfy` the next and previous visible node, `FlatXml.dfy` the
flat XML form with the stylesheet that reads it, and `XPathNumbers.dfy` which texts that stylesheet
takes for 0.

**DataTables.** `Header.dfy`, `HeaderRoundTrip.dfy`, `HeaderOwners.dfy` and `PlainHeaders.dfy` decode a header with row
and column spans into a grid and draw it again without hidden columns. `Searching.dfy`, `IndexArrays.dfy`,
`RowFilter.dfy`, `RowSorting.dfy` and `DataTable.dfy` model the row index arrays under adding,
deleting, clearing, sorting and filtering, and `DeleteTargets.dfy` deletions by anything else than a row.
`ServerSide.dfy` models the echo counter.

Code that changes things in place is a class or a method with loops, proved against functions on
values; the properties are lemmas about those functions and invariants the methods keep.

## Findings

Where the code does less than its name promises, the model keeps the code and states exactly
when the promise holds.

- Mixed combinator chains: after a descendant or general-sibling step the engine keeps only the
  nearest candidate, which is not enough for a `>`, `+` or `~` to the left of a descendant
  combinator, nor for a `+` to the left of a `~`.
- `>` does not check that a parent is an element. A compound such as `:first-child` or `:not(.x)`
  holds of the document as well, whose own parent is null; the next `>` then leaves a null slot, and
  the loops of the filter and of the results stop there and drop all later candidates. With
  `.a > :first-child > *` the engine finds nothing in any document
  (`CombinatorLimits.FirstChildFindsNothing`). `CombinatorLimits.SafeShapesAreExact` and
  `CombinatorLimits.DetachedShapesAreExact` say for which sequences of combinators neither happens;
  `Combinators.SelectUntilNull` says what is found otherwise.
- A leading combinator with a document as context finds nothing: its slots become true, and the
  result loop for a document asks true for a node type. `> html` loses the element, although it is a
  child of the document (`CombinatorLimits.LeadingChildOfDocument`). `CombinatorLimits.LedShapesAreExact`
  says for which shapes that loses a match, `Combinators.LedByDocumentFindsNothing` for which candidates.
- A callback that throws leaves the later callbacks unrun until somebody adds another one, and
  nothing else does (`DeferredRuns.AllRegisteredRun`; `DeferredRuns.ThrowCutsShort` is such a run).
- `_get_next` gets stuck at an open item without a child, and only there
  (`TreeWalk.NextIsSuccessor`; `TreeWalk.OpenItemWithoutChildIsStuck` is such a tree).
- Unique ids other than empty or "0" are neither enough nor needed for the flat XML round trip.
  `FlatXml.ComesBackExactly` gives the exact condition: no id is "0", has a word that begins
  with jstree or ends in white space, and the id of an item with children is its own, not empty
  and not a number that is zero, be it because it rounds to zero (`XPathNumbers.TinyIsZero`).
- A header row that owns no cell is drawn into the TR of a row above, which is emptied again.
  `HeaderOwners.RedrawnExactly` says when that loses cells for given hidden columns, and
  `HeaderOwners.OwnersAreExact` that it never does exactly if every row owns a cell.
- Deleting a row that the filter hides makes `asDataSearch` lose the text of another row,
  because `splice(-1, 1)` removes the last entry. `DataTable.AlignedExactly` and
  `RowFilter.StaleNarrowing` say exactly when that shows, `DataTable.HiddenDeletionMisleads` where.
- `fnDeleteRow` with a node that is in no row, or with a number below 0, removes a row but leaves its
  number in the index arrays (`DeleteTargets.DeletingKeepsOrder`, `DeleteTargets.UnknownNodeRemovesRow`).
- The fast path of the filter compares the texts of two searches, not their modes: switching between
  smart and literal on the way would show the rows that pass both (`RowFilter.NarrowingFindsBoth`,
  `Searching.OrderOfWords`). No caller in the file does.

## Model

| member | source | states |
|---|---|---|
| Sizzle.Engine.DirCheckSlot | usage/web-console/web-app/js/jquery/jquery-1.6.2.js:5053-5092 | one memoised walk gives the slot the naive walk gives, although it may stop at a mark that points to a slot already rewritten; the marks keep pointing at right results |
| Sizzle.Engine.DirCheck | usage/web-console/web-app/js/jquery/jquery-1.6.2.js:5020-5092 | with a fresh mark name, every element slot holds what the naive walk along `dir` from that element finds, every other slot is untouched |
| Sizzle.Engine.Visit | usage/web-console/web-app/js/jquery/jquery-1.6.2.js:5035-5084 | one node of a walk is marked with the slot number (elements of non-XML documents only) and tested; every other node that still carries the name of this walk has the slot it had, whatever the test overwrites |
| Sizzle.Engine.FilterOne | usage/web-console/web-app/js/jquery/jquery-1.6.2.js:4465-4515 | testing one element answers whether the compound holds of it; what is tested inside, an nth-child or a chain of its own, may overwrite the marks of any nodes, only with numbers that are fresh |
| Sizzle.Engine.Filter | usage/web-console/web-app/js/jquery/jquery-1.6.2.js:3965-4035 | filtering a check set in place replaces each slot that fails by false and stops at the first null slot |
| Sizzle.FilterInPlaceByIndex | usage/web-console/web-app/js/jquery/jquery-1.6.2.js:4003-4021 | the in-place filter, read slot by slot: tested up to the first null, untouched from there on |
| Sizzle.Engine.AdjacentStep | usage/web-console/web-app/js/jquery/jquery-1.6.2.js:4091-4113 | the `+` loop and its filter together do the `+` step on the whole check set |
| Sizzle.Engine.ChildStep | usage/web-console/web-app/js/jquery/jquery-1.6.2.js:4115-4148 | the `>` loops and the filter do the `>` step, or throw a TypeError exactly when a tag is compared for a node without a parent |
| Sizzle.Engine.Relative | usage/web-console/web-app/js/jquery/jquery-1.6.2.js:4090-4177 | each of the four combinator functions does its step; the two walking ones with a mark name no node carries |
| Sizzle.Engine.CollectResults | usage/web-console/web-app/js/jquery/jquery-1.6.2.js:3873-3891 | the result loops deliver, in order, the candidates whose slot is kept, up to the first null slot |
| Sizzle.Engine.Select | usage/web-console/web-app/js/jquery/jquery-1.6.2.js:3836-3902 | the main loop from right to left over the parsed chain, with the walks memoised, equals the evaluation without marks, which `Combinators.ChainIsMatch` ties to the tokens; a context that is neither element nor document (the guard at 3757) finds nothing |
| Combinators.AlongIsNearest | usage/web-console/web-app/js/jquery/jquery-1.6.2.js:5053-5092 | the walk finds the nearest node strictly in front that passes the test, and false if and only if there is none |
| Combinators.TagHolds | usage/web-console/web-app/js/jquery/jquery-1.6.2.js:4115-4128 | a tag name holds of the elements with that tag, in small or capital letters, and of no other node |
| Combinators.ContextsExactly | usage/web-console/web-app/js/jquery/jquery-1.6.2.js:3757-3759 | searches start from elements and documents and from nothing else |
| Combinators.ParsedGrows | usage/web-console/web-app/js/jquery/jquery-1.6.2.js:3774-3787 | what the chunker delivers: compounds follow each other freely, a combinator may stand behind each and in front of the first |
| Combinators.PreviousElementIsAdjacent | usage/web-console/web-app/js/jquery/jquery-1.6.2.js:4100-4108 | the `+` walk over text and comments finds the element sibling immediately in front, if and only if there is one |
| Combinators.StepIsSound | usage/web-console/web-app/js/jquery/jquery-1.6.2.js:4090-4177 | what a step puts into a slot is related to the old element as the combinator says and satisfies the part |
| Combinators.FinalIsSound | usage/web-console/web-app/js/jquery/jquery-1.6.2.js:3843-3889 | a slot that survives all steps proves a whole match with a witness for each part |
| Combinators.EvaluateIsPointwise | usage/web-console/web-app/js/jquery/jquery-1.6.2.js:3843-3889 | up to and including the first null slot, the slots do not influence each other |
| Combinators.CollectContents | usage/web-console/web-app/js/jquery/jquery-1.6.2.js:3873-3891 | a candidate is in the result if and only if its slot is kept and no null slot stops the loop before it |
| Combinators.ChainIsMatch | usage/web-console/web-app/js/jquery/jquery-1.6.2.js:3843-3858 | the steps of the main loop mean the tokens: a node for each compound, neighbours related by the combinator token between them or by descent if there is none, the first related to the context by a leading combinator, else inside it |
| Combinators.SelectIsSound | usage/web-console/web-app/js/jquery/jquery-1.6.2.js:3843-3889 | every element the engine keeps, for any mixture of combinators in any tree, ends a match of the tokens, whose first compound lies inside the context or is related to it by a leading combinator (section 8 of Selectors Level 3) |
| Combinators.FinalIsComplete | usage/web-console/web-app/js/jquery/jquery-1.6.2.js:3843-3889 | for chains of a safe shape keeping only the nearest candidate loses no match, whatever nodes the compounds hold of; a leading combinator is tested against an element |
| Combinators.EvaluateReady | usage/web-console/web-app/js/jquery/jquery-1.6.2.js:4115-4148 | a chain that never climbs past the root throws no error and leaves no null slot, for all candidates at once |
| Combinators.SelectUntilNull | usage/web-console/web-app/js/jquery/jquery-1.6.2.js:3873-3891 | in any tree, the result for a chain of a safe shape, without a leading combinator or with an element as context, is the candidates that end a match up to the first candidate that turns null; so it is right exactly if none of the later ones ends a match |
| Combinators.SelectIsExact | usage/web-console/web-app/js/jquery/jquery-1.6.2.js:3836-3891 | for a chain of a safe shape that stays below the root the result is exactly the candidates that end a match of the tokens, in their order, in documents and detached trees; the context of a leading combinator is an element |
| Combinators.LedByDocumentFindsNothing | usage/web-console/web-app/js/jquery/jquery-1.6.2.js:3882-3889 | with a leading combinator and a document as context the result is always empty, and right if and only if no candidate ends a match |
| Combinators.DescendantChainsAreExact | usage/web-console/web-app/js/jquery/jquery-1.6.2.js:4150-4162 | chains of compounds without a combinator token select exactly their matches |
| Combinators.DescendantChainsAreSafe | usage/web-console/web-app/js/jquery/jquery-1.6.2.js:4150-4162 | chains with only the descendant combinator are of a safe shape |
| CombinatorLimits.SafeIsLocal | usage/web-console/web-app/js/jquery/jquery-1.6.2.js:4090-4177 | whether a shape is safe depends on neighbouring combinators only |
| CombinatorLimits.TrapMatches | usage/web-console/web-app/js/jquery/jquery-1.6.2.js:4090-4177 | for every unsafe shape, the constructed chain has a real match in a roomy document |
| CombinatorLimits.TrapCatches | usage/web-console/web-app/js/jquery/jquery-1.6.2.js:4090-4177 | the engine loses that match, because at the unsafe pair it holds the nearer candidate |
| CombinatorLimits.SnareMatches | usage/web-console/web-app/js/jquery/jquery-1.6.2.js:4133-4147 | for every shape that climbs twice, the constructed chain has a real match in a roomy tree |
| CombinatorLimits.SnareCatches | usage/web-console/web-app/js/jquery/jquery-1.6.2.js:4133-4147 | an earlier candidate of that chain climbs to the root and past it, which leaves a null slot |
| CombinatorLimits.SafeShapesAreExact | usage/web-console/web-app/js/jquery/jquery-1.6.2.js:3843-3891 | the engine selects exactly the matches of every chain of a shape in every document, if and only if each pair of neighbouring combinators is safe, the shape does not end in two `>`, and no three `>` follow each other |
| CombinatorLimits.DetachedShapesAreExact | usage/web-console/web-app/js/jquery/jquery-1.6.2.js:4115-4148 | below a detached root it is so if and only if each pair is safe and no `>` follows another |
| CombinatorLimits.LedShapesAreExact | usage/web-console/web-app/js/jquery/jquery-1.6.2.js:3882-3889 | with a document as context a chain of a shape with a leading combinator loses a match in some document if and only if it leads with `>` and no `+` or `~` follows the first part |
| CombinatorLimits.LeadingChildOfDocument | usage/web-console/web-app/js/jquery/jquery-1.6.2.js:4133-4147 | `> html` in a document with that element: related to the document, and not found |
| CombinatorLimits.FirstChildFindsNothing | usage/web-console/web-app/js/jquery/jquery-1.6.2.js:4470-4481 | `.a > :first-child > *` finds nothing, whatever the document |
| CombinatorLimits.FirstChildLosesMatch | usage/web-console/web-app/js/jquery/jquery-1.6.2.js:4133-4147 | a document with three elements in which it loses a match |
| NthChild.SolvesExactly | usage/web-console/web-app/js/jquery/jquery-1.6.2.js:4516-4523 | the test of the remainder and the quotient holds exactly if the index is `first` times some n of at least 0, plus `last`, also for negative numbers |
| NthChild.PlaceIsCount | usage/web-console/web-app/js/jquery/jquery-1.6.2.js:4504-4512 | the index of an element is the number of sibling elements up to it |
| NthChild.Marks.Count | usage/web-console/web-app/js/jquery/jquery-1.6.2.js:4504-4514 | the loop over the children gives every element its place and leaves all other marks right |
| NthChild.Marks.MarkByWalk | usage/web-console/web-app/js/jquery/jquery-1.6.2.js:5068-5072 | a walk may overwrite the mark of any node without spoiling a cached index |
| NthChild.Marks.Nth | usage/web-console/web-app/js/jquery/jquery-1.6.2.js:4493-4524 | nth-child answers by the place of the element among its sibling elements, cached or not; a node without a parent, such as the document, passes only where every node does |
| Trees.PreorderIsDocumentOrder | usage/web-console/web-app/js/jquery/jquery-1.6.2.js:4653-4712 | preorder lists every node once, and its index order is document order |
| Trees.BeforeTotal | usage/web-console/web-app/js/jquery/jquery-1.6.2.js:4653-4712 | document order is total |
| Trees.BeforeTransitive | usage/web-console/web-app/js/jquery/jquery-1.6.2.js:4653-4712 | document order is transitive |
| DocumentOrder.SiblingCheck | usage/web-console/web-app/js/jquery/jquery-1.6.2.js:4714-4730 | walking the following siblings answers which of two siblings is first |
| DocumentOrder.Ancestors | usage/web-console/web-app/js/jquery/jquery-1.6.2.js:4684-4696 | the `unshift` loops list the proper ancestors from the root down |
| DocumentOrder.SortOrder | usage/web-console/web-app/js/jquery/jquery-1.6.2.js:4654-4712 | for two nodes of one tree: negative if and only if the first comes first in document order, zero if and only if they are the same, which raises the duplicate flag |
| DocumentOrder.Diverge | usage/web-console/web-app/js/jquery/jquery-1.6.2.js:4701-4711 | the sibling check at the first level where the ancestor lists differ decides, also when one node is an ancestor of the other |
| DocumentOrder.ComparatorIsPreorder | usage/web-console/web-app/js/jquery/jquery-1.6.2.js:4654-4730 | the comparator orders nodes as preorder does, strictly and totally |
| DocumentOrder.ResultList.UniqueSort | usage/web-console/web-app/js/jquery/jquery-1.6.2.js:3904-3919 | after any comparison sort and the in-place splices the list is strictly increasing and has the same members as before |
| DocumentOrder.RemoveNeighbour | usage/web-console/web-app/js/jquery/jquery-1.6.2.js:3909-3914 | removing an item equal to its neighbour keeps the list sorted and loses no member |
| DocumentOrder.DistinctNeighbours | usage/web-console/web-app/js/jquery/jquery-1.6.2.js:3909-3914 | a sorted list without equal neighbours is strictly increasing |
| Deferred.CallbackList.Done | usage/web-console/web-app/js/jquery/jquery-1.6.2.js:972-998 | the functions among the arguments are appended in order, nested arrays opened, nothing if cancelled; a fired list is reopened and fires again with its old value |
| Deferred.ArrayIsOpened | usage/web-console/web-app/js/jquery/jquery-1.6.2.js:983-990 | an array among the arguments counts as its elements in its place, however deep it is nested |
| Deferred.OnlyFunctionsCount | usage/web-console/web-app/js/jquery/jquery-1.6.2.js:983-990 | a function counts as itself and anything else as nothing |
| DeferredRuns.UnsettledStep | usage/web-console/web-app/js/jquery/jquery-1.6.2.js:1042-1108 | until the first resolve or reject nothing runs, and that step starts its side |
| DeferredRuns.StartingStep | usage/web-console/web-app/js/jquery/jquery-1.6.2.js:1099-1100 | the first callback to run is the cancel of the other side |
| DeferredRuns.SettledStep | usage/web-console/web-app/js/jquery/jquery-1.6.2.js:1001-1017 | once settled, whatever user code does the side and the value stay, and no callback that ran is forgotten or run again |
| DeferredRuns.InvRun | usage/web-console/web-app/js/jquery/jquery-1.6.2.js:959-1108 | the invariant of the two lists holds in every state of every run with re-entrant callbacks |
| DeferredRuns.SettlementIsExclusiveAndOrdered | usage/web-console/web-app/js/jquery/jquery-1.6.2.js:959-1108 | in every reachable state only callbacks of one side have run, each at most once and in registration order, the deferred is never resolved and rejected, and callbacks do not nest |
| DeferredRuns.AskBoth | usage/web-console/web-app/js/jquery/jquery-1.6.2.js:1026-1058 | `isResolved` and `isRejected`, asked at any time, are never both true, and one is as soon as a settlement has begun |
| Deferred.DeferredObject.constructor | usage/web-console/web-app/js/jquery/jquery-1.6.2.js:1042-1045 | a deferred is two lists that each start with the cancel of the other |
| Deferred.DeferredObject.Advance | usage/web-console/web-app/js/jquery/jquery-1.6.2.js:959-1108 | every call, return, throw and round of the loop, run on the two callback lists, is a step of the machine the run theorems are about |
| Deferred.DeferredObject.NextRound | usage/web-console/web-app/js/jquery/jquery-1.6.2.js:1007-1009 | a round takes the next callback off its list and runs it, or ends the loop |
| DeferredRuns.WaitingRun | usage/web-console/web-app/js/jquery/jquery-1.6.2.js:1001-1017 | from a settlement on, callbacks wait while control is with the caller exactly if a callback threw in front of them and nobody has added callbacks on that side since |
| DeferredRuns.AllRegisteredRun | usage/web-console/web-app/js/jquery/jquery-1.6.2.js:959-1108 | over every run, when control is back all callbacks registered on the settled side have run if and only if none threw in front of others after which nobody added callbacks; those that ran got one value |
| DeferredRuns.ThrowCutsShort | usage/web-console/web-app/js/jquery/jquery-1.6.2.js:1006-1014 | a run in which the first of two callbacks throws and the second stays unrun |
| DeferredRuns.FiringCanEnd | usage/web-console/web-app/js/jquery/jquery-1.6.2.js:1006-1014 | a side that fires can always be brought to its end: when no callback throws any more, control comes back and all registered callbacks have run |
| DeferredRuns.SettlementIsFinal | usage/web-console/web-app/js/jquery/jquery-1.6.2.js:1001-1017 | a settlement is never undone by a later step |
| DeferredRuns.FirstSettlementDecides | usage/web-console/web-app/js/jquery/jquery-1.6.2.js:1001-1017 | the first resolve or reject fixes side and value |
| DeferredRuns.ThrowLeavesTheRest | usage/web-console/web-app/js/jquery/jquery-1.6.2.js:1006-1014 | while control is with the caller and nobody adds callbacks on the settled side, nothing runs, over every continuation |
| DeferredRuns.AddResumesAfterThrow | usage/web-console/web-app/js/jquery/jquery-1.6.2.js:980-995 | after a call that adds callbacks, even none, all left behind and all added have run when control is back, unless another throw cut that short |
| WhenAll.Aggregate.constructor | usage/web-console/web-app/js/jquery/jquery-1.6.2.js:1130-1140 | walking two or more arguments, some settled already, leaves count, values and outcome as promised |
| WhenAll.Aggregate.Settle | usage/web-console/web-app/js/jquery/jquery-1.6.2.js:1119-1134 | a promise that settles later keeps count, values and outcome as promised, in whatever order promises settle |
| WhenAll.MissingAfterUpdate | usage/web-console/web-app/js/jquery/jquery-1.6.2.js:1122-1122 | the count drops by one exactly when an argument becomes accounted for |
| WhenAll.NoneMissing | usage/web-console/web-app/js/jquery/jquery-1.6.2.js:1138-1140 | the count is zero if and only if every argument is a value or a resolved promise |
| WhenAll.RejectionStays | usage/web-console/web-app/js/jquery/jquery-1.6.2.js:1133-1133 | a reported rejection belongs to an argument that is rejected |
| WhenAll.OutcomeOfEvents | usage/web-console/web-app/js/jquery/jquery-1.6.2.js:1111-1145 | resolved if and only if every promise resolved, then with the values in argument position; rejected if and only if one was rejected |
| WhenAll.OutcomeIsFinal | usage/web-console/web-app/js/jquery/jquery-1.6.2.js:1001-1003 | an outcome that is there is never changed by a later event |
| WhenAll.FirstRejectionDecides | usage/web-console/web-app/js/jquery/jquery-1.6.2.js:1133-1133 | when no argument is rejected to begin with, the first event that rejects one decides, with its own reason, whatever happens later |
| WhenAll.RejectedFromTheStart | usage/web-console/web-app/js/jquery/jquery-1.6.2.js:1130-1137 | when some are rejected to begin with, the leftmost of them decides |
| WhenAll.SecondRejectionIsIgnored | usage/web-console/web-app/js/jquery/jquery-1.6.2.js:1133-1133 | two promises rejected one after the other: the first reason stays |
| WhenAll.SettledStays | usage/web-console/web-app/js/jquery/jquery-1.6.2.js:1119-1134 | settled arguments never change, and a settled promise was settled by one of the events |
| TreeEdits.MoveKeepsTree | usage/web-console/web-app/js/jquery/jquery.jstree.js:929-955 | a move to a node that is not below the moved one keeps a tree: same nodes, no cycle |
| TreeEdits.MovedList | usage/web-console/web-app/js/jquery/jquery.jstree.js:950-954 | every list of children keeps the order of the nodes that were not moved |
| TreeEdits.CreateKeepsTree | usage/web-console/web-app/js/jquery/jquery.jstree.js:767-789 | creating a leaf keeps a tree |
| MovePreparation.AcceptedIsMovable | usage/web-console/web-app/js/jquery/jquery.jstree.js:920-928 | an accepted move never goes below the moved node, and the child it is put in front of is a child of the new parent |
| MovePreparation.LandsInList | usage/web-console/web-app/js/jquery/jquery.jstree.js:886-915 | the corrected index puts the node where it was asked to go, also among its own siblings |
| MovePreparation.LandsWhereAsked | usage/web-console/web-app/js/jquery/jquery.jstree.js:850-955 | an accepted, freshly prepared move of one node lands next to the reference, first, last or at the given index of its new list |
| MovePreparation.AcceptsExactly | usage/web-console/web-app/js/jquery/jquery.jstree.js:920-928 | the core refuses a move if and only if it goes below the node itself or the node is there already, where the last place and indices outside of the list never count as already there |
| TypeRules.MoveKeepsDepthRule | usage/web-console/web-app/js/jquery/jquery.jstree.js:3944-3957 | if the moved subtree fits below the new parent, no depth limit is broken anywhere afterwards |
| TypeRules.CreateKeepsDepthRule | usage/web-console/web-app/js/jquery/jquery.jstree.js:3984-3984 | if one more level fits below the parent, a new leaf breaks no depth limit |
| TypeRules.MoveKeepsChildRule | usage/web-console/web-app/js/jquery/jquery.jstree.js:3940-3943 | if the new parent has room without counting the moved node twice, no limit on children is broken |
| TypeRules.CreateKeepsChildRule | usage/web-console/web-app/js/jquery/jquery.jstree.js:3980-3983 | if the parent has room, a new leaf breaks no limit on children |
| JsTree.CapacityStep | usage/web-console/web-app/js/jquery/jquery.jstree.js:3910-3920 | one round of the loop of `_check` accounts for one more ancestor and for the global depth |
| JsTree.CapacityIsExact | usage/web-console/web-app/js/jquery/jquery.jstree.js:3908-3922 | what the loop over all ancestors returns is the exact height of a subtree that still fits below the node |
| JsTree.Tree.CheckMaxDepth | usage/web-console/web-app/js/jquery/jquery.jstree.js:3893-3923 | `_check("max_depth")` returns that capacity for a node or the tree |
| JsTree.Tree.CheckAncestors | usage/web-console/web-app/js/jquery/jquery.jstree.js:3908-3921 | the loop ends with the minimum over the node and its ancestors, or with 0 where a limit is used up |
| JsTree.Tree.IsUnder | usage/web-console/web-app/js/jquery/jquery.jstree.js:924-926 | the `parentsUntil` test answers whether a node is an ancestor of another or the node itself |
| JsTree.Tree.PrepareMove | usage/web-console/web-app/js/jquery/jquery.jstree.js:850-919 | `prepare_move` fills in the parents, the corrected index and the child in front of which the node goes |
| JsTree.Tree.CheckMove | usage/web-console/web-app/js/jquery/jquery.jstree.js:920-928 | the core accepts exactly the moves that change something and do not go below the moved node |
| JsTree.Tree.Levels | usage/web-console/web-app/js/jquery/jquery.jstree.js:3947-3955 | the loop over the levels counts the height of the moved subtree |
| JsTree.Tree.TypesCheckMove | usage/web-console/web-app/js/jquery/jquery.jstree.js:3924-3959 | with limits of -1 or at least 1 the types plugin accepts a move if and only if the core does and type, number of children and all depth limits allow it |
| JsTree.Tree.MoveNode | usage/web-console/web-app/js/jquery/jquery.jstree.js:929-970 | a move happens if and only if it is allowed, keeps the tree and every rule, lands where asked, and a refused one changes nothing |
| JsTree.Tree.CheckCreate | usage/web-console/web-app/js/jquery/jquery.jstree.js:3960-3985 | the plugin allows a new leaf if and only if type, number of children and all depth limits allow it |
| JsTree.Tree.CreateNode | usage/web-console/web-app/js/jquery/jquery.jstree.js:3960-3987 | a leaf is created if and only if it is allowed, where it was asked for and with the type asked for or the first allowed one; the rules are kept if its own limits leave room for itself |
| JsTree.Tree.CoreCreate | usage/web-console/web-app/js/jquery/jquery.jstree.js:762-789 | the `switch` of the core puts the new item before, after, first, last or at the index |
| JsTree.Tree.constructor | usage/web-console/web-app/js/jquery/jquery.jstree.js:3893-3901 | a new tree is empty, and keeps every rule unless the settings forbid the empty tree, as -2 does |
| JsTree.DepthAllowedBy | usage/web-console/web-app/js/jquery/jquery.jstree.js:3944-3957 | comparing the capacity with the height decides exactly whether the whole subtree fits |
| JsTree.AcceptedMoveKeepsRules | usage/web-console/web-app/js/jquery/jquery.jstree.js:3924-3959 | an accepted move keeps the tree and, if the rules held, every rule |
| JsTree.MoveKeepsOthers | usage/web-console/web-app/js/jquery/jquery.jstree.js:950-955 | a move changes nothing about the other nodes: same parents, same order in every list |
| JsTree.CreatedKeepsRules | usage/web-console/web-app/js/jquery/jquery.jstree.js:3960-3985 | an accepted creation keeps every rule |
| JsTree.CreateLands | usage/web-console/web-app/js/jquery/jquery.jstree.js:767-789 | the created leaf is where it was asked for |
| OwnLimits.MaxChildrenComesFrom | usage/web-console/web-app/js/jquery/jquery.jstree.js:3904-3905 | the own type decides `max_children`, then the default type, then 0; the tree has its own setting |
| OwnLimits.MaxDepthComesFrom | usage/web-console/web-app/js/jquery/jquery.jstree.js:3904-3905 | the same for `max_depth` |
| OwnLimits.ValidChildrenComeFrom | usage/web-console/web-app/js/jquery/jquery.jstree.js:3904-3905 | the same for `valid_children`, where nothing means all types |
| OwnLimits.CreateAllowedExactly | usage/web-console/web-app/js/jquery/jquery.jstree.js:3959-3987 | where the nodes above have rules of their own, a leaf is allowed if and only if its type is welcome, its parent has room, and every node above has room for one more level |
| OwnLimits.MoveAllowedExactly | usage/web-console/web-app/js/jquery/jquery.jstree.js:3925-3958 | likewise a move, counted without the moved node, and with room for each level of its subtree |
| OwnLimits.RulesExactly | usage/web-console/web-app/js/jquery/jquery.jstree.js:3896-3924 | what the kept rules mean, read off the types: no list longer than its limit, no node deeper than any node above it allows, its own level counted |
| OwnLimits.DefaultIsIrrelevant | usage/web-console/web-app/js/jquery/jquery.jstree.js:3904-3905 | where the nodes above have rules of their own, changing the rules of the default type changes no decision |
| OwnLimits.DefaultsAllowAll | usage/web-console/web-app/js/jquery/jquery.jstree.js:3853-3875 | the default settings allow every creation and every move the core accepts |
| OwnLimits.SensibleExactly | usage/web-console/web-app/js/jquery/jquery.jstree.js:3853-3856 | the settings under which decisions are exact: no limit of the tree is 0 or below -1 |
| OwnLimits.TypeOfNew | usage/web-console/web-app/js/jquery/jquery.jstree.js:3971-3979 | a leaf that asks for no type gets the first one its parent lists, or the default type |
| OwnLimits.OwnLimitRefuses | usage/web-console/web-app/js/jquery/jquery.jstree.js:3904-3905 | a type that allows one child keeps it at one although the default type has no limit |
| Checkbox.Boxes.ChangeState | usage/web-console/web-app/js/jquery/jquery.jstree.js:2829-2888 | a click keeps the tree consistent: an item that was not checked is checked, a checked one unchecked, or as the argument says; everything below it shows the same, the other leaves stay, and every item shows what a full recomputation from the new leaves gives |
| Checkbox.Boxes.RepairAncestors | usage/web-console/web-app/js/jquery/jquery.jstree.js:2859-2883 | the loop over the ancestors, which stops at the first mixed one, leaves a consistent tree |
| Checkbox.Boxes.constructor | usage/web-console/web-app/js/jquery/jquery.jstree.js:2829-2833 | a tree with every item unchecked is consistent |
| Checkbox.SubtreeIsSettled | usage/web-console/web-app/js/jquery/jquery.jstree.js:2846-2858 | setting the whole subtree leaves only the ancestors to repair |
| Checkbox.AncestorFollows | usage/web-console/web-app/js/jquery/jquery.jstree.js:2867-2881 | an ancestor whose children all show the new state takes it |
| Checkbox.AncestorsStop | usage/web-console/web-app/js/jquery/jquery.jstree.js:2862-2876 | at the first mixed ancestor, setting it and all above it to undetermined settles the tree |
| Checkbox.ConsistentIsComputed | usage/web-console/web-app/js/jquery/jquery.jstree.js:2829-2888 | in a consistent tree every item shows what its leaves say |
| Checkbox.IncrementalIsFull | usage/web-console/web-app/js/jquery/jquery.jstree.js:2829-2888 | the incremental update equals the recomputation from the new leaves |
| Checkbox.SubtreeShows | usage/web-console/web-app/js/jquery/jquery.jstree.js:2833-2836 | after a click everything at or below the item shows what the click set |
| Checkbox.TwoClicksRestore | usage/web-console/web-app/js/jquery/jquery.jstree.js:2833-2856 | two clicks on a leaf restore the whole tree |
| Checkbox.ListedIsMaximal | usage/web-console/web-app/js/jquery/jquery.jstree.js:2923-2926 | the selector of `get_checked` picks exactly the checked items without a checked ancestor |
| Checkbox.GetCheckedIsMaximal | usage/web-console/web-app/js/jquery/jquery.jstree.js:2923-2926 | `get_checked` lists exactly the maximal checked items, once each in document order, and the checked items are exactly those at or below a listed one |
| TreeWalk.NextAdjoins | usage/web-console/web-app/js/jquery/jquery.jstree.js:568-577 | what `_get_next` finds is visible and nothing visible lies between |
| TreeWalk.NoNextIsLast | usage/web-console/web-app/js/jquery/jquery.jstree.js:575-576 | a closed item without a next one is the last visible item |
| TreeWalk.NextIsSuccessor | usage/web-console/web-app/js/jquery/jquery.jstree.js:568-577 | `_get_next` is the successor in preorder of the visible items if and only if the item is the last or not an open one without a child |
| TreeWalk.OpenItemWithoutChildIsStuck | usage/web-console/web-app/js/jquery/jquery.jstree.js:574-576 | two items, the first open and without a child: there is no way on to the second |
| TreeWalk.PrevUndoesNext | usage/web-console/web-app/js/jquery/jquery.jstree.js:578-590 | `_get_prev` undoes every step of `_get_next` |
| TreeWalk.FirstHasNoPrevious | usage/web-console/web-app/js/jquery/jquery.jstree.js:578-590 | `_get_prev` finds nothing in front of the first item |
| TreeWalk.WalkAll | usage/web-console/web-app/js/jquery/jquery.jstree.js:568-577 | iterating `_get_next` from the first root visits exactly the visible items, once each in preorder, when every open item has a child |
| TreeWalk.DeepestTurn | usage/web-console/web-app/js/jquery/jquery.jstree.js:576-576 | `parentsUntil` with `next` goes to the next sibling of the nearest ancestor that has one |
| FlatXml.RemoveClassesKeeps | usage/web-console/web-app/js/jquery/jquery.jstree.js:3344-3344 | removing the ` jstree` words changes a text if and only if it has one, and then shortens it by seven characters or more |
| FlatXml.CleanShortens | usage/web-console/web-app/js/jquery/jquery.jstree.js:3344-3344 | an id is written unchanged if and only if no word of it begins with jstree and no white space ends it; every other id gets shorter |
| FlatXml.ClassesBeginWithJstree | usage/web-console/web-app/js/jquery/jquery.jstree.js:3344-3344 | what is removed begins with a space and jstree, in small or capital letters |
| FlatXml.ClassGoes | usage/web-console/web-app/js/jquery/jquery.jstree.js:3344-3344 | such a word is removed to its end |
| FlatXml.CleanTrims | usage/web-console/web-app/js/jquery/jquery.jstree.js:3344-3344 | an id without such words is written without the white space at its end |
| FlatXml.GetXml | usage/web-console/web-app/js/jquery/jquery.jstree.js:3332-3390 | the `each` loop with its recursive call lists the items in preorder with the id of their parent |
| FlatXml.EachIsWritten | usage/web-console/web-app/js/jquery/jquery.jstree.js:3332-3390 | one item is written for each |
| FlatXml.TopIsWritten | usage/web-console/web-app/js/jquery/jquery.jstree.js:3332-3390 | the items of the top level carry the parent id asked for, and the first comes first |
| FlatXml.KidIsWritten | usage/web-console/web-app/js/jquery/jquery.jstree.js:3381-3381 | every other item carries the id of the item above as it is in the page, uncleaned, and "true" if that is empty |
| FlatXml.SelectLength | usage/web-console/web-app/js/jquery/jquery.jstree.js:3151-3157 | a parent id selects the children of all items that have it as their id, and the top level if it is its parent id |
| FlatXml.SelectChildren | usage/web-console/web-app/js/jquery/jquery.jstree.js:3151-3157 | an id of its own selects exactly the children of its item, in their order |
| FlatXml.SelectExactly | usage/web-console/web-app/js/jquery/jquery.jstree.js:3151-3157 | an id selects the items that have it as their parent id |
| FlatXml.RootsExactly | usage/web-console/web-app/js/jquery/jquery.jstree.js:3096-3096 | the first template starts from the items whose parent id is a zero or the id of no item |
| FlatXml.RootsOf | usage/web-console/web-app/js/jquery/jquery.jstree.js:3096-3096 | the first template starts from exactly the top-level items when every inner id is known and no zero |
| FlatXml.GoodRebuilds | usage/web-console/web-app/js/jquery/jquery.jstree.js:3091-3161 | a good forest is rebuilt, and the templates end |
| FlatXml.IdsAreStable | usage/web-console/web-app/js/jquery/jquery.jstree.js:3344-3344 | in a forest that is rebuilt every id is written unchanged |
| FlatXml.InnerIsNamed | usage/web-console/web-app/js/jquery/jquery.jstree.js:3381-3381 | in a forest that is rebuilt no item with children has an empty id or one that is a zero |
| FlatXml.InnerIsUnique | usage/web-console/web-app/js/jquery/jquery.jstree.js:3151-3157 | in a forest that is rebuilt no other item shares the id of an item with children |
| FlatXml.NoIdIsTheTop | usage/web-console/web-app/js/jquery/jquery.jstree.js:3096-3096 | in a forest that is rebuilt no id is "0", the parent id of the top level |
| FlatXml.ComesBackExactly | usage/web-console/web-app/js/jquery/jquery.jstree.js:3091-3161 | writing a forest and rebuilding it gives it back if and only if it is good: a condition on the ids alone |
| FlatXml.RebuildsOnce | usage/web-console/web-app/js/jquery/jquery.jstree.js:3091-3161 | the stylesheet makes at most one forest of a list of items |
| FlatXml.RoundTrip | usage/web-console/web-app/js/jquery/jquery.jstree.js:3318-3391 | a forest is good if and only if the round trip ends with that forest and nothing else |
| FlatXml.ClassLikeIdIsLost | usage/web-console/web-app/js/jquery/jquery.jstree.js:3344-3344 | an id that begins with jstree does not survive, whatever follows: a two-item forest |
| FlatXml.ZeroIdIsLost | usage/web-console/web-app/js/jquery/jquery.jstree.js:3096-3096 | an inner id that is another way to write zero makes its children top-level items |
| FlatXml.DoubleZeroIsZero | usage/web-console/web-app/js/jquery/jquery.jstree.js:3096-3096 | "00" is such an id |
| XPathNumbers.ShortNumerals | usage/web-console/web-app/js/jquery/jquery.jstree.js:3096-3096 | a numeral with at most 322 decimals is equal to 0 if and only if all its digits are zeros |
| XPathNumbers.TinyIsZero | usage/web-console/web-app/js/jquery/jquery.jstree.js:3096-3096 | a one behind a point and 330 zeros or more is equal to 0 as well, because numbers are doubles (section 4.4 of XPath 1.0) |
| XPathNumbers.TinyDigitIsZero | usage/web-console/web-app/js/jquery/jquery.jstree.js:3096-3096 | with one zero more that is so for any last digit |
| XPathNumbers.HalfIsZero | usage/web-console/web-app/js/jquery/jquery.jstree.js:3096-3096 | the limit is half of the least positive double: with 1075 decimals a numeral is equal to 0 if and only if its digits are at most 5 to the power of 1075 |
| XPathNumbers.SpaceAndSign | usage/web-console/web-app/js/jquery/jquery.jstree.js:3096-3096 | white space around a number and a sign in front do not matter |
| Header.FirstFree | usage/web-console/web-app/js/jquery/jquery.datatables.1.8.1.js:6378-6383 | `fnShiftCol` finds the first column from the given one on that is still undefined |
| PlainHeaders.MissingIsOne | usage/web-console/web-app/js/jquery/jquery.datatables.1.8.1.js:6407-6410 | writing out missing span attributes as 1 changes nothing in what is decoded |
| PlainHeaders.PlainIsItself | usage/web-console/web-app/js/jquery/jquery.datatables.1.8.1.js:6394-6431 | a header without spans decodes to its rows: the cell in place c has column c, and no column is left over |
| PlainHeaders.ThrowsExactly | usage/web-console/web-app/js/jquery/jquery.datatables.1.8.1.js:6418-6428 | decoding throws if and only if some cell spans more rows than there are from its own on |
| Header.CornerOwns | usage/web-console/web-app/js/jquery/jquery.datatables.1.8.1.js:3146-3164 | in a tiled grid, expanding a cell down and then across from its first square covers exactly its squares |
| Header.SameCorner | usage/web-console/web-app/js/jquery/jquery.datatables.1.8.1.js:3138-3141 | two squares belong to one cell if and only if they have the same first square |
| Header.DetectDrawnRow | usage/web-console/web-app/js/jquery/jquery.datatables.1.8.1.js:6396-6430 | decoding one drawn row places its cells where they were drawn from, below cells that reach down from earlier rows |
| Header.DetectOfDrawn | usage/web-console/web-app/js/jquery/jquery.datatables.1.8.1.js:6373-6432 | decoding a header drawn from a tiled grid gives the grid back (section 11.2.6 of HTML 4.01) |
| Header.CornerIsDrawnOnce | usage/web-console/web-app/js/jquery/jquery.datatables.1.8.1.js:3133-3169 | a cell is drawn once in the row of its first square |
| Header.DrawnOnce | usage/web-console/web-app/js/jquery/jquery.datatables.1.8.1.js:3122-3171 | every visible cell is drawn exactly once, and its spans are exactly the rectangle of its squares |
| HeaderRoundTrip.HideKeepsTiled | usage/web-console/web-app/js/jquery/jquery.datatables.1.8.1.js:3104-3116 | removing hidden columns leaves every cell a rectangle |
| HeaderRoundTrip.ColumnsAreAll | usage/web-console/web-app/js/jquery/jquery.datatables.1.8.1.js:3109-3116 | no visible column is left out |
| HeaderRoundTrip.PlaceKeepsTiled | usage/web-console/web-app/js/jquery/jquery.datatables.1.8.1.js:6417-6428 | placing a cell on free squares keeps every cell a rectangle |
| HeaderRoundTrip.SoundIsTiled | usage/web-console/web-app/js/jquery/jquery.datatables.1.8.1.js:6373-6432 | a header without overlaps and gaps decodes to a tiled grid |
| HeaderRoundTrip.PlaceRowsOwner | usage/web-console/web-app/js/jquery/jquery.datatables.1.8.1.js:6426-6426 | a row that owns a cell is the TR its squares are later drawn into |
| HeaderRoundTrip.DrawnIntoOwners | usage/web-console/web-app/js/jquery/jquery.datatables.1.8.1.js:3122-3143 | when every row has its own TR the TRs show the drawn grid |
| HeaderRoundTrip.OwnerlessRowLosesCells | usage/web-console/web-app/js/jquery/jquery.datatables.1.8.1.js:3124-3131 | a header of one cell over two rows loses it when it is drawn again |
| HeaderOwners.EmptyRowStartsNothing | usage/web-console/web-app/js/jquery/jquery.datatables.1.8.1.js:6394-6431 | no cell starts in a row that owns none, whichever columns are hidden |
| HeaderOwners.OwnerRowStartsCell | usage/web-console/web-app/js/jquery/jquery.datatables.1.8.1.js:6394-6431 | a cell starts in every row that owns one |
| HeaderOwners.SoundHasOwners | usage/web-console/web-app/js/jquery/jquery.datatables.1.8.1.js:6426-6426 | a row with a cell is its own TR, any other row is drawn into the TR of a row above that has one |
| HeaderOwners.RedrawnExactly | usage/web-console/web-app/js/jquery/jquery.datatables.1.8.1.js:3122-3171 | for one choice of hidden columns the header drawn again is right if and only if no row without a cell empties a TR that has something to show |
| HeaderOwners.OwnersAreExact | usage/web-console/web-app/js/jquery/jquery.datatables.1.8.1.js:3090-3172 | a header without overlaps and gaps survives every choice of hidden columns if and only if each of its rows owns a cell |
| HeaderRoundTrip.RedrawOfSound | usage/web-console/web-app/js/jquery/jquery.datatables.1.8.1.js:3090-3172 | for a sound header whose rows each own a cell, the redrawn header is the one drawn from the visible grid |
| HeaderRoundTrip.RedrawTilesTheVisibleGrid | usage/web-console/web-app/js/jquery/jquery.datatables.1.8.1.js:3090-3172 | the redrawn header draws each visible cell once with its visible rectangle, and decoding it gives the grid without the hidden columns |
| HeaderRoundTrip.Thead.DetectHeader | usage/web-console/web-app/js/jquery/jquery.datatables.1.8.1.js:6373-6432 | the three nested loops compute the layout, or throw when a rowspan leaves the header |
| HeaderRoundTrip.Thead.PlaceCell | usage/web-console/web-app/js/jquery/jquery.datatables.1.8.1.js:6407-6428 | one cell is shifted to the first free column and copied into its block |
| HeaderRoundTrip.Thead.FillBlock | usage/web-console/web-app/js/jquery/jquery.datatables.1.8.1.js:6418-6428 | the loop over the columns of a block fills them all |
| HeaderRoundTrip.Thead.FillColumn | usage/web-console/web-app/js/jquery/jquery.datatables.1.8.1.js:6420-6427 | the inner loop fills one column of the block and claims its rows for the TR |
| HeaderRoundTrip.Thead.ShiftColumn | usage/web-console/web-app/js/jquery/jquery.datatables.1.8.1.js:6378-6383 | the `while` loop of `fnShiftCol` ends at the first free column |
| HeaderRoundTrip.Thead.Splice | usage/web-console/web-app/js/jquery/jquery.datatables.1.8.1.js:3109-3116 | the splices from the last column to the first remove exactly the hidden columns |
| HeaderRoundTrip.Thead.CopyVisible | usage/web-console/web-app/js/jquery/jquery.datatables.1.8.1.js:3104-3120 | the local copy is the grid without its hidden columns |
| HeaderRoundTrip.Thead.DrawHead | usage/web-console/web-app/js/jquery/jquery.datatables.1.8.1.js:3090-3172 | the TRs are emptied and filled row by row; the first row with a cell to draw and no TR throws, and the TRs stay as they are then |
| HeaderRoundTrip.Thead.DrawRow | usage/web-console/web-app/js/jquery/jquery.datatables.1.8.1.js:3133-3170 | one row draws the cells that start in it and notes all their squares, or throws exactly if it has a cell but no TR |
| HeaderRoundTrip.Thead.Expand | usage/web-console/web-app/js/jquery/jquery.datatables.1.8.1.js:3146-3164 | the two `while` loops count the rows and columns of a cell and note its squares |
| HeaderOwners.Redraw | usage/web-console/web-app/js/jquery/jquery.datatables.1.8.1.js:3090-3172 | decoding and drawing again throws nothing and leaves the TRs as described, those of the visible header when each row owns a cell |
| Searching.WordsAreSplit | usage/web-console/web-app/js/jquery/jquery.datatables.1.8.1.js:4515-4515 | joined with spaces the words give the search string, and none contains a space |
| Searching.WordsExtend | usage/web-console/web-app/js/jquery/jquery.datatables.1.8.1.js:4515-4516 | typing on extends words and adds words, it never changes the beginning of one |
| Searching.FoldedAlike | usage/web-console/web-app/js/jquery/jquery.datatables.1.8.1.js:4519-4525 | texts and searches that differ in their case only are found alike |
| Searching.FoundIsPart | usage/web-console/web-app/js/jquery/jquery.datatables.1.8.1.js:4523-4525 | where no case is folded, what is found is a part of the text |
| Searching.OneWordAlike | usage/web-console/web-app/js/jquery/jquery.datatables.1.8.1.js:4510-4525 | for one word the two modes agree on texts of one line |
| Searching.SmartNeedsOneLine | usage/web-console/web-app/js/jquery/jquery.datatables.1.8.1.js:4516-4517 | a smart search finds nothing in a text of more than one line |
| Searching.ExtensionNarrows | usage/web-console/web-app/js/jquery/jquery.datatables.1.8.1.js:4506-4526 | extending a search string, smart or not, only narrows what it matches |
| Searching.PlainTextStays | usage/web-console/web-app/js/jquery/jquery.datatables.1.8.1.js:4533-4553 | text without tags and new lines is searched as it is |
| Searching.TagGoes | usage/web-console/web-app/js/jquery/jquery.datatables.1.8.1.js:4539-4542 | in a column of the type html a tag goes with what is written in it, and nothing else |
| Searching.TagsExactly | usage/web-console/web-app/js/jquery/jquery.datatables.1.8.1.js:4541-4541 | a tag is what begins with `<` and ends with the first `>`, if no line ends in between |
| Searching.UnclosedStays | usage/web-console/web-app/js/jquery/jquery.datatables.1.8.1.js:4539-4542 | what is not closed is no tag |
| Searching.BuildSearchRow | usage/web-console/web-app/js/jquery/jquery.datatables.1.8.1.js:4467-4495 | the loop concatenates what is searched of the searchable cells, two spaces after each; a text with an `&` is decoded by the host and freed of line breaks |
| Searching.CellIsSearched | usage/web-console/web-app/js/jquery/jquery.datatables.1.8.1.js:4467-4495 | a word found in the text of a searchable cell is found in the row, before anything is decoded |
| Searching.PlainRowStays | usage/web-console/web-app/js/jquery/jquery.datatables.1.8.1.js:4483-4492 | a row without `&` in its searchable cells is searched as it is, whatever the decoder does |
| Searching.DecodedRow | usage/web-console/web-app/js/jquery/jquery.datatables.1.8.1.js:4483-4492 | a row with an `&` in what is searched shows what the decoder makes of it |
| Searching.OnlySearchable | usage/web-console/web-app/js/jquery/jquery.datatables.1.8.1.js:4474-4481 | what is in other columns is not searched |
| Searching.OrderOfWords | usage/web-console/web-app/js/jquery/jquery.datatables.1.8.1.js:4510-4525 | a smart search finds words in any order, another one does not |
| IndexArrays.DeleteIndex | usage/web-console/web-app/js/jquery/jquery.datatables.1.8.1.js:5989-6009 | in an array without repetitions the target goes, and numbers above it move down |
| IndexArrays.InArray | usage/web-console/web-app/js/jquery/jquery.datatables.1.8.1.js:1694-1694 | the first place of a row number, or -1 |
| IndexArrays.OrderDeleted | usage/web-console/web-app/js/jquery/jquery.datatables.1.8.1.js:1698-1699 | a permutation of 0..n-1 becomes one of 0..n-2 |
| IndexArrays.KeepDeleted | usage/web-console/web-app/js/jquery/jquery.datatables.1.8.1.js:1698-1699 | keeping rows by a property commutes with deleting and renumbering |
| RowSorting.LocalSorting | usage/web-console/web-app/js/jquery/jquery.datatables.1.8.1.js:4637-4656 | the loop of the comparator returns the first difference among the sorting columns, else the difference of the places before sorting |
| RowSorting.FillOrig | usage/web-console/web-app/js/jquery/jquery.datatables.1.8.1.js:4612-4618 | `aiOrig` is the inverse of the index array |
| RowSorting.FirstColumnDecides | usage/web-console/web-app/js/jquery/jquery.datatables.1.8.1.js:4636-4653 | the first column that tells two rows apart decides, whatever the later ones say |
| RowSorting.EqualInAllColumns | usage/web-console/web-app/js/jquery/jquery.datatables.1.8.1.js:4636-4653 | two rows are equal if and only if no column tells them apart |
| RowSorting.CompareIsPreorder | usage/web-console/web-app/js/jquery/jquery.datatables.1.8.1.js:4636-4653 | if each column comparator is a total preorder, so is comparing by several columns |
| RowSorting.LocalIsStrict | usage/web-console/web-app/js/jquery/jquery.datatables.1.8.1.js:4634-4656 | with the tie-break the comparison is a strict total order |
| RowSorting.SortIsUnique | usage/web-console/web-app/js/jquery/jquery.datatables.1.8.1.js:4634-4656 | two arrangements sorted by a strict order with the same elements are equal |
| RowSorting.SortIsStable | usage/web-console/web-app/js/jquery/jquery.datatables.1.8.1.js:4612-4656 | there is exactly one arrangement ordered by the columns in which equal rows keep their order, and any correct sort gives it |
| RowFilter.RefinedFilters | usage/web-console/web-app/js/jquery/jquery.datatables.1.8.1.js:4424-4431 | on texts that belong to the displayed rows the fast path keeps exactly the rows that match |
| RowFilter.RefinedInOrder | usage/web-console/web-app/js/jquery/jquery.datatables.1.8.1.js:4424-4431 | whatever the texts are, the fast path keeps the order of the displayed rows |
| RowFilter.NarrowingIsFiltering | usage/web-console/web-app/js/jquery/jquery.datatables.1.8.1.js:4415-4432 | refining what is shown for a search string by a longer one equals full filtering by the longer one |
| RowFilter.NarrowingFindsBoth | usage/web-console/web-app/js/jquery/jquery.datatables.1.8.1.js:4415-4432 | refining with a search of another mode finds the rows that pass both, which is full filtering if and only if every row found by the second passes the first |
| RowFilter.ColumnsComplete | usage/web-console/web-app/js/jquery/jquery.datatables.1.8.1.js:4270-4275 | the column filters complete a list that went through the global search, and change nothing on a list already filtered by them |
| RowFilter.ColumnFilterFinds | usage/web-console/web-app/js/jquery/jquery.datatables.1.8.1.js:4341-4349 | the filter of a column finds the rows with the text in the cell of that column |
| RowFilter.GlobalFilterFinds | usage/web-console/web-app/js/jquery/jquery.datatables.1.8.1.js:4363-4415 | the global filter finds the rows with the text in a searchable cell |
| RowFilter.ShownDeleted | usage/web-console/web-app/js/jquery/jquery.datatables.1.8.1.js:1698-1699 | full filtering commutes with deleting a row |
| RowFilter.AlignedAfterDeleting | usage/web-console/web-app/js/jquery/jquery.datatables.1.8.1.js:1693-1699 | after deleting a row, `asDataSearch` still belongs to `aiDisplay` if and only if the row was displayed or none is |
| RowFilter.StaleNarrowing | usage/web-console/web-app/js/jquery/jquery.datatables.1.8.1.js:1694-1695 | after deleting a hidden row, typing on shows the right rows if and only if the last displayed one matches |
| RowFilter.ObjectsAfterDeleting | usage/web-console/web-app/js/jquery/jquery.datatables.1.8.1.js:1691-1699 | the displayed row objects after a deletion are the old ones without that object, in their order |
| DataTable.FilteredStart | usage/web-console/web-app/js/jquery/jquery.datatables.1.8.1.js:4381-4433 | whichever branch `_fnFilter` takes, its result is one the column filters complete |
| DataTable.AlignedExactly | usage/web-console/web-app/js/jquery/jquery.datatables.1.8.1.js:1681-1699 | deleting a row keeps the fast path right if and only if the row was displayed, none is, or it was the only hidden one |
| DataTable.HiddenDeletionMisleads | usage/web-console/web-app/js/jquery/jquery.datatables.1.8.1.js:1694-1695 | a table of four rows in which, after deleting a hidden row, typing on shows a row that does not match |
| DataTable.Table.constructor | usage/web-console/web-app/js/jquery/jquery.datatables.1.8.1.js:1000-1060 | an empty table satisfies every invariant |
| DataTable.Table.BuildSearchArray | usage/web-console/web-app/js/jquery/jquery.datatables.1.8.1.js:4446-4459 | the search array is rebuilt from the master or the display array, place by place |
| DataTable.Table.SearchAll | usage/web-console/web-app/js/jquery/jquery.datatables.1.8.1.js:4408-4414 | the loop over all rows pushes exactly those that match |
| DataTable.Table.SearchShown | usage/web-console/web-app/js/jquery/jquery.datatables.1.8.1.js:4421-4431 | the loop with the index corrector splices out exactly the places whose text does not match |
| DataTable.Table.Filter | usage/web-console/web-app/js/jquery/jquery.datatables.1.8.1.js:4363-4437 | the fast path runs exactly for an unforced search that extends the last one while rows are hidden, and refines what is shown; otherwise `aiDisplay` becomes all rows that match |
| DataTable.Table.FilterColumn | usage/web-console/web-app/js/jquery/jquery.datatables.1.8.1.js:4331-4351 | the loop from the end keeps exactly the displayed rows the text of whose cell matches |
| DataTable.Table.FilterColumns | usage/web-console/web-app/js/jquery/jquery.datatables.1.8.1.js:4270-4275 | all column filters one after the other keep the rows that pass each of them |
| DataTable.Table.FilterComplete | usage/web-console/web-app/js/jquery/jquery.datatables.1.8.1.js:4265-4293 | after every filter, forced or on the fast path, `aiDisplay` is `aiDisplayMaster` filtered by the global search and all column filters, and `asDataSearch` is aligned with it; on the fast path with another mode than the last search it is what passes both searches |
| DataTable.Table.FnFilter | usage/web-console/web-app/js/jquery/jquery.datatables.1.8.1.js:1516-1551 | a global search through the interface filters in full |
| DataTable.Table.FnFilterColumn | usage/web-console/web-app/js/jquery/jquery.datatables.1.8.1.js:1558-1565 | a column search changes that column only and filters in full |
| DataTable.Table.Keyup | usage/web-console/web-app/js/jquery/jquery.datatables.1.8.1.js:4221-4244 | typing in the search box filters exactly, and repeating the same text changes nothing |
| DataTable.Table.Sort | usage/web-console/web-app/js/jquery/jquery.datatables.1.8.1.js:4570-4681 | sorting permutes the rows into the stable order and filters again |
| DataTable.Table.FnSort | usage/web-console/web-app/js/jquery/jquery.datatables.1.8.1.js:1592-1597 | new sorting columns replace the old ones, and the rows are in the stable order of the new ones and filtered again |
| DataTable.Table.AddRow | usage/web-console/web-app/js/jquery/jquery.datatables.1.8.1.js:2654-2714 | a new row gets the next number and a fresh id at the end of the master array |
| DataTable.Table.AddData | usage/web-console/web-app/js/jquery/jquery.datatables.1.8.1.js:1626-1669 | one row or a list of rows gets consecutive numbers; all rows are displayed, or sorted and filtered when the table is redrawn; no rows change nothing |
| DataTable.AddedExactly | usage/web-console/web-app/js/jquery/jquery.datatables.1.8.1.js:1634-1660 | what is added: the cells of one row, unless it has none, or each of the rows, in their order and with ids that count on |
| DataTable.Table.DeleteRow | usage/web-console/web-app/js/jquery/jquery.datatables.1.8.1.js:1681-1724 | the index arrays stay a permutation and an ordered part of it, the displayed objects are the old ones without the deleted one, and the fast path stays right exactly under the stated condition |
| DataTable.Table.DeleteNode | usage/web-console/web-app/js/jquery/jquery.datatables.1.8.1.js:1681-1724 | deleting by the node of a row removes that row and no other, and from the displayed objects only that one |
| DataTable.Table.NodeToDataIndex | usage/web-console/web-app/js/jquery/jquery.datatables.1.8.1.js:5381-5405 | the two loops find the row of a node, and nothing if and only if no row has it |
| DeleteTargets.DeletingKeepsOrder | usage/web-console/web-app/js/jquery/jquery.datatables.1.8.1.js:1687-1699 | after deleting by any number or by a node in no row, the index array lists the remaining rows if and only if the number was not below 0, or there was no row |
| DeleteTargets.UnknownNodeRemovesRow | usage/web-console/web-app/js/jquery/jquery.datatables.1.8.1.js:1687-1699 | two rows of which deleting an unknown node removes the first, and leaves the number 0 twice |
| DeleteTargets.NegativeNumberCountsFromEnd | usage/web-console/web-app/js/jquery/jquery.datatables.1.8.1.js:1687-1699 | three rows of which -1 removes the last, and the index array becomes -1, 0, 1 |
| DataTable.Table.Remove | usage/web-console/web-app/js/jquery/jquery.datatables.1.8.1.js:1691-1699 | the row leaves `aoData`, both index arrays are renumbered, and `asDataSearch` loses the entry at the place of the row or, for a hidden row, its last one |
| DataTable.Table.ClearTable | usage/web-console/web-app/js/jquery/jquery.datatables.1.8.1.js:6094-6100 | all rows and indices go, and the invariants hold although `asDataSearch` stays |
| ServerSide.CurrentRun | usage/web-console/web-app/js/jquery/jquery.datatables.1.8.1.js:3512-3572 | over every interleaving of draws and replies the counter is the number of the last request |
| ServerSide.StaleRepliesAreDropped | usage/web-console/web-app/js/jquery/jquery.datatables.1.8.1.js:3514-3527 | a reply is accepted if and only if it answers the last request |
| ServerSide.LastRequestWins | usage/web-console/web-app/js/jquery/jquery.datatables.1.8.1.js:3512-3572 | when every reply is here the table holds the rows of the last request |
| ServerSide.DrawAsks | usage/web-console/web-app/js/jquery/jquery.datatables.1.8.1.js:3214-3227 | a draw of a table that is not deferred sends one request with a number of its own |
| ServerSide.RequestsAreDraws | usage/web-console/web-app/js/jquery/jquery.datatables.1.8.1.js:3214-3227 | over every run the last request has the number of the draws, but a deferred first draw sends none |
| ServerSide.Table.DrawTable | usage/web-console/web-app/js/jquery/jquery.datatables.1.8.1.js:3214-3227 | a draw raises the counter and sends its number, but for a deferred first draw |
| ServerSide.Table.AjaxUpdateDraw | usage/web-console/web-app/js/jquery/jquery.datatables.1.8.1.js:3512-3572 | a stale reply changes nothing, the last one replaces the rows |

## Left out

- DataTable.Table.DeleteRow: numbers of at least 0, and the nodes of rows in `DeleteNode`; what other targets do to the index arrays is in `DeleteTargets`, outside the class, whose arrays hold no numbers below 0
- DataTable.Table.AddRow: the type of a column is not detected again from the new cells, and no cell is rendered
- DataTable.Table.AddData: adding rows does not change the type of a column, and row objects are lists of cells
- Sizzle.Engine.FilterOne: the compound is given by the nodes it holds of; of the filters only nth-child is computed, in `NthChild`
- HeaderOwners.Redraw: a header without columns, in which no row owns a cell, is not drawn again
- WhenAll.Aggregate.constructor: two or more arguments; fewer return the argument's own promise or resolve at once
- JsTree.Tree.CreateNode: a new leaf whose own type allows less than one level or less than no children breaks its own rule, which the plugin does not check
- ServerSide.LastRequestWins: the server echoes numbers faithfully and answers each request once; infinite scrolling keeps older rows
- Sizzle: tokenising by regular expression, positional selectors, the `querySelectorAll` and native matching paths, the shortcut that takes an ID as context, and a context in another tree than the candidates; parsed chains and the rightmost candidates are inputs
- Sizzle: which nodes a compound selector holds of, and errors a filter throws on a document node
- Document order: `compareDocumentPosition`, `sourceIndex` and nodes of different trees; the host's sort and the duplicate flag are inputs of `uniqueSort`
- Deferreds: `then`, `always`, `pipe`, `promise` and the context object; callbacks are known by number
- jsTree moves: stale `prepared_move`, copies, moves of several nodes or between trees, lazy loading, and the class names `clean_node` sets
- jsTree rules: function values, `use_data`, and a limit switched off by -2, for which only the unconditional clauses are stated
- jsTree checkboxes: `two_state`, the real checkbox elements and `_repair_state`
- jsTree flat XML: attributes other than the id, the text of the items, escaping and the white space an XML parser replaces in attributes, the nested form
- DataTables header: the `unique` flag, widths, and cells with event handlers
- DataTables rows: regular expression searches, `afnFiltering` and `ofnSearch` plug-ins, the host's decoder of HTML entities, which is a parameter, paging, updating cells, switched-off sorting or filtering, and tables filled by the server in `DataTable`
- DataTables sorting: the column comparators themselves; they are parameters, assumed to be total preorders only where the order matters, and fixed sorting columns count as sorting columns
- The Java interfaces, sample programs, Ruby plug-ins and the remaining scripts of the console: they have no bodies, or would add only easy members
