# The dependency engine of poldek, verified

poldek decides which packages an installation needs, in what order they go in or out, and what an
uninstall drags along. This project models the logic behind those decisions in Dafny 4.11 and proves what
it keeps. `dafny verify dfyconfig.toml` checks all of it, in a minute or two.

Packages are numbers (addresses, or record numbers of the rpm database); flag words, hash tables and the
trurl arrays and buffers are maps, sets, sequences and byte sequences with a cursor. The version comparison
of the package manager is a parameter, of which no more than a total preorder is assumed, and only where
that matters.

Each component has a specification (functions on values), the theorems about it, and, where the source
changes things step by step, classes and methods with the loops of the source that are proved to compute
exactly what the specification says. What decides an outcome (which requirements count, what matches, what is
listed first, which bytes stand where) is also said a second time, without the functions that compute it.

| component | files |
|---|---|
| what several components share | `common` |
| install order, `pkgset-order.c` | `order_spec`, `order_theorems`, `order_walk`, `order_visit` |
| requirement entries, their flags, and marking, `pkgset-dep.c`, `pkgmark.c` | `req_entries`, `req_flags`, `mark_spec`, `mark` |
| uninstall closure, `uninstall.c` | `uninstall_spec`, `uninstall_theorems`, `uninstall_blind_spot`, `uninstall` |
| capability records, `capreq.c` | `codec_spec`, `codec_theorems`, `codec_layout`, `codec`, `codec_plain`, `cap_redundant` |
| EVR text, `capreq.c`, `pkgmisc.c` | `evr_text` |
| matching, `pkg.c`, `pkgcmp.c` | `cap_match` |
| capability index and search, `capreqidx.c`, `pkgset.c`, `pkgset-req.c`, `pkgset-dep.c` | `index_spec`, `index`, `index_books`, `index_table`, `search_spec`, `search`, `req_cache` |
| file lists, `pkgfl.c` | `file_list_spec`, `file_list` |
| boolean dependencies, `booldep_parse.c`, `booldep_eval.c` | `booldep_spec`, `booldep_grammar`, `booldep_leaves`, `booldep_parse`, `booldep_eval` |

## What does not hold of the code

These came out of the proofs. Each has a lemma with a concrete input or an exact condition.

- **Uninstall leaves broken packages behind.** The query for requirers passes over a package that itself
  satisfies the name asked for, even if it does not satisfy the version it requires, and the database is
  asked leniently because `strict` (1) is passed where match flags are expected. With packages `s` (provides
  foo = 2), `q` (requires foo = 2, provides foo = 1) and `p` (requires s, provides foo), removing `s` removes
  `p` and leaves `q`, or not, depending on record numbers (`BlindSpotLosesPackage`). Whatever is left broken
  is left through such a blind spot (`RemovalIsSound`). The list is the least closed set in every part of a
  database, for every request and numbering, if and only if there are no blind spots, provided that nobody
  meets a requirement only leniently; a strict one always shows in two packages (`AlwaysLeastExactly`,
  `StrictBlindSpotFails`).
- **A requirement can be folded away.** A requirement with one provider is merged into an entry with the
  same head and alternatives, so an alternative may serve it. The entries stand for the requirements if and
  only if that never happens (`EntriesMeanRequirements`, `FoldedRequirementUnmet`).
- **A Requires(pre) can lose its flag.** When its list of providers begins with the whole list of an entry
  that is there, it is taken for that entry, whose flags stay as they are; after a requirement for 10 or 11,
  the flag of one for 10, 11 or 12 is lost (`FlagLost`), and with it the place in the order. The flags arrive
  for certain if and only if no alternatives required before are such a beginning, given that nobody else
  brings them to the same head (`FlagSurvivesExactly`); where nothing else of that head was required before
  they are lost for certain (`FlagAlwaysLost`). Flags that arrive put every provider in front
  (`PreProvidersFirst`).
- **Split names lose "rpmlib(".** A continuation of a long name that happens to begin with "rpmlib(" is
  stored without it (`RpmlibChunkLost`). An array comes back complete if and only if it fits in 64K and has no
  such chunk (`ArraySurvives`). With 249 to 253 EVR bytes the split loop makes no progress (`SplitProgress`).
- **There is no zero between epoch and version.** The comment on the format of a stored capability
  (capreq.c:533-547) lists one; the record has none (`RecordLayout`).
- **The index misses late packages.** A package added after the capabilities were indexed gets no
  capability with its own name, so a search by that name does not find it (`LateMissed`; `AddedLate` runs into
  it from an empty set; `SearchIsScan` gives the exact condition). The system's own capabilities are not asked
  for when some package has a capability of the name, matching or not.
- **The requirement cache is keyed by the text alone.** An answer kept for one requirer is right for another
  if and only if both or neither match themselves (`Cache.Required`). Where one of two requirers provides
  what both require, each spoils it for the other (`SelfMatchSpoils`).
- **A dependency with an unreadable version is accepted.** `(a = :)` parses, to an identifier whose capreq is
  null because the EVR cannot be read, and the evaluator clones that null (`UnreadableAccepted`). The texts
  without such identifiers are exactly those all of whose versions are EVRs (`ReadableExactly`).
- **A missing `else` costs 99 in front and nothing behind.** An `or` can then take the dearer operand
  (`MissingElseLosesOr`): with operands judged rightly it does so if and only if `Misjudged` says so of their
  least costs and of whether a missing branch comes first in them (`OrIsRightExactly`). A condition is taken
  for false wrongly if and only if it holds with a missing branch in front (`ConditionIsRightExactly`). The
  evaluator is right throughout if and only if neither occurs on its way (`RightExactly`).
- **One removal from an index entry skips the element after each removed one.** As many removals as
  additions are enough nevertheless (`OneRemovalMayLeave`, `RemovalsSuffice`).

## Model

| member | source | states |
|---|---|---|
| InstallOrder.Orderer.DetectLoop | pkgset-order.c:115-133 | the scan down the stack finds a flagged loop exactly as the specification counts it |
| InstallOrder.Orderer.FollowEntry | pkgset-order.c:89-174 | the loop over an entry's head and alternatives visits them in their order, whatever the recursion does to the state |
| InstallOrder.Orderer.VisitInstallOrder | pkgset-order.c:48-201 | a visit, with colours, prereqed bits, stack and output changed in place, is the recursive function the theorems are about |
| InstallOrder.Orderer.DoOrder | pkgset-order.c:203-238 | one pass, from whatever flags are left over, is the specified one, and returns its loop count |
| InstallOrder.Orderer.PackagesOrder | pkgset-order.c:242-282 | the pool, sorted, goes through the two passes: a permutation; no loops counted exactly when the flagged subgraph is acyclic and then the order respects it; all requirements are respected exactly when there is no cycle at all; what an entry lists, head or alternative, by a flagged requirement comes first unless it leads back |
| OrderTheorems.VisitKeeps | pkgset-order.c:48-201 | a visit on any graph keeps: gray packages are those on the stack, the stack is a path, all but its root are prereqed, the output is in post-order; it ends with the package and leaves the stack as it was |
| OrderTheorems.GrayIsLoop | pkgset-order.c:112-133 | a requirement leading to a gray package closes a cycle with the stack, and the scan counts it as a loop exactly when it is not the package itself |
| OrderTheorems.PassInv | pkgset-order.c:203-238 | after a pass over any pool the invariant holds, the stack is empty and no pool package is left gray |
| OrderTheorems.OnePass | pkgset-order.c:203-238 | a pass returns a permutation of the pool, and v stands before u for every followed requirement u to v within the pool where v cannot reach u |
| OrderTheorems.LoopsCounted | pkgset-order.c:112-163 | the pass over flagged requirements counts no loop if and only if they form no cycle of two or more packages, if and only if its order respects them all |
| OrderTheorems.RespectedIsAcyclic | pkgset-order.c:203-238 | a graph some order respects has no cycle |
| OrderTheorems.UnchangedIffRespected | pkgset-order.c:99-106 | a pass is the identity on exactly the sequences that already respect the requirements it follows |
| OrderTheorems.TwoPasses | pkgset-order.c:242-282 | what both passes together give, on the level of the specification |
| OrderTheorems.EdgesAreRequired | pkgset-order.c:89-174 | the walk over a package's entries comes to the head and to each alternative of each entry, and to nothing else |
| OrderTheorems.ListedFirst | pkgset-order.c:242-282 | a package of the pool that an entry of another one lists, as head or alternative, with the flag of the type of order, comes before it unless it leads back over such requirements, and in any case when no loop is counted |
| OrderWalk.WalkOrder | pkgset-order.c:89-174 | white packages without requirements are put in the order of the entries that list them and, within an entry, the head before the alternatives in their order, the visited package last |
| OrderWalk.NoOvertaking | pkgset-order.c:203-238 | a pass keeps the order of the pool as far as it can: a package comes before one in front of it in the pool only if that one, or one further in front, leads to it |
| OrderWalk.NoOvertakingTwice | pkgset-order.c:242-282 | the same of the order that both passes give, over requirements of any kind |
| OrderTheorems.LoopExactly | pkgset-order.c:115-133 | on any stack the scan finds a loop if and only if there are packages above the target, and all of them are prereqed |
| OrderTheorems.PassClearsBits | pkgset-order.c:187-201 | a pass leaves no prereqed bit on the packages of the pool |
| OrderTheorems.StaleFlagsIgnored | pkgset-order.c:203-238 | colours and bits left on packages outside the pool never change the order or the count |
| ReqEntries.AddReqpkg | pkgset-dep.c:98-123 | the entry found by the head gets the flags, or a new entry is made; every other entry stays as it is |
| ReqEntries.ProcessReq | pkgset-dep.c:126-180 | one requirement's providers become a new entry, are folded into the entry found by the head, or are taken for a list that is their prefix; each entry before and after, flags included, is as the specification says, whichever entry the search finds |
| ReqEntries.ProcessReqs | pkgset-dep.c:183-257 | the entries of all requirements are those of the specified run; they are sound and cover every requirement not folded away, and the unmatched ones, rpmlib's aside, are counted |
| ReqEntries.CompiledStep | pkgset-dep.c:126-180 | each requirement processed keeps the relation between requirements and entries |
| ReqEntries.EntriesMeanRequirements | pkgset-dep.c:97-180 | meeting the entries means meeting the requirements, for every set of packages, if and only if no requirement is folded away |
| ReqEntries.CoveredRequirementsMet | pkgset-dep.c:97-180 | where nothing is folded away, a set that meets the entries meets the requirements |
| ReqEntries.OtherwiseUnmet | pkgset-dep.c:97-123 | for each requirement folded away, a set that meets all entries and not it |
| ReqFlags.FlagKept | pkgset-dep.c:126-180 | whatever the searches find, the flags of a requirement are at the end on some entry of its first provider, unless alternatives required before are a beginning of its own |
| ReqFlags.ProvidersKept | pkgset-dep.c:126-180 | so are they with each of its providers, listed as head or as alternative |
| ReqFlags.FlagsAreAsked | pkgset-dep.c:98-180 | every flag of what an entry lists is that of a requirement which that package meets |
| ReqFlags.FlagSurvivesExactly | pkgset-dep.c:144-163 | they get there for every search if and only if no such alternatives were required before, given that no other requirement brings them to that head |
| ReqFlags.FlagAlwaysLost | pkgset-dep.c:144-163 | where everything of that head required before is such a beginning, they are lost for every search |
| ReqFlags.FlagLost | pkgset-dep.c:144-163 | two requirements of which the second, a Requires(pre), leaves no flag |
| PreOrder.FlaggedEdges | pkgset-dep.c:126-180 | the flagged requirements that the order goes by are those of the packages that are not shadowed, towards each provider, and none that no package has |
| PreOrder.PreProvidersFirst | pkgset-order.c:242-282 | from the requirements of each package to the final order: every provider of a Requires(pre) that is not shadowed comes before the package unless it leads back to it, and in any case when no loop is counted |
| PkgMark.PkgMarkSet.Set | pkgmark.c:125-150 | the mark of the package is set or cleared and no other |
| PkgMark.PkgMarkSet.PkgDrags | pkgmark.c:168-214 | the estimate of what a package drags, to the given depth, with the early exits of the loops; at the depth used it is the package's burden |
| PkgMark.PkgMarkSet.VisitMarkReqs | pkgmark.c:217-303 | the recursion marks what the specification marks; the assertions that what is marked was unmarked never fail |
| PkgMark.PkgMarkSet.DepmarkPackages | pkgmark.c:306-330 | marking a list of packages, and the result for unmatched requirements |
| MarkSpec.CheapestOneOf | pkgmark.c:276-288 | among alternatives the first of those that drag least is chosen |
| DragTheorems.DragsIsBurden | pkgmark.c:168-214 | one step ahead the estimate is the number of the package's entries of which neither head nor alternative is marked; two steps ahead, that number and for each of these entries the number of such entries of its head |
| DragTheorems.DragsNothing | pkgmark.c:168-214 | nothing is dragged if and only if every entry has its head or an alternative marked, or the depth is used up |
| MarkSpec.ToMarkUnmarked | pkgmark.c:243-300 | what is selected to be marked is one of the entry's packages and is not marked yet, so the number of unmarked packages decreases |
| MarkTheorems.VisitMarks | pkgmark.c:217-303 | what every visit adds: only packages linked to it through entries, all of them served |
| MarkTheorems.MarkingCloses | pkgmark.c:306-330 | afterwards every marked package has the head or an alternative of each of its entries marked; every dependency mark is linked to a package asked for; the unmatched are exactly those looked at |
| MarkTheorems.SuccessMeansMatched | pkgmark.c:306-330 | marking succeeds if and only if no marked package has an unmatched requirement |
| MarkTheorems.CheapestIsMarked | pkgmark.c:243-300 | of an entry without a marked package one gets marked that brings the fewest unmet entries with it, its own and those of their heads; the head, if all bring an absurd number |
| MarkTheorems.EntryMarksOnly | pkgmark.c:243-300 | an entry with a marked package marks nothing, another one only the package chosen and what that leads to |
| MarkTheorems.MarkedPackagesAreComplete | pkgmark.c:306-330 | a marked package none of whose requirements were folded away has all of them met by marked packages |
| MarkTheorems.FoldedRequirementUnmet | pkgset-dep.c:97-123 | an input for which marking succeeds and a marked package has an unmet requirement |
| Uninstall.UninstallCtx.GetOrphanedByPkg | uninstall.c:72-120 | the requirers found by name, capabilities and files, unmarked ones only, by record number |
| Uninstall.UninstallCtx.ProcessPkgReqs | uninstall.c:223-309 | the loop over a package's requirements, with its counters and marks, is the specified one |
| Uninstall.UninstallCtx.ProcessPackage | uninstall.c:312-361 | the recursion over orphans terminates on any database and is the specified one |
| Uninstall.UninstallCtx.DoProcess | uninstall.c:393-420 | the removal list and counter of a whole run |
| UninstallTheorems.ReqsAreNeeds | pkgiter.c:143-165 | the requirements looked at are exactly the package's own that are not rpmlib's and, if for its removal, are Requires(pre) as well |
| UninstallTheorems.StrictlyExactly | pkg.c:806-842 | a removed package was a provider if it owns the file, has the name, or offers it in the relation asked for |
| UninstallTheorems.DbMatchExactly | pm/pkgdb.c:430-476 | a package that stays is one if it owns the file, has a capability of the name, or one in the relation asked for or without the version to tell |
| UninstallTheorems.RemovalIsSound | uninstall.c:223-420 | the list extends the request, stays inside every closed set around it, counts the rest as dependencies, and a package left with a broken requirement, neither rpmlib's nor one for its removal only, was passed over by the query of a removed provider |
| UninstallTheorems.RemovalIsLeast | uninstall.c:223-420 | without blind spots the list is the least set with the request that contains every installed package with a requirement it breaks; when that condition is exact is AlwaysLeastExactly |
| UninstallTheorems.RemovalIgnoresOrder | uninstall.c:72-120 | then it depends neither on record numbers nor on the order of the request |
| UninstallTheorems.NoShadowsNoBlindSpots | pm/pkgdb.c:598-666 | there are no blind spots when no package offers a name that it requires from somebody else |
| UninstallBlindSpot.BlindSpotLosesPackage | uninstall.c:72-120 | three packages for which the list is not closed and changes with the record numbers |
| UninstallBlindSpot.StrictBlindSpotFails | uninstall.c:72-120 | where a package satisfies a requirement strictly and the query passes over a requirer that nothing of its own helps, the two alone make a database whose list is not the least closed set |
| UninstallBlindSpot.AlwaysLeastExactly | uninstall.c:223-420 | for a database without lenient matches, every part of it, request and numbering gives the least closed set if and only if there are no blind spots; in general their absence suffices and the absence of strict ones is necessary |
| Codec.SplitCapreq | capreq.c:495-531 | the name is cut into the specified chunks |
| Codec.CapreqObj.CapreqStore | capreq.c:548-638 | exactly the specified bytes are written, for names of any length, and the capreq with its byte-swapped epoch, offsets and flags is afterwards what it was |
| Codec.CapreqArrStore | capreq.c:838-908 | size, count, records up to the 64K limit and newline; on overflow the cursor goes back and the header is patched |
| Codec.TnBufIt.CapreqRestoreNa | capreq.c:640-731 | one record, with the offsets changed in the buffer itself and nothing ahead touched |
| Codec.TnBufIt.CollectParts | capreq.c:910-942 | names of parts are joined up to the next regular capreq, which is kept |
| Codec.CapreqArrRestore | capreq.c:944-991 | the nested loops restore the specified array |
| CodecTheorems.RecordRestores | capreq.c:548-731 | a record comes back with name, flags, offsets and epoch; no offset wraps around |
| CodecTheorems.PartsRestore | capreq.c:910-942 | reading over the parts of a name collects exactly the name |
| CodecTheorems.ArrayRoundTrip | capreq.c:838-991 | for any array, split entries adjacent or last included, restoring what was stored gives the kept prefix in order |
| CodecTheorems.KeptFits | capreq.c:838-908 | the size field never overflows, and one more capability would have |
| CodecTheorems.AllKept | capreq.c:838-908 | nothing is cut off if and only if all records fit |
| CodecTheorems.NameSurvives | capreq.c:495-531 | a split name comes back if and only if no chunk begins with "rpmlib(" |
| CodecTheorems.RpmlibChunkLost | capreq.c:495-531 | a name of 256 bytes that comes back with 249 |
| CodecTheorems.ArraySurvives | capreq.c:838-991 | the array comes back equal in names, EVR and flags if and only if it fits and no chunk begins so |
| CodecTheorems.SplitProgress | capreq.c:548-638 | the split loop makes progress if and only if the EVR bytes number at most 248 |
| CodecLayout.RecordLayout | capreq.c:597-620 | the bytes of a versioned record in their order, the offsets as numbers, the epoch with its bytes turned round |
| CodecLayout.PlainRecordLayout | capreq.c:597-607 | a record without a version ends with the name |
| CodecLayout.StoreLayout | capreq.c:575-638 | a capability that needs more than 255 bytes after the first is stored as a record marked as split and its parts |
| CodecLayout.PartLayout | capreq.c:628-635 | the bytes of a part |
| CodecLayout.ChunksJoin | capreq.c:495-531 | the chunks of a name are the name |
| CodecLayout.ChunksAreFull | capreq.c:495-531 | all of them but the last are of full size |
| CodecLayout.ArrayLayout | capreq.c:838-908 | the bytes of an array: size, number of entries, records, newline |
| CodecLayout.NewNameExactly | capreq.c:271-304 | of a name "rpmlib(x)" the x is kept, without the closing parenthesis nothing, and any other name as it is |
| CodecLayout.OffsetsWrap | capreq.c:597-600 | offsets are shifted modulo 256, and none stays none |
| CodecLayout.EndOfBuffer | capreq.c:640-731 | nothing is restored from less than six bytes; a record without a version may end the buffer, of one with a version the next byte is read as well |
| CodecLayout.BastardIsPassedOver | capreq.c:961-966 | a bastard capreq counts as an entry and is not restored |
| CodecPlain.FillPlain | capreq.c:733-795 | restoring without an allocator writes each of the size + 1 bytes reserved and none beyond |
| CodecPlain.PlainRestores | capreq.c:733-815 | it gives the same name, flags, offsets and EVR as the capreq stored, with the name behind the EVR |
| CapRedundant.RemoveRedundant | capreq.c:1048-1065 | dropping covered elements in place, once the array is sorted |
| CapRedundant.MeaningIsKept | capreq.c:1021-1065 | any packages satisfy all requirements before if and only if they satisfy all after |
| CapRedundant.OnlyCoveredGo | capreq.c:1021-1033 | only requirements without a version go, and one of the same name stays |
| CapRedundant.NothingRedundantStays | capreq.c:1021-1065 | where those with a version come first, none without one stays behind another of its name |
| CapRedundant.SortedAndReduced | capreq.c:1035-1065 | the whole function, whatever the sort does with equal elements: the packages satisfy what is left if and only if they satisfied all before, no version is dropped, and of each name at most the first element has none |
| EvrText.ParseInPlace | pkgmisc.c:26-75 | the text is cut in place and the places of version and release hold the C strings the specification gives |
| EvrText.RoundTrip | capreq.c:204-216 | printed and read back, epoch, version and release are the same if and only if version and release can be told apart and, without an epoch, no colon or leading blank is in the way |
| EvrText.EpochReadsBack | pkgmisc.c:37-54 | every nonzero 32-bit epoch is read back from its decimal form |
| CapMatch.PkgCapsMatchReq | pkg.c:707-744 | looking only at the group found by name gives the same answer as looking at every capability |
| CapMatch.MatchIsComparison | pkg.c:568-652 | matching a full E:V-R is the sign of the lexicographic comparison cut where the requirement ends |
| CapMatch.MatchExactly | pkg.c:568-652 | for every kind of capability and a requirement with a version: strictly it matches if and only if it has the name and is older, equal or newer in a part both name, as asked for; leniently also if it agrees and ends too early |
| CapMatch.MatchWithoutVersion | pkg.c:568-652 | a requirement with a relation and no version goes by the epochs, and matches anything of the name where nobody has one; a release without a version goes by the release |
| CapMatch.PromotedMatchExactly | pkg.c:581-612 | with epoch promotion epochs are ignored if and only if one side has none |
| CapMatch.OwnMatchExactly | pkg.c:661-703 | a package matches by its own name if and only if its EVR is in the relation asked for, leniently also with its epoch put aside |
| CapMatch.SatisfiesExactly | pkg.c:806-842 | a package satisfies a file requirement by owning it, another one by its name or a capability, with a version if one of them is in the relation asked for |
| CapMatch.Trichotomy | pkg.c:541-554 | exactly one of <, = and > with the same EVR matches |
| CapMatch.MatchingIsMonotone | pkgcmp.c:151-166 | what > and >= accept is upward closed, what < and <= accept downward closed |
| CapIndex.Ent.Has | capreqidx.c:84-107 | the binary search finds exactly the members of a sorted list |
| CapIndex.InsertionSort | capreqidx.c:68-82 | the in-place sort, moving elements up one by one, of both idx_ent_sort and isort_pkgs |
| CapIndex.Ent.Add | capreqidx.c:227-262 | one more package, through the change from one inline package to an array and doubling; sorted and without duplicates in capability mode |
| CapIndex.Ent.Remove | capreqidx.c:268-295 | the scan with its shifting; what an entry owes is never less than what is asked back, so the null of an emptied inline entry is not compared |
| IndexTable.Index.Add | capreqidx.c:190-265 | the entry of the name changes as specified and no other entry does |
| IndexTable.Index.Remove | capreqidx.c:268-295 | likewise for a removal |
| IndexTable.Index.Lookup | capreqidx.c:330-347 | the packages in an array, or nothing for an empty entry; the contents do not change |
| IndexTable.Index.AddPackage | pkgset.c:151-161 | all the names of a package, repeated ones included |
| IndexTable.Index.RemovePackage | pkgset.c:247-292 | the removal loop over all the names of a package, from any state in which it was indexed |
| IndexSpec.SortIsPermutation | pkgset-req.c:43-78 | sorting keeps the elements |
| IndexSpec.SortOrders | pkgset-req.c:43-78 | sorting by any weak order puts every pair in order |
| IndexSpec.RunIsSortedSet | capreqidx.c:190-265 | over every run of additions a capability's list is the strictly sorted set of what was added |
| IndexSpec.OrderOfAdditionsIsLost | capreqidx.c:190-265 | the same packages in any order and number give the same list |
| IndexSpec.RemovalsSuffice | capreqidx.c:284-294 | as many removals as the package has places leave the list without it and otherwise untouched |
| IndexSpec.RemovalIsExact | pkgset.c:247-292 | in both modes, removing a package once per listing gives the list there would be without it |
| IndexBooks.LookBuilt | pkgset.c:186-212 | name by name, the index is made of what each package lists |
| IndexBooks.BuiltMayRemove | capreqidx.c:276-282 | the additions recorded for a name allow the removals of any package in the set |
| IndexBooks.RemovalUndoes | pkgset.c:247-292 | the index after a removal equals the index of the set without that package, for every name, repeated or not |
| PkgSearch.PkgSet.constructor | pkgset.c:48-66 | a new set has no packages and no index, and is valid |
| PkgSearch.PkgSet.AddSelfCap | pkg.c:498-538 | the package's own name is among its capabilities, and no other name comes or goes |
| PkgSearch.SelfCapFits | pkg.c:498-538 | with its own capability a package has one in every relation that it is in by name and EVR; nothing else is added |
| PkgSearch.PkgSet.BuildIdIsMissing | capreqidx.c:203-206 | the capability that is not indexed is found nowhere |
| PkgSearch.PkgSet.IndexCaps | pkgset.c:186-212 | the index agrees with the packages present, all of which have their own name |
| PkgSearch.PkgSet.AddPackage | pkgset.c:231-245 | refused exactly when a package of that name and EVR is there; the index goes on agreeing |
| PkgSearch.PkgSet.RemovePackage | pkgset.c:247-292 | the package goes and the index goes on agreeing |
| PkgSearch.PkgSet.IndexSuspects | pkgset.c:151-161 | what the index has under a name are exactly the packages with such a capability |
| PkgSearch.PkgSet.PsreqMatchPkgs | pkgset-req.c:177-216 | the matches among the suspects, sorted in place, or none when the requirer is among them |
| PkgSearch.PkgSet.FindMatchPackages | pkgset-req.c:219-263 | the answer of the search; with every package carrying its own name, the sorted answer of a scan; whoever is in the answer to a versioned requirement is present and fits it, by EVR or by a capability |
| PkgSearch.PkgSet.LateMissed | pkgset.c:231-245 | a package present without a capability of its own name is matched by a requirement of that name and not found for it, when nobody else has such a capability |
| PkgSearch.AddedLate | pkgset.c:231-245 | indexing an empty set and adding one package leads there: nothing is found, a scan finds the package |
| SearchSpec.BeforeIsWeakOrder | pkgcmp.c:179-195 | the order of search results is one, and only packages of the same name and EVR are equal in it |
| SearchSpec.NewestFirst | pkgcmp.c:179-195 | results are sorted by name, and of one name no older package comes before a newer one |
| SearchSpec.StrLessExactly | pkgcmp.c:125-128 | names are in the order of the first character in which they differ |
| SearchSpec.SameExactly | pkgcmp.c:151-177 | two packages are the same if and only if names and epochs are equal and versions and releases compare equal |
| SearchSpec.SearchIsScan | pkgset-req.c:177-216 | the index finds what a scan with pkg_match_req finds if and only if no package matches by its name alone without having it as a capability |
| SearchSpec.AnswerIsScan | pkgset-req.c:88-263 | then the answer is the sorted list a scan gives, or the empty one when the requirer is in it |
| SearchSpec.AnswerFits | pkgset-req.c:177-263 | the answer to a versioned requirement lists exactly the suspects that fit it; it is empty if and only if some fit and the requirer does, or there is none; nothing is found if and only if none fits |
| ReqCache.Cache.Required | pkgset-dep.c:202-222 | the answer is the one for whoever asked first, right for this requirer if and only if both or neither match themselves |
| ReqCache.SelfMatchExactly | pkgset-req.c:177-216 | a requirer matches itself if and only if the index has it under the name and, if a version is required, it fits |
| ReqCache.NoSelfMatchNoTrace | pkgset-dep.c:202-222 | over a run in which nobody matches his own requirement, every answer is the uncached one |
| ReqCache.SelfMatchSpoils | pkgset-dep.c:202-222 | two requirers of whom whoever asks first spoils the answer for the other |
| FileList.PkgflStoreBuf | pkgfl.c:264-363 | the table of matches and the nested loops write the specified bytes |
| FileList.PkgflRestore | pkgfl.c:405-482 | the nested loops restore the specified directories, passing over the files of those not loaded |
| FileListTheorems.StoredReturns | pkgfl.c:264-482 | every stored selection reads back in order, with nothing read beyond it |
| FileListTheorems.SurvivesExactly | pkgfl.c:214-228 | a directory comes back unchanged if and only if its name has no slash at either end, unless it is one, and no string outgrows its length byte |
| FileListTheorems.TwoPartsRoundTrip | pkgfl.c:264-482 | stored once for depdirs and once for the others, both restored give every directory back once |
| FileListTheorems.FiltersComplement | pkgfl.c:412-449 | from any buffer, including a list of directories gives those on it and excluding gives those not on it, complementary parts of the full list, in order |
| FileListTheorems.ListRestores | pkgfl.c:264-482 | stored whole and restored with a list, the directories of the list come back, or the others, in order |
| FileListTheorems.PickChooses | pkgfl.c:280-316 | what is stored is all, what is a depdir, or what is neither a depdir nor excluded, in order |
| FileListTheorems.PrepareCuts | pkgfl.c:214-228 | one slash is cut off at the end of a name and one at its beginning, as long as something is left |
| FileListTheorems.FileLayout | pkgfl.c:336-356 | the bytes of a file in their order, the target last and for symbolic links only |
| FileListTheorems.ListLayout | pkgfl.c:318-331 | the bytes of a directory and of a list |
| FileListTheorems.Int32Value | pkgfl.c:318-347 | numbers of four bytes begin with the most significant one |
| BooldepParse.NodeObj.SetArg | booldep_parse.c:78-91 | an argument is added exactly when there is room |
| BooldepParse.SkipNonWhite | booldep_parse.c:100-107 | the end of a token with balanced parentheses in it |
| BooldepParse.ParseDep | booldep_parse.c:131-271 | the recursive descent over nodes changed in place: a tree of its own, the caller's node completed by an else, or nothing |
| BooldepParse.BooldepParse | booldep_parse.c:273-288 | the whole parser on any text |
| BooldepGrammar.BodyParses | booldep_parse.c:131-271 | every text of the grammar is parsed to its tree, stopping after its closing parenthesis |
| BooldepGrammar.BodyBelongs | booldep_parse.c:131-271 | whatever is accepted is a text of the grammar, and the result is its tree |
| BooldepGrammar.ParserIsExact | booldep_parse.c:131-288 | booldep_parse gives a tree and a rest if and only if the text is a parenthesised level of the grammar with that tree, and then that rest |
| BooldepGrammar.AcceptedExactly | booldep_parse.c:273-288 | booldep_parse accepts a text if and only if it begins with a parenthesised level of the grammar |
| BooldepGrammar.Words | booldep_parse.c:26-40 | the operator words |
| BooldepGrammar.Spaces | booldep_parse.c:93-98 | the six characters that count as white space |
| BooldepGrammar.ValidIsUnmixed | booldep_parse.c:213-262 | all operators at a level of a text of the grammar are the same, save an else at the end of an if or unless |
| BooldepGrammar.DepthIsSurplus | booldep_parse.c:100-107 | the scan goes through a token if and only if it has no blank, no comma and no prefix with more closing than opening parentheses |
| BooldepGrammar.ParsedIsWellFormed | booldep_parse.c:213-262 | no parsed tree has an else in it or a wrong number of arguments, and no level of the text it comes from mixes operators |
| BooldepGrammar.PrintedParses | booldep_parse.c:131-271 | the fully parenthesised text of any tree is parsed back to it |
| BooldepLeaves.EvrIsExact | pkgmisc.c:26-75 | the texts read as an EVR are those made of blanks, an epoch, a version and a release, said without the reader |
| BooldepLeaves.EpochIsRead | pkgmisc.c:37-54 | of a text of blanks, sign, digits and anything else the number is the epoch, cut to 32 bits, unless it is out of the range of a long or a zero not written as "0" |
| BooldepLeaves.CutTo32 | pkgmisc.c:48 | a long is cut to the one signed 32-bit number that differs by a multiple of 2 to the 32 |
| BooldepLeaves.ReadableExactly | booldep_parse.c:42-60 | the accepted texts in which every identifier gets its capreq are exactly those whose version requirements are all EVRs |
| BooldepLeaves.UnreadableAccepted | booldep_parse.c:169-184 | an accepted text with an identifier that gets none |
| BooldepEvalTheorems.ParsedIsEvaluable | booldep_eval.c:316-358 | evaluating a parsed tree meets no null if and only if it has no with or without and every identifier has its capreq |
| BooldepEval.CostOf | booldep_eval.c:35-50 | the cost of a linked list |
| BooldepEval.Append | booldep_eval.c:125-129 | the right list is spliced to the end of the left one |
| BooldepEval.Eval | booldep_eval.c:317-358 | evaluation on linked lists gives the specified values |
| BooldepEval.BooldepEval | booldep_eval.c:360-375 | the requirements a dependency resolves to |
| BooldepEvalTheorems.EvalIsCheapest | booldep_eval.c:120-178 | with conditions decided by what already holds and nothing misjudged on the way, the requirements returned satisfy the dependency, and no other selection of its places does at less cost |
| BooldepEvalTheorems.FreeIffHolds | booldep_eval.c:156-178 | then a dependency costs nothing if and only if it already holds, so an if or unless takes the branch its condition calls for |
| BooldepEvalTheorems.OrKeepsLeft | booldep_eval.c:134-154 | an or keeps its left operand if and only if what it is charged with is no more than that of the right one; without missing branches in front, if and only if nothing that satisfies the right one is cheaper |
| BooldepEvalTheorems.ResolvedIsMet | booldep_eval.c:120-154 | whatever set meets the requirements an and/or dependency resolves to makes it hold |
| BooldepEvalTheorems.MetIsSelection | booldep_eval.c:120-154 | any set of requirements that makes an and/or dependency hold contains one of the selections the cost is compared with |
| BooldepEvalTheorems.CostIsTotal | booldep_eval.c:35-50 | the cost compared is the sum over the list if and only if, by the costs of what is in the dependency, no missing branch comes first in it, or the sum is 99 anyway |
| BooldepEvalTheorems.EvalCostsLeast | booldep_eval.c:120-178 | where nothing is misjudged the sum over the list is the least cost of satisfying the dependency, and the list starts empty if and only if the input says so |
| BooldepEvalTheorems.LeastIsLeast | booldep_eval.c:120-154 | that least cost is what a cheapest selection costs |
| BooldepEvalTheorems.TotalIsPrice | booldep_eval.c:35-50 | whatever was judged, the list costs what the requirements on it cost, 99 for one that cannot be met |
| BooldepEvalTheorems.BillIsPrice | booldep_eval.c:35-50 | so does a selection |
| BooldepEvalTheorems.OrIsRightExactly | booldep_eval.c:134-154 | an or costs the least it can if and only if the least costs of its operands, and whether a missing branch comes first in them, do not mislead it |
| BooldepEvalTheorems.ConditionIsRightExactly | booldep_eval.c:156-178 | a condition is taken for what it is if and only if it does not hold with a missing branch in front |
| BooldepEvalTheorems.RightExactly | booldep_eval.c:120-178 | the evaluator is right about a dependency and every operand, condition and branch on the way if and only if no missing branch is in the wrong place |
| BooldepEvalTheorems.GuardedIsJudged | booldep_eval.c:120-178 | a dependency in which no or operand and no condition may start with a missing branch is never misjudged, whatever the costs |
| BooldepEvalTheorems.MissingElseLosesOr | booldep_eval.c:35-50 | an input for which the or takes an operand that costs more than the other |

## Left out

- UninstallTheorems.RemovalIsLeast: for one database, request and numbering the absence of blind spots is sufficient and not necessary, because a package passed over by one query may be found by another; over all parts of a database it is exact, unless somebody meets a requirement only leniently.
- BooldepEvalTheorems.EvalIsCheapest: asks that nothing on the way is misjudged. That is exact for being right all the way (RightExactly); the total alone may still be the least after two mistakes that cancel out.
- ReqEntries.ProcessReqs: entries stay in the order in which they are added, while the source's array sorts itself when it is searched; which of several entries with one head is found is left open.
- InstallOrder.Orderer.PackagesOrder: what the pool is sorted by (priority, name and EVR) is a parameter.
- Codec.CapreqArrStore: the array is stored in the order it has; the source sorts it by name and EVR first (capreq.c:856).
- CapRedundant.RemoveRedundant: the sort at capreq.c:1050 is a library call; what it has to achieve is a hypothesis of SortedAndReduced.
- Codec.CapreqArrRestore: a split record with no part behind it and a part marked as split trip assertions in the source (capreq.c:929-931); the model goes on.
- PkgSearch.PkgSet.IndexCaps: the file index filled in the same loop is not part of this model.
- PkgSearch.PkgSet.AddPackage: the indexes of requirements and files are not part of this model.
- PkgSearch.PkgSet.RemovePackage: the indexes of requirements and files are not part of this model.
- PkgSearch.PkgSet.FindMatchPackages: requirements for files are not searched for (the file index is not part of this model), nor those of rpmlib.
- ReqCache.Cache.Required: the key is the requirement, not its text cut at 512 bytes; the package set is fixed, although the source keeps the cache when packages are added or removed.
- BooldepParse.BooldepParse: nodes that are not part of the result are not freed.
- Boolean `with` and `without`: `eval` returns null for them and `and`, `or` and the conditions follow that null; trees with them are not evaluated here, but they are parsed.
- GREEDY reverse orphans, automatic directory requirements and the interactive side of uninstall.
- Conflicts, obsoletes, directory indexes of files, and capability hints of the `pm` layer.
- Which names the requirement index skips: a parameter here, because the loops over the source's lists step twice per round.
- Integer width of costs, of epoch differences and of the doubled entry size; the doubling of a 32-bit size never wraps in practice.
- Reads beyond the buffer on malformed records and file lists: the model stops there, the source goes on.
- The slash that restoring a directory cuts off in the buffer itself.
- Little-endian host assumed for the byte order of stored epochs; C strings are taken to hold no zero.
- Searches by n_array_bsearch_idx_ex are taken to give the first of several equal elements, the sorting and uniq of a package's capability array to keep every name.
- Memory management, reference counts, obstacks, string sharing, logging, rpm and package directory access.
