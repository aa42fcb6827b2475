# Packages, sets, specifications and values of the LCFG core, modelled in Dafny

This project models the data structures and text formats at the heart of the LCFG
core library and proves what they are for. `dafny verify dfyconfig.toml` checks all of it.

- **Version order.** `VersionOrder.dfy` gives the Debian comparison an abstract meaning
  (section 5.6.12 of the Debian Policy Manual) and proves the C loops against it;
  `PackageOrder.dfy` builds the package comparison on it and proves it a total preorder.
- **Package lists.** `Merging.dfy` says what merging one package means, as a function on
  the stored sequence, and `MergeLaws.dfy` what each rule and prefix amounts to.
  `PackageList.dfy` is the linked list with head, tail, size and
  reference counts, proved against that function. `MergeRuns.dfy` proves what whole runs
  of merges keep; `Sorting.dfy` and the list's bubble sort prove a stable sort.
- **Package sets.** `Probing.dfy` is linear probing in general, `Buckets.dfy` and
  `SetRuns.dfy` the table of per-name lists with its recursive resize, `PackageSet.dfy`
  the array of list objects proved against them, reference counts included.
  `SetRuns.dfy` proves that a set refines one flat list for every run of packages that are
  neither removed, updated, nor both kept and decided by prefix, and exactly when a resize
  ends the program. `ExactSets.dfy` proves, under any rules, exactly when a merge and a run
  keep the set and the flat list together; `PrefixSets.dfy` has the runs that do not, and
  what the exits come to for packages with prefixes. `DerivationMap.dfy` is the memo of
  parsed derivations, which uses the same probing.
- **Texts.** `Scanning.dfy`, `Spec.dfy`, `SpecPrinting.dfy` and `SpecRoundTrip.dfy`
  are the parser and printer of package specifications and the exact condition under which
  they undo each other; `RpmName.dfy` is the same for RPM file names.
- **Values.** `Md5.dfy` is the streaming digest, `Entities.dfy` the encoder and the
  in-place decoder of character references, `Templates.dfy` the backwards filling of
  resource name templates, `ListItems.dfy` and `TagEdits.dfy` the edits on
  separator-delimited tags.

Conventions: a C string is a `string` without NUL, read through a terminator where the C
code reads one; an unset field is the empty string, as `isempty` treats both alike; the
stages that end in `exit()` end in an explicit outcome. The hash of a set, the fingerprint
and the parser of derivations, the context grammar, the block function of MD5 and the
table of named references are parameters.

Where the code and its comments disagree, the model follows the code: the pin prefix is
`!` (packages/package.c:89), where packages/set.c:362-378 and packages/package.c:2154
speak of `=`; versions may contain hyphens (packages/package.c:46), which
packages/package.c:2146 forbids; a name may start with a digit (packages/package.c:368),
which packages/package.c:353 forbids; any string is documented as a tag of a string resource
(resources/mutate.c:74-77), but some with separators in them are not found
(utils/utils.c:344-345).

Properties that fail are stated with the condition under which they hold: the set as a
refinement of the flat list (ExactSets.SetMergeTracksExactly), a list as its own remerge
(Remerging.RemergeIsExact), the search for items (ListItems.FindItemExactly) and its end
(ListItems.SearchEndsExactly), the decoded value as a C string (Entities.DecodedNulFree; an
empty numeric reference such as `&#;` is decoded to a NUL byte, utils/entities.c:335-341),
the filled template (Templates.OutcomeIsRight; resources/templates.c:432), and the round
trips of specifications and file names.

## Model

| member | source | states |
|---|---|---|
| VersionOrder.CompareNonDigits | packages/package.c:3413-3453 | the loop over non-digits has the sign of the comparison of the two leading non-digit runs by weight, and stops behind both when they agree |
| VersionOrder.CompareDigits | packages/package.c:3454-3470 | the loop over digits has the sign of the difference of the two numbers, of any length, and stops behind both when they are equal |
| VersionOrder.DebVerCmp | packages/package.c:3433-3474 | the sign of debvercmp is that of the lexicographic order on (non-digit run, number) tokens; where two versions first differ at characters that start no number, or at an end, tilde comes first, then the end, then letters, then other symbols; it ends and reads nothing past a terminator |
| VersionOrder.DebOrderTotalPreorder | packages/package.c:3433-3474 | that order is reflexive, antisymmetric in sign and transitive |
| VersionOrder.DebOrderStep | packages/package.c:3440-3471 | comparing token by token is the same as comparing the first tokens and then the rest, a missing token being ("", 0) |
| VersionOrder.MoreDigitsIsGreater | packages/package.c:3465-3468 | of two numbers without leading zeros, the one with digits left over is greater |
| VersionOrder.SamePrefix | packages/package.c:3440-3471 | whatever two versions have in common in front does not matter, unless a number goes on after it |
| VersionOrder.TildeIsLess | packages/package.c:3413-3426 | a version followed by a tilde and anything comes before that version |
| VersionOrder.MoreIsGreater | packages/package.c:3413-3426 | a version followed by any other non-digit comes after it |
| VersionOrder.TildeIsFirst | packages/package.c:3413-3426 | at the first difference a tilde comes before every other non-digit |
| VersionOrder.LettersBeforeSymbols | packages/package.c:3413-3426 | at the first difference letters come before all symbols but the tilde |
| VersionOrder.SameKindByCode | packages/package.c:3413-3426 | letters among themselves, and symbols among themselves, come in the order of their codes |
| VersionOrder.NumbersDecide | packages/package.c:3454-3470 | at the first difference numbers in base ten compare by value, whatever zeros they start with, before anything that follows |
| PackageOrder.StringOrders | packages/package.c:3594-3630 | strcmp and strcasecmp order names and architectures as total preorders |
| PackageOrder.VStringsTotalPreorder | packages/package.c:3476-3525 | empty below wild below all others, these by debvercmp, is a total preorder |
| PackageOrder.VersionsTotalPreorder | packages/package.c:3548-3576 | epoch, version and release compared in turn are a total preorder |
| PackageOrder.EpochReads | packages/package.c:644-667 | digits before a colon are the epoch, in base ten and at most the greatest unsigned long, and what follows is the rest |
| PackageOrder.SignedEpoch | packages/package.c:644-667 | spaces and a sign before the digits are read as strtoul does |
| PackageOrder.NoEpochIsZero | packages/package.c:644-667 | a version without a colon has epoch zero and is its own rest |
| PackageOrder.VStringsDecide | packages/package.c:3476-3525 | empty below wild below all others, and these in the order of debvercmp |
| PackageOrder.EpochDecides | packages/package.c:3548-3576 | epochs that differ decide, whatever follows |
| PackageOrder.VersionDecides | packages/package.c:3548-3576 | with equal epochs, versions that differ decide, whatever the releases |
| PackageOrder.PlainVersionDecides | packages/package.c:3548-3576 | the same for versions without epochs |
| PackageOrder.ReleaseDecides | packages/package.c:3548-3576 | releases decide between versions that tie |
| PackageOrder.CompareTotalPreorder | packages/package.c:3653-3673 | lcfgpackage_compare is a total preorder |
| PackageOrder.StrCmpDecides | packages/package.c:3622-3630 | architectures compare by the codes of the first characters that differ |
| PackageOrder.CompareDecides | packages/package.c:3653-3673 | names in small letters decide first, then architectures, then versions; names that differ in case only are ties |
| PackageOrder.EqualsIsEquivalence | packages/package.c:3696-3744 | lcfgpackage_equals is an equivalence, and equal packages compare equal |
| PackageOrder.EqualsMeans | packages/package.c:3696-3744 | packages are equal if and only if names agree but for case, architectures, flags and contexts agree, and versions compare equal |
| Merging.MatchesIsKeyEquality | packages/list.c:548-585 | a stored package matches exactly when it agrees on the fields of the primary key |
| Merging.MergeKeepsKeysDistinct | packages/list.c:543-789 | without KEEP_ALL, or by a prefix, no merge makes two packages share a key |
| Merging.NoSecondMatch | packages/list.c:568-585 | once the first match is gone no package of that key is left |
| MergeLaws.FreshMergeExactly | packages/list.c:587-789 | where its key has no package the new one is appended, unless the rules say otherwise for `-` and `?`; list and change are stated |
| MergeLaws.StoredMergeExactly | packages/list.c:587-789 | for every rule and prefix, whether the first package of the key is lost, the new one stored, or the merge refused; list and change are stated |
| MergeLaws.IdleMergeExactly | packages/list.c:543-560 | an invalid package is refused, and one that is the first of its key already changes nothing |
| MergeLaws.LostExactly | packages/list.c:587-789 | with one package of each key, any stored package is lost exactly when another one of its key is merged to which it gives way |
| MergeLaws.StoredExactly | packages/list.c:587-789 | and the new package is stored exactly when its key has none and it may come first, or the one there lets it in |
| MergeLaws.RefusedExactly | packages/list.c:587-789 | and the merge is refused exactly when the package is invalid or the one of its key refuses it |
| MergeLaws.PrefixOverStored | packages/list.c:612-674 | over another, unpinned package of its key `+`, `!` and `?` leave just the new one, `~` just the old one, `-` none, and `>` the greater version |
| MergeLaws.PrefixOverPinned | packages/list.c:612-674 | a pinned package stays the one of its key; what is refused and what is ignored |
| MergeLaws.PrefixOverNone | packages/list.c:612-674 | where the key has no package `-` and `?` do nothing and the others store the new one |
| MergeLaws.OtherKeysStay | packages/list.c:548-585 | packages of other keys are never touched |
| MergeLaws.LatestSurvives | packages/list.c:612-674 | after a run of additions and updates without pins each key has the last of them, where it had a package or got one by an addition |
| MergeLaws.LastIsLeft | packages/list.c:612-674 | a package added, or updating one, after which no other of its key comes, is the only one of its key in the end |
| MergeLaws.MergeAllReports | packages/list.c:814-853 | merging a list reports no change exactly when every merge reported none, an error exactly when one did, else a modification |
| PackageLists.PackageList.constructor | packages/list.c:55-71 | a new list is empty and consistent |
| PackageLists.PackageList.InsertNext | packages/list.c:248-280 | the node sequence gains the item at that position and the package one reference; head, tail and size stay right |
| PackageLists.PackageList.RemoveNext | packages/list.c:310-346 | the node sequence loses that position, or nothing changes and the result says why |
| PackageLists.PackageList.FindCurrent | packages/list.c:562-585 | the search returns the first match and its true predecessor |
| PackageLists.PackageList.ApplyRules | packages/list.c:587-740 | the cascade of rules is the decision function |
| PackageLists.PackageList.Apply | packages/list.c:743-789 | the decision is carried out on the sequence, keeping external references of every package |
| PackageLists.PackageList.MergePackage | packages/list.c:543-789 | the list becomes what Merge says, an error leaves it unchanged, and every package keeps exactly its references from elsewhere |
| PackageLists.PackageList.MergeList | packages/list.c:814-853 | merging a list is merging its packages in turn up to the first error, reporting the combined change |
| PackageLists.PackageList.StoredIsAlive | packages/package.c:226-236 | a package stored in a consistent list has a positive reference count, so it has not been destroyed |
| PackageLists.PackageList.FindNode | packages/list.c:374-399 | the first node whose name matches, and whose architecture does unless "*" is asked for |
| PackageLists.PackageList.Destroy | packages/list.c:101-116 | every reference held by the list is given up, and no other |
| PackageLists.PackageList.Sort | packages/list.c:865-892 | the bubble sort ends with a sorted, stable permutation of the packages |
| Sorting.SwapRemovesInversion | packages/list.c:880-888 | exchanging two neighbours out of order removes exactly one inversion |
| Sorting.SwapIsStable | packages/list.c:880-888 | such an exchange keeps the order of ties |
| Sorting.NeighboursSuffice | packages/list.c:870-892 | a pass without an exchange means the list is sorted |
| MergeRuns.ActiveSurvivors | packages/list.c:680-735 | under SQUASH and USE_PRIORITY each key ends with one package that dominates all merged for it |
| MergeRuns.SurvivorsAreGreatest | packages/list.c:709-735 | no package merged for a key has a higher priority than its survivor |
| MergeRuns.ActiveOrderIndependent | packages/list.c:680-735 | two orders of the same packages that both merge without error leave equal survivors of greatest priority, for priorities that depend on the context only |
| MergeRuns.ActiveMergesInEveryOrder | packages/list.c:680-740 | every order of the packages merges without error if and only if no two are in conflict |
| MergeRuns.ConflictFails | packages/list.c:709-740 | two conflicting packages at the front of a run make it fail |
| MergeRuns.PinnedLostExactly | packages/list.c:612-735 | from a list with one package of each key, under USE_PREFIX with any other rules, a pinned package is lost to a merge exactly when a package of its key without a prefix is squashed into its place or, without KEEP_ALL, replaces it by REPLACE or by priority |
| MergeRuns.PinnedStays | packages/list.c:612-674 | under USE_PREFIX alone a pinned package stays through every run |
| MergeRuns.PinnedIsForever | packages/list.c:612-674 | once a run from an empty list stores a pinned package, every longer run has it |
| MergeRuns.GreatestVersionSurvives | packages/list.c:648-661 | after a run of `>` merges each key's survivor has a version at least as great as all merged for it |
| Probing.ProbeDecides | packages/set.c:422-451 | in a sound table with a free slot the search stops at the key exactly when it is stored |
| Probing.StoredIsFound | packages/set.c:628-670 | a stored key is found at its slot, also after wrap-around |
| Probing.ProbeIsFirst | packages/set.c:422-451 | a search visits the slots from its home on, around the end, and stops at the first that is free or has the key |
| Probing.FillKeepsSound | packages/set.c:466-477 | filling the slot where a search stopped keeps every chain and every key unique |
| Probing.FreeKeepsChainsExactly | packages/set.c:481-485 | emptying a slot keeps every chain if and only if no other key is probed through it |
| Probing.FullCountIsKeyCount | packages/set.c:31-33 | the entry count is the number of distinct keys |
| Buckets.PutListFor | packages/set.c:402-490 | merging into a bucket merges into the list found for that name and leaves every other name's list |
| Buckets.PutKeepsSound | packages/set.c:453-490 | merging keeps the probe chains as long as it empties no bucket |
| Buckets.PutFindsSpace | packages/set.c:453-457 | with a slot to spare the "No free space" branch is not taken |
| SetRuns.SetMergeKeepsLoad | packages/set.c:31-63 | after every merge 10 entries are fewer than 7 buckets, and a search always ends in a slot |
| SetRuns.ResizesExactly | packages/set.c:31-63 | the table is replaced, by one of 2*entries+1 slots, as soon as 10 entries are 7 buckets or more, and not before |
| SetRuns.FirstGoesHome | packages/set.c:409-432 | the first package goes to the slot that is its hash modulo the size |
| SetRuns.ResizeHalvesLoad | packages/set.c:35-95 | a resize yields 2*entries+1 buckets with at most as many entries, sound and uniform |
| SetRuns.RoomyMergeIsPut | packages/set.c:65-93 | while refilling, a merge never starts another resize |
| SetRuns.RehashListFor | packages/set.c:65-93 | a refill merges the packages of each name again in the order of the old slots, and fails exactly when those of some name are refused, however many buckets a name has |
| SetRuns.ResizeListFor | packages/set.c:35-95 | a resize that is due makes of each name what merging all its packages again makes, and ends the program exactly when that is refused for some name |
| SetRuns.SetMergeExitsExactly | packages/set.c:471-477 | a merge ends the program if and only if it leaves the load too high and the packages of some name would be refused in slot order |
| SetRuns.ResizeKeepsLists | packages/set.c:35-95 | a resize of lists of kept packages never fails and keeps each name's list: exactly, or under SQUASH and KEEP_ALL up to equal packages |
| SetRuns.SetMergeTracksList | packages/set.c:402-490 | under any rules, merging a package that is not removed, updated, or both kept and decided by its prefix goes on tracking the flat list, with the same change, or under SQUASH and KEEP_ALL the same verdict |
| SetRuns.SetRefinesList | packages/set.c:402-490 | after any run of such packages from a new set, through all resizes, each name's list is the name-filter of one flat list given the same merges, up to equal packages under SQUASH and KEEP_ALL; the set never exits |
| SetRuns.SetReportsListChange | packages/set.c:402-490 | after any such run the next merge reports what the flat list reports |
| SetRuns.SetMergeListReports | packages/set.c:567-608 | the same for merging a list into a set, unless that ends the program |
| Remerging.MergeByName | packages/list.c:543-789 | merging into a flat list changes only the packages of that name, as merging into their list alone does |
| Remerging.RemergeIsExact | packages/set.c:65-93 | under any rules, a list merged again from nothing comes back as it was if and only if each entry in turn is appended: it is the first of its key and its prefix neither removes nor updates, or no prefix is in force, KEEP_ALL is on, and its first match is another package that is not squashed with it |
| Remerging.DistinctRebuilds | packages/list.c:637-643 | with one package of each key, only a `-` or `?` prefix in force stands in the way |
| Remerging.SquashKeepRebuilds | packages/list.c:689-706 | under SQUASH and KEEP_ALL nothing is dropped if and only if no entry equals its first match |
| Remerging.SquashKeepRemerge | packages/list.c:689-706 | under SQUASH and KEEP_ALL merging again never fails and keeps the classes of equal packages |
| Remerging.SameClassesMeans | packages/package.c:3696-3744 | two lists have the same classes exactly when every package of each equals one of the other |
| ExactSets.EmptiedBucketHidesExactly | packages/set.c:481-485 | emptying a bucket hides another name exactly when that name was probed through it |
| ExactSets.ResizeTracksExactly | packages/set.c:35-95 | a resize of an intact set that agrees with the flat list completes and still agrees if and only if every list rebuilds |
| ExactSets.SetMergeTracksExactly | packages/set.c:402-490 | under any rules, a merge into an intact set that agrees with the flat list runs on and still agrees if and only if it empties no bucket that another name was probed through and, when it resizes, every list rebuilds; the change is that of the list |
| ExactSets.HarmlessByPrefix | packages/set.c:481-485 | under USE_PREFIX without KEEP_ALL that condition is: an emptied bucket is passed over by no stored name, and no `?` entry is stored when the merge resizes |
| ExactSets.HarmlessBySquash | packages/list.c:689-706 | under SQUASH and KEEP_ALL it is: no package equals its first match when the merge resizes |
| ExactSets.SetRefinesListExactly | packages/set.c:402-490 | under any rules, a new set holds after every merge of a run exactly what the flat list holds if and only if each merge of the run meets the condition |
| PrefixSets.RemovalHidesOtherName | packages/set.c:481-485 | a run of three merges with prefixes after which the set has lost a package that the list has |
| PrefixSets.HiddenNameStoredTwice | packages/set.c:481-485 | pinning the hidden package then gives its name a second bucket, and the packages of that name would be refused by the next resize |
| PrefixSets.RemergeFailsExactly | packages/list.c:620-661 | packages that all have prefixes are refused when merged again if and only if a pinned one stands before another of its key with `+`, `!`, or `>` and a greater version |
| PrefixSets.SetMergeExitsByPins | packages/set.c:71-93 | so where all packages have prefixes, a merge ends the program if and only if it leaves the load too high and some name has such a pair in slot order |
| PrefixSets.ExitNeedsTwoBuckets | packages/set.c:71-93 | with one package of each key in a bucket, only a name that has two buckets can make a resize end the program |
| PrefixSets.RefusalAwaitsResize | packages/set.c:71-93 | once the packages of a name would be refused, merges of other names leave it so and the first of them that resizes ends the program |
| PrefixSets.ResizeForgetsUpdatesExactly | packages/list.c:637-643 | with USE_PREFIX and one package of each key, as without KEEP_ALL, a resize drops the `?` entries and no others, so it restores a list if and only if there are none |
| PrefixSets.ResizeDropsSquashedDuplicate | packages/list.c:568-585 | a list that merging produced under SQUASH and KEEP_ALL and that a resize does not restore |
| PrefixSets.ResizeDropsSameFlags | packages/list.c:568-585 | a concrete family of such packages: one name, version and context, two values of the flags |
| PackageSets.PackageSet.constructor | packages/set.c:114-132 | a new set is empty, consistent and has the default size |
| PackageSets.PackageSet.FindSlot | packages/set.c:422-451 | the two probe loops return the slot where the search stops |
| PackageSets.PackageSet.MergePackage | packages/set.c:402-490 | the table becomes what SetMerge says, resizes included, every list object stays consistent, and every package keeps exactly its references from elsewhere |
| PackageSets.PackageSet.MergeList | packages/set.c:567-608 | merging a list is merging its packages in turn up to the first error |
| PackageSets.PackageSet.ResizeTable | packages/set.c:35-95 | the resize is the function Resize, failing exactly when that exits, and conserves references |
| PackageSets.PackageSet.StoredIsAlive | packages/package.c:226-236 | a package stored in any list of a consistent set has a positive reference count, so it has not been destroyed |
| PackageSets.PackageSet.FindList | packages/set.c:628-670 | returns the list that the search finds; where the probe chains are whole, it has exactly the stored packages of that name, and is missing exactly when there are none |
| PackageSets.PackageSet.FindPackage | packages/set.c:691-705 | returns the first matching package of the list found; where the probe chains are whole, none exactly when no stored package matches name and architecture |
| DerivationMaps.DerivationMap.constructor | common/derivation/map.c:106-124 | a new map is empty and consistent |
| DerivationMaps.DerivationMap.FindSlot | common/derivation/map.c:263-281 | the two probe loops return the slot where the search stops |
| DerivationMaps.DerivationMap.FindDecides | common/derivation/map.c:357-380 | that slot is free, or holds the list of that id if and only if one is cached |
| DerivationMaps.DerivationMap.InsertList | common/derivation/map.c:253-310 | the list is cached under its id, replacing any other; nothing else changes and there always is space |
| DerivationMaps.DerivationMap.ResizeTable | common/derivation/map.c:25-84 | a resize loses and changes no cached list |
| DerivationMaps.DerivationMap.FindOrInsertString | common/derivation/map.c:340-404 | returns the very list cached for the fingerprint, or caches what the parser makes of the string; if no two strings used share a fingerprint, every result is the parse of its string |
| Scanning.WalkForwardsUntil | packages/package.c:2034-2081 | cuts off the trimmed field before the first separator, unless a stop character comes earlier, when nothing moves |
| Scanning.WalkBackwardsUntil | packages/package.c:2084-2134 | cuts off the trimmed field after the last separator, unless a stop character comes later; it reports a find exactly then, or when there is nothing to read and the character beyond is the separator |
| Scanning.CutBackField | packages/package.c:2084-2134 | a field has no separator and no stop character in it, and no space at either end |
| Spec.FromSpec | packages/package.c:2172-2428 | the parser yields what the specification means, or the error of the same stage |
| Spec.VersionsFromSpec | packages/package.c:2315-2424 | the modern and the legacy grammar of name, version and release |
| SpecPrinting.Measure | packages/package.c:2492-2577 | the length added up in advance is that of the text |
| SpecPrinting.LayoutLength | packages/package.c:2492-2577 | the text is exactly as long as its fields and separators add up to |
| SpecPrinting.ToSpec | packages/package.c:2481-2666 | -1 for an invalid package, else the text in a buffer that is reused when large enough, NUL padded, with its length |
| SpecRoundTrip.CompleteText | packages/package.c:2481-2666 | the very text of a package with all fields set, in the legacy, compatible and modern styles |
| SpecRoundTrip.PrintParse | packages/package.c:2172-2666 | parsing a printed specification gives back the printed fields if and only if they are readable, for every style, option and default architecture |
| SpecRoundTrip.PrintedFieldsRead | packages/package.c:2172-2666 | if its own printed fields can be told apart, reading a printed package gives back its name, flags, version, release, architecture, context and prefix, but for the fields left out and the wildcards put in |
| SpecRoundTrip.CompleteRoundTrip | packages/package.c:2172-2666 | a package with all fields set comes back as itself in every style if and only if its fields can be told apart |
| SpecRoundTrip.ParsePrintParse | packages/package.c:2172-2666 | what any accepted specification says survives printing and parsing, if and only if its version is readable in that style |
| SpecRoundTrip.ParsedFields | packages/package.c:2172-2428 | whatever the parser accepts is a valid package, without a hyphen in its architecture, its context trimmed and without an opening bracket |
| SpecRoundTrip.VersionsRead | packages/package.c:2315-2369 | name, version and release are read as printed exactly when the version is readable |
| SpecRoundTrip.BlankRefused | packages/package.c:2182-2186 | a specification is refused as empty if and only if it has nothing but spaces |
| SpecRoundTrip.BadStartRefused | packages/package.c:2196-2207 | one is refused for its start if and only if that is neither a word character nor a prefix |
| SpecRoundTrip.ReleaseMissing | packages/package.c:2345-2353 | without a separator the release is missing |
| SpecRoundTrip.VersionMissing | packages/package.c:2356-2367 | with a single hyphen the version is missing |
| SpecRoundTrip.NotFlags | packages/package.c:2258-2283 | a colon is no start of flags if one of nine characters follows it |
| SpecRoundTrip.FrontArchWins | packages/package.c:2286-2316 | an architecture in front of the name wins over one behind it |
| SpecRoundTrip.BackArchCounts | packages/package.c:2286-2316 | without one in front, the one behind the name counts |
| SpecRoundTrip.NoContext | packages/package.c:2227-2253 | without both brackets there is no context |
| PackageFields.FieldCharacters | packages/package.c:38-54 | the characters that each field may have |
| RpmNames.FromRpmFilename | packages/rpm.c:72-227 | the parser yields what the file name means, or the error of the same stage |
| RpmNames.ToRpmFilename | packages/rpm.c:269-370 | -1 when a field is missing, else the file name in a buffer that is reused when large enough |
| RpmNames.RpmMadeOf | packages/rpm.c:72-227 | the basename of any accepted file name is made of the valid fields that are returned |
| RpmNames.PrintParseRpm | packages/rpm.c:72-370 | parsing a printed file name gives back its fields if and only if there is no newline, the architecture is valid and the version without epoch is not empty and has no hyphen before its last character |
| RpmNames.EpochNotPrinted | packages/rpm.c:285-288 | an epoch and its colon are not printed, and what follows is, in full; the very text of the file name |
| RpmNames.EpochMakesNoDifference | packages/rpm.c:285-288 | a package prints as the one with the same version and no epoch |
| RpmNames.PrintedVersionRead | packages/rpm.c:72-370 | reading the printed file name gives back name, architecture, release and the version behind the epoch if and only if that is not empty and has no hyphen before its last character |
| RpmNames.AcceptedExactly | packages/rpm.c:72-227 | in any directory, a file name is accepted for given fields if and only if they are valid and it is made of them |
| RpmNames.SuffixRefused | packages/rpm.c:86-94 | which file names are refused for their length, and which for their suffix |
| RpmNames.ParsePrintRpm | packages/rpm.c:72-370 | printing what an accepted file name says gives its basename if and only if its version has no colon |
| Md5.AbsorbAppend | utils/md5.c:331-366 | processing a message in two parts is processing the first, and then the rest after its tail |
| Md5.AbsorbIsFold | utils/md5.c:331-366 | the registers are the fold of the block function over the complete blocks, in order, and the rest is left |
| Md5.DigestIsFold | utils/md5.c:369-389 | the digest is made of the registers after all blocks of the padded message |
| Md5.InitialBytes | utils/md5.c:321-328 | the registers start with the bytes of section 3.3 of RFC 1321 |
| Md5.EncodeReads | utils/md5.c:387-388 | the digest has the four registers in order, low-order bytes first, as in section 3.5 |
| Md5.PaddingBits | utils/md5.c:369-389 | the padding is one bit that is set and then zero bits, as in section 3.1 |
| Md5.CountAdds | utils/md5.c:342-346 | the two count words with their carry add up bits modulo 2^64 |
| Md5.CountOffset | utils/md5.c:336 | the low count word alone tells how full the buffer is |
| Md5.PaddingIsLeast | utils/md5.c:383-384 | the padding of section 3.1 of RFC 1321 is the shortest that leaves room for the length |
| Md5.LengthReads | utils/md5.c:380-386 | the last eight bytes say the length in bits modulo 2^64, low-order byte first, as in section 3.2 of RFC 1321 |
| Md5.Stream.constructor | utils/md5.c:321-328 | a new state stands for the empty message |
| Md5.Stream.Append | utils/md5.c:331-366 | the state stands for the message with the data added: count, registers after all complete blocks, and tail in the buffer |
| Md5.Stream.Finish | utils/md5.c:369-389 | the digest of the message as RFC 1321 defines it |
| Md5.DigestOfParts | utils/md5.c:321-389 | however a message is split into appends, the digest is that of the whole |
| Entities.Utf8Reads | utils/entities.c:285-320 | a code point is written as section 3 of RFC 3629 has it, in the shortest form |
| Entities.ReferenceShrinks | utils/entities.c:322-360 | a reference is at least as long as what it stands for |
| Entities.LookUp | utils/entities.c:322-360 | what parse_entity finds in the buffer is the reference there, if any, negative numerals wrapped as strtoul does |
| Entities.DecodeInPlace | utils/entities.c:362-389 | the buffer ends up with the decoded text; the write index never passes the read index |
| Entities.EncodeGrows | resources/resource.c:1201-1222 | encoding leaves a value alone exactly when nothing in it is unsafe |
| Entities.EncodedIsSafe | resources/resource.c:1196-1199 | an encoded value has no line ends in it |
| Entities.NeedsEncode | resources/resource.c:1148-1165 | says whether encoding would change the value |
| Entities.EncValue | resources/resource.c:1188-1262 | the encoded value, in a buffer of the length computed before |
| Entities.DecodeEncode | resources/resource.c:1188-1262 | decoding undoes encoding, whatever the named references |
| Entities.EncodeJoin | resources/resource.c:1201-1222 | a value is encoded character by character |
| Entities.EncodedCharacters | resources/resource.c:1201-1222 | the very text of the three encoded characters; all others stay |
| Entities.DecimalReference | utils/entities.c:331-346 | a number in base ten stands for its code point if that is one, anywhere in a text |
| Entities.HexReference | utils/entities.c:331-346 | and so does one in base sixteen, in small or capital letters |
| Entities.NumeralSigned | utils/entities.c:331-346 | spaces, a sign and "0x" before the digits are read as strtoul does |
| Entities.NumeralCharacters | utils/entities.c:331-346 | nothing with any other character in it is a number |
| Entities.NamedReference | utils/entities.c:347-358 | a name stands for its entry in the table, and for nothing if it has none |
| Entities.OtherwiseKept | utils/entities.c:362-389 | what stands for nothing is left as it is |
| Entities.DecodedNulFree | utils/entities.c:335-346 | the decoded value is a C string if and only if no numeric reference in it stands for zero, for named references that are C strings and have no ampersand in their names |
| Entities.EmptyReferenceIsNul | utils/entities.c:335-346 | the reference without digits is decoded to a NUL byte |
| Templates.IsValidTemplate | resources/templates.c:93-122 | accepts exactly the valid templates |
| Templates.ValidTemplatesAre | resources/templates.c:93-122 | valid are a letter, then word characters and one to five placeholders |
| Templates.PlacesAre | resources/templates.c:160-166 | the recorded positions are just those of the placeholders, the last one first |
| Templates.SplitIsFirst | resources/templates.c:136-141 | the name ends before the first underscore that a placeholder follows |
| Templates.Template.SetTmpl | resources/templates.c:129-174 | sets a template exactly when it is valid and has a split, recording all placeholders from the last to the first behind those recorded before; the template can be filled in if and only if none were; else nothing changes |
| Templates.Template.Substitute | resources/templates.c:382-477 | -1 with too few tags, else the name of the length that the tags imply |
| Templates.FilledForward | resources/templates.c:448-470 | filling from the back puts the last tags, in order, into the placeholders from the front |
| Templates.FilledLast | resources/templates.c:448-470 | the last placeholder takes the last tag, and what is in front of it the tags before |
| Templates.FilledTwo | resources/templates.c:448-470 | two placeholders take the last two tags in order; tags in front that are too many are not used |
| Templates.FilledLength | resources/templates.c:396-410 | each tag adds its length less one |
| Templates.OutcomeIsRight | resources/templates.c:432-474 | the name is the filled template if and only if the template ends in a placeholder |
| ListItems.StringFindItem | utils/utils.c:315-351 | the search loop, item by item or as plain strstr, wherever it ends |
| ListItems.FindsItems | utils/utils.c:315-351 | a tag without separators is found exactly when it is one of the items, though failed matches are skipped whole |
| ListItems.FindsFirst | utils/utils.c:315-351 | what is found is the first such item |
| ListItems.SearchEndsExactly | utils/utils.c:328-346 | the loop ends if and only if the needle is not empty, or the list is or starts with a separator |
| ListItems.FindItemExactly | utils/utils.c:315-351 | a needle is found in exactly the lists that have it as an item, if and only if it does not overlap itself from behind one of its separators |
| ListItems.FindItemMisses | utils/utils.c:344-345 | a needle of three characters that is missed |
| ListItems.NextToken | resources/mutate.c:27-52 | the tokens of a tag string are its items, in order |
| ListItems.SeparatorsAre | resources/mutate.c:20 | space, tab, carriage return and line feed separate items, and nothing else does |
| TagEdits.Resource.SetValue | resources/resource.c:1468-1558 | a value is set exactly when it is valid for the type |
| TagEdits.IsValidInteger | resources/resource.c:1393-1417 | the scan accepts exactly an optional sign and decimal digits without a leading zero |
| TagEdits.IsValidList | resources/resource.c:1434-1449 | the scan accepts exactly word characters and spaces |
| TagEdits.IntegersExactly | resources/resource.c:1393-1417 | integers are exactly the numbers as they are written in base ten, and these behind a minus sign |
| TagEdits.ListsExactly | resources/resource.c:1434-1449 | lists are exactly the values with spaces as the only separators and items of word characters |
| TagEdits.ValuesByType | resources/resource.c:1468-1496 | the values that each type takes, and the types that have tags |
| TagEdits.Resource.ReplaceTag | resources/mutate.c:111-214 | success, error and new value in every case, by the text around the item found |
| TagEdits.ReplacesFirst | resources/mutate.c:111-214 | of the items, just the first occurrence of the old tag is replaced, or removed |
| TagEdits.RemovedExactly | resources/mutate.c:155-206 | removing a tag takes along exactly the separators that follow it; all other text stays |
| TagEdits.ReplacedExactly | resources/mutate.c:155-205 | replacing a tag leaves all text around it as it was |
| TagEdits.Resource.AppendTag | resources/mutate.c:352-412 | the tag is appended after a separator if one is needed |
| TagEdits.AppendsItems | resources/mutate.c:352-412 | of the items, the new ones are added at the end |
| TagEdits.AppendedExactly | resources/mutate.c:375-405 | a tag is appended behind one space if the value does not end in a separator, else directly |
| TagEdits.Resource.AddTag | resources/mutate.c:579-596 | the tag is appended unless it is there already |
| TagEdits.Resource.AddTags | resources/mutate.c:619-624 | the tags are added one after the other until one is refused |
| TagEdits.AddsMissing | resources/mutate.c:579-624 | of the items, just the missing tags are appended, in order |
| TagEdits.AddsExactly | resources/mutate.c:579-624 | all tags can be added to a string, and to a list exactly when those that are missing have word characters only |
| TagEdits.AddsOnce | resources/mutate.c:579-624 | adding the same tags again changes nothing |

## Left out

- PackageLists.PackageList.ApplyRules: when a prefix replaces a package the C code also merges its derivation into the new one (packages/list.c:668-670); derivations and categories of packages are not part of this model.
- Merge rules are fixed when a list or set is made, as all callers do; changing them between merges is not modelled.
- Setters used on a package after it has been stored in a list are not modelled: the fields of a package are constant.
- DerivationMaps.DerivationMap.InsertList: reference counts of derivation lists are not modelled, only which list object is cached.
- DerivationMaps.DerivationMap.FindOrInsertString: fingerprints of different strings used must differ for the last clause; the content of a cached list is constant.
- PackageSets.PackageSet.MergePackage: when a resize fails the C program exits, so nothing is promised of the heap then; the outcome is an explicit result.
- PackageLists.PackageList.MergeList: the two lists are different objects that share no node; a list merged into itself under KEEP_ALL can go on reading the nodes that it appends.
- PackageSets.PackageSet.MergeList: the list is not one of those stored in the set, whose nodes the merge would change while they are read.
- Spec.FromSpec: the context expression grammar is an arbitrary predicate, and the released strings of the error paths are not modelled.
- SpecPrinting.ToSpec: a NULL buffer is one of length zero, and memory exhaustion does not happen.
- RpmNames.FromRpmFilename: the loop index is unbounded, where the C code keeps it in 32 bits; file names of four gigabytes are out of reach.
- Md5.Stream.Append: data is at most INT_MAX - 64 bytes a call, so that the signed sum of offset and length does not overflow; the 64-byte block function is arbitrary.
- Entities.DecodeInPlace: decoding from one buffer into another is not modelled, and the named references are any table in which no name is shorter than its text; the search in that table is by whole name.
- Templates.Template.SetTmpl: setting templates until their placeholders together exceed the array of positions writes beyond it, which is not modelled.
- ListItems.StringFindItem: calls for which the loop does not end, which ListItems.SearchEndsExactly names.
- TagEdits.Resource.ReplaceTag: removal is asked for with an empty new tag, because a NULL one is passed to strcmp before it is tested (resources/mutate.c:124).
- Hash quality, floating point load factors (10*entries >= 7*buckets is used), message texts and allocation failures.
- The branch with HAVE_RPMLIB, whose comparison is that of the rpm library.
- Files, directories, databases, XML, subprocesses, globbing, the command line programs, and plain getters.
- Differences of profiles and resources, which mostly wrap code that is not shown here, and copies of the list and sort code for other element types.
