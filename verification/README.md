# Conary: troves, versions, annotation and streams, modelled in Dafny

This project models five algorithms of Conary, a distributed package manager, and proves what they are
for. Verify with `dafny verify dfyconfig.toml`.

- **Line annotation** (`Annotate.dfy`). `cvc annotate` walks the history of a file from the newest version
  to the oldest and keeps a sparse map from line numbers to lines of the newest file. The walk is shown to
  take exactly the versions of a branch that are not after the current one, newest first, and then those of
  the parent branches. The reference answer (`Trace`, `Blamed`, `Credit`) follows matching blocks back
  without any map; the method is proved to give that answer for every history and every matcher, and each of
  the assertions in the code is proved on the way.
- **Versions** (`Text.dfy`, `Versions.dfy`, `Shortest.dfy`, `Shadows.dfy`). A version is a sequence of
  labels and revisions. Its string abbreviates each part against the one before, and the parser expands it
  again. Parsing undoes printing exactly for the versions whose neighbouring revisions agree in kind and
  whose serial numbers fit the shadow depth. Whatever is read can be printed, and no text that is read as a
  version is shorter than its printed form. Branching, shadowing, counting up, going to the parent and the
  canonical version are proved to agree with each other for source and binary versions, and every version
  that can be reached by them stays readable.
- **Trove differences** (`Pairing.dfy`, `VersionMatch.dfy`, `FlavorMatch.dfy`, `PathHashes.dfy`,
  `Passes.dfy`, `PackageDiff.dfy`, `DiffPackages.dfy`, `TroveJobs.dfy`). `_diffPackages` pairs the troves a
  change removes with those it adds, in four passes over sets that shrink as matches are made. If it gets
  through, no trove is lost or used twice, and the matches of a name are those of the four passes in turn:
  compatible flavors on one label first, and in each pass what path hashes settle, then the best flavors
  among the troves not held back. Two troves left by a pass that could have matched them were held back, as
  the longer list allowed, for troves outside it, or outdone by a match at least as good. Something is
  matched wherever anything can be. `_diffPackages` can only raise over two troves that the closeness
  measure cannot tell apart; no removal can fail.
- **Change sets** (`Paths.dfy`, `Framing.dfy`, `FileLists.dfy`, `TroveSets.dfy`, `FileDiff.dfy`,
  `TroveDiff.dfy`, `ChangeSets.dfy`). The diff of two troves says what has changed and nothing else: it is
  empty exactly between troves with the same files and included troves. Frozen to bytes with its lists in
  any order, thawed, and applied to a copy of the old trove, it gives the included troves of the new one and
  never raises a trove error; it gives the files if and only if each of them is told in full.
- **Streams and signatures** (`Sorting.dfy`, `Streams.dfy`, `StreamCollections.dfy`, `TroveRefs.dfy`,
  `Signatures.dfy`). Stream collections are frozen bytes or thawed items; `twm` undoes `diff`, and freezing
  is canonical. Trove references have one frozen form. Multi-precision integers (section 3.2 of RFC 4880)
  survive exactly up to 65535 bits.
- **The CONARY state file** (`Blanks.dfy`, `StateFile.dfy`, `StateLines.dfy`, `ConaryStates.dfy`). Reading a
  written file gives back the state exactly if the context is a stripped line, name and factory are words, and
  no path has blanks other than single spaces inside.

Bytes and `str` are `seq<char>`. Iteration over a Python set or dictionary picks elements in any order, and
sorts keep only what their key promises, so results hold for every order and every tie. Flavor scores, path
hash overlaps, matching blocks, time stamps and the comparison of streams are parameters about which nothing
more is assumed than stated.

## What the proofs found

- `annotate` does not renew the contact when a version leaves the file unchanged, so a line can be printed
  next to the name of a later committer (`Annotate.CreditsWrongCommitter`). Every name that can be printed
  for a history is right if and only if each run of versions that share a file, and is followed by one with
  another file, has the same contact at both ends (`Annotate.CreditsCommitter`). That is said of every
  matcher that keeps the documented promise, and the proof uses one that shifts equal lines; for histories
  in which no file version comes back it already holds of the matcher that finds whole files equal or
  nothing (`Annotate.CreditsCommitterByEquals`). If the file was missing in the last version visited, the
  lines that lasted until then, and only those, are credited to that version
  (`Annotate.BlamesVersionWithoutFile`, `Annotate.BlamesOldestReached`).
- The comment before the second pass of `_versionMatch` says that nothing is left on the same label. That
  is proved, but it is not enough to keep `closeness` from dividing by zero: two versions on different labels
  that use a label twice can collect the same items (`VersionMatch.RepeatedLabelsAreNotTold`). It divides by
  zero exactly when the item sets agree (`VersionMatch.ClosenessDefined`), and never for versions without a
  repeated label (`VersionMatch.DistinctLabelsAreTold`). `_versionMatch` raises if and only if its first pass
  leaves such a pair (`VersionMatch.MatchVersions`), which can be read off its two sets if no two versions of
  one set and label share a time stamp. `_diffPackages` raises only over such a pair
  (`DiffPackages.DiffPackages`), and `DiffPackages.RunRaises` is a name over which it does.
- The comment at the shortcut for one trove on each side says that the passes would give the same pair. They
  do if and only if the two share a label, or differ in what the closeness measure collects, or overlap in
  path hashes (`DiffPackages.ShortcutIsWhatPassesDo`); else the passes raise, and
  `DiffPackages.ShortcutHidesAnError` is such an input.
- `updateRawFile` keeps the old file id when the new one is None, and an empty path says nothing in a file
  list. `FileDiff.FilesReplayed` states exactly which troves are rebuilt.
- The assertion in `diff` forbids a trove with files, strong and weak references at once, and the one at the
  end of `applyChangeSet` forbids files and strong references without weak ones. So a trove with files can
  only be rebuilt without an assertion if it has no strong references (`TroveDiff.DiffRebuilds`).
- A revision that prints as abbreviated against one of the other kind cannot always be read back
  (`Versions.RevisionRoundTrip`), and a source version whose count is all zeros makes `canonicalVersion` trip
  the assertion in `parentVersion` (`Shadows.CanonicalOfSource`).
- Two stream collections with bytes that `freeze` would not have made can hold the same items and still be
  unequal (`StreamCollections.BytesToldApart`). Comparing bytes agrees with comparing items, against
  everything `freeze` makes, if and only if the bytes are themselves such (`StreamCollections.BytesSpeakIfFrozen`).

## Model

| member | source | states |
|---|---|---|
| Annotate.Annotate | conary/checkin.py:694-857 | for every history and matcher, each line of the newest file is credited as the reference answer says; the lines are those of the file in the last version of the current branch that is not after the current one, and without such a version, or if it lacks the file, there is no result |
| Annotate.NotAfterKeeps | conary/checkin.py:743 | of a branch exactly the versions not after the current one are kept, each as often as it is there and in the same order |
| Annotate.NotAfterMembers | conary/checkin.py:743 | a version is kept if and only if it is one of the branch and not after the current one |
| Annotate.FirstVisited | conary/checkin.py:743-748 | the walk starts with the last version of the current branch that is not after the current one, if there is any |
| Annotate.WalkIsNewestFirst | conary/checkin.py:743-850 | the walk takes the versions of each branch from the newest to the oldest, one branch after the other up to the first that offers none |
| Annotate.Compare | conary/checkin.py:772-832 | comparing with the next older file keeps annotated lines and the line map right and counts the lines left; the assertions hold |
| Annotate.MarkChanged | conary/checkin.py:783-806 | exactly the live lines outside the matching blocks get annotated, their entries die, and the count goes down by as many |
| Annotate.ShiftMap | conary/checkin.py:811-832 | after the in-place update, live entries are those of matched lines, at their place in the older file |
| Annotate.Initialise | conary/checkin.py:763-771 | the newest file starts with every line mapped to itself and none annotated |
| Annotate.AttributeRest | conary/checkin.py:852-857 | lines without annotation get the last version, the others stay |
| Annotate.NextBranch | conary/checkin.py:843-850 | when a branch is used up the walk goes on with the parent branch, in the order of the reference walk |
| Annotate.Round | conary/checkin.py:741-850 | one version of the loop keeps everything `annotate` keeps, and the walk gets shorter |
| Annotate.TraceGivesInvariant | conary/checkin.py:834-837 | live entries are distinct, lie in the current file, hold the same text, and are as many as the lines not yet annotated |
| Annotate.BlamesOldestReached | conary/checkin.py:741-857 | the version blamed is the oldest visited one that following matching blocks from the newest reaches, and it holds the line; a version without the file is blamed exactly for lines that lasted until then |
| Annotate.PrintsOldestReached | conary/checkin.py:741-857 | what the finished annotation prints next to a line is that version |
| Annotate.CreditsCommitter | conary/checkin.py:833 | for every file contents, matcher and line the name printed is that of the committer of the blamed version, if and only if every run of versions sharing a file that ends before another file has one contact at both ends |
| Annotate.CreditsCommitterByEquals | conary/checkin.py:833 | the same for a matcher that finds whole files equal or nothing, if no file version comes back |
| Annotate.CreditsWrongCommitter | conary/checkin.py:833 | in a history whose run does not, a line is credited to somebody else |
| Annotate.BlamesVersionWithoutFile | conary/checkin.py:750-754 | lines can be blamed on a version that lacks the file |
| Versions.SerialRoundTrip | conary/versions.py:99-147 | a serial number is read back from its string |
| Versions.LabelRoundTrip | conary/versions.py:446-541 | a label is read back from its abbreviation against any other label |
| Versions.RevisionRoundTrip | conary/versions.py:174-429 | a revision is read back from its abbreviation against another one if and only if the two are compatible in kind |
| Versions.AsString | conary/versions.py:691-746 | the loop prints what the printing function says, with or without time stamps |
| Versions.VersionFromString | conary/versions.py:1458-1526 | the loop parses what the parsing function says, errors included |
| Versions.ParseUndoesPrint | conary/versions.py:1458-1526 | parsing undoes printing if and only if neighbouring revisions agree in kind and serial numbers fit the shadow depth |
| Versions.ThawUndoesFreeze | conary/versions.py:1458-1526 | the same for frozen versions, time stamps included |
| Versions.OneKindAgrees | conary/versions.py:178-193 | versions that are all source or all binary meet the condition on kinds |
| Versions.StrToFrozen | conary/versions.py:1528-1555 | the scan over the fields puts in stamps as the function says |
| Versions.StrToFrozenIsFreeze | conary/versions.py:1528-1555 | stamping the printed string gives the frozen string for any mix of branches and shadows |
| Versions.StrToFrozenMiscounted | conary/versions.py:1528-1555 | with too few stamps it runs out of them, and with too many its assertion fails, for every version |
| Shortest.LabelTexts | conary/versions.py:446-541 | a label is read from exactly three texts: in full, or without what it shares with the template; and every label that is read can be printed |
| Shortest.RevisionShortest | conary/versions.py:174-429 | every revision that is read can be printed, and no text for it is shorter than its abbreviation |
| Shortest.ReadIsPrintable | conary/versions.py:1458-1526 | every version that is read can be printed and has no more serial numbers than its shadows allow; it is read back if and only if neighbouring revisions agree in kind |
| Shortest.PrintIsShortest | conary/versions.py:691-746 | no text that is read as a version is shorter than the one that is printed for it |
| Shadows.SerialNumber.Increment | conary/versions.py:136-138 | pads with zeros and counts the last number up, in place |
| Shadows.SerialNumber.TruncateShadowCount | conary/versions.py:121-134 | cuts to the wanted length from either end and drops trailing zeros, in place |
| Shadows.SerialNumber.Compare | conary/versions.py:75-85 | the loop gives the order of serial numbers |
| Shadows.CmpTotal | conary/versions.py:75-91 | the order agrees with equality and is antisymmetric |
| Shadows.CmpTransitive | conary/versions.py:75-85 | the order is transitive |
| Shadows.IncrementedIsLater | conary/versions.py:136-138 | an incremented serial number is strictly later |
| Shadows.NextBuildIsLater | conary/versions.py:1046-1083 | counting builds up gives a strictly later build count in each of the four cases |
| Shadows.NextBuildIs | conary/versions.py:1046-1083 | on a shadow with its own source count a build count keeps its length or starts as 1; on others it has a number for each depth; the last number goes up by one, the others stay or are zero |
| Shadows.BuildBelongsHere | conary/versions.py:1046-1083 | a version with a build counted on a shadow is its own canonical version |
| Shadows.BuiltHasNoParent | conary/versions.py:960-1002 | a version built on a branch or shadow has no parent, unless the revision before it was built with as many numbers |
| Shadows.CommitCounts | conary/versions.py:1030-1044 | a commit pads the source count with zeros to the depth of the shadow and counts its last number up by one; nothing else changes |
| Shadows.TruncatedIs | conary/versions.py:121-134 | a count that is short enough stays; else the wanted end of it does, without its last zeros |
| Shadows.ComputeShadowLength | conary/versions.py:921-941 | the backward scan counts the labels in a row before the trailing revision |
| Shadows.VersionObject.IncrementSourceCount | conary/versions.py:1030-1044 | only the trailing source count changes, at the shadow depth |
| Shadows.VersionObject.IncrementBuildCount | conary/versions.py:1046-1083 | only the trailing build count changes, by the rules for modified and unmodified shadows |
| Shadows.ShadowThenParent | conary/versions.py:960-1039 | shadowing, any number of commits, and the parent gives the shadowed version, which has a parent throughout |
| Shadows.ShadowThenParentExactly | conary/versions.py:284-302 | for any number of commits, that is so if and only if the source count does not end in zero, or before the first commit unless it is all zeros and counts for this depth |
| Shadows.BranchThenParent | conary/versions.py:1224-1246 | branching, any number of commits, and the parent gives the branched version |
| Shadows.BinaryBranchThenParent | conary/versions.py:960-1028 | a binary version on a branch starts with the last of its numbers each, and has the branched version as its parent if and only if that was built with a single number |
| Shadows.ParentOfShadow | conary/versions.py:1004-1028 | the parent of a shadow is one label up, with its counts cut to the numbers that fit there |
| Shadows.CanonicalVersion | conary/versions.py:943-958 | the loop goes to the parent as often as shadows are to be stripped, or fails as `parentVersion` does |
| Shadows.CanonicalOfSource | conary/versions.py:943-1028 | it fails exactly for an all-zero count below its depth; else it keeps the trailing revision, ends at the depth the count was made at, and is idempotent |
| Shadows.CanonicalOfShadows | conary/versions.py:943-958 | any shadows of a version last touched at its own depth lead back to it |
| Shadows.CanonicalOfBinaryShadows | conary/versions.py:943-1028 | the same for binary versions, if and only if there is no revision before or it was built with as many numbers; else the assertion of `parentVersion` fails |
| Shadows.ApplyKeepsSound | conary/versions.py:1004-1266 | branching, shadowing, counting and going to the parent keep serial numbers no longer than the shadow depth plus one |
| Shadows.ReachedVersionsParse | conary/versions.py:1513-1515 | no version reached by any run of these has too many serial numbers for the parser, and it is read back whenever kinds agree |
| Shadows.SerialsFitIs | conary/versions.py:274-282 | the limit of the parser means for each revision: its source count has no more numbers than labels precede it in a row, and neither has its build count if the source count is a single number |
| Pairing.Greedy | conary/trove.py:2741-2752 | picking from the highest score down uses nothing twice, and whatever was not picked lost to something at least as good on one of its sides |
| Pairing.PairsConcat | conary/trove.py:2515-2535 | a pairing of what another one left completes it without using anything twice |
| VersionMatch.ClosenessDefined | conary/versions.py:662-689 | the closeness measure divides by zero exactly when the two item sets agree |
| VersionMatch.ItemsCollected | conary/versions.py:669-678 | the items of a version are its parts and each two labels with no label between |
| VersionMatch.ScoreIsCloseness | conary/versions.py:680-689 | one measure is at least the other if and only if common items over differing ones are |
| VersionMatch.DistinctLabelsAreTold | conary/versions.py:669-689 | versions that end on different labels and repeat no label never do that |
| VersionMatch.ShadowsRepeatNothing | conary/versions.py:1248-1266 | `createShadow` refuses exactly the labels it would repeat, so shadows of one version never confuse the measure |
| VersionMatch.ShadowedStayDistinct | conary/versions.py:1248-1266 | any shadows of a version without a repeated label have none |
| VersionMatch.BranchesFollowNothingTwice | conary/versions.py:1224-1246 | `createBranch` refuses exactly to let a label follow itself |
| VersionMatch.RepeatedLabelsAreNotTold | conary/versions.py:669-689 | versions that repeat a label can |
| VersionMatch.SameLabelPass | conary/trove.py:2791-2811 | newest goes with newest on each label, nothing newer is left on either side, and afterwards no two leftovers share a label |
| VersionMatch.LeftIsSurplus | conary/trove.py:2791-2811 | with different time stamps on each label this leaves one pair of sets only: the troves for which the other side has none left on the label once the newer ones are served |
| VersionMatch.ClosenessPass | conary/trove.py:2813-2832 | it gets through if and only if the measure tells all pairs apart; then only pairs with something in common are matched, and any other such pair lost, on one of its sides, to one with at least as many common items for each differing one |
| VersionMatch.DregsPass | conary/trove.py:2834-2848 | newest goes with newest until one side is used up, and nothing newer is left on the other |
| VersionMatch.MatchVersions | conary/trove.py:2780-2850 | it raises if and only if the first pass leaves two versions the measure cannot tell apart, and with different time stamps that is a condition on the two sets alone; else it gives a partial bijection as big as the smaller side, made of the results of the three passes in turn, each over what the ones before left |
| FlavorMatch.FlavorScoreCache.Get | conary/trove.py:4073-4094 | the cache always answers with the score, in either order of the flavors |
| FlavorMatch.FlavorScoreCache.Matches | conary/trove.py:4070-4071 | flavors match exactly if their score is above the lowest |
| FlavorMatch.FlavorScoreSymmetric | conary/trove.py:4073-4094 | the score of two flavors does not depend on their order |
| FlavorMatch.FlavorScoreIsBest | conary/trove.py:4085-4091 | two empty flavors score highest; else the score is the best of the two directions, and the lowest if there is none |
| FlavorMatch.PairFlavors | conary/trove.py:2732-2752 | flavors are paired one to one, and any pair that could have been made lost to one that scores at least as well |
| FlavorMatch.MatchByFlavorAndVersion | conary/trove.py:2708-2778 | nothing is used twice, flavors are compatible where that is asked for, and two troves left unmatched were outdone by a better pair of flavors; the matches are those of `_versionMatch` over the groups of the flavor pairs; it raises exactly if matching versions raises for one of these, which with different time stamps is a condition on the groups |
| PathHashes.PathHashOverlaps | conary/trove.py:2586-2619 | each pair with a path hash in common is listed in both directions and nothing else is, so the table is symmetric, and no row repeats a trove if none is both added and removed |
| PathHashes.PartnersOnly | conary/trove.py:2638-2672 | two troves are partners by path hashes if and only if they overlap and neither overlaps with anything else in the lists that could be used |
| PackageDiff.PackageMatcher.MakeMatch | conary/trove.py:2515-2535 | one entry more, and both troves gone from the list of the pass and the dictionary, whether or not these are one object; no removal fails |
| PackageDiff.PackageMatcher.PathMatches | conary/trove.py:2638-2668 | the candidates inside the list, each with an overlap and compatible if asked; the counting assertion holds |
| PackageDiff.PackageMatcher.CheckAdded | conary/trove.py:2637-2686 | a trove is matched exactly if path hashes name one partner in the list that names no other, and delayed exactly if all overlaps lie elsewhere |
| PackageDiff.PackageMatcher.CheckAllAdded | conary/trove.py:2634-2686 | in the order in which the added troves are taken, each is matched exactly if path hashes name one partner for it at its turn, and delayed exactly if they name only troves outside the lists |
| PackageDiff.PackageMatcher.DelayedRemoves | conary/trove.py:2687-2706 | the removed troves delayed are exactly those whose overlaps lie elsewhere, each once |
| PackageDiff.ChooseDelays | conary/trove.py:2891-2913 | delayed troves are left out exactly if the longer list has room for all of them, and never so many that the shorter list cannot be used up |
| Passes.KeptIfEnough | conary/trove.py:2891-2913 | the troves that wait are left out if and only if those that remain can still use up the other list |
| PackageDiff.PackageMatcher.MatchList | conary/trove.py:2852-2930 | lists and dictionaries stay in step; the entries are the matches by path hashes in turn, and then matches by flavor and version among what the longer list does not hold back; a pass that does not insist on flavors makes progress; it raises only over two troves that cannot be told apart |
| Passes.LeftOver | conary/trove.py:2867-2926 | two troves that a pass could have matched and left: the longer list held one back for troves outside, or a match that takes its flavor is at least as good |
| Passes.PassSound | conary/trove.py:2852-2930 | a pass uses nothing twice, and each of its matches is allowed by its flavors and suggested by path hashes or measured apart |
| PackageDiff.PackageMatcher.LabelPass | conary/trove.py:3042-3056 | every match is on one label, on each label the matches are those of a pass over the troves on that label, and it never raises |
| PackageDiff.PackageMatcher.WholePass | conary/trove.py:3058-3082 | the same steps across labels, over everything that is left |
| PackageDiff.PackageMatcher.MatchName | conary/trove.py:3024-3082 | the matches of a name are those of the four passes, each over what the ones before left: compatible flavors label by label, compatible flavors, label by label, the rest; nothing is used twice, every match is sound, and something is matched if anything can be; they raise only over two troves that cannot be told apart |
| DiffPackages.Shortcut | conary/trove.py:2985-3004 | names that are only added, or have one trove on each side, keep the conservation of troves |
| DiffPackages.DiffPackages | conary/trove.py:2975-3094 | if it gets through, the new sides of the entries are exactly the added troves with multiplicity one, the old sides the removed ones, every entry has a side, and each name is paired by the shortcut or well matched by the passes; it raises only over a name with two troves that cannot be told apart, and not over one trove on each side |
| DiffPackages.NothingLost | conary/trove.py:2505-3094 | a trove was added if and only if it is the new side of exactly one entry, and removed if and only if it is the old side of exactly one |
| DiffPackages.ShortcutIsWhatPassesDo | conary/trove.py:2994-3004 | with one trove on each side the passes give the pair of the shortcut if and only if the two share a label, differ in the items of the closeness measure, or overlap; else they raise |
| DiffPackages.ShortcutHidesAnError | conary/trove.py:2994-3004 | two versions that go back and forth between two labels are such troves |
| DiffPackages.RunRaises | conary/trove.py:3024-3082 | a name with two removed troves and an added one over which no result keeps these promises, so that the run raises |
| Passes.ProgressThen | conary/trove.py:3024-3082 | if any trove of a name is on both sides something is matched, and if each side has one flavor, one side is used up |
| TroveJobs.CollectedFromDiff | conary/trove.py:2452-2465 | the dictionaries given to `_diffPackages` hold exactly the troves on one side only |
| TroveJobs.TroveList | conary/trove.py:2449-2474 | the trove list of `diff` has exactly one entry for each trove only in the new trove and for each only in the old, names paired by the shortcut or the passes, or matching raised over two of them |
| Paths.SplitUndoesJoin | conary/trove.py:1885-1887 | splitting a joined path gives back exactly the halves that splitting can produce |
| Paths.JoinAfterSplit | conary/trove.py:3559-3561 | joining a split path takes nothing but slashes away |
| Paths.SplitTakesSlashes | conary/trove.py:1885-1887 | a path is its two halves with nothing but slashes between them, and the second half holds none |
| Framing.TakeHString | conary/lib/ext/pack.py:64-98 | a length-prefixed string is read back, with what follows it |
| FileLists.FreezeFiles | conary/trove.py:3420-3447 | the loop writes the entries in order, and raises exactly if a text is too long for its length field |
| FileLists.FreezeOneBytes | conary/trove.py:3420-3447 | an entry is the 16 bytes of the path id, then path, file id and version, each behind its two-byte length |
| FileLists.ThawFiles | conary/trove.py:3449-3484 | the loop reads what the reading function says; keeping the last version parsed changes nothing |
| FileLists.ReadUndoesFreeze | conary/trove.py:3420-3484 | reading a written list gives its entries back, normalised |
| FileLists.FileListSurvives | conary/trove.py:3420-3484 | a list comes back unchanged if and only if it has no empty path or file id and every path is split as `os.path.split` does |
| FileLists.ThawOldFiles | conary/trove.py:3405-3411 | bytes are cut into pieces of 16, or the assertion fails exactly if they do not come out even |
| FileLists.PathIdsDetermined | conary/trove.py:3402-3411 | only one list of 16-byte path ids gives the same bytes |
| TroveSets.FreezeSet | conary/trove.py:3337-3358 | the bytes are the fields of each name once, names in ascending order, with the same changes in some order, whatever versions they hold |
| TroveSets.FourFields | conary/trove.py:3341-3353 | each change is a sign, a version, a flavor or a hyphen, and a digit for byDefault |
| TroveSets.ThawSet | conary/trove.py:3360-3393 | the index loops read what the reading function says, errors included; changes with an unknown sign are thawed |
| TroveSets.ThawUndoesFreezeSet | conary/trove.py:3337-3393 | thawing gives the dictionary back whatever order it was written in |
| TroveSets.FrozenVersionsAreWireable | conary/trove.py:3341-3372 | with `freeze` and `ThawVersion` every readable version can be sent |
| FileDiff.DiffFiles | conary/trove.py:2396-2466 | the lists hold one entry for each new, changed and old file, and nothing else; a file is changed if its path is another one that is not empty, or its version or file id is; its path, and its version, is told in just these cases |
| FileDiff.NothingTold | conary/trove.py:2285-2304 | the lists are empty if and only if both sides have the same files, but for moves to an empty path |
| FileDiff.ChangeKept | conary/trove.py:1958-2443 | what is said about a file on both sides, replayed on the old one, gives the new one if and only if a changed path is not empty and no file id was lost |
| FileDiff.Replayed | conary/trove.py:2148-2173 | replaying lists in any order adds, updates and removes exactly the files in them |
| FileDiff.ListsApplyExactly | conary/trove.py:2148-2173 | the file loops get through if and only if new entries have ids of the right length, changed files are there or new, and so are the old ones, each once |
| FileDiff.FilesReplayed | conary/trove.py:1958-2173 | replaying a diff never raises, and gives the new files if and only if every path that has to be told is not empty and no file id was lost |
| TroveDiff.TroveSetDiff | conary/trove.py:2351-2375 | the changes list what is needed to get from the old included troves to the new ones, each change once, and nothing else |
| TroveDiff.NothingListed | conary/trove.py:2285-2304 | there are no changes if and only if the included troves are the same |
| TroveDiff.Trove.AddTrove | conary/trove.py:2012-2034 | puts the trove into one dictionary, or reports the duplicate and changes nothing |
| TroveDiff.Trove.DelTrove | conary/trove.py:2036-2059 | takes the trove out of one dictionary, and reports a missing one unless that is allowed |
| TroveDiff.Trove.MergeTroveListChanges | conary/trove.py:2245-2283 | the changes are applied one after the other, strong ones first, up to the first that raises, which is what is raised |
| TroveDiff.AppliesExactly | conary/trove.py:2245-2283 | changes to different troves go through in any order if and only if no sign is unknown and, unless redundant ones are allowed, none adds what is there or removes what is not; then each is made and all other troves stay |
| TroveDiff.DiffApplies | conary/trove.py:2245-2283 | the changes of a diff, in any order, lead from the old included troves to the new ones |
| TroveDiff.MergedDiff | conary/trove.py:2245-2283 | merging a diff never raises |
| TroveDiff.Trove.Diff | conary/trove.py:2310-2448 | files, strong and weak references of the change set are exactly the differences |
| TroveDiff.NothingSaid | conary/trove.py:2285-2304 | the change set is empty if and only if the troves have the same files and included troves, but for moves to an empty path |
| TroveDiff.Trove.ApplyChangeSet | conary/trove.py:2120-2243 | files and then references are replayed in place, with every way it can raise |
| TroveDiff.DiffRebuilds | conary/trove.py:2120-2448 | a diff applied to a copy of the old trove rebuilds the included troves, and the files exactly if they are told in full; only the last assertion can fail, exactly if the new trove has files and strong and no weak references |
| ChangeSets.ThawUndoesFreeze | conary/trove.py:3333-3484 | a frozen change set thaws to its lists, normalised, and its trove changes in some order |
| ChangeSets.SendAndApply | conary/trove.py:2120-2448 | the whole trip through bytes, as long as what is said of new and changed files fits: the copy gets the references and path ids of the new trove, and its files exactly if they are told in full; the last assertion fails exactly if the new trove has files and strong and no weak references |
| Sorting.SortedIsUnique | conary/streams.py:488-501 | a set has only one sorted list |
| Streams.ReadUndoesPack | conary/streams.py:488-518 | thawing packed items gives their set |
| Streams.ItemBytes | conary/streams.py:501 | an entry is its type, the two-byte length of its text, and the text |
| Streams.HeaderBytes | conary/streams.py:553 | a diff starts with the number of removals and that of additions, two bytes each |
| Streams.FreezeIsCanonical | conary/streams.py:480-502 | two collections freeze to the same bytes if and only if they hold the same items |
| Streams.MergeUndoesDiff | conary/streams.py:535-578 | decoding a diff, removals first, turns what it was made against into what it was made from |
| Streams.MergesExactly | conary/streams.py:564-578 | any removals and additions can be merged if and only if all that is to be removed is there; then that is taken out and the other put in, else it is a key error |
| StreamCollections.StreamCollection.Thaw | conary/streams.py:508-518 | the bytes become the same items, or stay if they cannot be read |
| StreamCollections.StreamCollection.Freeze | conary/streams.py:480-502 | frozen bytes as they are, else the items packed, types in ascending order and the streams of a type in their own; the items stay |
| StreamCollections.StreamCollection.AddStream | conary/streams.py:520-522 | the item is in, and no bytes from before are kept |
| StreamCollections.StreamCollection.DelStream | conary/streams.py:524-525 | the item is out and no bytes from before are kept, or it was missing |
| StreamCollections.StreamCollection.Equals | conary/streams.py:469-475 | it is never true for different items, and false for equal ones only if both hold bytes that are not all such as `freeze` makes; it fails exactly if items are needed that cannot be read; both collections keep their items |
| StreamCollections.StreamCollection.Diff | conary/streams.py:535-562 | nothing for equal items or equal bytes, else the bytes of the difference unless it is too big; bytes that cannot be read raise |
| StreamCollections.StreamCollection.Twm | conary/streams.py:564-578 | the items after the merge, or the error of the comparison, of the entry that fails or of reading the bytes, which a diff of nothing does not do |
| StreamCollections.Replay | conary/streams.py:535-578 | `other.twm(self.diff(other), other)` leaves `other` equal to `self` unless one cannot be read or the difference exceeds the 16-bit bounds |
| StreamCollections.BytesToldApart | conary/streams.py:469-475 | bytes that `freeze` would not make can hold equal items and differ |
| StreamCollections.BytesSpeakIfFrozen | conary/streams.py:469-502 | comparing bytes says what comparing items says, against everything `freeze` makes, if and only if `freeze` makes those bytes of what they hold |
| TroveRefs.Freeze | conary/trove.py:1381-1408 | one entry for each reference, in ascending order of their bytes, or an error exactly if one is too long |
| TroveRefs.EntryBytes | conary/trove.py:1381-1406 | an entry holds its own size, then name, version and flavor, each behind its length, and one byte for byDefault |
| Sorting.TextLessIs | conary/trove.py:1406 | texts are ordered by the first character that differs, and a text comes before those it starts |
| TroveRefs.EntryDetermined | conary/trove.py:1398-1406 | an entry determines its reference |
| TroveRefs.FreezeDetermines | conary/trove.py:1381-1408 | two maps of references freeze to the same bytes if and only if they are equal |
| Signatures.LongToMpi | conary/trove.py:358-369 | a bit count, of which 16 bits are kept, and the big-endian bytes |
| Signatures.MpiToLong | conary/trove.py:338-356 | reading words first and bytes after gives the big-endian value, or an error exactly for the wrong length |
| Signatures.BytesForBits | conary/trove.py:338-369 | the length computed from the bit count is that of the bytes |
| Signatures.BitsAreLeast | conary/trove.py:358-369 | the bit count of an integer is the least that holds it |
| Signatures.BigEndianAt | conary/trove.py:358-369 | each byte is that digit of the integer to the base 256, the highest first |
| Signatures.MpiBytes | conary/trove.py:358-369 | an integer is two bytes of its bit count, the high one first, and its bytes |
| Signatures.SetValue | conary/trove.py:371-378 | what `set` stores, up to 255 integers |
| Signatures.SetBytes | conary/trove.py:371-378 | the number of integers comes first, in one byte |
| Signatures.GetValue | conary/trove.py:380-397 | what `get` returns for any data, cut-off data included |
| Signatures.GetUndoesSet | conary/trove.py:371-397 | `get` returns what `set` was given if and only if no integer has more than 65535 bits |
| Signatures.GetOfCutOff | conary/trove.py:380-397 | if integers are missing at the end, `get` returns zeros for them; if all are, it fails |
| StateFile.InfoRoundTrip | conary/state.py:38-71 | the flags of a file are read back from their text |
| StateFile.InfoTexts | conary/state.py:38-71 | flags are written in one order with slashes between, and an underscore stands for none |
| StateFile.HexRoundTrip | conary/lib/sha1helper.py:82-90 | ids are read back from their hexadecimal form |
| StateFile.HexAt | conary/lib/sha1helper.py:82-90 | each byte is two lower-case digits, the high one first |
| StateFile.DigitsAre | conary/lib/sha1helper.py:82-90 | digits are read in either case |
| StateFile.FileRoundTrip | conary/state.py:177-373 | a file line is read back if and only if the path has only single spaces inside |
| Blanks.JoinUndoesWords | conary/state.py:367 | splitting at blanks and joining with spaces keeps exactly such text |
| Blanks.LinesKeepText | conary/state.py:276-309 | reading lines keeps all of the text |
| StateLines.SourceState.Write | conary/state.py:146-188 | the lines of the header, the count and the files, each file once in ascending order of path ids, for any state |
| StateLines.SourceState.ReadFileList | conary/state.py:335-371 | the loop reads files as the reading function says, with the error the fields raise first |
| StateLines.ParseLines | conary/state.py:394-422 | deleting lines as they are consumed gives what the reading function says, errors included |
| StateLines.SourcesRead | conary/state.py:335-422 | a state is read if and only if its header holds known fields that can be read, none twice, with name, version and branch, ends with the file or a line of one word, and each later line is a file |
| StateLines.HeaderSays | conary/state.py:146-163 | the header names its fields in this order, the last two only if there is something to say |
| StateLines.SourceRoundTrip | conary/state.py:146-422 | a source state is read back if and only if its name and factory are words and its paths have only single spaces inside |
| ConaryStates.WriteState | conary/state.py:75-91 | the text of the state version, the context and the source state, for any state |
| ConaryStates.FirstLineSays | conary/state.py:75-91 | the first line is that of state version 2 |
| ConaryStates.StateRoundTrip | conary/state.py:75-309 | a CONARY file gives back context and source state if and only if there is no context or a stripped line, name and factory are words, and the paths have only single spaces inside |
| ConaryStates.EmptyStateRoundTrip | conary/state.py:276-309 | without a source state it gives back the context, if and only if there is none or it is a stripped line |
| ConaryStates.VersionsComeBack | conary/state.py:345-346 | file versions, the marker for a new one included, come back from their text |
| ConaryStates.FrozenVersionsComeBack | conary/state.py:412-413 | so do the versions of the header, with their time stamps |

## Left out

- Repository calls, output formatting and the early exits of `annotate` for a path that is not in the source trove or not a text file; the history is given as the versions of the current branch and of each parent branch.
- How matching blocks are found: `get_matching_blocks` is any function that keeps its documented promise.
- Annotate.Annotate: a line's file id is taken to change with the version the file last changed in, as the code compares only the latter.
- Time stamps as floating point numbers: frozen stamps are texts, and comparisons use an arbitrary real for each version.
- Version strings relative to a default branch, the caches of parsed versions, static labels, and the sharing of one serial number object between a parsed revision and its template; serial numbers are values in a version.
- PathHashes.PathHashOverlaps: whether two troves share a path hash is given, since hashes are fetched from a repository; joining the hashes of a package's components is not modelled.
- DiffPackages.MatchSets: the dictionaries of `_diffPackages` hold the sets of one name at a time while that name is matched, so sharing between names, which the code does not have, is not modelled.
- Absolute change sets, the list of files needed, change logs, trove info, redirects, provides and requires, integrity checks, troves of other types than normal, and capsule files.
- The `StreamSet` around the streams of a change set, and the caches and interning of strings in the thaw loops except the last version parsed.
- TroveSets.FreezeSet: sorts the changes of a name by any comparison, since the order of versions in Python's `sorted` does not matter for what is read back.
- Stream items are known by their own frozen bytes, and the dictionary of dictionaries is one set of typed items; a stream class is a function from the bytes it reads to the bytes it would write.
- `OrderedStreamCollection`, `StringsStream`, `KeyValueItemsStream`, and `PathHashes`, whose set difference is a simpler case of the stream collection.
- TroveRefs.FreezeDetermines: requires version strings that can be read back, which makes them injective; flavors are their frozen strings.
- State files of version 0 and 1, which need a repository to be converted, are refused.
- Signing and key trust.
- Hexadecimal digits are read by themselves; the leniency of Python's `int` towards signs and blanks is not modelled.
- File systems, prompts, editors and change set files.
