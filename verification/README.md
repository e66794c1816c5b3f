# Verification model of the raisin install and build tool

This project models, in Dafny, the parts of raisin in which correctness depends on many steps fitting together, and
proves what those steps promise.

* **Install tree** (`VersionNames`, `InstallTree`, `InstallWrites`, `InstallRuns`, `VersionOrder`, `InstallTransaction`,
  `InstallCrashes`, `SharedTrees`).
  Package trees live in version directories; a link names the live one, a small file the one a rollback would restore.
  An install stages a hardlink clone of the live tree, extracts packages into it, drops what the archive no longer
  lists, and commits by repointing the link. Every operation is specified on values, and carried out by single
  file-system writes: a directory made, a name linked, written or removed, the link moved. A crash is any prefix of
  those, and `InstallCrashes` says what any prefix of a whole install leaves. `SharedTrees` runs the install on
  directories that share mutable file nodes and logs each write as it makes it: every method is proved to do on the
  shared nodes what the specification does on values, by just the writes it names, which is the isolation between
  versions.
* **Install-event journal** (`Journal`, `EventBuffer`). Several processes record, claim, trim and flush events through
  create, rename and unlink. `Journal` is an interleaved transition system with crashes and a server that acknowledges
  any part of what it stored; `EventBuffer` is the buffer as one process works on it, with what others record meanwhile.
* **Resumable download** (`Download`). A partial file, a side file naming its digest, and a server whose object may
  change between attempts; Range, If-Range, 206 and 416 as in sections 14.2, 13.1.5, 15.3.7 and 15.5.17 of RFC 9110.
  An attempt is a sequence of single writes, and the class `Downloader` makes exactly those.
* **Message codec and generator** (`Codec`, `CodecBuffers`, `Generator`). Two writers and one reader over an inductive
  type of scalars, strings, vectors, fixed arrays and nested messages, with 32-bit lengths that wrap around as the
  C++ code's do; the buffer-level code that appends, writes in place and reads; and the generator that turns a field's
  type text into a member and a `getSize` statement.
* **Build order and work lists** (`DependencyOrder`, `DependencyLimit`, `BuildSelection`, `InstallQueue`). The in-place
  repair of the project list in at most 20 passes and how far those reach, the dependency-closed
  selection, and the install queue.

Each operation that changes state step by step in the original is a method, with its loop, proved equal to a function
of the old state; the properties are lemmas about those functions and about all runs of them.

## Assumptions

* Installers do not overlap on the install tree: the file lock around an install does its job.
* Generations stay below 10000, and versions and package names are ones that `safe_component` accepts, without a line
  break; `VersionNames` shows that exactly then a directory name gives its version back. `SharedTrees` keeps generations
  distinct as part of its class invariant.
* "No abandoned staging, no commit of anything but a fresh staging" is the hypothesis of the run theorems of
  `InstallRuns`; the lemmas under "Where the limits are" there show, as equivalences, what happens without it. Installs
  one after the other meet it by themselves (`InstallTransaction.InstallsFromNothing`). The crash theorem of
  `InstallCrashes` does not ask for it.
* A change of one name, of the link, or of a small file's length or content is atomic and happens in program order; in
  which order a directory lists its names is arbitrary.
* The digest is an arbitrary function; where prefixes are compared it is collision-free. The server of the splice
  theorems honours If-Range; whether it has to announce its object's digest is decided by
  `Download.SafeExactlyWithoutOrphan`. The other download results hold for any server.
* Each event id is new, and the server's acknowledged ids, where they are ids of this journal, are ids it has stored.
* Lengths are written little-endian, `sizeof(bool)` is 1, and `std::array` sizes and C++ overloads mean what the C++
  standard says.

## Where the code and its documentation differ

* `move_key_before` is documented as placing a key before another; the code places it right behind its dependency.
  The model follows the code.
* `topological_sort` is documented as returning dependency order or reporting a cycle; for a two-cycle it returns the
  unsorted list (`TwoCycleReturnsUnsorted`), and an acyclic chain of 20 edges can be reported as a cycle
  (`LongChainsAreReported`). What it returns meets its documentation exactly on acyclic graphs.
* A message class whose bare name is a C++ type name (`float`, say) is treated by `build_sequence_size_entry` as that
  type. `EntryIsRightExactlyWithoutCollision` gives the exact condition.
* `flush_install_events` documents `drained` as true only when the queue is empty afterwards; when no file of the
  directory can be read as an event it reports `drained` with those files left (`UnreadableIsNotListed`). The flag means
  an empty directory if and only if the directory is not of that kind (`FlushInstallEvents`).
* `_attempt_download` discards partials it cannot validate so as not to splice two objects. A crash between the two
  unlinks of a discard leaves a side file without a partial, and an answer that announces no digest then grows a partial
  under it: a concrete run is `UnannouncedDigestCanSplice`, the exact condition `SafeExactlyWithoutOrphan`.
* `safe_component` is documented as refusing what cannot name a directory; it accepts a version with a line break,
  which the directory's name does not give back (`LineBreakAtTheEndIsLost`), and the single dot, which names no
  directory of its own (`AcceptedExactly`).
* Two packages of one name in an archive: the completeness check can pass although the directory holds the failed one
  (`FailureHidden`). `CheckMeansArrivedExactly` says for which names and filters the check means what it is for. The
  contents theorems ask for distinct names.

## Model

| member | source | states |
|---|---|---|
| VersionNames.NamesRoundTripExactlyWhenNameable | raisin_ota/install_tree.py:44-71 | A directory name is split into the generation and version it was made from if and only if the generation is below 10000 and the version is non-empty without a line break. |
| VersionNames.NamesAreDistinct | raisin_ota/install_tree.py:332 | Different (generation, version) pairs never share a directory name, whatever they are. |
| VersionNames.AcceptedNamesAreFoundExactlyWithoutLineBreak | raisin_ota/install_tree.py:293-324 | A version that `safe_component` does not refuse is read back from its directory name if and only if it has no line break. |
| VersionNames.LineBreakAtTheEndIsLost | raisin_ota/install_tree.py:44-71 | A version ending in a line break is not refused, and its tree is taken for one of the version without it. |
| VersionNames.LeadsBelowExactly | raisin_ota/install_tree.py:293-324 | From every directory a name leads to one directly below, of that name, if and only if it has no slash and is neither empty nor one of the two dots. |
| VersionNames.AcceptedExactly | raisin_ota/install_tree.py:293-324 | Of the names without a backslash or a null character exactly those are accepted that are not blank and lead to a directory of their own, and the single dot. |
| VersionNames.VersionDirectoryLeadsBelow | raisin_ota/install_tree.py:302-313 | Behind a generation every accepted version makes a directory of its own. |
| InstallTree.Newest | raisin_ota/install_tree.py:87-92 | The last of the directories in generation order: nothing in the set is newer. |
| InstallTree.NextGeneration | raisin_ota/install_tree.py:90-92 | A generation above every generation on disk, staged ones included. |
| InstallRuns.CommitKeepsLink | raisin_ota/install_tree.py:382-411 | After every prefix of the file-system writes of a commit the live link resolves to an existing version directory. |
| InstallRuns.RollbackKeepsLink | raisin_ota/install_tree.py:414-432 | After every prefix of the writes of a rollback the live link resolves to an existing version directory. |
| InstallRuns.CommitResult | raisin_ota/install_tree.py:382-411 | A commit removes the marker, points the link at the resolved directory, moves the rollback pointer to the outgoing tree unless that is the target itself or the session is the one that committed last, and records the session. |
| InstallRuns.RollbackResult | raisin_ota/install_tree.py:414-432 | A rollback makes the previous version live and its generation-wise predecessor the next target, or does nothing when there is no usable previous version. |
| InstallRuns.CommitExactly | raisin_ota/install_tree.py:377-411 | On the disk's fields: a commit fails if and only if no directory has the version's name; else the newest of that name goes live without its marker, and the rollback pointer goes to what the link led to unless that was nothing, the same directory, or the work of the committing session. |
| InstallRuns.RollbackExactly | raisin_ota/install_tree.py:414-432 | On the disk's fields: the link goes to the directory the rollback pointer names, if it is there, and that pointer to the newest of the directories older than that, or to none exactly if there are none. |
| InstallRuns.EnsureExactly | raisin_ota/install_tree.py:132-167 | On the disk's fields: a good link is left alone, a directory in its place becomes the newest version, otherwise the newest version is linked, or a link without any version removed. |
| InstallRuns.StageExactly | raisin_ota/install_tree.py:327-354 | The added directory is newer than all and holds, path by path, what the link leads to, and the marker. |
| InstallRuns.DiscardExactly | raisin_ota/install_tree.py:435-440 | What a discard removes is the newest directory of the version's name, if the link does not lead there, and nothing else. |
| InstallRuns.StagedIsResolved | raisin_ota/install_tree.py:327-354 | A staging takes a new directory, newer than all, touches no other, and is what its version resolves to even if that version is on disk already. |
| InstallRuns.CommitTakesStaged | raisin_ota/install_tree.py:377-396 | Committing a version just staged makes exactly that staged clone live and leaves every other version as it was. |
| InstallRuns.EnsureHeals | raisin_ota/install_tree.py:132-167 | A repair ends with a link to an existing directory unless there is none, keeps every tree, leaves a healthy link alone, and turns a directory in the link's place into the live version. |
| InstallRuns.InterruptedEnsureHeals | raisin_ota/install_tree.py:252-273 | A repair interrupted after any number of its writes loses no tree, and the next repair heals what it left. |
| InstallRuns.OpKeepsRunInv | raisin_ota/install_tree.py:327-469 | Every operation, used on fresh stagings and without an abandoned one, keeps: link to a committed directory, rollback target committed and older than the live tree, only the newest directory staged. |
| InstallRuns.RunsKeepTargetOlder | raisin_ota/install_tree.py:382-440 | Over any run of such operations the rollback target is older than the live tree at every step boundary, and the live tree is not a staged one. |
| InstallRuns.InterruptedInDirectories | raisin_ota/install_tree.py:327-374 | Interrupted after any number of the single writes that carry out a staging, an edit, a discard or a pruning, only the directories it is about can differ, and link, live tree and rollback target, with their contents, are what they were. |
| InstallRuns.InterruptedAnywhere | raisin_ota/install_tree.py:327-469 | Interrupted after any number of the single writes of any operation, the link is on a directory, and live is the tree that was, or the one the finished operation makes live, with the contents it has then. |
| InstallRuns.WritesCarryOut | raisin_ota/install_tree.py:327-469 | Those single writes, in whatever order names and directories are listed, do what the operation does. |
| InstallRuns.CommitUpTo | raisin_ota/install_tree.py:382-411 | After any number of a commit's writes: the marker goes with the first, the link moves with the second, the rollback pointer and the session change only after it. |
| InstallRuns.RollbackUpTo | raisin_ota/install_tree.py:414-432 | After any number of a rollback's writes no directory has changed, and the link moves with the first. |
| InstallRuns.DirectoriesOnly | raisin_ota/install_tree.py:435-469 | Staging, editing, discarding and pruning change nothing but the directories they are about. |
| InstallRuns.RollbackDescends | raisin_ota/install_tree.py:414-432 | A rollback goes to a strictly older tree and changes the contents of none. |
| InstallRuns.RollbacksEnd | raisin_ota/install_tree.py:414-432 | Successive rollbacks descend strictly in generation and end, after at most as many as the live generation, with nothing to restore. |
| InstallRuns.AttemptStep | raisin_ota/install_tree.py:382-411 | Each step of an attempt that commits under one session keeps the rollback pointer on the tree live before its first commit, with that tree's contents unchanged. |
| InstallRuns.AttemptRun | raisin_ota/install_tree.py:382-411 | The same over any number of stagings, edits, commits, discards and prunes of the attempt. |
| InstallRuns.RollbackRestoresPreAttempt | raisin_ota/install_tree.py:382-432 | However often an attempt commits, a rollback afterwards restores the tree that was live before it, contents included. |
| InstallRuns.UndoneExactlyWithoutOwnWork | raisin_ota/install_tree.py:407-409 | A rollback after a commit restores the tree live before that commit if and only if the committing session is not the one that committed last. |
| InstallRuns.RecommitForgetsTheStart | raisin_ota/install_tree.py:407-411 | After commit, rollback, another staging and a second commit, a rollback restores the tree the attempt started from if and only if the second commit is not by the same session. |
| InstallRuns.NextRollbackTakesAStagingExactly | raisin_ota/install_tree.py:424-429 | On any disk, two rollbacks end on the directory below the first restored version, which is a staged tree if and only if it is an abandoned staging. |
| InstallRuns.AbandonedStagingGoesLive | raisin_ota/install_tree.py:424-429 | A staging lost to a crash, followed by two stagings committed by two sessions, goes live, still staged, with the second rollback. |
| InstallRuns.RepairTakesAStagingExactly | raisin_ota/install_tree.py:127-129 | Recovering a lost link ends on a staged tree if and only if the newest directory is one. |
| InstallRuns.TopSize | raisin_ota/install_tree.py:464 | At most `keep` versions have fewer than `keep` newer ones. |
| InstallRuns.PruneSize | raisin_ota/install_tree.py:443-469 | At most max(1, keep) + 2 directories are left. |
| InstallRuns.PruneResult | raisin_ota/install_tree.py:443-469 | Pruning keeps, unchanged, exactly the live tree, the rollback target and the max(1, keep) newest committed trees; no unprotected staging is left, and link and target resolve as before. |
| InstallRuns.PruneExactly | raisin_ota/install_tree.py:443-469 | On the disk's fields: a directory goes if and only if neither link nor pointer names it and it is a marked one or has at least `keep`, and at least one, newer directories that are no abandoned stagings. |
| InstallRuns.NewestCommittedSurvives | raisin_ota/install_tree.py:464-469 | The newest committed tree survives every pruning, whatever `keep` is, with what it holds. |
| InstallWrites.StageResult | raisin_ota/install_tree.py:327-354 | Making the directory, linking every name of the live tree in any order and writing the marker is the specified staging. |
| InstallWrites.DiscardResult | raisin_ota/install_tree.py:435-440 | Removing the names of the resolved directory in any order and then the directory, unless it is live, is the specified discard. |
| InstallWrites.PruneCarriedOut | raisin_ota/install_tree.py:443-469 | Removing the surplus directories name by name, in any order, is the specified pruning. |
| InstallWrites.InterruptedInside | raisin_ota/install_tree.py:327-374 | However far a sequence of writes inside some directories gets, nothing but those directories differs. |
| VersionOrder.NewestOf | raisin_ota/install_tree.py:127-129 | The loop finds a newest version. |
| VersionOrder.OldestFirst | raisin_ota/install_tree.py:74-87 | All version directories, each once, oldest generation first. |
| VersionOrder.BeforeIt | raisin_ota/install_tree.py:424-429 | The entry before a version in that order is its predecessor; the first has none. |
| VersionOrder.OneBefore | raisin_ota/install_tree.py:424-429 | In generation order the element before an index is the newest older directory. |
| VersionOrder.NextGen | raisin_ota/install_tree.py:90-92 | One above the last generation in the order, 1 on an empty disk. |
| VersionOrder.Rank | raisin_ota/install_tree.py:464 | In an oldest-first order the number of newer entries is what remains behind a position. |
| VersionOrder.SurvivingAreOrdered | raisin_ota/install_tree.py:456-462 | The list of committed directories holds exactly the entries that were not removed, still oldest first. |
| VersionOrder.PrunedIs | raisin_ota/install_tree.py:456-469 | Removing unprotected stagings and then all but the last max(1, keep) of the list, unless protected, is the pruning described by rank. |
| SharedTrees.Release.OneDirectory | raisin_ota/install_tree.py:361-374 | Exchanging one directory while no existing node is written changes that tree only, although nodes are shared. |
| SharedTrees.Release.Put | raisin_ota/client.py:2854-2861 | One logged write: a new name gets a fresh node, a name that is there writes the node it has; either way the disk of values changes at that path of that tree only. |
| SharedTrees.Release.CloneTree | raisin_ota/install_tree.py:288-290 | Link by link, in whatever order, until the new directory has the other one's own nodes; the log has one link for each name. |
| SharedTrees.Release.StageVersion | raisin_ota/install_tree.py:327-354 | Makes the new directory with the live tree's own nodes plus the marker by the logged single writes of a staging, writes to no existing node's content, and on the disk's values is exactly the specified staging. |
| SharedTrees.Release.RemoveBelow | raisin_ota/install_tree.py:361-374 | Every name below the directory is removed, one logged write each; no node is written. |
| SharedTrees.Release.WriteBelow | raisin_ota/client.py:2857-2861 | A file written below a cleared directory is emptied and written as two logged writes to a node that has no other name anywhere. |
| SharedTrees.Release.ExtractAll | raisin_ota/client.py:2857-2861 | The loop over the archive's members writes only nodes of its own and logs exactly the writes of the member list. |
| SharedTrees.Release.Extract | raisin_ota/client.py:2843-2869 | Extracting a package into a staged hardlink clone modifies no node that existed before, changes one tree to what the specification says, and makes exactly the specified single writes. |
| SharedTrees.Release.WriteWithoutClearing | raisin_ota/install_tree.py:364-367 | Without clearing first, a write to a cloned name changes the live tree's file. |
| SharedTrees.Release.DropPackages | raisin_ota/client.py:3358-3401 | The loop over the staged directory's entries removes, name by name, exactly the files of archive-installed, unlisted packages of this platform and build, and writes to no node. |
| SharedTrees.Release.ResolveDir | raisin_ota/install_tree.py:377-379 | The last match in generation order is the directory a version resolves to. |
| SharedTrees.Release.CommitVersion | raisin_ota/install_tree.py:382-411 | The step-by-step commit makes exactly the specified sequence of writes, in order, and returns what it makes live. |
| SharedTrees.Release.RollBack | raisin_ota/install_tree.py:414-432 | The step-by-step rollback restores the previous version, finds the next target by position, and makes exactly the specified writes. |
| SharedTrees.Release.DiscardStaging | raisin_ota/install_tree.py:435-440 | Removes the directory the version resolves to, name by name, unless it is live. |
| SharedTrees.Release.EnsureTree | raisin_ota/install_tree.py:132-167 | Repairs the link by exactly the specified writes, creating and writing no file node. |
| SharedTrees.Release.MigrateLegacyTree | raisin_ota/install_tree.py:252-273 | A directory in the link's place becomes the newest version, nodes and all, and goes live. |
| SharedTrees.Release.RemoveAbandoned | raisin_ota/install_tree.py:456-462 | The first loop removes exactly the unprotected stagings and collects the rest in order. |
| SharedTrees.Release.RemoveSurplus | raisin_ota/install_tree.py:464-469 | The second loop leaves exactly what pruning by rank leaves. |
| SharedTrees.Release.PruneVersions | raisin_ota/install_tree.py:443-469 | The two loops together are the specified pruning, and log the removal of each surplus directory, once, name by name. |
| SharedTrees.Release.FetchPackages | raisin_ota/client.py:3599-3665 | The download loop leaves the staged tree and the result names that the specification computes, and makes the writes it says, package by package. |
| SharedTrees.Release.UnusablePackages | raisin_ota/client.py:620-635 | The requested packages with nothing in their directory of the live tree. |
| SharedTrees.Release.DownloadAll | raisin_ota/client.py:3589-3769 | The whole install, on directories that share nodes, returns and leaves what the transaction on values does, logs exactly the single writes that `InstallCrashes.InterruptedInstall` speaks about, and changes the content of no file node that existed before. |
| InstallTransaction.IncompleteChangesNothing | raisin_ota/client.py:3667-3683 | When a requested package is missing, the disk is left exactly as the repair at the start left it. |
| InstallTransaction.CommitSucceeds | raisin_ota/client.py:3693-3715 | The commit of the version just staged never fails. |
| InstallTransaction.SwitchedResult | raisin_ota/client.py:3694-3718 | Right after the commit the staged tree, without its marker, is live, every earlier version is as it was, and the rollback pointer is the outgoing tree unless the session committed last. |
| InstallTransaction.ResultMeansLive | raisin_ota/client.py:3589-3769 | A non-empty result means the link points at the tree just staged, every requested package is usable in it, and every other tree left is unchanged. |
| InstallTransaction.UnhealthyIsTakenBack | raisin_ota/client.py:3720-3752 | A failed check under a session that did not commit last puts back the tree that was live at the start, contents included. |
| InstallTransaction.ExtractIsLocal | raisin_ota/client.py:2854-2869 | An extraction decides every path of its package directory and no other. |
| InstallTransaction.FetchedElsewhere | raisin_ota/client.py:3599-3665 | The download loop leaves every path alone that no delivered package covers. |
| InstallTransaction.FetchedThere | raisin_ota/client.py:3599-3665 | A package's directory holds exactly what the last package delivered under that name brings. |
| InstallTransaction.ResultsWereInstalled | raisin_ota/client.py:3650-3661 | A name is in the results only if a package of that name was wanted, delivered and unpacked whole. |
| InstallTransaction.InstalledContents | raisin_ota/client.py:3358-3407 | After a successful unfiltered install, path by path: listed packages hold what they brought, unlisted archive packages of this platform and build are gone, everything else is as in the previous live tree. |
| InstallTransaction.UnlistedPackages | raisin_ota/client.py:3358-3401 | After an unfiltered install, by what the live tree held under a name outside the archive: without archive metadata in this slot every path of that name is as it was; with it nothing is left in this slot and everything elsewhere is as it was. |
| InstallTransaction.OutsidePackages | raisin_ota/client.py:3376-3380 | Whatever is in no package's directory of this platform and build is as it was after any install. |
| InstallTransaction.FilteredContents | raisin_ota/client.py:3599-3690 | A filtered install removes nothing: names outside the filter are as they were, the others hold what the last package delivered under them brings. |
| InstallTransaction.BroughtExactly | raisin_ota/client.py:2854-2869 | What a package brings: the archive metadata if all of it came out and the metadata could be written, of the files of one name the last, and nothing else. |
| InstallTransaction.NextArchiveDrops | raisin_ota/client.py:3384-3401 | What one archive brought and recorded is gone after the next unfiltered install of an archive that does not list it. |
| InstallTransaction.NothingUnlistedRemains | raisin_ota/client.py:3384-3401 | No archive-sourced package outside the archive's list is left for this platform and build. |
| InstallTransaction.NothingMissingExactly | raisin_ota/client.py:3667-3683 | In an unfiltered install of distinct names the completeness check passes if and only if every named package has an id and was delivered and unpacked whole. |
| InstallTransaction.UsableExactly | raisin_ota/client.py:620-635 | In the finished tree a listed package passes the usability check if and only if it brought a file or its metadata. |
| InstallTransaction.InstallsExactlyWhenComplete | raisin_ota/client.py:3589-3769 | An unfiltered install of distinctly named packages succeeds if and only if every named package can be had whole and leaves something in its directory. |
| InstallTransaction.CheckMeansArrivedExactly | raisin_ota/client.py:3600-3683 | For any list of names and any filter: the completeness check passes exactly when everything asked for arrived whole, whatever becomes of the packages, if and only if the names asked for are distinct or one of them is not in the list. |
| InstallTransaction.FailureHidden | raisin_ota/client.py:3600-3665 | Where a name asked for occurs twice, the check passes although the second package of that name did not arrive whole. |
| InstallTransaction.InstallKeepsRest | raisin_ota/client.py:3589-3769 | From a disk with nothing staged and the link on a version newer than the rollback target, or from an empty one, an install, however it ends, leaves such a disk. |
| InstallTransaction.InstallsFromNothing | raisin_ota/client.py:3589-3769 | After any number of installs on an empty disk there is no version yet, or the run invariant holds: a live committed tree, an older rollback target, nothing staged. |
| InstallCrashes.ExtractResult | raisin_ota/client.py:2843-2869 | Removing the names below the package's directory in any order, then writing each file and the metadata, is the specified extraction. |
| InstallCrashes.FetchResult | raisin_ota/client.py:3599-3665 | The single writes of the download loop make of the staged tree what the specification computes. |
| InstallCrashes.InstallCarriedOut | raisin_ota/client.py:3589-3769 | The single writes of an install, in any order of listing, lead to the disk the transaction specifies. |
| InstallCrashes.InstallsHaveOrders | raisin_ota/client.py:3589-3769 | For every disk and request there are such orders, so the theorems about them speak of every install. |
| InstallCrashes.InterruptedInstall | raisin_ota/client.py:3589-3769 | A crash after any number of those writes: up to the commit nothing but the staged directory differs from the repaired disk; later every version that is not pruned is as it was, and live is the tree of the start, or the finished one, or, while a session that committed last is rolled back, the one before; the link is on a directory throughout if it was at the start. |
| Journal.InvKept | raisin_ota/client.py:674-792 | Every step of every process (claim, write, fail, give back, trim, post, forget, crash, retire) keeps the journal's invariants. |
| Journal.InvThroughout | raisin_ota/client.py:674-1113 | They hold in every state of every interleaving. |
| Journal.EventsAreConserved | raisin_ota/client.py:758-769 | In every run every event ever recorded is on disk unchanged, acknowledged and stored by the server, or dropped by a trim when as many later events as the buffer may hold had been recorded. |
| Journal.DroppedOnlyAtTheCeiling | raisin_ota/client.py:718-747 | In every reachable state, whatever was dropped or is about to be has MAX_BUFFERED later events on record. |
| Journal.SaidAtMostOnce | raisin_ota/client.py:776-792 | While a session is not retired it has at most one `started` and at most one terminal event, over all interleavings, crashes and given-back claims. |
| Journal.EndsAtMostOnce | raisin_ota/client.py:114 | Two recorded events of one session that is not retired are the same one if both are of the kinds succeeded, failed, rolled back. |
| Journal.StartsAtMostOnce | raisin_ota/client.py:776-792 | Two recorded `started` events of one session that is not retired are the same one. |
| Journal.RepeatableExactly | raisin_ota/client.py:889-892 | A session can record two events of one kind one after the other if and only if the kind neither starts nor ends it. |
| Journal.RetiredSessionsRepeat | raisin_ota/client.py:460-500 | "Not retired" cannot be dropped: after its directory was removed a session can start a second time. |
| Journal.FailedWriteLeavesNothing | raisin_ota/client.py:776-792 | A write that fails and gives its claim back leaves the state it began in, so it can be repeated. |
| Journal.OneEventIsDelivered | raisin_ota/client.py:1046-1104 | An event can be recorded, posted, stored, acknowledged and forgotten, and nothing of it is left on disk. |
| Journal.TrimIsPossible | raisin_ota/client.py:718-747 | An idle process that reads more than the ceiling can begin to drop exactly all but the newest of them, |
| Journal.TrimRunsToTheEnd | raisin_ota/client.py:742-747 | and a trim left to itself unlinks all it set out to, in as many steps, and ends. |
| Journal.UnlinksOnlyPending | raisin_ota/client.py:1089-1097 | A process unlinks only what it read in its own listing. |
| Journal.PendingShrinks | raisin_ota/client.py:1095-1098 | Only a new listing adds to what a process may unlink. |
| Journal.NewEventIsNotPending | raisin_ota/client.py:758-769 | An event just recorded is in nobody's listing. |
| Journal.LaterEventsAreSpared | raisin_ota/client.py:1089-1098 | A flush or trim never unlinks an event recorded after its listing. |
| EventBuffer.ListingIsUnique | raisin_ota/client.py:674-691 | A directory has exactly one oldest-first list of its readable events. |
| EventBuffer.ListingWithoutOldest | raisin_ota/client.py:742-747 | Unlinking the first k of the list leaves the rest of it. |
| EventBuffer.NewestSurvives | raisin_ota/client.py:758-769 | An event later than all others survives the trim that follows its recording. |
| EventBuffer.TrimLeaves | raisin_ota/client.py:718-747 | A trim leaves as many events as there were, or 1000 if there were more. |
| EventBuffer.TrimKeepsUnreadable | raisin_ota/client.py:736-747 | A trim leaves every file that cannot be read as an event. |
| EventBuffer.TrimDropsByAge | raisin_ota/client.py:742-747 | No event is dropped that is younger than one that stays. |
| EventBuffer.AckedByExactly | raisin_ota/client.py:1076-1082 | The ids acknowledged in the first rounds are those in any of their replies. |
| EventBuffer.CooperationDrains | raisin_ota/client.py:1046-1104 | If in every round in which something is left the server acknowledges some of it, a flush ends as sent with everything acknowledged. |
| EventBuffer.ListsNothingExactly | raisin_ota/client.py:674-691 | The list is empty if and only if no file of the directory can be read as an event. |
| EventBuffer.UnreadableIsNotListed | raisin_ota/client.py:674-691 | A directory with one unreadable file lists nothing. |
| EventBuffer.EventBuffer.BufferedEvents | raisin_ota/client.py:674-691 | The loop over the sorted names gives that list; unreadable files are skipped and kept. |
| EventBuffer.EventBuffer.TrimInstallEvents | raisin_ota/client.py:718-747 | The newest events up to the ceiling stay, and everything unreadable. |
| EventBuffer.EventBuffer.AppendInstallEvent | raisin_ota/client.py:758-769 | A written event is added and the buffer trimmed; a failed write changes nothing. |
| EventBuffer.EventBuffer.Exchange | raisin_ota/client.py:1088-1098 | One exchange forgets exactly what was listed and acknowledged, and nothing that arrived meanwhile. |
| EventBuffer.EventBuffer.FlushRounds | raisin_ota/client.py:1046-1104 | The loop ends within as many rounds as there were events, and for the reason it gives: everything acknowledged; the last reply was none of acknowledgements; or it acknowledged nothing that was left. Every earlier round acknowledged something. |
| EventBuffer.EventBuffer.FlushInstallEvents | raisin_ota/client.py:1021-1113 | What is on disk afterwards is everything there was and everything that arrived, without what was listed and acknowledged; the reason is the true one, and `sent`, with every listed event gone, against a server that acknowledges something in every round; `drained` means an empty directory if and only if the directory did not hold unreadable files only. |
| Download.BodyResult | raisin_ota/client.py:2614-2651 | After the body the partial holds exactly the bytes the running digest was fed: the re-read prefix, then every chunk. |
| Download.AnsweredShape | raisin_ota/client.py:2605-2667 | An attempt renames only if it succeeds, and then only content that passed the length and digest checks. |
| Download.SuccessResult | raisin_ota/client.py:2639-2667 | A successful attempt leaves at the final path the content whose digest was announced, if one was, at least as long as announced, and no partial or side file. |
| Download.DoneExactly | raisin_ota/client.py:2562-2668 | An attempt succeeds if and only if the deciding answer has no error status, begins where it was asked to, fits on the disk, is not cut, is at least as long as announced and has the announced digest; what is then at the final path is the resumed prefix with the body. |
| Download.RefusalLeaves | raisin_ota/client.py:2602-2612 | Without an answer, or with an error status, the attempt fails with just that and leaves a resumable partial as it was. |
| Download.WrongStartLeaves | raisin_ota/client.py:2621-2630 | A body that begins elsewhere fails the attempt as a broken connection, and the partial goes. |
| Download.NoRoomLeaves | raisin_ota/client.py:2614-2638 | An announced length that does not fit fails the attempt before anything is received; a partial goes only if a whole body was to replace it. |
| Download.ShortBodyLeaves | raisin_ota/client.py:2639-2660 | What arrived of a body that breaks off stays, behind the prefix of a 206, under the announced digest. |
| Download.MismatchLeaves | raisin_ota/client.py:2662-2664 | Of a whole body with another digest than announced nothing stays. |
| Download.PartialGrows | raisin_ota/client.py:2562-2595 | Over attempts that are cut off, each goes on where the one before ended. |
| Download.PiecesMakeTheObject | raisin_ota/client.py:2562-2668 | A download that arrives in any number of pieces, cut off after each but the last, ends with the whole object at the final path. |
| Download.FinalIsOldOrVerified | raisin_ota/client.py:2457-2459 | At every crash point, whatever the server sends, the final path holds its old content or fully verified content. |
| Download.AttemptIsSound | raisin_ota/client.py:2562-2668 | Against a server that obeys If-Range, at every crash point of an attempt a non-empty partial with a recorded digest is a prefix of the object with that digest, if the answer announces its digest or no side file is orphaned. |
| Download.SafeExactlyWithoutOrphan | raisin_ota/client.py:2496-2502 | On a sound disk every answer of a server that obeys If-Range, announcing a digest or not, keeps the partial sound at every crash point if and only if there is no side file without a partial. |
| Download.OrphanIsAdopted | raisin_ota/client.py:2496-2502 | With an orphaned side file a silent answer that is cut off puts the bytes of another object under its digest. |
| Download.SuccessDeliversTheObject | raisin_ota/client.py:2662-2667 | Against a server that announces its digest as well, a success delivers its whole object, however many attempts the partial grew over. |
| Download.RunsNeverSplice | raisin_ota/client.py:2473-2502 | The partial-file invariant holds over any sequence of attempts, truncations, crashes and object changes in which a disk with an orphaned side file is met by an announced digest. |
| Download.HonestRunsAreGuarded | raisin_ota/client.py:2473-2502 | A server that always announces its digest meets that condition in every run. |
| Download.RunsStaySafeExactlyWithoutOrphan | raisin_ota/client.py:2496-2502 | After any such run the next attempt is safe from silent answers if and only if no side file is orphaned then. |
| Download.UnannouncedDigestCanSplice | raisin_ota/client.py:2496-2502 | Without announced digests a concrete three-attempt run, with a crash between the two unlinks of a discard, renames a splice of two objects into place. |
| Download.StartingOver | raisin_ota/client.py:2605-2611 | After a 416 the attempt is a fresh one on an empty disk, without a Range, and no answer can send that one back again. |
| Download.RunExists | raisin_ota/client.py:2688-2706 | For every initial disk and sequence of answers there is a run of attempts. |
| Download.RunIsUnique | raisin_ota/client.py:2688-2706 | There is only one: disk and answers determine every state and outcome. |
| Download.RetriedExactly | raisin_ota/client.py:2413-2450 | Another attempt is made after a timeout, a broken connection, a wrong digest or a status from 500 to 599, and after nothing else. |
| Download.CodesTellFailures | raisin_ota/client.py:2426-2445 | Every reported code but `unknown` names exactly one kind of failure. |
| Download.Downloader.DigestOfPrefix | raisin_ota/client.py:2505-2515 | Re-reading the partial feeds the digest exactly its first bytes. |
| Download.Downloader.ReceiveChunks | raisin_ota/client.py:2646-2651 | The chunk loop appends every chunk, feeds every chunk, and counts the bytes received. |
| Download.Downloader.AttemptDownload | raisin_ota/client.py:2553-2667 | The attempt makes exactly the specified writes in order and ends as specified. |
| Download.Downloader.DownloadToPath | raisin_ota/client.py:2670-2706 | Attempts go on only after retryable failures and at most `max_attempts` times; success means the last attempt left verified content at the final path, failure reports the class of the last one. |
| Codec.RoundTrip | templates/raisin_serialization_base.hpp:200-289 | For every type and every value whose lengths fit in 32 bits, reading what either writer wrote, followed by anything, gives the value back and stops at what follows. |
| Codec.LengthOnTheWire | templates/raisin_serialization_base.hpp:23-35 | A length is four bytes, the least significant one first. |
| Codec.LeavesOnTheWire | templates/raisin_serialization_base.hpp:23-102 | A scalar is its bytes, a flag one byte 0 or 1, a string or a vector its length and what is in it. |
| Codec.ElementsOnTheWire | templates/raisin_serialization_base.hpp:53-92 | Elements stand one after the other in order. |
| Codec.MembersOnTheWire | templates/MessageTemplate.hpp:31-38 | So do the members of a message. |
| Codec.OddWideTextRead | templates/raisin_serialization_base.hpp:217-241 | A wide string of a length that is no multiple of its unit loses the rest of it, and the reader goes on behind all of it. |
| Codec.DecodedFits | templates/raisin_serialization_base.hpp:200-289 | Whatever is read is a value of the type whose lengths fit in 32 bits. |
| Codec.RoundTripExactlyWhenFitting | templates/raisin_serialization_base.hpp:23-102 | Exactly the values whose lengths fit in 32 bits survive the trip. |
| Codec.EncodingsAreSelfDelimiting | templates/MessageTemplate.hpp:31-44 | No encoding is the beginning of a different one of the same type. |
| Codec.WritersAgree | templates/raisin_serialization_base.hpp:115-197 | The in-place writer writes the bytes the appending writer appends, for every fitting value. |
| Codec.TextWritersAgreeExactlyWhenFitting | templates/raisin_serialization_base.hpp:31-35 | For strings the two writers agree if and only if the length is below 2^32. |
| Codec.WideTextStopsAtWrappedLength | templates/raisin_serialization_base.hpp:37-51 | Of a wide string both writers write as much as the wrapped length says. |
| Codec.ScalarVectorWritersAgreeExactlyWhenFitting | templates/raisin_serialization_base.hpp:146-157 | For vectors of scalars the two writers agree if and only if the count is below 2^32. |
| Codec.LengthModulo | templates/raisin_serialization_base.hpp:23-197 | Both writers write the full length modulo 2^32, whatever wraps around. |
| CodecBuffers.BulkIsElementwise | templates/raisin_serialization_base.hpp:53-64 | Copying the memory of the first k scalars writes what writing them one by one would. |
| CodecBuffers.BulkReadIsElementwise | templates/raisin_serialization_base.hpp:243-255 | Copying n scalars out reads what reading them one by one would, and needs exactly n widths of bytes. |
| CodecBuffers.ByteVector.Append | templates/raisin_serialization_base.hpp:23-110 | Appends exactly the encoding and keeps what was there. |
| CodecBuffers.ByteVector.AppendVector | templates/raisin_serialization_base.hpp:53-74 | Wrapped count, then the bulk copy or the loop, adds the vector's encoding. |
| CodecBuffers.ByteVector.AppendFlags | templates/raisin_serialization_base.hpp:94-102 | Resizing and filling a vector of bool flag by flag appends its encoding. |
| CodecBuffers.ByteVector.AppendArray | templates/raisin_serialization_base.hpp:76-92 | A fixed array is appended element after element without a length, copied in bulk or in a loop. |
| CodecBuffers.ByteVector.AppendMembers | templates/MessageTemplate.hpp:31-33 | The generated `setBuffer` of a message or of a service half appends its members in declaration order. |
| CodecBuffers.Write | templates/raisin_serialization_base.hpp:115-197 | From any offset the pointer form writes exactly the encoding, advances by its length, and leaves every other byte of the buffer unchanged. |
| CodecBuffers.WriteItems | templates/MessageTemplate.hpp:100-115 | The element loops for vectors and arrays of messages do the same. |
| CodecBuffers.WriteMembers | templates/MessageTemplate.hpp:35-38 | So does the generated pointer form, member by member. |
| CodecBuffers.DecodeLeavesSuffix | templates/raisin_serialization_base.hpp:200-289 | Reading consumes a prefix and leaves a suffix of the input. |
| CodecBuffers.Read | templates/raisin_serialization_base.hpp:200-289 | The moving read pointer ends at the remainder that reading on values leaves, with the same value. |
| CodecBuffers.ReadItems | templates/MessageTemplate.hpp:117-131 | The element loops of the reader read what element-by-element decoding gives. |
| CodecBuffers.ReadMembers | templates/MessageTemplate.hpp:40-44 | The generated `getBuffer` reads the members in declaration order. |
| CodecBuffers.WriteThenRead | templates/MessageTemplate.hpp:35-44 | What was written at an offset of a buffer is read back from there, ending where the writer ended. |
| Generator.QualifiedMeansNothing | commands/setup.py:1091-1128 | The qualified name of a message class is never a C++ name of the type table. |
| Generator.BaseOrQualified | commands/setup.py:1055-1128 | For every type text the element's C++ name is the base name taken from the table or a qualified message name. |
| Generator.PlainShape | commands/setup.py:1118-1128 | A bare name becomes its C++ name in the table, or the message class of the package in front of it, or else of the project. |
| Generator.VectorShape | commands/setup.py:1098-1117 | With empty brackets, or a bound that does not begin with a digit, it becomes a vector of that. |
| Generator.ArrayShape | commands/setup.py:1073-1097 | With a number in brackets it becomes an array of that with that size. |
| Generator.BoundedShape | commands/setup.py:1069-1070 | A bound behind a table name is dropped. |
| Generator.TableNames | commands/constants.py:6-22 | Fifteen names are in the table; which of them are flags, strings and single bytes. |
| Generator.TableWidths | commands/constants.py:6-22 | The table gives a number as many bits as its name says. |
| Generator.EntryFits | commands/setup.py:507-525 | For every type text, unless a message is named like a C++ type, the emitted `getSize` statement is the one the member's type calls for. |
| Generator.AmountIsLength | commands/setup.py:1319-1342 | What a statement adds is the member's encoded length, modulo 2^32. |
| Generator.GetSizeIsLength | templates/MessageTemplate.hpp:50-54 | The generated 32-bit sum is the full length modulo 2^32, through nested messages. |
| Generator.GetSizeIsEncodedLength | templates/MessageTemplate.hpp:50-54 | `getSize` equals the number of bytes either writer writes if and only if that number is below 2^32. |
| Generator.ComputeSize | templates/MessageTemplate.hpp:50-54 | The running `temp +=` statements compute that value. |
| Generator.EntryIsRightExactlyWithoutCollision | commands/setup.py:507-525 | For a positive array length below 2^32 the emitted statement is right for every value if and only if the element's base name is not a C++ type name given to a message. |
| Generator.CollisionCountsWrong | commands/setup.py:515-519 | A sequence of a message class named like a C++ type is miscounted. |
| Generator.MembersConcat | commands/setup.py:1279-1317 | The members of two files of lines one after the other are those of the first and then those of the second. |
| Generator.OtherLinesAddNothing | commands/setup.py:1279-1317 | Taking out a constant, a blank or an ignored line anywhere leaves the members unchanged. |
| Generator.OneMemberEach | commands/setup.py:1279-1317 | There is exactly one member for each line that declares one, in the same order, and the other lines could be left out. |
| Generator.DeclaredMember | commands/setup.py:1289-1300 | A line of two or three words without an equals sign adds, wherever it stands, one member of the type of its first word named by the second; no other line adds any. |
| Generator.DeclaredEmission | commands/setup.py:1289-1360 | For such a line one member is emitted, with the C++ type of that text and that name, between those of the lines before and after it. |
| Generator.StopsExactly | commands/setup.py:1286-1362 | A line stops the generator if and only if it is a single word, has no space where one is needed, or is a constant of a type that is not in the table. |
| Generator.GenerateMembers | commands/setup.py:1279-1362 | The field loop emits for exactly the member lines, defaulted ones included and in order, the transformed type and the size statement, and fails exactly if there is a line of one word or a constant whose type is unknown. |
| Generator.EmittedEntriesFit | commands/setup.py:528-612 | The statements emitted for a message or a service half are those `getSize` is computed from, for every field list without a name collision. |
| DependencyOrder.MoveSettlesPair | commands/setup.py:914-934 | A move puts the key behind its dependency, and does nothing when it already is. |
| DependencyOrder.MoveKeepsElements | commands/setup.py:928-932 | A move keeps the elements, each once. |
| DependencyOrder.MoveKeepsOrder | commands/setup.py:928-934 | A move keeps the order of all other elements, and carries the key only to the right. |
| DependencyOrder.RepairSettles | commands/setup.py:948-952 | After a key's moves it stands behind each of its dependencies. |
| DependencyOrder.PassStep | commands/setup.py:948-952 | A pass keeps in place what was in place up to a height, and settles the next height of what it visits. |
| DependencyOrder.InPlaceAfter | commands/setup.py:946-952 | After pass h every project of height at most h stands behind all its dependencies. |
| DependencyOrder.InPlaceStays | commands/setup.py:946-952 | From then on no pass changes the order of two of them. |
| DependencyOrder.FixpointIsSorted | commands/setup.py:954-955 | On an acyclic graph of any depth a pass ends on the list it began with if and only if that list is sorted: moves never cancel. |
| DependencyOrder.NormalReturnIsSorted | commands/setup.py:954-961 | A normal return is sorted if and only if the graph is acyclic. |
| DependencyOrder.SortingTwiceIsSortingOnce | commands/setup.py:1012-1014 | The second of the two sorts changes nothing. |
| DependencyOrder.ShallowGraphIsSorted | commands/setup.py:946-959 | Without a dependency chain of 20 edges the sort returns within its 20 passes, with a sorted permutation. |
| DependencyOrder.TwoCycleReturnsUnsorted | commands/setup.py:946-959 | A two-cycle comes back unsorted instead of being reported. |
| DependencyOrder.ProjectList.MoveKeyBefore | commands/setup.py:914-934 | The in-place remove and insert is the specified move. |
| DependencyOrder.ProjectList.TopologicalSort | commands/setup.py:937-961 | The loop of passes over the list in place returns normally exactly when the specification does, with its list; sorted if and only if the graph is acyclic. |
| DependencyLimit.VisitsFrom | commands/setup.py:948-952 | On a chain listed with the dependents first, the visits of a pass bring exactly one more project in place. |
| DependencyLimit.PassReachesOneMore | commands/setup.py:946-955 | Each pass over such a list changes it, and lengthens the part in place by one. |
| DependencyLimit.LongChainsAreReported | commands/setup.py:946-959 | A chain listed with the dependents first is sorted if and only if it has fewer than 20 edges; longer ones, though acyclic, are reported as cycles, so the bound of 19 is tight. |
| BuildSelection.Select | commands/setup.py:989-1002 | The queue with its visited set computes the least dependency-closed set containing the matches. |
| BuildSelection.KnownOnly | commands/setup.py:865-867 | Declared dependencies that are no projects are dropped, all others kept. |
| BuildSelection.KeptDistinct | commands/setup.py:1005-1012 | The filtered list names each selected project once. |
| BuildSelection.FilteredKeepsAcyclic | commands/setup.py:1004-1009 | Cutting the graph down to the selection keeps it acyclic. |
| BuildSelection.SortedForFullGraph | commands/setup.py:1004-1014 | Sorted for the cut-down graph is sorted for the full one, for every selected project. |
| BuildSelection.OrderedProjects | commands/setup.py:964-1030 | The emitted list is a permutation of the selection with every dependency in front of its dependents; on an acyclic graph there is one exactly if the sort of the selection returns, and always for chains of at most 19 edges. |
| InstallQueue.SourcePriority | commands/install.py:325-403 | What is installed is taken before local source, that before the server, which is not asked as long as there is a source directory; a bad version, or nothing anywhere, is what leaves a package unresolved. |
| InstallQueue.QueuePathsAppend | commands/install.py:316-317 | The path count of a queue is additive. |
| InstallQueue.NoneIsWider | commands/install.py:316-317 | No release of a package declares more dependency paths than the package is counted with, so the choice of version, which may change from round to round, does not matter. |
| InstallQueue.RoundLowersPaths | commands/install.py:265-403 | Each round, whatever it finds, strictly lowers the number of dependency paths left. |
| InstallQueue.Install | commands/install.py:265-403 | With acyclic declarations, whichever release each round sees, the queue without a visited set ends, within the number of paths; what was looked at is what was wanted and then what each found release declares, in the order of the queue; success means none was unresolved. |
| InstallQueue.CycleNeverDrains | commands/install.py:265-403 | With a group of always-found packages that depend on each other no number of rounds empties the queue. |

## Left out

- Download.Downloader: backoff delays between attempts are not modelled; the clock enters only as whether a partial is too old.
- EventBuffer.EventBuffer.FlushInstallEvents: acknowledged ids are arbitrary, so the size of a batch plays no part there; `Journal` limits a batch to 100.
- Generator.GenerateMembers: file text is taken as lines already split into words; member names are not rewritten to snake case, and include lines and default values are not part of it.
- InstallQueue.Install: an install tree that cannot be used aborts the original's loop; the model's server answer covers every other failure. The archive-wide branch before the loop is `InstallTransaction`.
- InstallTree.Newest: with two directories of one generation the original's order is that of the directory listing; the model picks some newest one.
- InstallTransaction.InstalledContents: a directory is represented if it holds something or came out of an archive as an entry of its own; others that are empty are not, so the removal of emptied parent directories is not either.
- SharedTrees.Release.DownloadAll: events, failure notes, snapshot reports and messages are not part of it; a package's download and the reading of its manifest are inputs.
- SharedTrees.Release.StageVersion: the exception for a refused name, raised before anything is written, is not modelled; an install is taken from the point where its names were accepted.
- SharedTrees.Release.PruneVersions: the returned list of removed names, used for messages only, is not modelled.
- VersionNames.AcceptedNamesAreFoundExactlyWithoutLineBreak: only ASCII white space counts as blank, and only ASCII digits as digits.
- HTTP, authentication, credential rotation, request signing and desired-state fetching: network I/O; the server is only the peer of the journal and the download.
- `raisin_ota/state_lock.py`: mutual exclusion by the kernel, an assumption here.
- File-system calls that fail silently, links an operator placed, files changed by hand, and errors across devices.
- Zip extraction, file modes and symbolic links inside packages: an extraction is the list of files that came out, and whether that was all.
- How a session's directory is found, ages out and remembers its archive; a retired session may report again, which is why "at most once" is stated for sessions not retired.
- Parsing of version specifiers, release files, CMake files and build patterns: matches, dependencies and constraints are inputs.
- Reading past the end of a buffer: the reader does not check; the model's reader has no result there.
- Bytes other than 0 and 1 read as a `bool`: the model reads any non-zero byte as true.
- `MessageInformation` and `SerializedMessage`, the variadic overloads, equality operators and action files: the same members in sequence.
- CMake, Ninja, vcpkg, SDK and git plumbing, and the remaining commands: subprocess calls and text output.
