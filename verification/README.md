# Moving what is left of an extent, and losing nothing

btrealloc reclaims the dead part of a btrfs extent by copying the sectors still
in use into fresh extents and having the kernel point every file that holds the
old extent at the copies, by deduplication, until nothing holds the old extent and
the filesystem frees it. It never writes to a file. This project models what that
rests on, and proves it.

Five parts follow the program's own:

* **The rewrite** (`src/run.rs`): `Disks` is a filesystem as files (a size, an
  mtime and a map from sector to a place in an extent) over extents of bytes;
  `Kernel` is what the calls to the kernel may do; `Planning`, `Redirect`,
  `Tables`, `Rewrite`, `Tails`, `Realloc`, `Release` and `Processing` are the
  program's own loops, from finding the holders and reading the live stretches to
  the final check. `Items` asks a file's items whether it still points into an
  extent; `Sharing` and `Costs` say what a rewrite that went through shares and
  allocates.
* **Searching and walking** (`src/kernel.rs`): `Search` pages through a
  key-ordered tree with a buffer of bounded size, `Tallies` decodes what the extent
  tree says of one extent, `Batches` reads it a batch at a time and `Walk` resolves
  each batch and hands its extents over. The tree may be another one at every
  search, and the subvolumes' trees may change from one extent to the next.
* **Finding every holder** (`src/kernel.rs`): `Cow` is a copy-on-write forest of
  subvolumes, leaves and generations, with `Remembering` on how long a generation
  read from it can be relied on; `References`, `Backreferences`, `Completeness` and
  `Resolve` collect an extent's references by the extent tree's own list, where it
  can be trusted, or by asking the kernel to walk back from the extent; `Stale` is
  what becomes of that trust when a generation relied on is no longer so.
* **One extent** (`src/extent.rs`): `Extents`, from references to live ranges, to
  the bytes a rewrite frees and the files it concerns.
* **The run** (`src/lib.rs`, `src/scan.rs`): `Accounts` is the totals and the
  left-alone table; `Events` what can become of an extent and what that adds up to,
  `Fates` what decides which of it does; `Mounts` joins files and trees: wherever
  rewriting takes the files, the trees describe them (`Layouts` shows that some trees
  do); `Running` is the run itself, over a walk and a mounted filesystem.

`Sectors`, `Sorting`, `Bytes`, `Words`, `Counting` and `Wrappers` hold what the others share.

How the kernel behaves is a parameter. An `Exact` kernel does all it is asked. An
`Honest` one may fail a call or move less than asked, and moves what it reports. A
`Lying` one may report success having moved any of the sectors or none. All three refuse
to dedupe bytes that differ, and a range that is not whole sectors unless both its ends
are the ends of their files. What each call came back with is kept in a ghost log, and
so is what the last search failed with: errors are explained by these, and an honest
kernel in whose log every call is `Fine`, that is, none failed and each dedupe got
somewhere and stopped between sectors or at the end of what was asked, is held to the
same as an exact one. The sector size is any positive number. Reads and searches of an
`Exact` kernel, or of `reliable` trees, always succeed. What a changing tree holds at
each search or turn is given in advance, as a function of how many there were before, so
nothing here can choose it.

The main results:

* a run, whatever the kernel does, leaves every file with its contents, size and
  mtime; if it comes through and was no dry run, nothing in the filesystem refers
  any more to an extent it reports rewritten; those are in ascending order with no
  repeats, each extent the walk came upon has one outcome, and the accounts balance
  (`Running.Run`, `Running.RunBalances`);
* with reliable trees, and a kernel that is exact, or honest and fails none of the
  calls made of it, a run always comes through once it has started, and rewrites
  every extent that is worth it at both looks and has no file standing in its way
  (`Running.Run`, `Fates.RunProgresses`);
* under such a kernel, however short its dedupes stop between sectors, every rewrite
  succeeds that passes the past-end gate, and no other; and under any kernel a rewrite
  that fails does so for what its last calls came to, or because a holder still holds
  the extent (`Release.ReallocExtent`, `Release.PastEndHolds`);
* of all the sectors of all files, two share a place after a rewrite exactly if they
  did before and neither is the part of a sector that its file ends in; no sector of
  any extent a rewrite makes is unused, and there is one for each sector staged and
  one for each tail (`Sharing.SharingExact`, `Release.NoWaste`,
  `Costs.MadeExactly`);
* a walk of a changing tree is in address order and misses nothing its searches
  agree on; of an unchanging tree it is the one list of its extents, wherever its
  searches were cut (`Walk.RunWalk`, `Walk.WalksAgree`);
* the references resolved are all there are, in every tree
  (`Resolve.Trees.Resolve`, `Completeness.ListIsComplete`), and so are those of each
  extent a walk hands over while no subvolume it remembers is snapshotted
  (`Walk.HandedWhole`); the leaf check is needed: without it the extent tree's list
  is complete exactly if no leaf it concerns is shared
  (`Completeness.ListIsCompleteExactly`).

Four things the proofs bring out about the code itself, each stated by a lemma:

* `redirect_tail` throws away the length its dedupe reports (`src/run.rs:440-442`),
  where `redirect_chunks` carries on from it. A kernel that moves less than asked
  of a part sector and says so therefore does not fail the holder there: the sector
  stays, and the final check fails instead, with "still holds the extent". The
  contract of `Release.ReallocExtent` says so through `short`;
  `Tails.ShortTailHappens` is a file of one byte left holding its extent. What is
  said of the kernel at `src/kernel.rs:1427-1428`, that success always reports the
  whole length, rules this case out: it is what would become of a kernel unlike
  that. The same goes for a dedupe of whole sectors that stops inside one: the
  bytes of the next call still match (`Redirect.LinesUp`), but the kernel refuses
  its range (`Redirect.CallTaken`).
* freed and left-alone bytes add up to the unreachable total only as far as the
  second look at each extent agrees with the first: they fall short of it, or run
  over it, by exactly `Events.Drift`, which `Running.SecondLookDiffers` makes
  63 sectors of 4096 bytes.
* a remembered last snapshot (`src/kernel.rs:844-866`) is safe to go by as long as
  its subvolume is not snapshotted again (`Remembering.RememberedIsSafe`). A
  snapshot taken between two extents of one batch makes it stale, and then a shared
  leaf passes the leaf check (`Remembering.SnapshotMisleads`), and a list that is
  complete no more is still taken to be (`Stale.StaleListPasses`). That can touch
  what the walk counts, never what is rewritten, which is resolved again without it.
* files that end in one sector of an extent, as reflinks and snapshots do, each get a
  copy of it: `src/run.rs:428-430` means them to, and so they share it no more
  (`Sharing.ReflinkedTailsPart`). The bytes reported as copied are those live, and
  fall short of those allocated by a sector for each such copy too many
  (`Costs.CopiedIsNoMore`, `Costs.MadeCoversLive`).

## Model

| member | source | states |
|---|---|---|
| `Extents.LiveRanges` | src/extent.rs:221-236 | whatever order the references come in, the ranges are sorted, non-empty, apart from one another by a gap, and cover exactly the bytes some reference covers |
| `Extents.MergeSorted` | src/extent.rs:224-235 | over sorted references the loop that extends the last range or opens a new one ends with that canonical cover |
| `Extents.MergedUnique` | src/extent.rs:221-236 | there is one such list: two with the same cover are equal |
| `Extents.LiveRangesOrderIndependent` | src/extent.rs:221-236 | the same references in any order, each given any number of times, have the same live ranges |
| `Extents.LiveBytesCount` | src/extent.rs:91-95 | live bytes are the number of distinct bytes covered, however many references cover each |
| `Extents.LiveBytesMonotone` | src/extent.rs:91-95 | more references never make fewer live bytes |
| `Extents.UsedBytesExact` | src/extent.rs:97-107 | used bytes are the disk length in the proportion that is live, rounded down: all of it if all is live, none if none is |
| `Extents.UsedBytesBounds` | src/extent.rs:97-112 | used bytes never exceed the extent, so free bytes never underflow, and never fall as more is live |
| `Extents.FreeNeverRises` | src/extent.rs:109-112 | adding references never raises what rewriting frees; the same references free the same |
| `Extents.LiveIsBytes` | src/extent.rs:91-95 | live bytes are as many as there are bytes some reference covers, from the set of references alone |
| `Extents.FreeExactly` | src/extent.rs:97-112 | so are free bytes: what the live share of the disk length, rounded down, leaves of it, or all of it where there is no uncompressed length; there is one such figure |
| `Extents.WorthExactly` | src/extent.rs:141-160 | from the references alone: no reason exactly if at least 65536 bytes are free and at most four times as many live; too little exactly if fewer are free; too much to copy otherwise |
| `Extents.WorthNeverReturns` | src/extent.rs:146-160 | an extent not worth rewriting is not made so by more references, and one that frees too little keeps that reason |
| `Extents.FromRefs` | src/extent.rs:72-89 | an extent's address and both lengths are its first reference's and its live ranges the canonical cover of all |
| `Extents.HoldersOf` | src/extent.rs:114-139 | every reference is in the group of its own file, one group a file, files ascending, offsets ascending within a file, none lost or repeated |
| `Extents.GroupedUnique` | src/extent.rs:114-139 | there is one such grouping: references no two of which are of one place in one file are grouped alike in whatever order they come |
| `Extents.GroupGrows` | src/extent.rs:127-130 | a reference of the last file joins its group and keeps the grouping |
| `Extents.GroupStarts` | src/extent.rs:131-136 | a reference of a later file starts a group and keeps the grouping |
| `Kernel.Filesystem.Dedupe` | src/kernel.rs:1424-1430 | the contract of a dedupe: refused for unequal bytes or part sectors that do not end both files; otherwise moves sectors only to where the same bytes are, and reports what its conduct allows |
| `Kernel.Filesystem.Stage` | src/run.rs:361-378 | a temporary holds the bytes one sector in, in one fresh extent, and ends where they do |
| `Kernel.Filesystem.Metadata` | src/run.rs:518-526 | a file looked at for its size and mtime shows what another writer may have made of them, and the log of calls says whether that is what it was |
| `Planning.Fill` | src/run.rs:380-413 | one pass over references sorted by offset gets exactly as far as anything can be read: every byte before is the extent's and readable by a file, and where it stops short no reference reads the next |
| `Planning.GreedyStep` | src/run.rs:390-411 | why one pass is enough: a reference passed over, or read to its end, never reads on from where a later one got to |
| `Planning.GapIsUnreadable` | src/run.rs:295-307 | between where a pass stopped and the next reference past it, no file reads a whole sector, so the gap can be skipped |
| `Planning.FilledIsWhole` | src/run.rs:290-299 | each whole sector below where a pass stopped is read in full by a single file, because references are aligned |
| `Planning.NextStart` | src/run.rs:300-307 | the next stretch starts at the first reference past what was read, or at the range's end |
| `Planning.ReadStretch` | src/run.rs:287-307 | one turn of the outer loop makes progress and leaves the plan exact up to where it goes on |
| `Planning.ReadLiveRanges` | src/run.rs:273-311 | the copies planned hold exactly the whole sectors some file reads in full, each once, with the extent's own bytes |
| `Redirect.LinesUp` | src/run.rs:471-480 | offsets line up at every cursor the loop can reach, wherever inside a sector the last dedupe stopped: the bytes offered from the temporary are those the file holds from the cursor on |
| `Redirect.CallTaken` | src/run.rs:471-489 | the kernel takes the range of a call if and only if its cursor is on a sector boundary, as it is at first |
| `Redirect.CallAccepted` | src/run.rs:471-480 | a call from a sector boundary is taken, touches no part sector, and if all of it is done leaves the cursor on a boundary again or at the end |
| `Redirect.CallReports` | src/run.rs:478-489 | no call of the loop fails for differing bytes; a kernel that does all it is asked leaves the cursor aligned or at the file's end, so the next call is taken too; a refusal for a range means a dedupe stopped inside a sector |
| `Redirect.BoundaryMoves` | src/run.rs:481-489 | a dedupe from a sector boundary that reports any length has moved every sector that ends by the advanced cursor, those before the boundary included; a sector it stopped inside is not among them |
| `Redirect.RedirectRef` | src/run.rs:460-491 | every staged whole sector a reference stands for moves, whatever lengths an honest kernel reports; it fails only for what its last call came to: "no progress" for a report of nothing, a refused range after a report that stopped inside a sector, an input-output error for a call that failed with it |
| `Redirect.CallPlaces` | src/run.rs:481-489 | after a report of any length the next call starts on a sector boundary, or there is none, or the report stopped inside a sector |
| `Redirect.CallExplains` | src/run.rs:481-489 | a call that fails or gets nowhere is itself the reason for the error, with the one before it where its range is refused |
| `Redirect.RedirectChunks` | src/run.rs:445-493 | a holder's sectors move only to where the staged copy puts them, and with an honest kernel every one of them does; it fails only for what its last calls came to |
| `Tables.SoundTableAdds` | src/run.rs:217-225 | over the stretches staged so far, each old sector has one new place, no two share one, bytes agree, and no sector of a copy is without an old one |
| `Rewrite.RewriteCopy` | src/run.rs:217-225 | staging one more stretch and pointing every holder at it extends the moves made by exactly that stretch's and disturbs no other |
| `Tails.RedirectTail` | src/run.rs:415-443 | a part last sector moves to a copy of its own bytes; never refused for differing bytes; with an honest kernel it moves exactly if the length reported is the length asked |
| `Tails.ShortTailKept` | src/run.rs:435-443 | an honest kernel may move nothing of a tail and report less than its length, and that is no error |
| `Tails.ShortTailHappens` | src/run.rs:435-443 | a file of one byte, its dedupe reporting nothing moved, goes on holding its extent |
| `Realloc.FinishHolder` | src/run.rs:495-528 | with the whole sectors gone, redirecting the tail where the extent holds it empties the holder; its size and mtime are looked at last and it passes only if they are found as before; other holders are untouched |
| `Realloc.CheckUnmodified` | src/run.rs:518-526 | passes only if the look found size and mtime as they were, and is "modified" if it did not |
| `Items.FoundExactly` | src/kernel.rs:821-842 | however the kernel divides a file into items, a window that takes in all the file holds of an extent finds an item of it exactly if there is one |
| `Items.InodeHoldsExtent` | src/kernel.rs:821-842 | the answer is true only if the file holds the extent, and true if it does and the window takes all of that in |
| `Release.LeftWithin` | src/run.rs:234-240 | sectors leave the extent but none join, so what is left lies in the window from the first reference to the end of the last |
| `Release.CheckHolders` | src/run.rs:231-249 | the final check passes exactly if no holder points into the extent any more, whatever dedupes reported |
| `Release.LetGoIfGate` | src/run.rs:208-250 | holders that pass the past-end gate and were emptied of whole sectors and tails hold nothing of the extent |
| `Release.GateDecides` | src/run.rs:208-250 | after the moves of a kernel that does not lie, every holder has let go exactly if no tail was cut short and every holder passes the gate |
| `Release.PastEndHolds` | src/run.rs:180-191 | a reference past the gate is never let go of, whatever is moved: the gate is not merely cautious |
| `Release.ReallocExtent` | src/run.rs:208-250 | under any kernel every file evolves safely, success means every holder was found unmodified, let go and passed the gate, and each extent made has its purpose; an error is what the last calls came to, or "still holds", and that only from a kernel that lied or cut a tail short, or at the gate; from an exact kernel, or an honest one whose calls all went through, each dedupe getting somewhere and stopping between sectors, success if and only if the gate is passed |
| `Release.ExtentReleased` | src/run.rs:208-250 | with every holder given, a successful rewrite leaves no file anywhere with a sector of the extent |
| `Release.ContentsKept` | src/run.rs:205-207 | successful or not, every file keeps its size and mtime and reads the same at every offset |
| `Release.WholeSectorMoved` | src/run.rs:217-225 | a holder's whole sector ends exactly where the staged table puts its extent offset |
| `Release.SharingKept` | src/run.rs:217-225 | two whole sectors, of one holder or two, share a physical place afterwards if and only if they did before |
| `Sharing.SharingExact` | src/run.rs:208-250 | of all sectors of all files two share a place afterwards if and only if they are the same sector, or shared one before and neither is a part of a sector that the extent held at a file's end |
| `Sharing.ReflinkedTailsPart` | src/run.rs:415-443 | two files of one byte reflinked to one another are such that no rewrite leaves them sharing |
| `Sharing.PartReflinked` | src/run.rs:208-250 | and a kernel that does all it is asked does rewrite them, and parts them |
| `Release.NoWaste` | src/run.rs:284-310 | every sector of every extent the rewrite made, for live stretches or for tails, is held by some holder afterwards |
| `Costs.MadeExactly` | src/run.rs:208-250 | the extents a rewrite makes have exactly one sector for each sector staged, and one for each holder that ended inside a sector of the extent |
| `Costs.MadeCoversLive` | src/run.rs:208-250 | no fewer sectors are made than are live, and no more exactly if no two holders end in one sector, nor one where another reads on |
| `Costs.CopiedIsNoMore` | src/run.rs:72-80 | the live bytes, which the report counts as copied, are the live sectors' and at most those allocated |
| `Processing.LocateHolders` | src/run.rs:153-196 | goes over the holders in order and stops at the first that has no name, is deleted, is nodatacow or reaches past the sector its file ends in, with that as its answer; passes only if no holder is any of these |
| `Processing.ObstacleExactly` | src/run.rs:153-196 | which obstacle a holder is, by what is so of its file alone: no name first, then deleted, then nodatacow, then a reference past the sector boundary it ends by |
| `Processing.Process` | src/run.rs:37-96 | from the references alone: left alone or failed for the first file that stands in the way, and then nothing is touched; a dry run touches nothing either; an extent rewritten in earnest is referred to by nothing any more; with an exact kernel, or an honest one whose calls all went through, it is rewritten if and only if no file its references are of stands in the way, and fails only for want of a name; any other failure is what the last calls came to, or that a holder still holds |
| `Search.SuccessorExact` | src/kernel.rs:231-246 | the carry through offset, type and objectid skips no key and repeats none, and stops only at the last |
| `Search.RoomMeansAll` | src/kernel.rs:210-213 | room left for the largest item means the search was not cut short |
| `Search.Items` | src/kernel.rs:186-214 | what it says of the last key and of completeness follows from the items returned and the room they take |
| `Search.SearchArgs.SearchAll` | src/kernel.rs:216-248 | every item of the range exactly once, in key order, wherever searches were cut, provided each search saw the same items there; it ends even if they did not, and fails only where a search did, with its error |
| `Tallies.Tally.ReadInline` | src/kernel.rs:319-348 | the byte loop folds the inline references into the account as the recursive reading does |
| `Tallies.Tally.ReadItem` | src/kernel.rs:292-317 | one item updates the account as the reading function says, in each of its cases |
| `Tallies.InlineRoundTrip` | src/kernel.rs:319-348 | reading back encoded inline entries gives their references in order, and owners count for none |
| `Tallies.InlineExact` | src/kernel.rs:319-348 | bytes read without complaint are an encoding from end to end: no trailing or truncated part passes |
| `Tallies.ItemExact` | src/kernel.rs:292-317 | an item is read in full or marked unread; there is no third way |
| `Tallies.ItemByFlag` | src/kernel.rs:292-317 | only an extent item with the data flag sets the extent's fields, to its own; any other item leaves them |
| `Tallies.FinishExactly` | src/kernel.rs:360-370 | items come to an extent with its holders exactly if the last data item gives those fields, and the files are those named if all was read and the counts add up to its total, and unreadable otherwise |
| `Tallies.HoldersNamedExactly` | src/kernel.rs:360-370 | the files are named if and only if every item was read in full and the counts add up to the extent's total, and then they are all there in order; never a partial list |
| `Tallies.DecodingUndoesEncoding` | src/kernel.rs:291-371 | an extent stored with inline and keyed references comes back as it was stored, if its counts add up |
| `Batches.Group` | src/kernel.rs:628-644 | the tallies are the items grouped by address, ascending, each with all of its own items |
| `Batches.ItemsAtExactly` | src/kernel.rs:614-627 | the items of an extent are those keyed by its address with a type from 168 to 184, in key order |
| `Batches.EntryExactly` | src/kernel.rs:660-671 | an extent is handed over for its items exactly if a data item of theirs records it no later than the walk, with that item's fields, and with its files exactly if all items can be read and add up, as unreadable otherwise |
| `Batches.StoredIsRecorded` | src/kernel.rs:291-371 | an extent stored with inline and keyed references is handed over as stored if and only if it is no newer than the walk: with every reference if they add up, as unreadable otherwise |
| `Batches.ReadTally` | src/kernel.rs:676-692 | an extent read on its own has all of its items, however the search was cut, if each search saw the same; it fails only where a search did, with its error |
| `Batches.ExtentBatch` | src/kernel.rs:614-674 | a batch is exactly the data extents recorded, no newer than the walk, between its start and where it says to go on, those with unreadable lists included; it always moves on, forgets every last snapshot remembered before it, and fails only where a search did, with its error |
| `Walk.ResolveOne` | src/kernel.rs:1236-1243 | one extent, in the trees as they are by its turn and with what is remembered then: handed over with the references its list leads to, if that passes, and otherwise with all there are, of the lengths they give; or else as one not resolved, which never befalls one whose list passes, nor one that is referenced while searches succeed, the trees agree on it and a lookup can hold its references; for good exactly if the last search for it failed so; what it adds to what is remembered is true of those trees |
| `Walk.ResolveBatch` | src/kernel.rs:1232-1245 | so for each extent of a batch in turn, one turn each, starting with nothing remembered |
| `Walk.RememberedTrue` | src/kernel.rs:738-747 | what is remembered of a subvolume at any moment of a walk is its last snapshot then, if it was not snapshotted since that was read, in however many turns; one since deleted does not matter |
| `Walk.HandedWhole` | src/kernel.rs:694-721 | an extent of any batch whose list is true is handed over with every reference in every tree, with the lengths and the live and free bytes those come to, while no subvolume remembered was snapshotted since; with reliable searches it is handed over wherever it has any, if a lookup can hold them or the list counts right and all are in leaves newer than any snapshot |
| `Walk.ExtentWalk.Next` | src/kernel.rs:1220-1253 | each call hands over one extent, one that could not be resolved, the error or the end, fetching and resolving another batch where the last is used up; everything handed over stays what was told of what was read, turn by turn; each call comes nearer the end of the tree, and an error handed over is that of the search that just failed |
| `Walk.RunWalk` | src/kernel.rs:1200-1208 | over a changing tree a whole walk ends, ascends strictly, hands over nothing newer than itself, misses nothing all its searches agree on, hands each over as it was resolved at its turn, and comes to its end unless a search fails, which is then the last thing it hands over |
| `Walk.MetAscends` | src/kernel.rs:1200-1208 | what is handed over is at the addresses read, so the extents resolved ascend as those do |
| `Walk.WalkExact` | src/kernel.rs:1183-1208 | over an unchanging tree it hands over an extent if and only if its items record one no newer than the walk: by the last data item of them, with its files exactly if all can be read and add up |
| `Walk.WalksAgree` | src/kernel.rs:614-674 | wherever the buffer cut each search, two walks of one tree give the same list |
| `Cow.NextKeepsValid` | src/kernel.rs:697-703 | a leaf write, in place or to a copy, a new or dropped leaf, a snapshot, a deletion and a commit each keep shared leaves no newer than the last snapshot of every subvolume that reaches them |
| `Cow.RunKeepsValid` | src/kernel.rs:738-747 | so does any sequence of them, writes and snapshots in one generation included |
| `Cow.NewLeafIsPrivate` | src/kernel.rs:738-747 | after any such sequence only one tree reaches a leaf written later than its last snapshot |
| `Cow.WritesArePrivate` | src/kernel.rs:697-703 | a step on one subvolume never changes what another holds |
| `References.WindowMissesNothing` | src/kernel.rs:783-795 | the file offset of every item under a base lies in the stretch searched for that base, whether or not the base wraps past zero |
| `References.BaseExact` | src/kernel.rs:803-815 | a reference belongs to a base entry if and only if it is recorded under it, so entries of one inode never overlap |
| `Resolve.Trees.DataRefExtents` | src/kernel.rs:773-818 | each reference an entry stands for is found once and nothing else is |
| `Resolve.Trees.Collect` | src/kernel.rs:749-771 | succeeds only if every entry stands for as many items as it says and there is some item, and returns just those, all of them real |
| `Resolve.Trees.MayBeShared` | src/kernel.rs:738-747 | false only if every leaf read was written after the last snapshot of its subvolume, as remembered or else as it is, true only if some leaf is not; what it learns is right |
| `Backreferences.GroupTriples` | src/kernel.rs:931-953 | each entry stands for a run of one file's sorted triples, counted, from its first offset to its last, and runs are as long as they can be |
| `Backreferences.SliceExact` | src/kernel.rs:924-953 | searching between the lowest and highest offset of a run finds the references of that run and no other |
| `Backreferences.WalkCollectsAll` | src/kernel.rs:868-955 | what the backreference walk's entries collect is every reference to the extent in every tree, each once, and their counts are right |
| `Resolve.Trees.Lookup` | src/kernel.rs:873-922 | a lookup that fits its buffer has every triple of the extent; one that does not says by how much |
| `Resolve.Trees.LogicalIno` | src/kernel.rs:868-955 | the lookup grows until it fits or would pass 16 MiB, which is an error; otherwise the entries returned collect every reference, and there are none only where no reference is |
| `Completeness.CollectedOnce` | src/kernel.rs:803-815 | over distinct bases nothing is collected twice and nothing is collected that no entry names |
| `Completeness.CountedIsAll` | src/kernel.rs:694-703 | the pigeonhole: as many references as the extent tree counts, each from a leaf only one tree reaches, are all there are |
| `Completeness.CountMeansUnshared` | src/kernel.rs:694-703 | the extent tree never counts more than there are, and counts as many if and only if no leaf holding one is shared |
| `Completeness.ListIsComplete` | src/kernel.rs:704-716 | where the list adds up and no leaf read is as old as the last snapshot of its subvolume, it led to every reference in every tree |
| `Completeness.ListIsCompleteExactly` | src/kernel.rs:694-703 | without the leaf check a list that adds up is complete if and only if no leaf holding a reference is shared |
| `Completeness.SnapshotHides` | src/kernel.rs:694-703 | after a snapshot the list still adds up and is not complete, and the leaf check says so |
| `Completeness.SharedIsCaught` | src/kernel.rs:704-716 | wherever a leaf holding a reference is shared, a list that adds up is not complete, and the leaf check refuses it |
| `Completeness.NamedIsCollected` | src/kernel.rs:749-771 | a list with true counts for every base is found to add up and collects every reference once |
| `Completeness.WaysAgree` | src/kernel.rs:694-721 | by bases or by first-to-last stretches the same references are collected and the same number counted; that is the extent tree's count if and only if no leaf is shared |
| `Resolve.Trees.Resolve` | src/kernel.rs:694-721 | what is returned is real; it is what the list leads to if that adds up and every leaf was written after the last snapshot remembered of its subvolume, or else there is, and otherwise every reference in every tree; if the extent tree's total is true and nothing stale is remembered it is that either way; with reliable searches it fails only if the list does not pass and nothing is there or a lookup cannot hold it, which is above 699050 references; a fatal error is that of the last search |
| `Resolve.NewerPasses` | src/kernel.rs:704-716 | a true list that counts right passes where every reference is in a leaf newer than the last snapshot |
| `Resolve.Trees.ResolveAgain` | src/kernel.rs:723-736 | the extent afresh, with every reference whatever is remembered, its own address and both its lengths, its canonical live ranges and the free bytes all references come to; with reliable searches exactly when it is still referenced and a lookup can hold that, and "changed" exactly when it is not referenced; a fatal error is that of the last search |
| `Resolve.ResolvedMeasures` | src/extent.rs:72-112 | all references in trees that agree on an extent give it one uncompressed length, and its live and free bytes are what they come to |
| `Resolve.Trees.LastSnapshot` | src/kernel.rs:844-866 | what is remembered of a subvolume is answered again unasked; otherwise the answer is the subvolume's own generation now, remembered under it alone |
| `Remembering.StaysCurrent` | src/kernel.rs:844-866 | whatever else happens, a subvolume's last snapshot stays what was read until it is snapshotted or made from a snapshot |
| `Remembering.RememberedIsSafe` | src/kernel.rs:738-747 | a leaf newer than a last snapshot read at an earlier time is reached by no other tree, if its subvolume was not snapshotted since |
| `Remembering.SnapshotMisleads` | src/kernel.rs:844-866 | a snapshot always misleads, of what it is taken of and of what it makes alike: a leaf passes by what was read before, is reached by two trees, and fails by what is so |
| `Stale.StaleListPasses` | src/kernel.rs:704-716 | after a snapshot of any subvolume concerned, a list that was complete and rightly taken to be still adds up and still passes by what is remembered, and is not complete |
| `Mounts.Mount.ResolveAgain` | src/kernel.rs:723-736 | whatever trees describe the files, an extent resolved before it is acted on has references that are true of the files and name every sector any file holds of it, and measures what they come to; with reliable trees that succeeds whenever some file holds it, the trees give it its length and a lookup can hold its references, and is "changed" when none does |
| `Mounts.StepPreserves` | src/lib.rs:34-69 | a rewrite, successful or not, of files all of which read as they did at the start leaves them reading so |
| `Mounts.ReleasedStays` | src/lib.rs:34-69 | extents nothing refers to are referred to by nothing after a rewrite of another |
| `Layouts.SomeLayoutLays` | src/lib.rs:34-69 | whatever files there are, some trees describe them at every step of a run, so what a run asks of its trees can be met |
| `Layouts.LaysItemsOfLength` | src/lib.rs:34-69 | by well-formed items that give each extent its own length, at every step |
| `Layouts.PlainResolves` | src/kernel.rs:723-736 | so over them an extent some file holds can be resolved again wherever a lookup can hold its references |
| `Accounts.ClassExact` | src/scan.rs:53-57 | every size is of one class, from a power of two up to the next with zero in the first, and every 64-bit size has one of the 64 |
| `Accounts.BucketExact` | src/scan.rs:53-57 | bucket `i` holds exactly the extents of class `i` |
| `Accounts.TotalsConserved` | src/scan.rs:44-58 | used and unreachable bytes add up to allocated, and the 64 buckets to the totals |
| `Accounts.BucketConserved` | src/scan.rs:53-57 | used and unreachable bytes add up to allocated in every bucket |
| `Accounts.Totals.Add` | src/scan.rs:44-58 | the totals and every bucket stay those of the extents counted, the new one among them |
| `Accounts.LeftAloneStats.Add` | src/scan.rs:73-83 | one more extent under its reason, with no bytes if it never was resolved, and every other reason unchanged |
| `Accounts.LeftAloneStats.Total` | src/scan.rs:93-103 | the reasons together are everything that was left alone |
| `Events.RowExactly` | src/scan.rs:73-83 | the row of each reason counts the extents left alone for it and sums their allocated, used and unreachable bytes, none for one never resolved; no two reasons share a row |
| `Events.AccountsBalance` | src/lib.rs:34-69 | whatever became of each extent, unreachable bytes are those freed, left alone, gone between two looks, or not got to |
| `Events.FinishedRunBalances` | src/lib.rs:34-69 | if the run finished and second looks agreed with the first, freed and left-alone bytes are the unreachable total |
| `Events.FailuresCounted` | src/run.rs:551-575 | extents counted as failed are as many as skipped and modified entries, and the one the run stopped at |
| `Events.EachOnce` | src/lib.rs:34-69 | everything the walk came upon is rewritten, left alone or passed over, exactly one of them |
| `Events.RunWorthIt` | src/extent.rs:146-160 | a whole run copies at most four times what it frees, and frees at least 64 KiB for every extent rewritten |
| `Events.ReportExactly` | src/run.rs:70-80 | the report lists the addresses of the extents rewritten, in order, copied bytes are the sum of their live bytes and freed bytes of their free ones, and skipped and modified count the failures of each kind |
| `Running.Scanner.Next` | src/scan.rs:255-287 | hands over the next extent found, counted once, after counting exactly those before it that could not be resolved; none only if the walk ended, broke off, or hit a fatal error |
| `Running.Scanner.LeaveUnresolved` | src/scan.rs:230-252 | a fatal error stops the walk and counts nothing; any other is counted, as changed or as unresolved, and stops nothing |
| `Running.Runner.Process` | src/run.rs:37-96 | reallocates the extent on the mounted files, or on a dry run touches nothing; no file reads differently, the report changes as the outcome says and in no other way, only a foreign call that failed for good is an error, and in earnest everything reported rewritten is released; what it came to is what the files called for, or what the calls made account for, and with an exact kernel, or an honest one whose calls all went through, rewritten if and only if no file stood in the way |
| `Running.Handle` | src/lib.rs:34-69 | an extent goes the one way its free bytes, its second resolution and its rewrite call for: the second resolution is of the files as they are then, measures what their references come to, and fails, with reliable trees, only where there is nothing to find; no file reads differently for it, and totals, left-alone table and report all stay those of everything so far; the run stops, for good, only if the outcome is one it stops at |
| `Running.Run` | src/lib.rs:24-83 | comes through if and only if opening and starting succeed, it is not asked to write a read-only mount, nothing met stops it, and the closing sync succeeds, and its error is that of whichever fails; what stops it is a walk that broke off, or an address or an extent that could not be resolved, or one worth it that could not be rewritten, for good; none of that happens with reliable trees and a kernel that is exact or honest and failed no call; whether it comes through or not no file reads differently, a dry run changes nothing, and what was learnt of each extent met is true of the files when its turn came, one turn leading to the next, and is what decided its fate; if it does, the walk was whole, everything reported rewritten is referred to by nothing unless it was a dry run, and the accounts are those of everything met, in ascending order |
| `Fates.FirstLook` | src/lib.rs:34-44 | with the figures written out: passed over exactly if nothing is free, left alone below 65536 bytes or over four times as many live, and otherwise looked at again: lost if that fails for good, "changed" if it is no longer there, "unresolved" for any other error |
| `Fates.SecondLook` | src/lib.rs:45-69 | at the second look: passed over or left alone by the same figures as they are then; rewritten, or left for the reason processing gives; of the ways that fails a foreign call that failed for good stops the run, a file found modified counts as that and all others as skipped |
| `Fates.UnclearCounts` | src/scan.rs:230-252 | an address that could not be resolved is counted as changed exactly if it changed, stops the run exactly if for good, and is unresolved otherwise |
| `Fates.StopsExactly` | src/lib.rs:34-69 | what became of things stops a run exactly where what was met and learnt, by those figures and errors alone, does |
| `Fates.RunProgresses` | src/lib.rs:34-69 | with reliable trees an extent with 65536 bytes free and at most four times as many live, that is still held, at the length it was read with and by no more than a lookup can hold, is resolved again as it is; if the same figures hold of it still, no file stands in the way and the kernel is exact, or honest and failed no call in its turn, it is reported rewritten |
| `Fates.DutifulNeverStops` | src/lib.rs:34-69 | with such a kernel and reliable trees a run stops at no extent |
| `Running.Scanner.ResolveAgain` | src/scan.rs:219-230 | an extent that cannot be resolved again is counted as it was first read, unless the error is fatal, and then it is not counted and the run stops |
| `Running.RunAscends` | src/run.rs:72-75 | over any walk the extents counted, and so the addresses rewritten, strictly ascend: none is rewritten twice |
| `Running.RunBalances` | src/lib.rs:34-69 | for the accounts of a run that came through: unreachable bytes are freed, left alone or drifted; failed ones are the skipped and modified; each thing met has one outcome; at most four bytes were copied for one freed |
| `Running.SecondLookDiffers` | src/lib.rs:45-56 | an extent with one sector live at the first look and all 64 at the second is neither freed nor left alone |

## Left out

- The system call layer, the search and lookup ioctls' layouts, and the error for a search result that overruns its own buffer.
- How opening the filesystem, reading the walk's generation, and finding, opening and naming files go: each is an outcome given to the run, or a failure that may happen. Which files are deleted, without a name or nodatacow is given, and stays so.
- Threads, the pool of search buffers and locks: a batch is resolved in order.
- Printing, logging, sizes for people, argument parsing, and the text of errors; errors are told apart only as far as the program does.
- Other writers during a rewrite. The look at a file's size and mtime may show what one did, and the checks of it are modelled; the writes themselves, and what becomes of a rewrite that comes upon their bytes, are not.
- What the walk reads may change in any way between two searches and between two extents; before an extent is acted on, the trees describe the files as they are then, and files change only by rewriting. A tree that changes in the middle of one search, and trees that change while one extent is being resolved, are not modelled.
- Compression and where the kernel places data: a temporary's data is one fresh extent, and file bytes are uncompressed extent bytes.
- A released extent's address put to use again: its bytes stay where they were, unreferenced.
- Overflow of the 64-bit counters of the accounts, which are unbounded here; the addresses, keys and bases that do wrap are modelled as wrapping.
- The order in which references of one extent are returned: results are stated as multisets. Live ranges never depend on it, and holders do not where no two references are of one place in a file.
- Paging within one search of a file's extent items, which is the same `search_all` proved exact in `Search`.
- That the extent tree's total and its list of distinct bases are true is a premise of `Completeness.ListIsComplete` and of `Resolve.Trees.Resolve`: what the kernel keeps there, and that it lags behind until a commit, is not modelled.
- The program's `Opaque` is `Unreadable` here.
