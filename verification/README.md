# libromx: container, mutable region, bundles, JSON and covers

A Dafny model of the parts of libromx where correctness is subtle, with proofs about all inputs, all
runs and all crash moments. Each module follows one source file or one layer of it. Code that changes
things in place is modelled by methods over arrays and objects and tied to a specification function;
the theorems are about those functions.

**The mutable region** (`Entries`, `RegionHeader`, `Directory`, `Allocator`, `Objects`, `Commits`,
`Disk`, `CrashSafe`, `Leftovers`, `Store`, `Protocol`, `Runs`, `Refinement`, `Sessions`, `Limits`). The file is a durable image
plus the writes issued since the last sync. A crash keeps, sector by sector (512 bytes), any subset of
the pending writes; a sync is a barrier. A `File` records every moment of its life, so that a method can
promise something about the crash images of each of them. The source of a write is read twice, once for
the checksum and once for the data, and may change in between. Equal checksums are never taken for equal
bytes: the bytes themselves are tracked. What a reader can find is a map from namespace and folded key
to entry and bytes; `Runs` chains calls that may crash anywhere and be followed by a reopening,
`Refinement` shows that completed calls implement an abstract map, and `Sessions` runs lists of calls on one
open file and ties both to them. A write whose source changed under it leaves bytes unsynced; they harm
nobody (`Leftovers`), so the next call needs no clean start.

Three properties one might expect do not hold, and the exact condition under which they do is proved:

- A crash between announcing and committing a write leaves an unfinished entry. The conflict pass counts
  it, the writer's lookup does not. A later write of that name reports success, both slots are
  quarantined on reopening, and the name is lost for good (`Limits.CrashSticks`, `Runs.StuckForever`).
  A completed write is seen exactly if the name is visible already or no unfinished entry bears it
  (`Limits.WriteShownExactly`).
- Deleting increments the generation unchecked. At the largest generation the tombstone wraps to zero
  and a crash before the slot is cleared leaves a malformed entry and a degraded region
  (`Limits.TombstoneCleanExactly`).
- Creation rounds a requested capacity to 64, overwriting compares the request unrounded: the same request
  twice succeeds exactly if it was zero or a multiple of 64 (`Limits.RepeatSucceedsExactly`).

**Bundles** (`Sorting`, `Bundle`, `BundleReader`, `BundleTheorems`, `BundleSource`, `BundleBuilder`).
The opener accepts exactly the images of the lists it allows. A stored path with a zero byte inside is
accepted and listed cut short; without such paths, building the files of an accepted image gives the image
back. The lazy source of the builder is a window onto the image it never builds.

**Containers** (`Footer`, `Ridx`, `RidxReader`, `Writer`, `Container`, `Sha256`). What the writer emits is
accepted and reads back, and whatever is accepted is tiled exactly by its parts.

**JSON and statistics** (`Utf8`, `JsonText`, `JsonScan`, `JsonParse`, `JsonTokens`, `JsonTree`,
`JsonStrings`, `JsonWalk`, `Stats`, `StatsText`, `StatsPrinter`, `StatsStore`). Trees carry every byte of
their text, white space and escapes included, so that parsing and rendering can be inverse. The parser
class works on position, depth and token array like the source and is proved to leave the tokens of the
tree. The statistics are read through those tokens only, and survive the mutable region.

**Covers** (`Png`, `PngLanguage`, `PngEncoder`) and **payload mappings** (`Mapping`).

`Bytes`, `Crc` and `Paths` are shared by all of them.

Several specification functions serve both the code and the theorems about it. What these compute is said
once more from outside, in terms that do not mention them: `Placement` (which room a write gets, and when
it is refused), `Formats` and `Rules` (every stored structure and every demand on callers in literal
offsets, letters and numbers), `CrcLaws` (the checksum on plain numbers), `Sha256Laws` and
`Sha256Constants` (the relations of FIPS 180-4, bit by bit, and the primes its constants come from),
`JsonLaws` (the letters of RFC 8259, escapes and integers), `StatsProfile` (the documents of the profile
as a table of members) and `StatsTemplate` (the document that is written, in letters).

## Model

| member | source | states |
|---|---|---|
| Bytes.LeExactly | src/mutable.c:19-38 | A field of 2, 4 or 8 bytes holds the little-endian encoding of a number exactly when it reads as that number, for every number the field can hold. |
| Bytes.LeRoundTrip | src/mutable_write.c:46-61 | Reading back a stored field gives the number modulo two to the width of the field in bits, as the unsigned casts do. |
| Bytes.LeDigit | src/mutable_write.c:46-61 | Byte i of a stored number is its digit i to the base 256: the least significant byte comes first. |
| Bytes.BeDigit | src/png.c:6-10 | In the big-endian fields byte i counts from the other end. |
| Bytes.BeExactly | src/png.c:6-10 | The same for the big-endian fields of PNG. |
| Bytes.Align64Least | src/mutable_write.c:259-263 | Rounding to 64 gives the least multiple not below the value. |
| Bytes.Align64Saturates | src/mutable_write.c:259-263 | It saturates exactly where no multiple is left inside 64 bits, so it never overflows. |
| Bytes.RangeIsZero | src/ridx.c:94-114 | Chunked scanning answers whether a whole range is zero, for every chunk size. |
| Crc.UpdateLoop | src/crc32.c:8-21 | The masked shift loop computes the register of the polynomial division, byte by byte. |
| Crc.GeneratorConstant | src/crc32.c:8-21 | The constant the loop folds in is the reflected generator x^32 + x^26 + ... + x + 1, exponent by exponent. |
| CrcLaws.CrcIs | src/crc32.c:3-26 | The checksum is that of the same computation on plain numbers: initial register and final complement 0xffffffff, eight shifts a byte, 0xedb88320 folded into odd registers. |
| CrcLaws.Residue | src/crc32.c:8-26 | A message followed by its own checksum always leaves one and the same register. |
| Crc.UpdateConcat | src/crc32.c:8-21 | Feeding two pieces in turn is feeding their concatenation. |
| Crc.ChunkedCrc | src/mutable_write.c:311-328 | Checksumming in chunks gives the checksum of the whole, for every chunk size. |
| Crc.StepBijective | src/crc32.c:8-21 | Every single bit step of the register can be undone, in both directions. |
| Crc.UpdateInjective | src/crc32.c:8-21 | Over the same bytes different registers stay different: damage is never absorbed by what follows. |
| Crc.BurstDetected | src/crc32.c:8-26 | Two strings that differ, and only inside four consecutive bytes, have different checksums. |
| Crc.SealBroken | src/mutable.c:49-61 | The same for a structure whose checksum field counts as zero: a burst outside that field always changes the checksum. |
| Entries.BurstRejected | src/mutable.c:210-235 | A damaged slot entry (at most four consecutive bytes, checksum field apart) is never accepted. |
| RegionHeader.BurstRejected | src/mutable.c:148-170 | A region header that was accepted is refused after such damage. |
| Footer.BurstRejected | src/footer.c:61-71 | A footer that was accepted is refused after such damage. |
| Ridx.BurstRejected | src/ridx.c:139-185 | An index that was accepted is refused after such damage, if the damage spares the entry count, which says how far the checksum reaches. |
| Utf8.Validate | src/json.c:36-76 | The byte-wise validator decides validity and reports the byte to blame: in the first malformed character the byte that fails to continue it, or its lead byte. |
| Utf8.BadOffsetIs | src/json.c:36-76 | That character starts where the longest valid prefix of the text ends. |
| Utf8.ValidExact | src/json.c:36-76 | A byte string is accepted exactly when it is a concatenation of encodings of Unicode scalar values. |
| Utf8.EncodeAllInjective | src/json.c:36-76 | A text has only one decoding into scalar values. |
| Paths.PathIsValid | src/mutable.c:63-91 | The scan of a stored name accepts exactly the valid UTF-8 texts without zero bytes and backslashes whose components between slashes are neither empty nor dot nor dot-dot, and reports whether a separator occurs. |
| Paths.AsciiFoldEqual | src/mutable.c:93-105 | Comparing two C strings after folding decides equality of the folded names. |
| Paths.FoldAlike | src/mutable.c:93-105 | Names fold alike exactly if they differ at most in the case of the letters A to Z. |
| Formats.NameLetters | src/mutable.c:63-91 | A valid name is valid UTF-8 without zero bytes and backslashes whose components are neither empty nor one dot nor two. |
| Formats.ComponentsAre | src/mutable.c:63-91 | The components are what stands between the slashes: none contains one, and joined with slashes they are the name. |
| Sorting.Sort | src/mutable_bundle.c:474-476 | Sorting by a total order yields a sorted permutation. |
| Sorting.PathCompareBytes | src/mutable_bundle.c:183-193 | The sign of the comparison is strict lexicographic order of unsigned bytes, both ways. |
| Sorting.Lexicographic | src/mutable_bundle.c:183-193 | One name comes before another exactly if it is a proper beginning of it or smaller where they first differ. |
| Sorting.PathsPortableUnique | src/mutable_bundle.c:238-256 | Sorting by folded name and comparing neighbours decides whether all folded names are distinct. |
| Entries.BuildEntry | src/mutable_write.c:293-309 | Storing the fields one by one and the checksum last yields the printed form of the entry. |
| Entries.PrintStores | src/mutable_write.c:293-309 | Every field of a printed entry stands at its offset, truncated to its width, with zeros between and behind and the checksum of the whole with its own bytes cleared. |
| Formats.EntryAccepted | src/mutable.c:196-238 | Which 512 bytes the reader accepts as an entry, in literal offsets, letters and bounds. |
| Entries.ParseEntry | src/mutable.c:196-238 | The reader's tests on a slot, in its order, yield free, malformed or the entry that is stored. |
| Entries.PrintParse | src/mutable.c:196-238 | A valid entry, printed, is read back as itself. |
| Entries.ParsePrint | src/mutable.c:196-238 | Whatever is accepted is, byte for byte, the printed form of the entry it is read as. |
| Entries.TornCommit | src/mutable_write.c:434-438 | If the final rewrite tears inside the sector, any mix of its old and new bytes that is still accepted is one of the two entries, whole. |
| RegionHeader.BuildHeader | src/writer.c:414-436 | The header of an empty region is stored field by field, its checksum last. |
| RegionHeader.PrintOpens | src/mutable.c:148-180 | A header the writer emits opens as the region it was written for. |
| RegionHeader.OpenPrints | src/mutable.c:148-180 | A header that opens is byte for byte the one the writer emits for that geometry. |
| Formats.RegionAccepted | src/mutable.c:148-180 | Which 4096 bytes open a mutable region, in literal offsets, letters and numbers. |
| Directory.ConflictPass | src/mutable.c:241-256 | The nested loops leave exactly the flags of a declarative rule, and report a conflict exactly when an acceptable slot lost its flag. |
| Directory.UsableDisjoint | src/mutable.c:241-256 | Usable slots have disjoint extents and distinct folded names. |
| Directory.UsableStable | src/mutable.c:241-256 | Replacing a usable slot by an entry of the same name and extent, or clearing it, changes no other slot's flag, even in a degraded directory. |
| Directory.UsableReplaced | src/mutable.c:241-256 | A usable slot that keeps its name and extent stays usable. |
| Directory.FillFree | src/mutable.c:241-256 | In a clean directory a newcomer in a free slot is usable exactly when it clashes with nobody, and only those it clashes with lose their flag. |
| Allocator.FindFreeExtent | src/mutable_write.c:265-291 | First fit returns the lowest aligned offset of the data area where the capacity fits without touching a taken extent, and none only if there is none. |
| Allocator.LowestFitExists | src/mutable_write.c:265-291 | If the capacity fits anywhere, a lowest place exists. |
| Allocator.LowestFitIs | src/mutable_write.c:265-291 | A place below which nothing fits is the one returned. |
| Objects.ReplaceEffect | src/mutable_write.c:399-408 | Rewriting the slot and extent of a visible object, with any bytes at all in the extent, leaves every other object visible or invisible as it was, with the same bytes. |
| Objects.FillEffect | src/mutable_write.c:410-420 | Filling a free slot and an unused extent of a clean directory does the same; the newcomer shows exactly if it is ACTIVE and clashes with nobody. |
| Disk.CrashAtomic | src/mutable_write.c:206-250 | Of a single pending sector write a crash leaves all or nothing. |
| Disk.CrashSynced | src/mutable_write.c:239-250 | After a sync a crash changes nothing. |
| Disk.File.WriteAt | src/mutable_write.c:206-237 | A positioned write is seen by the process at once and waits for the next sync. |
| Disk.File.Sync | src/mutable_write.c:239-250 | A sync makes everything issued durable. |
| Disk.CrashLeftover | src/mutable_write.c:206-250 | Writes left over from earlier, confined to a range apart from the sector, do not disturb that. |
| Disk.SourceWrite | src/mutable_write.c:330-350 | Streaming a source in chunks touches only its range, and its checksum is that of the bytes written. |
| CrashSafe.ThreeSteps | src/mutable_write.c:422-438 | Sector, sync, data, sync, sector, sync: every crash image of every moment has a given property, if the crash images of the first moment and the images between the steps have it, whatever the data range holds. |
| Leftovers.IdleSame | src/mutable_write.c:427-432 | Whatever a part of the data area holds that belongs to no visible object, the directory and what readers see are the same. |
| Store.FindObject | src/mutable.c:273-305 | Lookup reports a name absent exactly if no visible object bears it, damaged exactly if the visible object's bytes do not have the entry's checksum, and otherwise returns the object, whose bytes have it. |
| Store.DataChanged | src/mutable.c:387-411 | Changing bytes of one visible object's extent changes that object in the view and nothing else. |
| Store.DamageFound | src/mutable.c:273-305 | However up to four consecutive bytes of an intact object change on the medium, the lookup reports it damaged, and answers every other name as before. |
| Store.ReadDirectory | src/mutable.c:181-256 | Reading every slot and running the conflict pass yields the directory, its flags, and whether it is degraded. |
| Store.FindActive | src/mutable_write.c:393-398 | The writer's lookup finds the slot of the visible object of that name, if there is one. |
| Store.MakePlan | src/mutable_write.c:393-421 | Overwrite or create: slot, extent, capacity and generation of the new entry, or the error, are those of the abstract plan. |
| Placement.NewNameExactly | src/mutable_write.c:409-421 | A new name is accepted exactly if the directory is clean, a slot is free, and the region has room for the right capacity; that capacity is the least multiple of 64 covering the requested one or, failing that, the bytes and at least one; the place is the lowest with room, the slot the first free one, and every field of the entry says so. |
| Placement.OverwriteExactly | src/mutable_write.c:399-408 | A visible name is overwritten exactly if a generation is left, the bytes fit the old extent and no other capacity is asked for; slot and extent stay, the generation grows by one. |
| Rules.WriteRefusals | src/mutable_write.c:364-398 | A write call is refused for its arguments first, then for want of a region, then for its header, each stated in numbers; only then is its plan made. |
| Commits.PlanAdmissible | src/mutable_write.c:393-421 | Every planned entry is acceptable to the reader, for the name asked for, and either replaces the visible object or takes a free slot and an unused extent of a clean directory. |
| Protocol.KeyIsValid | src/mutable_write.c:63-89 | The check of a caller's name agrees with what the reader accepts for that namespace. |
| Protocol.MutableWrite | src/mutable_write.c:352-451 | A write call on a file that may have unsynced bytes of an earlier failed write pending: rejected without touching the disk, or committed; at every moment of the call every crash image shows the objects the call saw, those without the target, or those with the whole new target. Complete, it leaves exactly the committed image; if the source changed between the passes it stops with an error and an unfinished entry, and what it leaves pending is harmless to the next call. The moments of the call come in order: WRITING entry, data, ACTIVE entry, each durable before the next begins. |
| Protocol.CommitStores | src/mutable_write.c:422-438 | The two sectors of a write carry state 2 before the data and state 1 after it, and agree in every other field. |
| Protocol.InterruptedSettled | src/mutable_write.c:429-432 | What a write whose source changed leaves pending lies in a part of the data area that belongs to no visible object. |
| Protocol.FirstMomentSafe | src/mutable_write.c:424-426 | The first sector of a call, issued over such leftovers, is as safe as without them. |
| Protocol.MutableDelete | src/mutable_write.c:515-565 | A delete call, over the same leftovers: the object disappears and nothing else changes; every crash image on the way shows it whole or not at all. Its four moments are exactly: tombstone issued, tombstone durable, cleared slot issued, cleared slot durable. |
| Limits.WriteMoments | src/mutable_write.c:423-438 | What a write lets the disk go through, in offsets of the file: the WRITING sector issued over what was pending, that sector durable and alone, writes inside the extent only, the data durable, the ACTIVE sector issued, that sector durable. |
| Limits.DeleteMoments | src/mutable_write.c:555-560 | What a delete lets the disk go through: the tombstone sector issued, durable, the cleared sector issued, durable. |
| Rules.DeleteRefusals | src/mutable_write.c:515-553 | A delete call is refused in the same order, and finally if nobody sees the name; otherwise it is about the slot that shows the name. |
| Protocol.TombstoneStores | src/mutable_write.c:555-558 | The tombstone carries state 3, the next generation as far as 64 bits hold it, and name space, extent, size, time and checksum of the deleted entry. |
| Refinement.CommitShown | src/mutable_write.c:434-438 | After a completed commit of a name that can be shown, the slot holds the entry and readers see exactly the new object and otherwise what they saw before. |
| Protocol.FinalShown | src/mutable.c:241-256 | A committed entry is spoiled by a stale one exactly if its name could not be shown to begin with. |
| Protocol.TombstoneSurvives | src/mutable_write.c:555-560 | The DELETING tombstone, wrapped generation included, hides the object and nothing else. |
| Runs.WriteLeads | src/mutable_write.c:422-438 | Each crash during or after a write call is one of the steps runs are made of. |
| Runs.DeleteLeads | src/mutable_write.c:553-562 | The same for a delete call. |
| Runs.RunStaysInside | src/mutable_write.c:422-438 | Over any run of calls, each of which may crash anywhere, nothing outside the slots and the data area changes, so the same region is found again. |
| Runs.NothingFabricated | src/mutable_write.c:422-438 | Any object a reader finds after such a run is one the region began with, or exactly what some call was asked to store under that name. |
| Runs.OthersUntouched | src/mutable_write.c:399-408 | A name no call was about stays visible with the same object, or stays invisible. |
| Runs.QuarantineForever | src/mutable.c:241-256 | A quarantined slot keeps its entry and stays quarantined over every run. |
| Runs.StuckForever | src/mutable.c:241-256 | A name borne by an unfinished entry and seen by no reader is never seen again, whatever calls follow. |
| Limits.CrashSticks | src/mutable_write.c:422-426 | A crash right after the announcement of a new name leads to such a stuck name: the proviso of the refinement is needed. |
| Limits.DeleteSticks | src/mutable_write.c:555-562 | A crash in the first moment of a delete can leave the tombstone: then the name is stuck for good, or, if the generation was the largest, the slot is malformed and the directory takes no new name. |
| Limits.UnsyncedLoses | src/mutable_write.c:436-438 | Leftovers must not be slots: if a writer stopped before its last sync, the next caller sees the new object, and a crash at the first moment of its call can make it disappear. |
| Limits.WriteShownExactly | src/mutable_write.c:393-438 | A completed write is seen exactly if the name is visible already or no unfinished entry bears it; otherwise it reports success, shows nothing, and the directory is degraded. |
| Limits.DegradedRefusesNew | src/mutable_write.c:410 | A degraded directory takes no new name. |
| Limits.RepeatSucceedsExactly | src/mutable_write.c:406-416 | Repeating a successful creation succeeds exactly if the requested capacity was zero or a multiple of 64, because creation rounds it and overwriting compares it unrounded. |
| Limits.TombstoneCleanExactly | src/mutable_write.c:555-558 | The tombstone leaves a clean directory clean exactly if the generation is not the largest: the increment is unchecked and wraps to zero. |
| Refinement.DecisionRefines | src/mutable_write.c:393-421 | In a tidy region the writer's verdict is a function of the map of names alone: room, capacity, generation and lowest free extent included. |
| Refinement.CallRefines | src/mutable_write.c:393-438 | A completed call keeps the region tidy and does to the view what the abstract store does. |
| Refinement.RunRefines | src/mutable_write.c:393-438 | Any run of completed writes and deletes from a tidy region refines the abstract map from folded names to bytes, generation and extent. |
| Sessions.MakeCall | src/mutable_write.c:352-565 | One call of either kind: its crashes and its outcome are steps of a run, and completed it leaves exactly what the abstract step leaves. |
| Sessions.MakeCalls | src/mutable_write.c:352-565 | Calls made in order on one open file, failed writes among them: their images form a run, every crash at any moment of the session leaves the last image of a run cut short, and if every source kept its checksum and the copy buffer has the least size, the file ends as the list of completed calls prescribes. |
| Refinement.BlankIsEmpty | src/writer.c:660-667 | The region the container writer emits opens, is tidy and shows nothing. |
| Refinement.FreshRunRefines | src/writer.c:414-436 | From such a region every run of completed calls refines the abstract store from the empty map on. |
| Refinement.ReadBack | src/mutable.c:400-407 | What a completed write stored is what the next lookup returns. |
| Bundle.ImageUnique | src/mutable_bundle.c:501-581 | The layout leaves nothing open: one list of files has one image. |
| Bundle.HeaderExactly | src/mutable_bundle.c:751-776 | The header checks hold exactly for the printed header with these numbers. |
| Bundle.EntryExactly | src/mutable_bundle.c:812-831 | The entry checks hold exactly for the printed entry with these numbers. |
| Formats.BundleAccepted | src/mutable_bundle.c:751-776 | Which 64 bytes head an acceptable bundle, in literal offsets, letters and numbers. |
| Formats.BundleEntry | src/mutable_bundle.c:812-831 | Entry i of a bundle image stands at 64 + 64 i and names place, size and checksum of its path and data, which stand there. |
| BundleReader.OpenBundle | src/mutable_bundle.c:700-918 | The opener succeeds exactly on accepted images and lists their entries. |
| BundleTheorems.ImageAccepted | src/mutable_bundle.c:754-906 | The image of any list within the limits is accepted, and holds that list. |
| BundleTheorems.AcceptedIsImage | src/mutable_bundle.c:754-906 | An accepted image is, byte for byte, the image of the files it stores. |
| BundleTheorems.AcceptsExactly | src/mutable_bundle.c:754-906 | The opener accepts exactly the images of the lists it allows. |
| Rules.ListedNames | src/mutable_bundle.c:832-870 | The names an open bundle lists are valid, no longer than allowed, strictly ascending, and no two alike but for the case of letters. |
| Rules.ListedFiles | src/mutable_bundle.c:812-906 | What an open bundle lists of a file, place, size and checksum, is true of the bytes stored there. |
| Rules.ListRules | src/mutable_bundle.c:754-906 | The lists of files a bundle may hold, in terms of names, order and sizes. |
| Rules.BundleCall | src/mutable_bundle.c:720-735 | Bundles are kept in namespaces 1 and 2, and which limits a caller may set. |
| BundleReader.CStringEnds | src/mutable_bundle.c:839-846 | A stored path is listed up to its first zero byte. |
| BundleTheorems.CanonicalExactly | src/mutable_bundle.c:156-181 | An accepted image is the image of a list the builder could be given exactly if no stored path contains a zero byte, and exactly then are the listed names the stored ones. |
| BundleBuilder.TruncatedName | src/mutable_bundle.c:839-846 | The witness: a path stored with a zero byte inside opens and is listed cut short. |
| BundleBuilder.BuildSource | src/mutable_bundle.c:416-583 | Building succeeds exactly if some arrangement of the files is valid, distinct after folding, in increasing order and within the limits; the source then stands for the image of that arrangement. |
| BundleBuilder.SortedUnique | src/mutable_bundle.c:474-476 | There is only one strictly increasing arrangement, and sorting finds it. |
| BundleBuilder.OrderIrrelevant | src/mutable_bundle.c:474-476 | The order in which files are given makes no difference to the bundle. |
| BundleBuilder.RoundTrip | src/mutable_bundle.c:416-583 | What is built opens under the same limits, lists the paths in strictly increasing byte order, and holds exactly the files. |
| BundleBuilder.PrintAfterParse | src/mutable_bundle.c:754-906 | Building the files of an accepted image again gives the image, if its paths contain no zero byte. |
| BundleBuilder.ReadEntryAt | src/mutable_bundle.c:955-984 | Reading a file of an open bundle gives its bytes at every offset, shortened at its end. |
| BundleSource.FlatIsImage | src/mutable_bundle.c:544-581 | Prefix drawn entry by entry, files laid over zeros: the result is the image. |
| BundleSource.SourceReadAt | src/mutable_bundle.c:372-414 | Random access into the never-built image returns exactly that slice of it, for every offset and length. |
| JsonParse.ValueSound | src/json.c:209-288 | What a successful parse has consumed is the text of the tree it returns, and the tree keeps to the grammar and the depth. |
| JsonParse.ValueComplete | src/json.c:209-288 | The text of a tree of the grammar is parsed to that tree. |
| JsonParse.AcceptsExactly | src/json.c:290-308 | Accepted are exactly the texts of the grammar of RFC 8259 (sections 2 to 7, surrogate escapes paired) with at most 128 nested containers. |
| JsonLaws.Marks | src/json.c:116-288 | White space, digits, signs, brackets, quote, escape, colon and comma are the letters RFC 8259 lists, and the depth limit is 128. |
| JsonParse.TextComplete | src/json.c:290-308 | A rendered tree with white space around it parses to that tree. |
| JsonTokens.Parse | src/json.c:290-308 | The recursive parser over position, depth and token array succeeds exactly when the grammar does and leaves exactly the tokens of the tree. |
| JsonTokens.Parser.AddToken | src/json.c:89-114 | A new token is appended and counted with its parent, and no other token changes. |
| JsonTokens.Parser.ParseString | src/json.c:116-163 | A string token spans its quotes, or the parse fails where the grammar has no string. |
| JsonTokens.Parser.ParseNumber | src/json.c:165-205 | A number token spans the longest number, or the parse fails. |
| JsonTokens.Parser.ParseContainer | src/json.c:209-258 | A container leaves its own token and those of its members, with the depth restored, or fails. |
| JsonTree.ValueNested | src/json.c:89-114 | Every token lies strictly inside its parent; children of one parent follow each other without overlap. |
| JsonTree.ValueCounted | src/json.c:89-114 | Each child count is the number of tokens naming that parent. |
| JsonStrings.DecodeNext | src/json.c:316-346 | One character, escape or surrogate pair is read as the value it stands for. |
| JsonLaws.EscapedDecodes | src/json.c:316-346 | Every Unicode scalar value, escaped by one \u sequence or by the surrogate pair of section 7 of RFC 8259, decodes to its own encoding. |
| JsonLaws.ShortEscapes | src/json.c:316-346 | The two-character escapes are those of section 7 and stand for the characters named there. |
| JsonLaws.CharLetters | src/json.c:116-160 | A character of a string is a byte that needs no escape, a short escape, one \u escape outside the surrogates, or a high surrogate followed by a low one. |
| JsonLaws.HexDigits | src/json.c:15-34 | A hexadecimal digit is one of sixteen letters, in either case, and counts by its place. |
| JsonStrings.CopyString | src/json.c:374-405 | Copying a string needs a size that does not depend on the buffer, succeeds exactly if the buffer has it, and then delivers the decoded text and a terminator. |
| JsonStrings.TokenDecodesValid | src/json.c:374-405 | Strings of a valid UTF-8 document decode to valid UTF-8. |
| JsonStrings.StringEquals | src/json.c:425-445 | Comparison with a text is comparison of the decoded string. |
| JsonStrings.StringsEqual | src/json.c:447-480 | Comparison of two string tokens is comparison of their decoded texts. |
| JsonStrings.ReadInteger | src/json.c:508-531 | A number token reads as an integer exactly if it has no fraction and no exponent and fits 64 bits, and then as the value of its digits. |
| JsonLaws.IntegersRead | src/json.c:508-531 | Exactly the integers from -2^63 to 2^63 - 1, written with their sign, read back as themselves. |
| JsonLaws.IntegerExactly | src/json.c:508-531 | A number reads as an integer exactly if it has neither fraction nor exponent and its digits, with the sign, lie inside 64 bits. |
| JsonLaws.DecimalPlaces | src/json.c:508-531 | Each digit counts by its place in base ten. |
| JsonWalk.NextDirectChild | src/json.c:482-489 | The next child is the first later token with that parent, or none. |
| JsonWalk.Walk | src/mutable_stats.c:37-60 | Stepping through the children of an object meets key and value of its members in turn, all of them, in order. |
| JsonWalk.HasUniqueKeys | src/mutable_stats.c:37-60 | The pairwise comparison decides whether all keys are distinct as decoded texts. |
| Stats.ParseAchievements | src/mutable_stats.c:87-122 | Reading the achievements through tokens yields what the tree says, or fails where the profile forbids it. |
| Stats.ParseStats | src/mutable_stats.c:124-222 | Reading a document through validator, parser and token walk yields what its tree says. |
| StatsProfile.ReadsExactly | src/mutable_stats.c:87-222 | A document is read exactly if it is an object of different members, each one of ten names with a value that fits it, with schema and version and the times in order; every field is then what its member says, or absent. |
| StatsProfile.OutcomeExactly | src/mutable_stats.c:124-222 | Of all byte strings exactly the valid JSON texts of 1 to 16384 bytes that keep to that profile are read, and they determine the values. |
| StatsProfile.AchievementsExactly | src/mutable_stats.c:87-122 | An achievements object has three counts at most, the first two obligatory, each within the one before. |
| StatsText.DigitsRead | src/mutable_stats.c:234-244 | A number printed in decimal reads back as itself and has no leading zero. |
| StatsPrinter.Serialize | src/mutable_stats.c:279-342 | Serialization of valid values never meets the size limit, reports the exact size, and fills the buffer with the document exactly if it fits; otherwise the buffer is untouched. |
| StatsTemplate.DocumentIs | src/mutable_stats.c:279-342 | The document is the template of the profile filled in: names, marks and order in letters, absent fields left out. |
| StatsTemplate.ValuesAre | src/mutable_stats.c:246-277 | The values that may be written, in numbers. |
| StatsPrinter.RoundTrip | src/mutable_stats.c:279-342 | Reading the serialized document gives back the same flags and flagged fields. |
| StatsPrinter.AcceptedValid | src/mutable_stats.c:246-277 | Whatever the reader accepts passes the check of values to be written. |
| StatsPrinter.Rewritten | src/mutable_stats.c:124-222 | Rewriting any accepted document, whatever its order, spacing and escapes, keeps its values. |
| StatsStore.WriteStats | src/mutable_stats.c:383-402 | Storing statistics is a write call for the serialized document, with its crash guarantees; invalid values touch nothing. |
| StatsStore.StatsReadBack | src/mutable_stats.c:344-381 | After a completed update the next lookup finds a document that reads as the values written, in namespace 3, under its key and with its time of modification. |
| StatsStore.StatsSurvive | src/mutable_stats.c:344-402 | Over any run with crashes, statistics that a reader finds can be read, if only statistics were stored under that name. |
| Sha256.PadAligned | src/sha256.c:97-119 | The padded message is a whole number of blocks, and no shorter padding of that shape would do. |
| Sha256.Context.Update | src/sha256.c:80-95 | Feeding data, however cut, keeps the context standing for the concatenation. |
| Sha256.Context.Finish | src/sha256.c:97-119 | The digest is the hash of the whole message; for messages of 2^61 bytes and more the length field holds the low 64 bits. |
| Sha256Laws.RoundIs | src/sha256.c:52-66 | A round, measured bit by bit: choice takes f where e is set and g elsewhere, majority the value two of three share, each big sigma the parity of three named bits, and the eight variables are updated by sums modulo 2^32. |
| Sha256Laws.ScheduleIs | src/sha256.c:37-51 | The schedule: sixteen big-endian words, then each word the sum of four earlier ones, two of them scrambled bit by bit as the standard says. |
| Sha256Laws.CompressExactly | src/sha256.c:8-69 | The state after a block is the one the relations of section 6.2.2 of FIPS 180-4 demand, and they demand only that one. |
| Sha256Laws.HashExactly | src/sha256.c:71-119 | The digest is the SHA-256 of the message as FIPS 180-4 defines it over padded blocks, and no other value is. |
| Sha256Constants.ConstantsAre | src/sha256.c:12-28 | The round constants and the initial state are the first 32 bits of the fractional parts of the cube roots of the first 64 primes and the square roots of the first eight. |
| Sha256Constants.PrimesAre | src/sha256.c:12-28 | The list of primes starts with 2, and each is followed by the next prime. |
| Footer.ParseFooter | src/footer.c:35-129 | The reader's checks accept exactly the footers the format allows, and fill in the layout they announce. |
| Footer.FooterExactly | src/footer.c:50-71 | The fields hold exactly for the printed footer with these numbers. |
| Formats.FooterAccepted | src/footer.c:35-129 | Which 128 bytes the reader accepts as the footer of a file, in literal offsets, letters and bounds, and what they announce. |
| Footer.PrintAccepted | src/writer.c:673-691 | A footer the writer emits is accepted and says what it was made from. |
| Footer.AcceptedPrints | src/footer.c:50-71 | An accepted footer is byte for byte the print of what it says. |
| Ridx.Sweep | src/ridx.c:278-297 | The sweep over sorted ranges succeeds exactly if no two files overlap and every byte outside them is zero. |
| RidxReader.ParseRidx | src/ridx.c:116-353 | The index reader succeeds exactly on accepted files and returns the stored entries. |
| Formats.IndexAccepted | src/ridx.c:139-185 | Which bytes the reader accepts as the header of an index, in literal offsets, letters and numbers. |
| Formats.IndexEntryAccepted | src/ridx.c:187-213 | The same for one entry, and what it says. |
| RidxReader.PayloadTiled | src/ridx.c:278-297 | Each payload byte belongs to exactly one file or is zero. |
| RidxReader.OpenedTiled | src/ridx.c:278-341 | In any file whose footer and index pass, each payload byte belongs to exactly one file or is zero, and payload, index, metadata, cover, zero padding, mutable region and footer follow each other without gap or overlap up to the end; exactly one entrypoint exists and it starts at zero. |
| Rules.OpenedFiles | src/ridx.c:187-276 | The files of any container that opens have valid names of 1 to 480 bytes that differ after folding, known flags, a type that is not reserved, no stray checksum, and lie inside the payload; a single file fills it. |
| RidxReader.FileTiled | src/ridx.c:299-341 | The same for any layout a footer can announce: payload, index, metadata, cover, zero padding, mutable region and footer follow each other without gap or overlap up to the end of the file; exactly one entrypoint exists and it starts at zero. |
| Writer.LoadSettings | src/writer.c:121-162 | Settings are accepted exactly if they meet the documented limits, with defaults filled in. |
| Rules.SettingsExactly | src/writer.c:121-162 | The settings in numbers: types that are neither absent nor reserved, pieces of 1024 bytes at least, room behind a directory of whole pages; absent numbers become 8 slots and pieces of 65536 bytes. |
| Rules.SettingsReopen | src/writer.c:121-162 | A region of whole pages may be asked for exactly if the header written for it is one its reader takes as plausible. |
| Writer.CheckSources | src/writer.c:488-520 | The checks on the files succeed exactly if every name is valid and distinct after folding and exactly one non-empty, typed entrypoint exists. |
| Rules.SourceRules | src/writer.c:488-520 | One file in numbers: two flags, a name of at most 480 bytes, any type but the reserved one. |
| Writer.OrderIsPermutation | src/writer.c:588-591 | Writing the entrypoint first and the others in order is a permutation with a given inverse. |
| Writer.BuildIndex | src/writer.c:605-628 | The index stored field by field is the printed index of the entries. |
| Writer.WriteContainer | src/writer.c:438-734 | The emitted bytes are the container of the arguments; without result, the arguments were refused or sizes leave 64 bits. |
| Container.ContainerAccepted | src/writer.c:588-692 | A written container passes footer and index parsing. |
| Container.FilesReadBack | src/ridx.c:187-213 | Every file is found under its own name, flags and format, with exactly its bytes and, if its flags ask for one, their checksum. |
| RidxReader.ReadEntry | src/ridx.c:415-447 | Reading a file of an accepted container gives its bytes at every offset, shortened at its end. |
| Container.ReadsBack | src/ridx.c:415-447 | For a written container these are the bytes of the source file. |
| Container.ExtrasReadBack | src/writer.c:634-650 | Metadata and cover read back, and the stored hash is the SHA-256 of everything before the mutable region; platform, launch format and hash algorithm read back as the caller gave them. |
| Container.RegionReady | src/writer.c:651-668 | The mutable region of a written container opens, is tidy and empty. |
| Png.Validate | src/png.c:40-149 | The chunk loop with its flags computes the verdict of the state machine, for every chunk size of the checksum. |
| Formats.PngLetters | src/png.c:20-120 | Signature and chunk types in letters. |
| Rules.HeaderRules | src/png.c:21-38 | The header of a cover: sides from 1 to the limit, one of fifteen pairs of colour type and depth, no other compression or filter, interlaced or not. |
| Rules.PaletteRules | src/png.c:118-125 | A palette has 1 to 256 colours of three bytes, and no grey image has one. |
| Rules.TypeRules | src/png.c:12-19 | A chunk type is four letters, the third a capital. |
| PngLanguage.StepTells | src/png.c:101-143 | The flags say what has been seen, and a chunk is taken exactly where the rules of order allow it. |
| PngLanguage.AcceptsExactly | src/png.c:40-149 | Accepted are exactly the signature followed by sound chunks with one IHDR first, at most one permitted palette before the image data, image data in one run, no unknown critical chunk, and one empty IEND last. |
| PngLanguage.ReadsAs | src/png.c:40-149 | A legal cover is read as its own chunks, with the dimensions of its header. |
| PngEncoder.Encode | src/probe.c:372-413 | The encoder fills a buffer of exactly the computed size with the image. |
| PngEncoder.EncodedAccepted | src/probe.c:372-413 | Every encoded image of non-zero size within the limits is accepted with its own dimensions. |
| PngEncoder.AcceptedExactly | src/probe.c:372-413 | Of all images whose stream length fits the 32-bit field, exactly those with sizes inside the limits and a stream below 2^31 bytes are accepted: longer ones are encoded but refused. |
| PngEncoder.EncodedInvertible | src/probe.c:372-413 | Undoing the stored blocks (section 3.2.4 of RFC 1951) and filter byte 0 gives the pixels back. |
| PngEncoder.SumsClosed | src/probe.c:349-358 | The two sums of the checksum in closed form: one plus all bytes, and the length plus each byte times its distance from the end, modulo 65521. |
| PngEncoder.BlocksSize | src/probe.c:376-379 | The number of stored blocks, hence the buffer size, is the one computed in advance. |
| Mapping.NoSumWraps | src/io_file.c:176-214 | No sum the function leaves unchecked exceeds 64 bits, for offsets and page sizes that are signed 64-bit numbers. |
| Mapping.MapPayload | src/io_file.c:146-308 | The mapping succeeds exactly if the span fits the address space, and builds the guarded reservation page by page. |
| Mapping.ShownExactly | src/io_file.c:176-292 | Every payload byte is shown in place, everything else inside the span is zero, and only the guard pages at either end are inaccessible. |

## Left out

- Protocol.MutableWrite: a failing write, sync or source read that returns an error and leaves the process running is not modelled; `Limits.UnsyncedLoses` shows why the guarantee could not extend to calls after a failed sync of a slot.
- Protocol.MutableDelete: the same.
- StatsStore.WriteStats: the same.
- Disk.SourceWrite: the source delivers all its bytes, possibly others than on the first pass.
- Disk.CrashAtomic: sectors are atomic; writes torn inside a sector are considered only for the final rewrite of an entry (`Entries.TornCommit`), where they matter and can be decided.
- Ridx.BurstRejected: damage to the entry count changes how many bytes the checksum covers, so nothing is claimed about it.
- BundleReader.OpenBundle: the error codes of a refused bundle are merged into one refusal.
- RidxReader.ParseRidx: the error codes of a refused index are merged into one refusal.
- Writer.LoadSettings: the mask of known flags is not modelled, nor the limits on metadata and cover, which only their validation uses.
- Writer.WriteContainer: metadata and cover are taken as already validated, an empty one meaning absent; probing the payload for them is not modelled, and the refusals share one result. It returns the file's bytes; the temporary file and its publication are not modelled.
- BundleSource.SourceReadAt: the source files keep their contents during the call.
- JsonTokens.Parse: the byte offset and text of an error are not modelled, nor the limit of 2^31 tokens.
- JsonTokens.Parser.ParseString: the same for the offset.
- JsonTokens.Parser.ParseNumber: the same for the offset.
- JsonTokens.Parser.ParseContainer: the same for the offset.
- Stats.ParseStats: its two kinds of refusal after the size check share one result.
- PngEncoder.Pixels: undoes only what the encoder produces, stored blocks and filter 0; it is the inverse used in the theorems, not a PNG decoder.
- Mapping.MapPayload: mmap, pread and mprotect are copies into cells that may be unreadable; the file is at least as long as the payload region, as the reader has checked, and its length is a signed 64-bit number; failing system calls are not modelled.
- Sha256.Context.Finish: for messages of 2^61 bytes and more the length field is the truncated one the code stores, which the standard does not define.
- Allocation failures, NULL and struct_size checks, error texts, Windows branches, file locking and temporary files.
- Cursor wrappers, extraction and cache publishing, which only forward to what is modelled.
- Header probing heuristics and the metadata field list, which are flat chains of independent checks.
- Sizes are 64-bit: the address-space limit of a 32-bit process is not modelled.
