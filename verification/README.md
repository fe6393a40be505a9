# Verified model of CLeonOS user-space programs

This project models the user-space programs of CLeonOS in which state, arithmetic or parsing is
dense, and proves what they are for. `dafny verify dfyconfig.toml` checks the whole project.

| files | what they model |
|---|---|
| `Sha256`, `Sha256Constants`, `Sha256Functions`, `Sha256Stream` | FIPS 180-4: definitions, what its constants and bit functions are, and the installer's buffered SHA-256 against them |
| `FileSystem` | paths and the kernel's spelling of them, the tree of files, and the system calls the installer makes, any of which may fail |
| `InstallFiles`, `TreeWalk`, `TreeCopy` | hashing, directory creation, file copies, and the recursive scan and copy whose destination lies inside its own source |
| `ManifestText`, `ManifestFile` | the manifest: printing, parsing, generating and loading it |
| `UpdatePaths`, `UpdatePasses`, `UpdateObsolete` | the update's paths and where they lead; the plan and the copies; the obsolete files |
| `UpdateFiles`, `UpdateRefresh`, `UpdateRead` | its state files and metadata; the refreshed manifest; the two manifests it reads |
| `UpdateConditions`, `UpdateApply`, `UpdateShell` | when its steps must succeed; all that follows the plan; the whole update |
| `UpdateAgain` | a second update after a first |
| `UpdateExample` | a disk on which the update succeeds, and manifests on which it goes wrong |
| `VerifyManifest` | the verification of a disk, and of an updated one |
| `CalcGrammar`, `CalcParser`, `CalcRoundTrip`, `CalcSpelling` | the calculator's recursive-descent evaluator over an abstract number type, and exactly which texts it gives a value |
| `PlotLine` | its integer line drawer |
| `MemoryFile` | the archiver's growable in-memory file |
| `PathResolve` | the shell's path normaliser |
| `PartitionTable` | the partition editor for the master boot record |
| `DnsMessage`, `DnsResponse` | the downloader's DNS names and response parser (RFC 1035) |
| `ImageTiles`, `BmpRows` | the image viewer's tiled scaler and the BMP viewer's row-streaming sampler |
| `EntrySort` | the file explorer's name order and insertion sort |
| `Calendar` | the weekday formula and the printed month |
| `Common` | options, octets, and the arithmetic the others share |

Code that works step by step is a method, or a class with its methods, proved against functions on
values; the laws are lemmas about those functions.

How to read the contracts:

* File contents and paths are strings of C characters; a content is hashed through its octets.
* A system call may fail at any time, and then changes nothing. Calls that look at a path or list a
  directory fail too; as in the code, such a failure often reads as a missing file, and the walk or
  the pass goes on without it: a copy or a manifest can miss a file, an obsolete file survive, and
  the old manifest read as empty, all without an error. Two constants of the file system say which
  failures a run has: `healthy` means that no call fails that could succeed and that memory never
  runs out, `Sighted()` that at least no call that looks or lists fails. Results on all files of a directory, all obsolete
  files or all entries are stated for a sighted machine; what holds on every machine is stated for
  the files actually reached, which are then among them.
* Every call looks a path up by the kernel's spelling of it (`Paths.Real`): repeated slashes are
  folded, "." is skipped, ".." is refused (docs/syscall.md:84-88). The installer compares paths as
  they are written; where a path is to be found is said with `Real` and, for the target of a manifest
  path, with `Place`.
* The kernel lists a directory in an order that depends only on the set of names.
* In `MemoryFile` the outcome of each allocation, and in `PartitionTable` the outcome of each
  disk access, is a parameter.
* Words of the hash are numbers below 2^32 with addition modulo 2^32; the wrap-around of 64-bit
  products and sums is written out in `MemoryFile`; C's truncating division coincides with the one
  used in `Calendar` from year 1 on.

Findings, each stated as a lemma or a contract:

* The dry run of an update counts entries, not files: it announces one deletion too many for every
  further entry that names a deletable file, in whatever spelling, and one too few for every state
  file that an entry names in another spelling; it is right exactly when these are equally many
  (`UpdateObsolete.AnnouncedExactly`, `UpdateShell.RunUpdate`; `UpdateExample.ListedTwice` and
  `UpdateExample.StateDeleted` are such manifests).
* An old manifest line that spells a new file in another way takes its copy away again, so the update
  cannot succeed (`UpdateShell.RunUpdate`; `UpdateExample.NewRespelled`); and one that spells the
  user database in another way makes a successful update delete it (`UpdateExample.UsersDeleted`).
* A printed manifest reads back exactly when no path contains a bar, a line end or a NUL
  (`ManifestText.RoundTrip`; `ManifestText.BarIsLost` is a path that is lost).
* Overwriting with an empty source never succeeds by writing: a successful write of no bytes
  returns 1 where 0 is expected (`InstallFiles.OverwriteWhole`, `InstallFiles.EmptySource`). So on a
  healthy machine no update succeeds while `/etc/os-version` or `/etc/os-release` is empty
  (`UpdateFiles.SyncMetadata`, `UpdateShell.RunUpdate`).
* The update never makes the directory of its state files: without `/system/databases` on the
  target it fails (`UpdateFiles.WriteStateFiles`).
* The calculator takes a comma after a third argument, and only there: `clamp(1,2,3,)` has a value
  (`CalcRoundTrip.ReadCall`, `CalcSpelling.EvalThenPrint`).
* Closing an empty writable archive file answers failure exactly when it was stored
  (`MemoryFile.File.Close`).
* A host name of more than 31 labels can be encoded but never skipped in the response
  (`DnsMessage.EncodedIsSkipped`; `DnsMessage.DeepHostNotSkipped` is one of 63 characters).
* The sort of the file explorer orders names whatever they are exactly for listings in which,
  directories aside, each type forms one block (`EntrySort.OrderedForAllNames`).
* The documentation of the write call promises 1 for success; the code relies on the number of
  bytes, and the model follows the code.

## Model

| member | source | states |
|---|---|---|
| Sha256.PaddingIsStandard | cleonos/c/apps/install2disk_main.c:443-469 | for messages under 2^61 bytes the padding is one 0x80 byte, the least number of zero bits that leaves 448 modulo 512, and the 64-bit big-endian bit length, as section 5.1.1 of FIPS 180-4 demands |
| Sha256.ZeroBytesAreLeast | cleonos/c/apps/install2disk_main.c:445-459 | in both the one-block and the two-block case no shorter run of zero bits would align the length |
| Sha256.BigEndianValue | cleonos/c/apps/install2disk_main.c:461-469 | the stored digits are those of the number, so the length field can be read back |
| Sha256.HashOneMoreBlock | cleonos/c/apps/install2disk_main.c:407-429 | appending a block to whole blocks compresses exactly that block into the chain value (section 6.2.2) |
| Sha256Constants.ConstantsAreRoots | cleonos/c/apps/install2disk_main.c:318-326 | the 64 round constants are the first 32 bits of the fractional parts of the cube roots of the first 64 primes (section 4.2.2), the initial hash value those of the square roots of the first eight (section 5.3.3) |
| Sha256Functions.ChBits | cleonos/c/apps/install2disk_main.c:365 | Ch has the bits of its second argument where the first has ones, and those of the third elsewhere |
| Sha256Functions.MajBits | cleonos/c/apps/install2disk_main.c:368 | every bit of Maj is the one that two of the three arguments have |
| Sha256Functions.BigSigma0Bits | cleonos/c/apps/install2disk_main.c:367 | every bit is the sum modulo 2 of the three bits that the rotations by 2, 13 and 22 bring there |
| Sha256Functions.BigSigma1Bits | cleonos/c/apps/install2disk_main.c:364 | the same for the rotations by 6, 11 and 25 |
| Sha256Functions.SmallSigma0Bits | cleonos/c/apps/install2disk_main.c:347-348 | the same for the rotations by 7 and 18 and the shift by 3 |
| Sha256Functions.SmallSigma1Bits | cleonos/c/apps/install2disk_main.c:349-350 | the same for the rotations by 17 and 19 and the shift by 10 |
| Sha256Functions.AddIs | cleonos/c/apps/install2disk_main.c:351 | a sum that does not fit 32 bits loses 2^32, once |
| Sha256Functions.WordOctets | cleonos/c/apps/install2disk_main.c:343-345 | four octets are read most significant first |
| Sha256Stream.ReverseSum | cleonos/c/apps/install2disk_main.c:351 | the schedule sum in the installer's order of terms equals the sum in the standard's order, modulo 2^32 |
| Sha256Stream.ScheduleStep | cleonos/c/apps/install2disk_main.c:346-352 | one step of the message schedule recurrence of section 6.2.2 |
| Sha256Stream.Schedule | cleonos/c/apps/install2disk_main.c:343-352 | the array filled in place holds the 64 schedule words of the block |
| Sha256Stream.Context.Transform | cleonos/c/apps/install2disk_main.c:317-388 | the in-place schedule and 64-round loop compute the standard compression of the chain value by the block, with the constants that ConstantsAreRoots describes |
| Sha256Stream.Context.Init | cleonos/c/apps/install2disk_main.c:390-405 | a reset context has absorbed nothing and holds the initial hash value |
| Sha256Stream.Context.Update | cleonos/c/apps/install2disk_main.c:407-429 | any chunk, of any length, extends the absorbed message by exactly its bytes |
| Sha256Stream.Context.PadTail | cleonos/c/apps/install2disk_main.c:443-459 | both padding branches leave the chain and the buffer that the standard padding asks for |
| Sha256Stream.Context.Final | cleonos/c/apps/install2disk_main.c:431-475 | the result is the standard digest of everything absorbed, whatever the chunks were |
| Sha256Stream.LastBlock | cleonos/c/apps/install2disk_main.c:443-470 | what is compressed in the end is the message followed by its standard padding |
| FileSystem.FileSystem.Write | cleonos/c/apps/install2disk_main.c:816-833 | fs_write as the installer relies on it: byte count or 0, content replaced, nothing else changed |
| FileSystem.FileSystem.Read | cleonos/c/apps/install2disk_main.c:499-512 | a read delivers any non-empty part of what is left, and nothing only at the end |
| FileSystem.FileSystem.StatType | cleonos/c/apps/install2disk_main.c:1130-1140 | the kind of what the kernel finds at a path, or the answer for a missing one when the call fails; never anything else |
| FileSystem.FileSystem.ChildName | cleonos/c/apps/install2disk_main.c:1147-1152 | the name at an index of the listing, or none; none within the listing only if the call fails |
| FileSystem.PutKeepsShape | cleonos/c/apps/install2disk_main.c:557-573 | creating a node under an existing directory keeps the tree a tree |
| Paths.JoinParts | cleonos/c/apps/install2disk_main.c:522-540 | joining a directory and a name gives a path with exactly that parent and that name |
| Paths.ParentBelow | cleonos/c/apps/install2disk_main.c:542-555 | the prefix test follows the directory structure |
| Paths.RealIsPlain | docs/syscall.md:82-91 | respelling is done once: the result is spelled the way the kernel spells it |
| Paths.RealLonger | docs/syscall.md:84-87 | an empty name and "." are skipped, ".." is refused, any other name is one step further down |
| Paths.RealBelow | docs/syscall.md:84-87 | no spelling leads out of a directory, since ".." is refused |
| Paths.RealMounted | docs/syscall.md:82-91 | a path on the mounted disk is respelled as it is below the root |
| FileSystem.NodeIsPlain | docs/syscall.md:82-91 | the paths of a well-formed tree are spelled the kernel's way, so looking one up finds it |
| InstallFiles.HexEncode | cleonos/c/apps/install2disk_main.c:477-480 | two lower-case hexadecimal digits for each digest byte |
| InstallFiles.HexAt | cleonos/c/apps/install2disk_main.c:477-480 | the two characters of the i-th byte are its high and its low digit among 0 to 9 and a to f |
| InstallFiles.HashFile | cleonos/c/apps/install2disk_main.c:482-520 | whatever sizes the reads have, the result is the digest of the file's whole content; it fails only for a non-file or a failed call |
| InstallFiles.MakeDir | cleonos/c/apps/install2disk_main.c:557-573 | succeeds for an existing directory, creates a missing one, and changes nothing else |
| InstallFiles.MakeParents | cleonos/c/apps/install2disk_main.c:575-601 | creates only missing directories above the path; on a healthy machine it succeeds exactly when every one of them exists or can be made |
| InstallFiles.StreamInto | cleonos/c/apps/install2disk_main.c:932-980 | the chunked copy loop copies the whole content and adds its size to the tally |
| InstallFiles.CopyUnverified | cleonos/c/apps/install2disk_main.c:2672-2826 | on success the target is a copy of the source and nothing else differs; on a healthy machine it succeeds exactly when the source exists and the target can be a file |
| InstallFiles.CopyFile | cleonos/c/apps/install2disk_main.c:791-999 | the same for the copy that compares sizes afterwards |
| InstallFiles.OverwriteWhole | cleonos/c/apps/install2disk_main.c:1001-1106 | on a healthy machine it succeeds exactly when the source is a non-empty file and the target can be one, and then the target holds the source; for an empty source success means that nothing was changed, since the call expects a byte count of 0 |
| InstallFiles.EmptySource | cleonos/c/apps/install2disk_main.c:1001-1106 | a tree in which a source can be copied and, being empty, cannot be overwritten with |
| TreeWalk.ChildTowards | cleonos/c/apps/install2disk_main.c:1142-1172 | every node below a directory is reached through a listed child |
| TreeWalk.ChildrenDisjoint | cleonos/c/apps/install2disk_main.c:1142-1172 | and through only one |
| TreeWalk.CoverAll | cleonos/c/apps/install2disk_main.c:1142-1172 | the children together lead to all files below a directory |
| TreeWalk.CoverNext | cleonos/c/apps/install2disk_main.c:1142-1172 | no file is reached through two children, so none is counted twice |
| TreeCopy.EligibleSkipped | cleonos/c/apps/install2disk_main.c:1124-1126 | nothing at or below the mount point, /proc or /dev is eligible |
| TreeCopy.ScanTree | cleonos/c/apps/install2disk_main.c:1108-1175 | the plan grows by the number and the bytes of the files seen, all eligible; when no looking or listing call fails these are all the eligible files, and the scan fails only on a path too long or too deep |
| TreeCopy.MirrorInjective | cleonos/c/apps/install2disk_main.c:1211-1243 | two sources are never copied to one target |
| TreeCopy.EligibleAgree | cleonos/c/apps/install2disk_main.c:1177-1246 | however much has been written inside the mount point, the walk still sees the same eligible files with the same content |
| TreeCopy.DirsAll | cleonos/c/apps/install2disk_main.c:1207-1243 | a directory is mirrored with all that lies below it once its own mirror is there and those of all children are |
| TreeCopy.CopyTree | cleonos/c/apps/install2disk_main.c:1177-1246 | nothing outside the mount point ever changes; on success the files reached, all eligible, are at their mirrored paths and counted once; when no looking or listing call fails they are all the eligible files, and every directory, empty or not, has its mirror; a healthy machine succeeds when paths and depth fit |
| TreeCopy.InstallRoot | cleonos/c/apps/install2disk_main.c:3395-3421 | scan, then copy of the same source: when no looking or listing call fails, files and bytes copied equal files and bytes planned, each at its mirror, and every directory of the running system outside the skipped ones is on the target; a freshly formatted target holds nothing but mirrors, and on a healthy machine the copy to it cannot fail |
| ManifestText.SizeRoundTrip | cleonos/c/apps/install2disk_main.c:1554-1558 | the decimal text of any unsigned 64-bit size parses back to that size |
| ManifestText.ParseSizeIs | cleonos/c/apps/install2disk_main.c:1554-1558 | a size field is accepted if and only if it is blanks, an optional sign and digits, and stands for that number, capped at 64 bits and negated modulo 2^64 |
| ManifestText.ParseLineIs | cleonos/c/apps/install2disk_main.c:1526-1564 | a line is accepted as an entry if and only if it is the path, a size field and 64 hexadecimal digits with bars between them, the path absolute, without a bar and short enough |
| ManifestText.LineRoundTrip | cleonos/c/apps/install2disk_main.c:1526-1564 | a printed line of a clean entry parses to the entry |
| ManifestText.ReturnIsStripped | cleonos/c/apps/install2disk_main.c:1629-1636 | one carriage return at the end of a line is not part of it |
| ManifestText.RoundTrip | cleonos/c/apps/install2disk_main.c:1629-1657 | for up to the maximal number of proper entries, loading the printed lines returns the same list in order if and only if no path contains a bar, a line end or a NUL |
| ManifestText.BarIsLost | cleonos/c/apps/install2disk_main.c:1526-1564 | an entry with a bar in its path whose printed line does not load back |
| ManifestText.TooManyEntries | cleonos/c/apps/install2disk_main.c:1637-1642 | one entry too many makes the load fail instead of truncating |
| ManifestText.ParsedAreClean | cleonos/c/apps/install2disk_main.c:1526-1564 | an entry that was loaded never has a bar, a line end or a NUL in its path |
| ManifestText.LoadBuffer | cleonos/c/apps/install2disk_main.c:1629-1657 | the scanning loop over the buffer returns what splitting at line ends and NULs and parsing each line gives |
| ManifestText.CutLine | cleonos/c/apps/install2disk_main.c:1629-1636 | terminating a line in place yields that line without a trailing carriage return |
| ManifestFile.AppendEntry | cleonos/c/apps/install2disk_main.c:1312-1364 | appends exactly the line of the file's true size and hash and keeps all three totals, or changes nothing |
| ManifestFile.ScanManifest | cleonos/c/apps/install2disk_main.c:1366-1442 | the entries appended describe tracked files below the directory, each once, as it is, and all of them when no looking or listing call fails; on a healthy machine it succeeds exactly when every path fits, none is too deep, and the lines fit the manifest |
| ManifestFile.GenerateManifest | cleonos/c/apps/install2disk_main.c:1444-1492 | the new manifest lists tracked files of the running system, each once, with true size and hash, all of them when no looking or listing call fails, and nothing else changes; on a healthy machine it succeeds exactly when the paths and lines fit, there is a tracked file, and the manifest can be created |
| ManifestFile.PrintWeight | cleonos/c/apps/install2disk_main.c:1345-1352 | the size of a printed manifest depends only on the set of files it lists |
| ManifestFile.LoadManifest | cleonos/c/apps/install2disk_main.c:1566-1658 | a load returns the parse of the file, or an empty list for a file that may be missing and is, or seems to be because the call for its size failed |
| UpdatePasses.FindEntry | cleonos/c/apps/install2disk_main.c:1660-1674 | the first entry with the path, or none |
| UpdatePasses.TargetMatches | cleonos/c/apps/install2disk_main.c:2828-2855 | true only if the target file has the entry's size and hash, and always then on a healthy machine |
| UpdatePasses.PlanCopy | cleonos/c/apps/install2disk_main.c:2857-2872 | a copy is planned exactly, on a healthy machine, unless the old manifest lists the entry with the same size and the same hash and the target file has them; never left out otherwise |
| UpdatePasses.CopyEntry | cleonos/c/apps/install2disk_main.c:2874-2912 | touches only the target file; unless the verify count rises, the target matches afterwards; on a healthy machine it succeeds when the source exists and the target can be made, and the count does not rise when the entry describes its source |
| UpdatePasses.CopyingStays | cleonos/c/apps/install2disk_main.c:3189-3199 | copying one entry leaves every other entry as ready to be copied as it was: no file lies below another |
| UpdatePasses.PlanPass | cleonos/c/apps/install2disk_main.c:3141-3166 | counts the planned entries, those the old manifest does not list apart from the others, and the unplanned ones; changes nothing |
| UpdatePasses.PlannedAre | cleonos/c/apps/install2disk_main.c:3141-3166 | an entry is in the plan if and only if the old manifest does not list it, lists it with another size or hash, or the target file does not match |
| UpdatePasses.NewCountIs | cleonos/c/apps/install2disk_main.c:3150-3154 | the number of added files is the number of planned entries whose path the old manifest does not have |
| UpdatePasses.PlanStable | cleonos/c/apps/install2disk_main.c:3141-3199 | what an entry needs does not depend on the copies made before it |
| UpdatePasses.MatchesStay | cleonos/c/apps/install2disk_main.c:3189-3199 | a later copy never spoils an earlier one |
| UpdatePasses.CopyPass | cleonos/c/apps/install2disk_main.c:3189-3199 | touches no target but those of the entries copied; on a healthy machine these are exactly the planned ones, in order, and the tally counts them; with no verify failure every new entry's target matches; when every entry can be copied and describes its source, a healthy machine does it without a failure |
| UpdatePasses.CopyIfNeeded | cleonos/c/apps/install2disk_main.c:3189-3199 | an entry that is not planned leaves the disk as it is |
| UpdateObsolete.CountObsolete | cleonos/c/apps/install2disk_main.c:2914-2970 | the dry run counts no more than the old entries that are obsolete and lead to a file, repetitions included, and exactly those when no looking call fails |
| UpdateObsolete.DeleteObsolete | cleonos/c/apps/install2disk_main.c:2914-2970 | removes nothing but files that obsolete old entries lead to, and all of them when no looking call fails |
| UpdateObsolete.ObsoleteIs | cleonos/c/apps/install2disk_main.c:2914-2970 | obsolete is what lies in the update's scope and is not among the new entries, in the spelling of the manifests |
| UpdateObsolete.DryCountExact | cleonos/c/apps/install2disk_main.c:2914-2970 | what the dry run counts is the number of files to delete and the number of repetitions, and there are none if and only if no deletable file is listed twice in whatever spellings |
| UpdateObsolete.AnnouncedExactly | cleonos/c/apps/install2disk_main.c:2914-2970 | the announced number is the real one if and only if there are as many repetitions as state files removed |
| UpdateExample.ListedTwice | cleonos/c/apps/install2disk_main.c:2914-2970 | a manifest text that lists a deletable file of a well-formed disk twice, in one spelling or in two: two deletions announced, one file there |
| UpdateExample.StateDeleted | cleonos/c/apps/install2disk_main.c:2914-2970 | an old entry for the state file in another spelling: no deletion announced, one made |
| UpdateExample.NewRespelled | cleonos/c/apps/install2disk_main.c:2914-2970 | an old entry in another spelling of a new file counts as obsolete and leads to the new file |
| UpdateExample.UsersDeleted | cleonos/c/apps/install2disk_main.c:1261-1310 | an old entry in another spelling of the user database is in the update's scope and leads to it |
| UpdatePaths.TrackedPath | cleonos/c/apps/install2disk_main.c:1261-1310 | no tracked path is its own target or targets a state, metadata or manifest file |
| UpdatePaths.ScopeIs | cleonos/c/apps/install2disk_main.c:1261-1310 | the update's scope is the shell, and the system without package data, the update's own files and the users, but never the installer itself |
| UpdatePaths.TrackedAre | cleonos/c/apps/install2disk_main.c:1261-1289 | the manifest tracks the same, the installer and the boot directories |
| UpdatePaths.UpdatePlace | cleonos/c/apps/install2disk_main.c:1261-1310 | a path in the update's scope leads to the shell's or the system's directory of the disk, in whatever spelling, and never to the metadata |
| UpdatePaths.RetainedPlace | cleonos/c/apps/install2disk_main.c:3019-3047 | a retained path leads to none of the files that the update writes by name |
| UpdateFiles.WriteStateFiles | cleonos/c/apps/install2disk_main.c:2972-3000 | on success the state file and the new manifest, and the previous one when no looking call fails, have the contents the code gives them, and no other file is touched; on a healthy machine it succeeds exactly when the database directory is there, nothing is in the way, and there is a new manifest |
| UpdateFiles.CleanupState | cleonos/c/apps/install2disk_main.c:3078-3088 | removes at most the three temporary files, all of which are gone on a healthy machine |
| UpdateFiles.SyncMetadata | cleonos/c/apps/install2disk_main.c:2093-2109 | on success both metadata files are those of the running system and two items are counted, and no other file is touched; on a healthy machine it succeeds exactly when both sources are non-empty files and the targets can be made |
| UpdateRefresh.RefreshManifest | cleonos/c/apps/install2disk_main.c:3002-3076 | the manifest becomes the retained old entries, some only if a looking call failed, with fresh sizes and hashes, followed by all new entries, whose files must all be there; a healthy machine succeeds when paths, sizes and the place allow it |
| UpdateRefresh.KeptAre | cleonos/c/apps/install2disk_main.c:3019-3047 | an old entry is retained if and only if it is tracked, out of the update's scope and its file is there, with the size and hash that the file has now |
| UpdateConditions.CopyingAfterState | cleonos/c/apps/install2disk_main.c:3184-3199 | the state files are in no copy's way, if their names are no directories of the running system |
| UpdateConditions.RoomAfterCopies | cleonos/c/apps/install2disk_main.c:3189-3202 | the copies leave the places of the metadata free |
| UpdateRead.ReadManifests | cleonos/c/apps/install2disk_main.c:3119-3135 | the old list is the parsed target manifest, or empty if a looking call failed; for clean tracked paths the new list describes tracked files, each once, and all of them when no looking or listing call fails; a healthy machine succeeds when both manifests meet their limits |
| UpdateApply.WriteAll | cleonos/c/apps/install2disk_main.c:3184-3202 | all writes up to the deletions keep every file but the copies' targets, the state files and the metadata; the tally grows by the copies and the two metadata files; the copies are those of the plan on a healthy machine, which also succeeds when every step can be done on the tree as it was |
| UpdateApply.Apply | cleonos/c/apps/install2disk_main.c:3184-3236 | copies, metadata, deletions, refreshed manifest and clean-up together give the updated disk, with the leftovers gone on a healthy machine and the previous manifest kept; no deletion has undone a copy; a healthy machine succeeds when every step can be done on the tree as it was |
| UpdateApply.ApartAfterwards | cleonos/c/apps/install2disk_main.c:2914-2970 | if the copies survive the deletions, no obsolete entry was a new one in another spelling |
| UpdateApply.RemovedIs | cleonos/c/apps/install2disk_main.c:2914-2970 | what is deleted is what was there at first and the state files, as far as obsolete entries lead to them |
| UpdateShell.RunUpdate | cleonos/c/apps/install2disk_main.c:3090-3236 | after success every new entry is in place, nothing is touched but the copied targets, the files deleted and the fixed files, and the reported numbers are those of the copies and the deletions; when no looking or listing call fails, what is deleted is known beforehand, no obsolete file is left but the manifest itself, metadata is synced, the manifest refreshed, the previous one kept, and deletions equal the announcement exactly under the condition of AnnouncedExactly; a dry run changes only its own manifest; on a healthy machine the plan is that of the disk as it was, the copies are the plan, no leftover stays, empty metadata means failure, and the update succeeds when the limits and the place on the target allow it and no old line respells a tracked file (CanUpdate) |
| UpdateShell.ReadyToApply | cleonos/c/apps/install2disk_main.c:3119-3236 | once the manifests are loaded, a disk that meets the limits at the start is ready for every later step |
| UpdateAgain.NothingToDo | cleonos/c/apps/install2disk_main.c:3141-3166 | after an update the plan for the same files against the refreshed manifest is empty, in whatever order they are listed |
| UpdateAgain.RunningStays | cleonos/c/apps/install2disk_main.c:3090-3236 | an update changes no file that it tracks |
| UpdateAgain.OldAgain | cleonos/c/apps/install2disk_main.c:3119-3135 | the next update reads back exactly the refreshed manifest, and only if it has no more entries than fit |
| UpdateAgain.UpdateTwice | cleonos/c/apps/install2disk_main.c:3090-3236 | of two successful updates in a row on a healthy machine the second adds, updates and deletes nothing, counts every file as the same and copies only the metadata |
| UpdateExample.DiskCanUpdate | cleonos/c/apps/install2disk_main.c:3090-3236 | a concrete running system and disk that meet all conditions of the update |
| VerifyManifest.VerifyEntry | cleonos/c/apps/install2disk_main.c:1770-1869 | on a healthy machine a line is accepted if and only if it parses to an entry whose path fits and whose file is there with the entry's size and hash; a line that cannot be read, or whose path is too long, counts as corrupt, a missing file as missing, another size or hash as a mismatch; nothing else is accepted on any machine |
| VerifyManifest.VerifyBuffer | cleonos/c/apps/install2disk_main.c:1940-1956 | all non-blank lines are judged, and success means all are good |
| VerifyManifest.Verify | cleonos/c/apps/install2disk_main.c:1871-1956 | success means, and on a healthy machine is, that every line that is not blank parses to an entry whose file is there with the entry's size and hash; the counters have grown by the numbers of the lines of each kind; a manifest that is missing or too large, or whose path is too long, is refused and counted |
| VerifyManifest.VerdictMeans | cleonos/c/apps/install2disk_main.c:1770-1869 | the verdict on a line in terms of the entry that the line consists of, for every verdict in both directions |
| VerifyManifest.RecordsAre | cleonos/c/apps/install2disk_main.c:1940-1956 | over all lines each counter grows by the number of lines of its kind |
| VerifyManifest.RootJoinLeads | cleonos/c/apps/install2disk_main.c:1250-1259 | joined with a root, also with the root directory, a path leads to where prefixing the root leads |
| VerifyManifest.MatchingLinesAreGood | cleonos/c/apps/install2disk_main.c:1770-1869 | printed entries that match the disk are judged good, with the right totals |
| VerifyManifest.UpdatedIsAccepted | cleonos/c/apps/install2disk_main.c:1770-1956 | the manifest of an updated disk verifies with nothing missing, mismatched or corrupt |
| VerifyManifest.UpdateThenVerify | cleonos/c/apps/install2disk_main.c:1871-1956 | on a healthy machine an update that reports success is followed by a verification that succeeds, for tracked paths without bar or line end; and both succeed on every disk that meets the conditions of the update |
| CalcGrammar.Expr | cleonos/c/apps/calc_main.c:611-625 | every level ends inside the text, never before its start, and an error that is already there stays the one reported |
| CalcGrammar.Primary | cleonos/c/apps/calc_main.c:473-562 | the same for numbers, names, calls and parentheses; the recursion ends on every input |
| CalcParser.Parser.ParsePrimary | cleonos/c/apps/calc_main.c:473-562 | the mutable parser computes the grammar function of its level, position and error included |
| CalcParser.Parser.ParseUnary | cleonos/c/apps/calc_main.c:564-574 | the same for signs |
| CalcParser.Parser.ParsePower | cleonos/c/apps/calc_main.c:576-585 | the same for the right-associative power |
| CalcParser.Parser.ParseMul | cleonos/c/apps/calc_main.c:587-609 | the same for the product loop with its division check |
| CalcParser.Parser.ParseExpr | cleonos/c/apps/calc_main.c:611-625 | the same for the sum loop |
| CalcParser.Evaluate | cleonos/c/apps/calc_main.c:627-667 | evaluation is the grammar on the whole text, failing on trailing text and bad values |
| CalcRoundTrip.ReadExpr | cleonos/c/apps/calc_main.c:611-625 | a tree's tokens, with any white space before them, are read as one left operand of the sum loop with the tree's strict value |
| CalcRoundTrip.ReadPower | cleonos/c/apps/calc_main.c:576-585 | the same for an operand of a product, powers grouping to the right |
| CalcRoundTrip.ReadUnary | cleonos/c/apps/calc_main.c:564-574 | the same for an operand of a power: a sign binds tighter |
| CalcRoundTrip.ReadCall | cleonos/c/apps/calc_main.c:473-562 | the same for a function call of up to three arguments, with a comma after the third or without |
| CalcRoundTrip.PrintThenEval | cleonos/c/apps/calc_main.c:473-656 | for every tree and every spacing of its minimally parenthesised text with blanks, tabs, returns and newlines, evaluating consumes all of it and gives the strict value, or reports the first division by zero or unknown call in evaluation order |
| CalcRoundTrip.JunkIsRejected | cleonos/c/apps/calc_main.c:627-667 | a closing parenthesis or comma too many is reported as trailing, whatever comes after it |
| CalcRoundTrip.LiteralIs | cleonos/c/apps/calc_main.c:490-500 | the literals are the decimal numerals: digits, a point and digits, at least one of them, and an optional exponent |
| CalcRoundTrip.LowerIs | cleonos/c/apps/calc_main.c:508-519 | capital letters of names are read as small ones |
| CalcSpelling.EvalThenPrint | cleonos/c/apps/calc_main.c:473-667 | conversely, whatever is given a value is the spaced text of a tree with that value |
| CalcSpelling.AcceptedExactly | cleonos/c/apps/calc_main.c:473-667 | a text is given a value if and only if it is the spaced text of an expression that has one |
| PlotLine.DeviationStaysSmall | cleonos/c/apps/calc_main.c:930-944 | the two comparisons of a step keep the deviation within half the longer side, ties going to one side |
| PlotLine.StepStaysClose | cleonos/c/apps/calc_main.c:930-944 | a step advances the longer axis by one, keeps the error at its closed form, and never overshoots |
| PlotLine.EndReached | cleonos/c/apps/calc_main.c:927-928 | on course, the endpoint test holds exactly when the longer axis is complete, so it is never missed |
| PlotLine.PutPixel | cleonos/c/apps/calc_main.c:892-898 | colours the one pixel if it is inside the image and nothing else |
| PlotLine.DrawLine | cleonos/c/apps/calc_main.c:900-945 | stops for all endpoints after exactly max(dx, dy) steps at the endpoint; every visited point is within half a step of the line, on the side that decides ties; exactly the dots of the visited points are coloured |
| PlotLine.OnlyPoint | cleonos/c/apps/calc_main.c:900-945 | these bounds leave exactly one point for each step, so they fix the whole line |
| PlotLine.TieStays | cleonos/c/apps/calc_main.c:930-944 | where the ideal line passes midway between two pixels, the one on the row or column already reached is drawn |
| PlotLine.NoOverflow | cleonos/c/apps/calc_main.c:900-945 | for endpoints up to 2^27, among them all those of the plot, every number of the loop fits 32 bits |
| MemoryFile.DoublingFits | cleonos/c/apps/minizip_cleonos_io.c:29-36 | the doubling reaches the request with less than twice of it, and gives up only above half the 64-bit range |
| MemoryFile.GrowthIsSound | cleonos/c/apps/minizip_cleonos_io.c:17-49 | growth keeps contents and cursor, and its cost within the new capacity |
| MemoryFile.File.Grow | cleonos/c/apps/minizip_cleonos_io.c:17-49 | the grown buffer holds the same bytes; a failed growth changes nothing |
| MemoryFile.File.Read | cleonos/c/apps/minizip_cleonos_io.c:108-126 | delivers the bytes at the cursor and advances it; the rest of the caller's buffer stays |
| MemoryFile.File.Write | cleonos/c/apps/minizip_cleonos_io.c:128-150 | overwrites or extends at the cursor; a failure sets only the error flag |
| MemoryFile.File.Seek | cleonos/c/apps/minizip_cleonos_io.c:164-202 | moves the cursor, zero-fills beyond the end of a writable file, refuses wrap-around and the rest |
| MemoryFile.File.Close | cleonos/c/apps/minizip_cleonos_io.c:208-225 | flushes the contents exactly if writable and without error; the result is 0 exactly if nothing was to be flushed, or the contents are not empty and were stored, or are empty and were not |
| MemoryFile.StepIsSound | cleonos/c/apps/minizip_cleonos_io.c:108-202 | every operation keeps cursor within length within capacity |
| MemoryFile.StepBytes | cleonos/c/apps/minizip_cleonos_io.c:108-202 | a failing operation changes nothing but the error flag, and only a successful write changes a byte |
| MemoryFile.RunBytes | cleonos/c/apps/minizip_cleonos_io.c:108-202 | after any run every byte is the last one stored there, zero in a gap, or what it was |
| MemoryFile.RunCost | cleonos/c/apps/minizip_cleonos_io.c:24-48 | over any run growth has copied at most as many bytes as the capacity, which is the initial one, 4096 or less than twice the largest request |
| MemoryFile.WriteThenRead | cleonos/c/apps/minizip_cleonos_io.c:108-202 | what was written is read back from where it was written |
| MemoryFile.DeliveredIsAll | cleonos/c/apps/minizip_cleonos_io.c:108-126 | a read delivers all it is asked for or all that is left, and moves nothing but the cursor, by as much |
| MemoryFile.ReadsJoin | cleonos/c/apps/minizip_cleonos_io.c:108-126 | two reads in a row deliver what one of both lengths does |
| MemoryFile.WritesJoin | cleonos/c/apps/minizip_cleonos_io.c:128-150 | two successful writes in a row store what one of both texts does |
| MemoryFile.SeekLands | cleonos/c/apps/minizip_cleonos_io.c:164-202 | a seek lands the offset away from the start, the cursor or the end; beyond the end the file has become that long, with zeros, and nothing else changes |
| MemoryFile.SeekRefused | cleonos/c/apps/minizip_cleonos_io.c:164-202 | a seek succeeds if and only if its origin is known, its place fits 64 bits, and the file reaches there or can be made to |
| MemoryFile.FailureSticks | cleonos/c/apps/minizip_cleonos_io.c:128-225 | a failed write to a writable file leaves the error flag set for good, with which closing stores nothing |
| PathResolve.FailsExactly | cleonos/c/apps/cmd_runtime.c:529-562 | resolution fails exactly when the path after some of the parts does not fit |
| PathResolve.PartsOfRendered | cleonos/c/apps/cmd_runtime.c:587-633 | taking a rendered stack apart gives the stack |
| PathResolve.Idempotent | cleonos/c/apps/cmd_runtime.c:635-656 | resolving a result again, from any directory, returns it |
| PathResolve.RelativeIsJoined | cleonos/c/apps/cmd_runtime.c:635-656 | a relative argument means the directory and the argument joined by a slash |
| PathResolve.UpCancels | cleonos/c/apps/cmd_runtime.c:564-633 | a component and ".." after it cancel, anywhere in the path, if and only if there was room for the component |
| PathResolve.DotIsSkipped | cleonos/c/apps/cmd_runtime.c:587-633 | "." changes nothing, anywhere in the path |
| PathResolve.RootStays | cleonos/c/apps/cmd_runtime.c:564-585 | ".." at the root changes nothing |
| PathResolve.ResolvedIsOrdinary | cleonos/c/apps/cmd_runtime.c:564-633 | results contain no empty, "." or ".." part and fit the buffer |
| PathResolve.PathBuffer.Push | cleonos/c/apps/cmd_runtime.c:529-562 | appends one component in place, refusing exactly when the result does not fit |
| PathResolve.PathBuffer.Pop | cleonos/c/apps/cmd_runtime.c:564-585 | drops the last component in place, and stays at the root |
| PathResolve.PathBuffer.ParseInto | cleonos/c/apps/cmd_runtime.c:587-633 | folds all parts of the text into the stack |
| PathResolve.ResolvePath | cleonos/c/apps/cmd_runtime.c:635-656 | the text returned is the rendered component stack, or failure exactly when the fold fails |
| LittleEndian.WordRoundTrip | cleonos/c/apps/partctl_main.c:11-21 | a 32-bit number written lowest byte first reads back |
| PartitionTable.OverlapIsShared | cleonos/c/apps/partctl_main.c:201-204 | the interval test rejects exactly the ranges that share a sector with an entry |
| PartitionTable.CheckOverlap | cleonos/c/apps/partctl_main.c:179-208 | the loop answers whether the range meets any other non-empty entry |
| PartitionTable.EntryRoundTrip | cleonos/c/apps/partctl_main.c:367-378 | the sixteen bytes written decode to the entry asked for |
| PartitionTable.ClearBoots | cleonos/c/apps/partctl_main.c:280-285 | clears every boot flag but the kept one and changes no other byte |
| PartitionTable.DecodeLossless | cleonos/c/apps/partctl_main.c:5-9 | the decoded table determines all 512 bytes |
| PartitionTable.DecodedBytes | cleonos/c/apps/partctl_main.c:5-9 | where in the sector the fields of each entry and the signature are, numbers lowest byte first |
| PartitionTable.Disk.InitMbr | cleonos/c/apps/partctl_main.c:210-226 | an empty table with the signature |
| PartitionTable.Disk.Create | cleonos/c/apps/partctl_main.c:301-390 | accepted exactly for legal numbers, a range on the disk and no overlap; then only that entry and, for a boot entry, the other flags change |
| PartitionTable.Disk.Delete | cleonos/c/apps/partctl_main.c:228-255 | empties exactly one entry |
| PartitionTable.Disk.SetBoot | cleonos/c/apps/partctl_main.c:257-299 | flags exactly one entry, or clears it |
| PartitionTable.StepKeepsSane | cleonos/c/apps/partctl_main.c:210-390 | every command keeps signature, disjointness, bounds and the single boot flag |
| PartitionTable.RunKeepsSane | cleonos/c/apps/partctl_main.c:210-390 | so does every run, with device failures anywhere; without init-mbr the first 446 bytes never change |
| PartitionTable.FromInit | cleonos/c/apps/partctl_main.c:210-390 | from an initialised sector every run ends in a sane table |
| DnsMessage.SkipName | cleonos/c/apps/httpget_main.c:218-281 | on any bytes, cycles included, it stops, reads only inside the message and succeeds exactly for names that end within 31 steps, at an offset inside the message |
| DnsMessage.WireEnds | cleonos/c/apps/httpget_main.c:218-281 | a serialised name ends where its bytes end |
| DnsMessage.WireResolves | cleonos/c/apps/httpget_main.c:227-278 | labels, one pointer and what it points to share the steps |
| DnsMessage.SkippedIsName | cleonos/c/apps/httpget_main.c:218-281 | conversely, whatever is skipped is a serialised name |
| DnsMessage.LabelsSpellHost | cleonos/c/apps/httpget_main.c:182-213 | the labels are the host's characters in order, a final dot dropped |
| DnsMessage.EncodeQname | cleonos/c/apps/httpget_main.c:174-216 | succeeds exactly for hosts of labels of 1 to 63 bytes that fit, writing the label form of RFC 1035 section 3.1 |
| DnsMessage.EncodedIsSkipped | cleonos/c/apps/httpget_main.c:174-281 | an encoded host is skipped in exactly its length if and only if it has at most 31 labels |
| DnsMessage.DeepHostNotSkipped | cleonos/c/apps/httpget_main.c:174-281 | a host of 63 characters that the query holds and that no message can be read past |
| DnsResponse.ParseFirstA | cleonos/c/apps/httpget_main.c:283-353 | the loops compute the parse of the message |
| DnsResponse.ResponseParsed | cleonos/c/apps/httpget_main.c:283-353 | a serialised response whose names resolve gives the address of its first A record of class IN, or none; none for another id, a query or an error code |
| DnsResponse.ParsedFrom | cleonos/c/apps/httpget_main.c:283-353 | conversely, an address comes only from a header with the id, the answer bit and no error code, the announced questions and records ending in the first A record of class IN |
| DnsResponse.FirstAddressIs | cleonos/c/apps/httpget_main.c:318-350 | the address is the one whose four numbers are the data of the first record of type 1 and class 1 with four bytes, and there is none if and only if there is no such record |
| DnsResponse.AnsweredIs | cleonos/c/apps/httpget_main.c:300-310 | of the header's flags only the answer bit and the response code matter |
| Grid.ScaledInside | cleonos/c/apps/imgview_main.c:622-629 | a scaled coordinate of the output lies inside the source |
| Grid.ScaledIs | cleonos/c/apps/imgview_main.c:622-629 | it is the proportional coordinate rounded down, and stays where the sides are equal |
| ImageTiles.SampleNearest | cleonos/c/apps/imgview_main.c:614-632 | for every output place the sample is the pixel its coordinates scale to, without clamping |
| ImageTiles.ComputeFit | cleonos/c/apps/imgview_main.c:634-660 | the fitted box is non-empty, inside the limits, never larger than the source, touches a limit unless it is the source, and keeps the source's proportion to the pixel |
| ImageTiles.ChooseTileRows | cleonos/c/apps/imgview_main.c:662-680 | between 1 and 32 rows, within the tile size unless a single row exceeds it |
| ImageTiles.ScaleRowsInto | cleonos/c/apps/imgview_main.c:682-696 | the tile holds the wanted rows of the scaled image |
| ImageTiles.BlitImageTiled | cleonos/c/apps/imgview_main.c:698-733 | drawing by tiles of any height equals drawing the image scaled at once; a failed call leaves the rows drawn so far, nothing outside the rectangle ever changes, and without a failing call it succeeds exactly for sizes that are not zero and a width within the limit |
| BmpRows.ParseHeader | cleonos/c/apps/bmpview_main.c:81-168 | an accepted header has sides up to 4096 and a row stride that is the least multiple of four holding a row, within the row buffer |
| BmpRows.HeaderRead | cleonos/c/apps/bmpview_main.c:81-168 | a header with its fields where the format has them is read as what it says, unless its rows are too long |
| BmpRows.PixelInRow | cleonos/c/apps/bmpview_main.c:338-352 | the three bytes of every pixel lie inside the row |
| BmpRows.LumaIs | cleonos/c/apps/bmpview_main.c:170-179 | the character is the shade of the weighted brightness, rounded down twice |
| BmpRows.GridSize | cleonos/c/apps/bmpview_main.c:279-299 | the character grid is non-empty, at most 160 by 120, and no finer than the picture |
| BmpRows.Input.ReadExact | cleonos/c/apps/bmpview_main.c:37-55 | short reads are put together to exactly the bytes asked for |
| BmpRows.UseRow | cleonos/c/apps/bmpview_main.c:324-354 | one stored row fills exactly the grid rows that sample it |
| BmpRows.RenderRows | cleonos/c/apps/bmpview_main.c:301-355 | after one pass over the stored rows every cell shows the pixel its own coordinates scale to, for both storage orders |
| BmpRows.View | cleonos/c/apps/bmpview_main.c:221-367 | the same for the whole command, from the header on; if no read fails it succeeds exactly for files with an accepted header and all their rows |
| EntrySort.CompareNames | cleonos/c/apps/file_explorer_main.c:236-254 | the loop computes the case-insensitive comparison |
| EntrySort.CompareFlips | cleonos/c/apps/file_explorer_main.c:236-254 | swapping the names flips the sign |
| EntrySort.CompareTransitive | cleonos/c/apps/file_explorer_main.c:236-254 | the comparison is transitive, so it is a total preorder |
| EntrySort.CompareTies | cleonos/c/apps/file_explorer_main.c:236-254 | names tie exactly when they agree up to the case of ASCII letters |
| EntrySort.CompareIs | cleonos/c/apps/file_explorer_main.c:236-254 | a name comes first if and only if it ends first or, at the first difference, has the smaller upper-cased letter, bytes from 128 on being negative |
| EntrySort.UpperIs | cleonos/c/apps/file_explorer_main.c:209-214 | small ASCII letters count as capitals, everything else as itself |
| EntrySort.InsertedIsStable | cleonos/c/apps/file_explorer_main.c:322-349 | the result is a permutation that keeps ties in order and has the directories first, whatever the entry types |
| EntrySort.FilesAreGrouped | cleonos/c/apps/file_explorer_main.c:332-338 | listings of files and directories meet the condition under which names come out sorted |
| EntrySort.InsertedOrdered | cleonos/c/apps/file_explorer_main.c:322-349 | for grouped listings the names within each type are in order |
| EntrySort.OrderedForAllNames | cleonos/c/apps/file_explorer_main.c:332-338 | names come out in order whatever they are if and only if, directories aside, each type forms one block |
| EntrySort.Sort | cleonos/c/apps/file_explorer_main.c:322-349 | the in-place insertion sort yields that result and leaves the rest of the array alone |
| Calendar.YearShareStep | cleonos/c/apps/calendar_main.c:28-36 | the three quotients add an extra day for exactly the leap years |
| Calendar.MonthLengths | cleonos/c/apps/calendar_main.c:1-60 | the lengths of the months, and 29 days of February in every fourth year but for centuries not divisible by 400 |
| Calendar.WeekdayAdvances | cleonos/c/apps/calendar_main.c:28-36 | from every valid date of year 1 on, the next day has the next weekday |
| Calendar.WeekdayCounts | cleonos/c/apps/calendar_main.c:28-36 | the formula equals counting days from the first day of year 1 |
| Calendar.YearLength | cleonos/c/apps/calendar_main.c:14-26 | the month lengths add up to 365 or 366 |
| Calendar.ColumnIsWeekday | cleonos/c/apps/calendar_main.c:164-168 | the column computed by the print loop is the weekday of the day |
| Calendar.PrintMonth | cleonos/c/apps/calendar_main.c:144-173 | blank cells up to the first weekday, then every day in its three-character cell, with line ends after the last column and at the end, and nothing else |
| Calendar.GridColumns | cleonos/c/apps/calendar_main.c:144-173 | in the printed text every day stands in the column of its weekday, and Saturdays end the line |

## Left out

- UpdateShell.RunUpdate: the condition under which a healthy machine must succeed is sufficient, not necessary: it asks for a place for every tracked file, also where the plan copies none. If a tracked path has a bar or a line end, the new list may name any file, and only what is touched and counted is stated.
- ManifestFile.GenerateManifest: modelled as the update calls it, for the running system's root and the update's filter; the installation's call, for the mount point and the wider filter, is not modelled.
- ManifestFile.AppendEntry: the line is built as a value; the C buffer it is printed into appears only as the length limit.
- CalcRoundTrip.PrintThenEval: the value of a literal and of the functions is a parameter; which error is reported is proved for expressions, not for texts that are none.
- CalcParser.Evaluate: a NUL inside the text is excluded, since a C string ends there.
- PlotLine.DrawLine: coordinates are unbounded integers; that nothing overflows 32 bits is proved for endpoints up to 2^27 (NoOverflow), and what happens beyond is not modelled.
- MemoryFile.File.Grow: the allocator itself; opening (its mode bits, and the failures of the file system and the allocator) appears only through the contents passed in.
- EntrySort.CompareNames: a name is a string without its terminating NUL.
- Calendar.PrintMonth: the highlight of the current day and the two heading lines.
- ImageTiles.BlitImageTiled: the frame-buffer call belongs to the kernel, which is not part of this model; it is taken as copying a rectangle at scale 1 or failing. 64-bit overflow of the index products is not modelled.
- In-place editing of a manifest line: the C code writes NULs into its buffer while parsing; ManifestText.LoadBuffer keeps the buffer and cuts lines out of it.
- Unsigned 64-bit counters (files, bytes, entries) are unbounded; file sizes are kept below the failure value.
- The defensive branches of the hash context for an overfull buffer, which no call sequence reaches, and all guards against null or low pointers.
- The names the kernel returns for listed children are taken to be valid and to fit the name buffer.
- Boot-sector checks and required boot files in the verification command, the kernel update, repair commands, component copying, account set-up and partition formatting.
- The sample list of paths that failed verification, progress bars, prompts, usage texts and translations.
- Floating-point accuracy, number printing, the ASCII plot, and the framebuffer plot around the line drawer.
- Text tokenising and number parsing of the partition editor's arguments; the list command, which only prints.
- URL parsing, sockets, the query header and the retry loop of the downloader, and the copy of its DNS code in nslookup.
- The decoding of images, animation, window and keyboard loops.
- Case folding of FAT32, power loss during an update, and what the kernel does when the disk is full beyond failing a call.
