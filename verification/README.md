# A verified model of upki's revocation core

upki keeps a directory of CRLite filters in step with a server, summarises which filter covers
which certificate-transparency log in a binary index, and answers "is this certificate revoked?"
by consulting only the filters that matter. This project models that core in Dafny 4.11 and proves
that each fast or stateful part does what the simple thing it stands for would do.

`dafny verify dfyconfig.toml` checks everything.

| module | what it is about |
|---|---|
| `ByteStrings` | bytes, big-endian integers (also the truncating casts), a counting lemma |
| `Fips180` | SHA-256 as FIPS 180-4 defines it: padding (5.1.1), schedule, rounds and compression (6.2.2), constants (4.2.2, 5.3.3) |
| `Fips180Constants`, `Sha256Known` | what the constants and bitwise functions are, and the known digest of "abc" |
| `Sha256` | the incremental hasher: block buffer, padding, 16-word schedule window, file hashing |
| `Revocation` | filters, SCTs, manifests and check inputs as values |
| `LogOrder` | the lexicographic order of log IDs |
| `IndexFormat`, `IndexRoundTrip` | the bytes of `index.bin` in both versions, and that reading undoes writing |
| `IndexWrite` | the writer: filters inverted into a sorted index |
| `IndexCheck` | opening an index and checking against it, on any bytes |
| `IndexMeaning`, `IndexVerdict`, `IndexAgreement` | what a verdict means, on any bytes, and that it is the verdict of asking the filters |
| `IndexLayout` | the published layout, byte position by byte position |
| `Fetch` | planning, executing and verifying over a cache directory |
| `FetchInFull` | plans and results in terms of contents, hashes and names |
| `FetchResult`, `FetchRuns` | what a complete fetch leaves; runs of fetches that fail or stop anywhere; readers |
| `Mirror` | the mirror's walk from the full filter along its deltas |
| `SctList` | DER lengths, octet strings and SCT lists |

## How the model reads the program

A file name, a log ID and a file are byte strings; an index is real bytes, so offsets, integer
widths, padding and truncating casts are proved and not assumed. `usize` has 64 bits.

What the program gets from outside is a parameter: the decoder of filter files and the UTF-8 test
(`Platform`), the manifest encoding and the timestamp test (`Env`). A decoded filter is a map from
log IDs to intervals and an arbitrary answer for a key and a list of SCTs. Short reads, the bytes a
server sends, failing system calls and the iteration order of hash tables are arbitrary choices.
Operations that fail for a reason outside the program are counted by the object they work on
(`IndexCheck.Disk`, `Fetch.CacheDir`, `Sha256.FileReader`), and contracts say what happens as long as
the count stays the same. Then a seek fails exactly when the offset does not fit a signed 64-bit number.

A check gets at filters only through `IndexCheck.FilterDir`: what a read finds is arbitrary and every
read is logged. What a check reads, how often, and what its verdict means are statements about that log.

Objects whose fields the program changes are classes (`Sha256.Context`, `Sha256.Blockwise`,
`IndexCheck.Index` with its open file, `Fetch.CacheDir`), fixed buffers are arrays, and loops are
loops. The hasher rotates words as the program does, the specification shifts them as the standard
does, and `Sha256.Sigmas` joins the two.

Where a method is proved against a function, or both call the same one, a further result says what that
function computes without it: the choice and majority functions bit by bit, the constants as roots of
primes and a known digest for SHA-256; the byte order of log IDs; the layout of the index; the entries,
names and files that decide a check; hashes and names for plans and fetches; the fields of an SCT.

`IndexCheck.Verdict` asks a filter again every time an entry that covers an SCT names it;
`IndexCheck.Index.Check` remembers the filters it has loaded, and is proved to give the same verdict
or the same error. `IndexAgreement.Ask` does not know of an index at all.

A directory has readable files, and entries that cannot be read: those count as missing when hashes
are compared and are still listed, replaced and deleted (`Fetch.Dir`). Each change to the cache
directory is one atomic step. Runs of fetches are a state machine: a fetch starts with a plan for
whatever manifest the server sent, advances a step at a time, and may fail or stop anywhere; then
another may start.

### Conditions

- `IndexAgreement.Indexable`: at most 65535 files and fewer than 2^32 logs (the casts at
  upki/src/revocation/index.rs:174, 186, 187 and 201 are unchecked; `FetchRuns.CountField` shows that
  the count field is right exactly below that limit), no NUL byte in a file name, names valid UTF-8.
- `FetchResult.Plain`, `FetchRuns.PlainNames`: manifest names are distinct, hold no NUL byte, and are
  not `index.bin` or `manifest.json`.

### Where the code and its comments differ

- upki/src/revocation/fetch.rs:3-7 says that after a successful fetch local contents match the
  server's. Filter files that only the previous manifest lists are kept for one more generation, so
  one fetch is enough exactly when there are none left (`FetchResult.OneFetchExact`; a directory on
  which it is not: `FetchResult.OneFetchNotEnough`); two always are.
- upki/src/revocation/index.rs:137-139 gives unreadable and undecodable files as the reasons for
  having no index. A file name of more than 32 bytes is a third (`IndexWrite.Collect` has the exact
  condition, `IndexWrite.LongNameNoIndex` such a file).
- upki/src/revocation/index.rs:227-229 says that each distinct filter file is read at most once in a
  check. Each slot of the name table is; a file is read twice if it stands in two slots, both consulted,
  and only then (`IndexMeaning.ReadTwiceExact`; a manifest that lists a covering filter twice:
  `IndexAgreement.ListedTwice`).
- upki/src/revocation/fetch.rs:84-91 keeps the files of the manifest on disk for one more fetch. A
  reader has that grace exactly if the manifest on disk lists every filter file of the index it opened
  (`FetchRuns.GraceExact`). After a complete fetch that builds its index it does
  (`FetchRuns.FetchLeavesGrace`); after one that stops between index and manifest it need not
  (`FetchRuns.GapHasNoGrace`).
- A fetch whose index cannot be built still succeeds and leaves the old index. A run keeps the cache
  safe exactly if no step deletes a file that the index on disk names (`FetchRuns.RunSafetyExact`,
  for one fetch `FetchRuns.SafetyExact`). One such fetch is harmless (`FetchRuns.OneUnbuildable`), two
  in a row are exactly if one of their manifests lists each filter file of the old index
  (`FetchRuns.TwoUnbuildableExact`; two that are not: `FetchRuns.TwoUnbuildable`).
- `verify` adds sizes in 64 bits: it reports success exactly when every bad file is listed with size
  zero or their sizes add up to a multiple of 2^64 (`Fetch.Verify`). Two missing files of 2^63 bytes
  are reported as up to date (`Fetch.MissingButUpToDate`). A build with overflow checks panics there.
- The walk over the mirror's records ends exactly if no two of the first |data| + 1 items visited have
  the same id (`Mirror.WalkEndsExactly`); a list on which it does not: `Mirror.NeverEnds`.
- The length parser agrees with X.690, section 8.1.3, exactly when the first octet is not 0x80 (the
  indefinite form, read as length zero) and does not begin a complete length of more than four octets,
  which is rejected (`SctList.LengthExact`). Lengths need not be minimal (`SctList.LengthMinimal`).
- The list parser accepts more than RFC 6962, section 3.3, defines. `SctList.ScanExact` says what. It
  is such a list exactly when its records end where it declares, it ends there too, and it does not
  declare zero (`SctList.ListExact`). Otherwise the last record runs past the declared length
  (`SctList.RecordMayOverrun`), the list stops short of it, with up to one stray byte
  (`SctList.ListMayStopShort`), bytes follow it (`SctList.TailIsIgnored`), or it declares zero
  (`SctList.ZeroLengthAccepted`).

## Model

| member | source | states |
|---|---|---|
| `Sha256.Sigmas` | upki/src/sha256.rs:278-292 | the four rotate-based functions equal the shift-based ones of FIPS 180-4, sections 3.2 and 4.1.2, on every word |
| `Fips180.PadZerosIsLeast` | upki/src/sha256.rs:156-180 | the zero count of the padding is the least that section 5.1.1 allows |
| `Fips180Constants.ChChooses` | upki/src/sha256.rs:270-272 | where the first word has a one the result has the bit of the second, where it has a zero that of the third |
| `Fips180Constants.MajDecides` | upki/src/sha256.rs:274-276 | where two of the three words agree, they decide |
| `Fips180Constants.SquareRoots` | upki/src/sha256.rs:20-23 | the initial value is the first 32 fractional bits of the square roots of the first 8 primes |
| `Fips180Constants.CubeRoots0` | upki/src/sha256.rs:294-303 | the first 8 round constants are the first 32 fractional bits of the cube roots of the first 8 primes; `CubeRoots8` to `CubeRoots56` say so of the rest, up to the 64th prime |
| `Sha256Known.KnownAnswer` | upki/src/sha256.rs:321-325 | the digest of "abc" is the published one |
| `Sha256.ScheduleWord` | upki/src/sha256.rs:217-242 | with the 16-word ring holding the last 16 schedule words, the word computed is W[t] of the full 64-word schedule and the ring then holds the 16 up to t |
| `Sha256.RunRounds` | upki/src/sha256.rs:207-258 | the 64 rounds over the ring give the working variables of section 6.2.2 with the full schedule |
| `Sha256.CompressBlock` | upki/src/sha256.rs:207-268 | the state after a block is the intermediate hash value of section 6.2.2 |
| `Sha256.CompressBlocks` | upki/src/sha256.rs:199-205 | a slice of whole blocks is compressed one block after the other, in order |
| `Fips180.BlocksConcat` | upki/src/sha256.rs:199-205 | hashing two runs of blocks one after the other is hashing them joined |
| `Sha256.Blockwise.AddLeading` | upki/src/sha256.rs:129-140 | bytes held followed by bytes returned are what was held followed by the input; something is returned only from a full or an empty buffer |
| `Sha256.Blockwise.Take` | upki/src/sha256.rs:142-149 | a block comes out, and the buffer is empty, exactly when it was full |
| `Sha256.Blockwise.AddTrailing` | upki/src/sha256.rs:151-154 | the input overwrites the front of the buffer and the count grows by its length |
| `Sha256.Blockwise.MdPadWithLength` | upki/src/sha256.rs:156-180 | for every fill below 64 the final blocks are the bytes held, 0x80, the zeros of section 5.1.1 and the length; one block exactly up to 55 bytes |
| `Fips180.PadInjective` | upki/src/sha256.rs:156-180 | two messages short enough for the length field with equal paddings are equal |
| `Sha256.PadCompletes` | upki/src/sha256.rs:64-67 | padding only the bytes after the whole blocks completes the whole message to its padding |
| `Sha256.Context.UpdateBlocks` | upki/src/sha256.rs:76-84 | state and saturating block count stay those of the blocks compressed so far |
| `Sha256.Context.UpdateRest` | upki/src/sha256.rs:42-49 | whole blocks are compressed and the remainder kept: the bytes fed grow by exactly the input |
| `Sha256.Context.Update` | upki/src/sha256.rs:30-50 | for every split, bytes fed are the compressed blocks followed by fewer than 64 bytes held, and grow by exactly the input |
| `Sha256.Context.Finish` | upki/src/sha256.rs:53-74 | a digest comes out exactly for messages under 2^61 bytes, and it is the FIPS 180-4 SHA-256 of all bytes fed |
| `Sha256.DigestFrom` | upki/src/sha256.rs:103-111 | the digest of a list of slices is the SHA-256 of their concatenation |
| `Sha256.HashFile` | upki/src/revocation/fetch.rs:410-424 | under any short reads the digest is the SHA-256 of the whole file; an error exactly if a read fails, otherwise a panic exactly if the file has 2^61 bytes or more |
| `Revocation.NewCheckInput` | upki/src/revocation/mod.rs:176-200 | the key hash is the SHA-256 of issuer hash and serial joined |
| `IndexLayout.OpenExactly` | upki/src/revocation/index.rs:73-126 | a file is accepted if and only if it begins with "upkiidx1" or "upkiidx0" and is long enough for the header and for the tables its counts ask for |
| `IndexLayout.CountsExactly` | upki/src/revocation/index.rs:85-107 | where the counts stand in either version, and that the tables are the bytes after them |
| `IndexLayout.NameExactly` | upki/src/revocation/index.rs:332-344 | in any file, a name is its 32-byte slot up to the first NUL |
| `IndexLayout.DirExactly` | upki/src/revocation/index.rs:236-257 | in any file, directory slot k has its log ID, 8-byte offset and 2-byte count at stride 42 after the names |
| `IndexLayout.SectionExactly` | upki/src/revocation/index.rs:259-275 | in any file, a section can be read exactly if its bytes are there, and it is its count of entries of big-endian filter index, low and high timestamp |
| `IndexLayout.BuiltExactly` | upki/src/revocation/index.rs:144-168 | there is an index exactly if every file has a name of at most 32 bytes, is there and decodes |
| `IndexLayout.WrittenHeader` | upki/src/revocation/index.rs:178-195 | magic, counts and the padded names stand where the format says |
| `IndexLayout.WrittenDirectory` | upki/src/revocation/index.rs:197-219 | log IDs ascend as byte strings, at the first difference the smaller byte first, and are those covered by some filter; sections follow one another from the end of the directory to the end of the file |
| `IndexLayout.WrittenEntries` | upki/src/revocation/index.rs:170-219 | section k has an entry for exactly the filters that cover its log, with filter index strictly ascending, each with its own interval |
| `IndexFormat.NameTableAt` | upki/src/revocation/index.rs:189-195 | slot i of the name table is name i padded with NULs to 32 bytes |
| `IndexFormat.DirTableAt` | upki/src/revocation/index.rs:197-210 | directory entry k holds log ID k, the offset where the earlier sections end, and its entry count |
| `IndexFormat.SectionsAt` | upki/src/revocation/index.rs:212-219 | section k stands right after the earlier ones, in full |
| `IndexFormat.EntriesRoundTrip` | upki/src/revocation/index.rs:263-275 | decoding the encoded entries of either version gives them back in order |
| `IndexFormat.UpToNulOfSlot` | upki/src/revocation/index.rs:332-344 | a name comes back from its padded slot, full 32-byte names included |
| `IndexRoundTrip.OpenWritten` | upki/src/revocation/index.rs:73-135 | every written index is accepted, with its counts, entry size and tables |
| `IndexRoundTrip.SectionPlacement` | upki/src/revocation/index.rs:197-219 | the precomputed offsets start where the tables end, each section ends where the next begins, and the last ends the file |
| `IndexRoundTrip.RoundTrip` | upki/src/revocation/index.rs:178-222 | opening a written index of either version shows exactly its names, its log directory and every entry |
| `IndexWrite.PushUniverse` | upki/src/revocation/index.rs:170-175 | in whatever order a universe is iterated, each log then has the entries of all filters so far, in manifest order |
| `IndexWrite.Collect` | upki/src/revocation/index.rs:144-176 | filters are collected exactly if every file has a name that fits, is there and decodes |
| `IndexWrite.LongNameNoIndex` | upki/src/revocation/index.rs:145-151 | one file with a name of 33 bytes or more, though it is there and decodes, leaves no index |
| `LogOrder.LtIsPrecedes` | upki/src/revocation/index.rs:248-252 | the order of log IDs is lexicographic by unsigned bytes |
| `IndexWrite.ListingSorted` | upki/src/revocation/index.rs:200-213 | iterating the ordered map lists each log once, strictly ascending in that order |
| `IndexWrite.PlaceSections` | upki/src/revocation/index.rs:197-203 | offsets computed ahead are where each section will start |
| `IndexWrite.Write` | upki/src/revocation/index.rs:141-222 | the bytes are the version 1 encoding of the inversion of the filters, or none if some file cannot be used |
| `IndexAgreement.InversionUnique` | upki/src/revocation/index.rs:142-213 | an index that is sorted, lists exactly the logs covered and holds their entries is the one written |
| `IndexAgreement.InversionListed` | upki/src/revocation/index.rs:170-175 | a filter is listed for an SCT exactly if its universe covers it |
| `IndexCheck.Index.FromCache` | upki/src/revocation/index.rs:73-135 | on any bytes: a missing file is a read error; if nothing fails under the file, it is opened exactly if its header and tables are good, with just these, and otherwise a decode error; failing metadata is a read error and a failing read a decode error; the tables kept are shorter than the file |
| `IndexCheck.Index.Find` | upki/src/revocation/index.rs:237-253 | the loop ends on any directory; what it finds has the log ID sought, and on a directory that ascends as byte strings it finds what is there |
| `IndexCheck.SearchExact` | upki/src/revocation/index.rs:237-253 | the same of the search function |
| `IndexCheck.Index.ReadSection` | upki/src/revocation/index.rs:255-266 | seek and exact read of the section that the directory entry describes, or nothing; nothing too if a seek or read fails |
| `IndexCheck.Index.FileName` | upki/src/revocation/index.rs:332-344 | a name exactly for an index inside the table whose slot is valid UTF-8 up to its first NUL |
| `IndexCheck.Index.CheckEntry` | upki/src/revocation/index.rs:269-322 | an entry reads its filter exactly if it covers the SCT and its filter has not been read before; given what the reads found, it has the effect it has when every covering entry asks its filter again |
| `IndexCheck.Index.CheckEntries` | upki/src/revocation/index.rs:268-322 | the same for a whole section: its reads are one for each newly consulted filter |
| `IndexCheck.Index.CheckSct` | upki/src/revocation/index.rs:236-323 | the same for one SCT, including a log that is not listed, a section that cannot be read and a failing seek or read |
| `IndexCheck.Index.Check` | upki/src/revocation/index.rs:230-329 | on any index: the read log grows by one read for each filter of a list without repetition, so by at most as many as there are names; these are filters of covering entries, all of them unless the check ends early; for any directory that holds what the reads found the verdict or error is that of asking a filter for every covering SCT |
| `IndexVerdict.VerdictExact` | upki/src/revocation/index.rs:230-329 | on any bytes, a check gives "not revoked" or "not covered" if and only if for every SCT whose log is found the section can be read and every covering entry has a slot in range, a valid name, and a file that is there, decodes and does not say "revoked"; "not revoked" exactly if one of them says "good" |
| `IndexVerdict.FirstUnreadable` | upki/src/revocation/index.rs:255-266 | the first SCT that is not so, if its section cannot be read, gives a decode error |
| `IndexVerdict.FirstEntryDecides` | upki/src/revocation/index.rs:280-312 | otherwise its first bad entry decides: decode error for a bad slot or name, read error for a missing file, file decode error for an undecodable one, else "revoked" |
| `IndexVerdict.ConsultedExactly` | upki/src/revocation/index.rs:268-289 | the filters consulted are those of the covering entries whose slot and name are good |
| `IndexMeaning.FoldMeaning` | upki/src/revocation/index.rs:291-328 | the first step that is revoked or fails decides; otherwise "not revoked" exactly if some filter says good |
| `IndexMeaning.FoldBySet` | upki/src/revocation/index.rs:308-328 | when every filter consulted can be read, order and repetition of the steps do not matter |
| `IndexMeaning.NoInventedVerdict` | upki/src/revocation/index.rs:230-329 | on any bytes, "revoked" and "not revoked" are only returned if some file of the directory decodes to a filter that says so |
| `IndexMeaning.ReadTwiceExact` | upki/src/revocation/index.rs:227-289 | a check reads a file twice only if two consulted slots have its name, and then it does, unless it ends early |
| `IndexAgreement.ListedTwice` | upki/src/revocation/index.rs:227-289 | a filter that covers an SCT and is listed twice is read twice |
| `IndexMeaning.StepsAre` | upki/src/revocation/index.rs:236-278 | the filters consulted are those with an entry, in the section of an SCT's log, that covers its timestamp |
| `IndexMeaning.VersionEquivalence` | upki/src/revocation/index.rs:85-107 | for every index of at most 255 filters, checking its version 0 and its version 1 encoding gives the same verdict or error |
| `IndexAgreement.ConsultedAre` | upki/src/revocation/index.rs:236-289 | the filters consulted are exactly those whose universe covers an SCT |
| `IndexAgreement.Agreement` | upki/src/revocation/index.rs:141-329 | write, open and check give the verdict of asking each covering filter directly: revoked if any says so, else not revoked if any says good, else not covered |
| `IndexAgreement.AgreementEveryFilter` | upki/src/revocation/index.rs:141-329 | if filters that cover no SCT answer "not covered", that is also the verdict of asking every filter |
| `IndexAgreement.WriteOpenCheck` | upki/src/revocation/index.rs:73-329 | the three operations run one after the other read covering filters only, each listed file at most once; if the disk does not fail under the index file and the reads find the filters the index was built from, they return that verdict and no error; if it fails, the error is the one of `FromCache` or `Check` |
| `IndexAgreement.AskMonotone` | upki/src/revocation/index.rs:312-328 | more filters and any order or repetition of filters and SCTs never lower the verdict |
| `IndexAgreement.VerdictMonotone` | upki/src/revocation/index.rs:141-329 | the same for write, open and check |
| `IndexAgreement.VerdictOrderFree` | upki/src/revocation/index.rs:141-329 | manifests that list the same filters in any order, and SCTs in any order, give the same verdict |
| `Fetch.KeepListed` | upki/src/revocation/fetch.rs:163-179 | exactly the names a manifest lists leave the deletion set |
| `Fetch.CacheDir.Construct` | upki/src/revocation/fetch.rs:130-196 | there is a plan exactly if listing a directory that exists does not fail; a file is downloaded exactly if it is listed and no readable file of its name has its SHA-256; the plan is that of `FetchInFull.PlanExactly` and `PlanOrder` |
| `Fetch.HasFileMeans` | upki/src/revocation/fetch.rs:166-170 | a file is right if a readable file of its name has content with the listed SHA-256 |
| `FetchInFull.PlanExactly` | upki/src/revocation/fetch.rs:140-193 | what is deleted is exactly the entries whose names end in ".filter" or ".delta" and which neither manifest lists; the directory is created exactly if there is none |
| `FetchInFull.PlanOrder` | upki/src/revocation/fetch.rs:157-193 | directory and downloads, then index and manifest once each, then deletions |
| `FetchInFull.FilterNamesExactly` | upki/src/revocation/fetch.rs:155-157 | filter files are those named x.filter or x.delta, and no other |
| `FetchInFull.OldManifestExactly` | upki/src/revocation/fetch.rs:84-84 | the old manifest is what a readable manifest.json decodes to, if anything |
| `Fetch.CacheDir.Execute` | upki/src/revocation/fetch.rs:240-355 | a step that succeeds changes its own file as specified and nothing else; a download that succeeds leaves content with the listed SHA-256; one that fails changes nothing, except that a download may leave what it wrote; without a fault it fails only if there is no directory, nothing to delete, or the wrong bytes were sent |
| `Fetch.CacheDir.FetchManifest` | upki/src/revocation/fetch.rs:60-117 | success means a served manifest and a complete run of its plan; failure leaves a prefix of the plan; without a fault it fails only for want of a good manifest or because a step is refused; a dry run changes nothing |
| `Fetch.PlanBytes` | upki/src/revocation/fetch.rs:199-207 | the bytes of a plan are the total size of the listed files that are missing, unreadable or wrong, modulo 2^64 |
| `Fetch.BadBytesExactly` | upki/src/revocation/fetch.rs:199-207 | that total adds up over the list, and is the size of one file unless a readable file of its name has its SHA-256 |
| `Fetch.Verify` | upki/src/revocation/mod.rs:78-102 | listing fails exactly on a fault; otherwise, with a good timestamp, up to date exactly if every bad file is listed with size zero or their sizes add up to a multiple of 2^64, else their sum modulo 2^64 |
| `Fetch.VerifyTrusted` | upki/src/revocation/mod.rs:78-85 | if all sizes are positive and their sum fits 64 bits: up to date, in any directory, exactly if for every listed file a readable file of its name has its SHA-256 |
| `Fetch.MissingButUpToDate` | upki/src/revocation/fetch.rs:199-207 | otherwise it need not: two missing files of 2^63 bytes |
| `FetchResult.ListedFile` | upki/src/revocation/fetch.rs:163-173 | from the index step on every listed file has its hash; a file already right is never touched |
| `FetchResult.IndexSaved` | upki/src/revocation/fetch.rs:299-338 | the index left is that of the files left, or the old one if none can be built |
| `FetchInFull.FetchLeaves` | upki/src/revocation/fetch.rs:111-117 | after success every listed file is there with content of its listed SHA-256, untouched if it was so before, and the manifest is saved |
| `FetchInFull.FetchKeepsRest` | upki/src/revocation/fetch.rs:111-117 | every other entry but the index is exactly as it was, except that those named x.filter or x.delta that neither manifest lists are gone |
| `FetchResult.OnlyDownloadsRefused` | upki/src/revocation/fetch.rs:240-285 | the only step of a plan that can fail without a fault is a download whose bytes do not have the listed hash |
| `FetchResult.OneFetchExact` | upki/src/revocation/fetch.rs:175-193 | one fetch leaves exactly the manifest's filter files if and only if no filter file is listed by the previous manifest alone |
| `FetchResult.OneFetchNotEnough` | upki/src/revocation/fetch.rs:175-179 | a directory and a complete fetch after which a file of the previous manifest is left |
| `FetchResult.TwoFetchesConverge` | upki/src/revocation/fetch.rs:130-196 | from any directory two successful fetches of one manifest leave exactly its names among the filter files |
| `FetchResult.ConvergedStays` | upki/src/revocation/fetch.rs:130-196 | every later plan for it only saves the index and the manifest, and keeps it so |
| `FetchRuns.CountField` | upki/src/revocation/index.rs:186-186 | the count field holds the number of files modulo 2^16, so it is right exactly below that |
| `FetchRuns.WrittenNames` | upki/src/revocation/index.rs:186-195 | however many files there are, names read back are names written, at the same position |
| `FetchRuns.GuardedPlan` | upki/src/revocation/fetch.rs:163-193 | every plan deletes nothing before its index step and nothing its manifest lists after it |
| `FetchRuns.AdvanceSafe` | upki/src/revocation/fetch.rs:240-355 | every step keeps: all files the index on disk names exist, and none of them will be deleted before the index is replaced |
| `FetchRuns.CacheSafety` | upki/src/revocation/fetch.rs:111-113 | in every run of fetches that may fail or stop after any step, if every index step can build an index or finds one that names only files of the manifests on disk and served, every file the index on disk names exists after every step |
| `FetchRuns.RunSafetyExact` | upki/src/revocation/fetch.rs:240-355 | whatever can be built, a run keeps the cache safe throughout if and only if no step of it deletes a file that the index on disk names at that moment |
| `FetchRuns.SafetyExact` | upki/src/revocation/fetch.rs:304-306 | a successful fetch keeps the cache safe if and only if its index could be built or it deletes no file the old index names |
| `FetchRuns.OneUnbuildable` | upki/src/revocation/fetch.rs:175-179 | one manifest without an index is harmless while the old index names only files of the manifest on disk |
| `FetchRuns.TwoUnbuildableExact` | upki/src/revocation/fetch.rs:304-306 | two in a row keep the cache safe if and only if one of the two manifests lists each filter file of the old index |
| `FetchRuns.TwoUnbuildable` | upki/src/revocation/fetch.rs:304-306 | two chained complete fetches, neither of which can build an index: the first keeps a concrete directory safe, the second does not |
| `FetchRuns.ReaderGrace` | upki/src/revocation/fetch.rs:84-91 | while a manifest is the one on disk when each fetch begins, no file it lists is ever missing, however the fetches go |
| `FetchRuns.OpenedGrace` | upki/src/revocation/fetch.rs:175-193 | the same for every name in the index a reader opens, between fetches or during one, if the index step of that one is done or the manifest on disk lists the name |
| `FetchRuns.GraceExact` | upki/src/revocation/fetch.rs:175-193 | no next fetch, complete or cut short, can make a file of the index go missing if and only if the manifest on disk lists every filter file of that index |
| `FetchRuns.FetchLeavesGrace` | upki/src/revocation/fetch.rs:111-113 | a successful fetch that builds its index leaves a directory of that kind |
| `FetchRuns.GapHasNoGrace` | upki/src/revocation/fetch.rs:181-189 | a first fetch that stops between its index step and its manifest step does not: a next fetch may delete the file the index names |
| `FetchRuns.ReaderContents` | upki/src/revocation/fetch.rs:163-193 | if its listed hash does not change, its content does not either, at any step |
| `FetchRuns.ReaderCheck` | upki/src/revocation/index.rs:230-329 | a check with an index opened earlier, reading each filter at any moment of the fetches that run meanwhile, returns the verdict of the filters of its own manifest and no error |
| `FetchRuns.FetchInstalls` | upki/src/revocation/fetch.rs:175-193 | a successful fetch that builds its index leaves a directory from which such readers are served until the end of the next fetch |
| `FetchRuns.FetchIsRun` | upki/src/revocation/fetch.rs:111-113 | whatever the step loop does, complete or cut short, is a run of the state machine |
| `FetchRuns.FailureIsRun` | upki/src/revocation/fetch.rs:111-113 | so it is with the step that fails at its end |
| `FetchRuns.FetchAsRun` | upki/src/revocation/fetch.rs:60-117 | every call of the program, failing, dry or complete, is a run from the directory it finds to the one it leaves |
| `FetchRuns.FetchStaysSafe` | upki/src/revocation/fetch.rs:60-117 | so a call that finds the cache safe keeps it safe after every step, under the condition of `CacheSafety` |
| `FetchRuns.JoinIsRun` | upki/src/revocation/fetch.rs:84-91 | calls that follow one another are together one run |
| `Mirror.ByParentIs` | upki-mirror/src/bin/mozilla-crlite.rs:47-52 | the map holds, for a parent, an item with that parent, and misses only ids that are nobody's parent |
| `Mirror.NextExactly` | upki-mirror/src/bin/mozilla-crlite.rs:64-67 | the walk goes to the last item whose parent is the id visited, and ends if there is none |
| `Mirror.RootExactly` | upki-mirror/src/bin/mozilla-crlite.rs:55-60 | the root is the first item that is not incremental, has no parent and is on the default channel |
| `Mirror.NoRepeat` | upki-mirror/src/bin/mozilla-crlite.rs:64-67 | with unique ids no chain from a root visits an item twice, whatever cycles other records form |
| `Mirror.WalkEndsExactly` | upki-mirror/src/bin/mozilla-crlite.rs:64-67 | the loop ends if and only if no id comes up twice among the first items visited, one more than there are records |
| `Mirror.UniqueIdsEnd` | upki-mirror/src/bin/mozilla-crlite.rs:64-67 | so it ends whenever ids are unique |
| `Mirror.Walk` | upki-mirror/src/bin/mozilla-crlite.rs:47-67 | wherever it ends, the walk starts at a root, follows parents, repeats nothing, and ends at an item that is nobody's parent |
| `Mirror.NeverEnds` | upki-mirror/src/bin/mozilla-crlite.rs:64-67 | a concrete list of two records on which it goes on for ever |
| `SctList.ParseAsn1Length` | revoke-test/src/lib.rs:132-150 | short form below 128, else the big-endian value of up to four octets, else an error |
| `SctList.LengthExact` | revoke-test/src/lib.rs:132-150 | this is the definite form of X.690 if and only if the first octet is not 0x80 and begins no complete length of more than four octets |
| `SctList.LengthMinimal` | revoke-test/src/lib.rs:132-150 | a length read is the encoding with the fewest octets exactly if it is as wide as that |
| `SctList.OctetStringRoundTrip` | revoke-test/src/lib.rs:116-130 | an octet string below 2^32 bytes with minimal length octets comes back, whatever follows it |
| `SctList.FromDer` | revoke-test/src/lib.rs:159-184 | succeeds exactly on a complete record of at least 41 bytes; the offset grows and stays in bounds; the log ID is bytes 1 to 32 of the record and the timestamp the signed big-endian value of bytes 33 to 40 |
| `SctList.SctGivesFields` | revoke-test/src/lib.rs:180-183 | from version, log ID, timestamp and rest as RFC 6962, section 3.2, joins them, log ID and timestamp come back |
| `SctList.OctetStringTag` | revoke-test/src/lib.rs:116-122 | only data that begins with the tag 4 is an octet string |
| `SctList.ParseExtension` | revoke-test/src/lib.rs:65-80 | ends on any bytes with the parse of the extension value |
| `SctList.ExtensionRoundTrip` | revoke-test/src/lib.rs:65-80 | for SCTs of at most 65535 bytes whose records fit the list length, every log ID and every timestamp comes back in order |
| `SctList.ScanSound` | revoke-test/src/lib.rs:71-80 | what is accepted holds records, one after the other from the start, and the fields found are theirs |
| `SctList.ScanExact` | revoke-test/src/lib.rs:71-80 | a list is accepted if and only if it holds records of at least 41 bytes, each begun before the declared end, after which no further record begins |
| `SctList.ListExact` | revoke-test/src/lib.rs:71-80 | what is accepted is a list of RFC 6962, section 3.3, if and only if its records end where the declared length says, the list ends there, and that length is not zero |
| `SctList.TailIsIgnored` | revoke-test/src/lib.rs:71-80 | with bytes after it every such list is still accepted, with the same fields |
| `SctList.ZeroLengthAccepted` | revoke-test/src/lib.rs:71-80 | a declared length of zero is accepted as an empty list, whatever follows |
| `SctList.RecordMayOverrun` | revoke-test/src/lib.rs:159-184 | a record is accepted even if it runs past the declared length, whatever that is, unless it is zero |
| `SctList.ListMayStopShort` | revoke-test/src/lib.rs:74-77 | a list with at most one byte after its length is accepted as empty, whatever length it declares |

## Left out

- The ribbon filter inside a clubcard, certificate parsing, base64, UTF-8 validation, JSON, TOML and calendar dates are library code and stay abstract.
- HTTP, TLS, timeouts, async scheduling, logging, command-line handling and output text.
- Temporary files, permissions and renames: writing a file is one atomic step.
- Path separators, case-insensitive file systems and name normalisation: a name is a plain byte string.
- Two fetches at once in one directory: the program takes no lock, and nothing is claimed.
- `RevocationCheckInput::from_certificates`, `find_issuer`, the `FromStr` parsers and `to_cli` in upki/src/revocation/mod.rs: library calls with only easy members around them.
- The download, hash and size checks of the mirror and its manifest (upki-mirror/src/bin/mozilla-crlite.rs:69-123).
- upki/src/ffi.rs, upki-openssl and rustls-upki: pointer handling and finite mappings of enums.
- Sha256.Blockwise.MdPadWithLength: for blocks of 64 bytes and length fields of 8, the only ones used, and for fewer than 64 bytes held, which every call keeps.
- Mirror.Walk: requires the exact condition of `Mirror.WalkEndsExactly`, because a method has to end.
- Fetch.CacheDir.Construct: whether an entry can be read changes only when a fetch replaces or deletes it, and readable files are shorter than 2^61 bytes, beyond which the hasher panics.
- Fetch.Verify: the sum wraps as in a release build; a build with overflow checks panics instead.
- IndexCheck.Index.Check: a file that stands in two slots and is read twice must be found the same both times for the verdict to be given a meaning.
