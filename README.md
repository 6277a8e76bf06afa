# FAT12 disk image reader, in Dafny

This project models `image_reader.py`, a small reader for a FAT12 floppy image.
The reader does four things:

- it decodes the BIOS parameter block of the boot sector (`boot_t`);
- it reads the file allocation table (`readFAT`);
- it walks the root directory's 32-byte slots, building the list of displayed
  names and picking out the `NETWORKS.TXT` entry (`getRootFiles`, `DirEntry`);
- it reads a file by following its cluster chain through the table
  (`readCluster`, `readFile`).

The image is an immutable byte sequence. Each file read becomes a read at an
offset of that sequence (`Bytes.ReadAt`). Every exception the reader can raise
becomes an explicit error value:

- a seek to a negative offset;
- a `struct.unpack` on a slice that is too short;
- `entry[0]` on an empty slot;
- a `NETWORKS.TXT` slot too short for `DirEntry`.

Modules:

- `Bytes`: the byte type, little-endian `U16`/`U32`, clamped slicing, and reads at an offset.
- `Boot`: the parameter block, the derived region offsets, and an encoder used to state the round trip.
- `Fat`: the table read and the next-cluster lookup. The lookup is modelled twice: as written (`NextCluster`) and in the FAT12 layout (`StandardNextCluster`), with a FAT12 packer (`EncodeFat`).
- `Chain`: cluster offsets, `readCluster`, the `readFile` loop (`ReadFile`, a method proved against the function `Walk`), and the chain of clusters it visits.
- `ChainBound`: why the loop's iteration bound loses nothing.
- `Directory`: name trimming and decoding, `DirEntry`, and the `getRootFiles` loop (`GetRootFiles`, proved against `ScanSlots`), with what the listing and the found entry are.
- `OddClusterLayout`: a two-cluster file in a FAT12 table, read with both lookups.

`getRootFiles` and `readFile` are loops that update local variables, so they are
methods. Their `ensures` ties the result to a function, and lemmas state what
that function computes. Everything else is a function.

In two places the code departs from FAT12 conventions. The model follows the
code:

- The break test in `readFile` is `>= 0xF88`, not the `0xFF8` end-of-chain range (`Chain.BreakBeforeGuard`).
- An odd cluster's entry is read from the word at `c*3//2 - 1`, not at `c*3//2`, so it rereads bits of the even entry before it (`Fat.OddEntryOverlapsEven`, and the row under "## Findings").

The model also keeps two behaviours of the reader as written:

- A cluster offset past the end of the image is not an error. The read is just shorter, or empty (`Chain.ReadCluster`).
- `getRootFiles` keeps only the last `NETWORKS.TXT` entry and fails when there is none. It does not return the entries.

## Model

| member | source | states |
|---|---|---|
| Bytes.U16 | image_reader.py:17 | a little-endian `<H` value is below 0x10000 |
| Bytes.U32 | image_reader.py:43 | a little-endian `<I` value is below 0x100000000 |
| Bytes.Le16 | image_reader.py:17 | a u16 splits into two bytes that `U16` reassembles to the same value |
| Bytes.Slice | image_reader.py:70 | Python slicing clamps to the sequence: the length is `hi - lo`, cut at the end of the sequence, and each byte is the byte at `lo + k` |
| Bytes.ReadAt | image_reader.py:89-92 | seek then read: fails exactly for a negative offset; otherwise gives at most `count` bytes, exactly `count` inside the image, the rest of the image when it ends first, nothing past the end, each byte taken from the image at that offset |
| Boot.DecodeBoot | image_reader.py:16-23 | the parameter block decodes exactly when at least 24 bytes are present (otherwise an unpack fails), and every field fits its width |
| Boot.ReadBootSector | image_reader.py:45-49 | the boot sector of an image decodes exactly when the image has at least 24 bytes |
| Boot.DecodeEncode | image_reader.py:17-23 | a parameter block laid out at offsets 11, 13, 14, 16, 17, 19 and 22 decodes back to the same parameters |
| Boot.DecodeReadsOnlyBpb | image_reader.py:17-23 | two sectors that agree on bytes 11..20 and 22..23 decode alike: no other byte is read |
| Boot.MediaDescriptorIgnored | image_reader.py:12-23 | the media descriptor at byte 21 never changes the decoded parameters |
| Boot.BootIgnoresRestOfImage | image_reader.py:45-49 | only the first 512 bytes of the image matter to the boot parameters |
| Boot.RegionsInOrder | image_reader.py:24-25 | the FAT starts after the reserved sectors, the root directory follows all FAT copies, and the data area follows the 32-byte root slots |
| Fat.ReadFat | image_reader.py:51-57 | the table is `sectorsPerFat * bytesPerSector` bytes read at `reservedSectors * bytesPerSector`; when the image ends first it is the rest of the image, and empty when the table starts past the end; each byte is the image's byte at that offset |
| Fat.NextCluster | image_reader.py:101-105 | the lookup as written succeeds exactly when its two-byte slice is inside the table (even: from `c*3//2`; odd: from `c*3//2 - 1`), and its value is at most 0xFFF |
| Fat.NextClusterBits | image_reader.py:101-105 | an even cluster's value is bits 0..11 of the word at `c*3//2`; an odd cluster's is bits 4..15 of the word at `c*3//2 - 1` |
| Fat.NextClusterBytes | image_reader.py:101-105 | the same values in bytes and nibbles: even is the low byte plus the low nibble of the next byte; odd is the high nibble of the earlier byte plus the later byte |
| Fat.OddEntryOverlapsEven | image_reader.py:101-105 | for an even cluster c, the low byte of c+1's value is the top 8 bits of c's 12-bit value: the odd lookup rereads the even entry's bits |
| Fat.ChainTwoThreeNeverEnds | image_reader.py:105-106 | whenever cluster 2 leads to 3, the value read for cluster 3 has a zero low byte and is at most 0xF00, below the break threshold: a chain 2, 3 cannot end at 3 |
| Fat.StandardNextCluster | image_reader.py:101-105 | the FAT12 lookup reads the word at `c*3//2` for both parities, succeeds exactly when it lies in the table, and gives at most 0xFFF |
| Fat.EncodeFatAt | image_reader.py:101-105 | in a packed table, bytes `3p .. 3p+2` are the pair holding entries `2p` and `2p+1` |
| Fat.StandardRoundTrip | image_reader.py:101-105 | every entry packed the FAT12 way is read back by the FAT12 lookup, for both parities |
| Fat.Lookup | image_reader.py:101-105 | whichever layout is used, a found value is at most 0xFFF |
| Chain.ClusterOffset | image_reader.py:90 | clusters from 2 on start at or after the data area; clusters 0 and 1 start at or before it, so their offset can be negative |
| Chain.FirstClusterAtDataArea | image_reader.py:90 | cluster 2 lies at the start of the data area |
| Chain.ClustersContiguous | image_reader.py:90 | each cluster starts one cluster size after the previous one, and clusters from 2 on lie in the data area |
| Chain.ReadCluster | image_reader.py:89-92 | fails exactly when the cluster's offset is negative; otherwise at most one cluster's bytes, a full cluster inside the image, each byte the image's byte at the cluster's offset |
| Chain.Walk | image_reader.py:96-109 | a start cluster at or above 0xFF8 reads nothing; a successful read from a cluster below 0xFF8 begins with that whole cluster's bytes |
| Chain.ReadFile | image_reader.py:96-109 | the loop returns the walk's result: the bytes of every visited cluster in order, or the first failure |
| Chain.WalkReadsChain | image_reader.py:96-109 | a walk fails exactly when its chain does, with the same error, and otherwise returns the concatenated bytes of the chain's clusters |
| Chain.ChainIsChain | image_reader.py:96-109 | a completed chain starts at the start cluster, stays below 0xFF8, links each cluster to its looked-up value below 0xF88, and ends at a cluster whose value is at least 0xF88; it takes one iteration per cluster |
| Chain.ChainIsUnique | image_reader.py:96-109 | conversely, any sequence with those properties that fits the iteration budget is the chain the walk follows |
| Chain.PayloadsAtMost | image_reader.py:92-100 | each cluster adds at most one cluster size of bytes |
| Chain.PayloadsFull | image_reader.py:92-100 | clusters inside the image add exactly one cluster size each: the result is never cut to the entry's file size |
| Chain.BreakBeforeGuard | image_reader.py:99-107 | a looked-up value in 0xF88..0xFF7 passes the loop guard but ends the file after the current cluster, so that cluster is never read |
| ChainBound.IterAdd | image_reader.py:99-108 | `a + b` moves of the loop are `a` moves followed by `b` moves |
| ChainBound.IterBelowGuard | image_reader.py:99-108 | from a cluster below 0xFF8, every cluster the loop moves to stays below 0xFF8 |
| ChainBound.WalkRunsOut | image_reader.py:99-108 | a walk runs out of iterations exactly when it starts below 0xFF8 and every one of its moves continues |
| ChainBound.Pigeonhole | image_reader.py:99 | among more cluster numbers than there are values below a bound, two are equal |
| ChainBound.AlwaysContinues | image_reader.py:99-108 | a walk that continues for 0xFF8 moves and revisits a cluster continues forever |
| ChainBound.OutOfStepsIsForever | image_reader.py:99-108 | running out of 0xFF8 iterations means running out of any number of them: the unbounded loop never stops |
| ChainBound.WalkFuelMonotone | image_reader.py:99-108 | a walk that ends within some number of iterations ends the same way with more |
| ChainBound.ReadFileExact | image_reader.py:99-108 | the bounded loop is exact: its `Cycle` result means the source loops forever, and any walk that ends gives the same result as the bounded one |
| Directory.RStripNul | image_reader.py:36 | trailing NUL removal keeps a prefix that does not end in NUL and drops only NULs |
| Directory.AsciiDecode | image_reader.py:36 | ignoring decode errors gives only ASCII characters and never lengthens the name |
| Directory.AsciiDecodeAppend | image_reader.py:36 | the decoding works byte by byte: a concatenation decodes to the concatenated decodings |
| Directory.AsciiDecodeByte | image_reader.py:36 | one byte decodes to its character when below 0x80 and to nothing otherwise |
| Directory.AsciiDecodeKeepsAscii | image_reader.py:36 | on ASCII bytes the decoding keeps every byte as its character |
| Directory.RStripSpec | image_reader.py:76-77 | right stripping keeps a prefix that does not end in white space and removes only white space |
| Directory.LStripSpec | image_reader.py:76-77 | left stripping keeps a suffix that does not start with white space and removes only white space |
| Directory.StripSpec | image_reader.py:76-77 | a stripped name neither starts nor ends with white space, and is empty exactly when the name is all white space |
| Directory.StripIdempotent | image_reader.py:76-77 | stripping twice is stripping once |
| Directory.StripIsSlice | image_reader.py:76-77 | a stripped name is one contiguous run of the name, ending where right stripping stops |
| Directory.StripShape | image_reader.py:76-77 | stripping ASCII text gives ASCII text with no white space at either end |
| Directory.FileName | image_reader.py:76 | the listed file name has at most 8 characters |
| Directory.Extension | image_reader.py:77 | the listed extension has at most 3 characters |
| Directory.ListedNameShape | image_reader.py:76-77 | the listed name and extension are ASCII and have no white space at either end |
| Directory.DisplayNameParts | image_reader.py:78 | the displayed name starts with the file name; with an extension it continues with a dot and the extension, without one it is the file name alone |
| Directory.SplitDisplayName | image_reader.py:78 | a displayed name `NAME.EXT` (or `NAME` for an empty extension) splits back at its first dot into name and extension, when the name has no dot |
| Directory.TargetIsListed | image_reader.py:76-85 | the slot the reader looks for (name `NETWORKS`, extension `TXT`) always passes the listing test and is listed as `NETWORKS.TXT` |
| Directory.BlankNameNotListed | image_reader.py:76-82 | a name field made only of NUL and space bytes is never listed, whatever stripping leaves of it |
| Directory.DecodeEntry | image_reader.py:35-43 | a slot decodes exactly when it has 32 bytes; names have at most 8 and 3 characters, the reserved field 10 bytes, and the numbers fit 16 or 32 bits |
| Directory.RStripNulPadding | image_reader.py:36-37 | NUL padding after a name not ending in NUL is exactly what the trimming removes |
| Directory.FieldRoundTrip | image_reader.py:36-37 | an ASCII name padded with NULs to its field decodes back to the name |
| Directory.EncodedLayout | image_reader.py:38-43 | the entry fields sit at bytes 11, 12..21, 22..23 (time), 24..25 (date), 26..27 and 28..31 of a laid-out slot |
| Directory.DecodeEncodeEntry | image_reader.py:35-43 | every entry a slot can hold is decoded back unchanged from its layout |
| Directory.DecodedNamesStripToListed | image_reader.py:36-77 | the entry's names are the listing's names before white space is stripped |
| Directory.RootDir | image_reader.py:61-67 | the root directory is at most `rootDirEntries * 32` bytes read at the root directory offset: all of them when the image reaches the data area, the rest of the image when it ends first, nothing when it ends before the offset, each byte the image's byte at that offset |
| Directory.ViewSlot | image_reader.py:70-85 | an empty slot is absent, a slot starting with 0xE5 is deleted, and an in-use slot has an entry exactly when it has 32 bytes |
| Directory.ViewsOfBytes | image_reader.py:69-74 | slot `i` is absent exactly when the root directory bytes end at or before `32 * i`, and deleted exactly when byte `32 * i` is 0xE5 |
| Directory.FailureIsFinal | image_reader.py:69-85 | once a slot raises, the enumeration ends with that error |
| Directory.GetRootFiles | image_reader.py:60-87 | the loop returns the scan of all `rootDirEntries` slots of the root directory |
| Directory.ListedIndicesSpec | image_reader.py:69-82 | the listed slots are exactly the in-use slots whose name is not empty and not all NUL or space, in increasing slot order |
| Directory.LastTargetSpec | image_reader.py:84-85 | the chosen slot is a `NETWORKS.TXT` slot with no other after it; there is none exactly when no slot is `NETWORKS.TXT` |
| Directory.ScanNames | image_reader.py:69-82 | a completed scan lists the displayed names of the listed slots, in slot order |
| Directory.ScanFound | image_reader.py:84-87 | a completed scan keeps the entry of the last `NETWORKS.TXT` slot, and none when there is no such slot |
| Directory.ScanFailsIff | image_reader.py:70-85 | the scan fails exactly when some slot lies past the end of the root directory bytes or a `NETWORKS.TXT` slot is too short to decode |
| Directory.FullRootScans | image_reader.py:60-87 | a root directory holding all its slots always scans without failure |
| OddClusterLayout.TwoClusterFileBytes | image_reader.py:101-105 | the FAT12 packing of entries 0xFF0, 0xFFF, 3, 0xFFF is the bytes F0 FF FF 03 F0 FF |
| OddClusterLayout.AsWrittenLosesFile | image_reader.py:101-106 | with the lookup as written, such a table sends cluster 3 to 0xF00 instead of ending, and reading the file from cluster 2 fails on the entry of cluster 0xF00 in any table under 5762 bytes |
| OddClusterLayout.Fat12ReadsFile | image_reader.py:101-106 | with the FAT12 lookup, the same table reads clusters 2 and 3 and stops |

## Left out

- File I/O: `open`, `seek` and `read` on `disk1.img` are reads at an offset of an immutable byte sequence. Closing files and I/O errors other than a negative seek are not modelled.
- `main` and its printing (image_reader.py:111-122): output only, so not modelled.
- Decoding the file contents for display: not modelled.
- DOS time and date: not interpreted. The reader puts the time at bytes 22..23 and the date at 24..25, whatever its comments say, and the model does the same.
- `getRootFiles` raises an unbound-variable error when no slot is `NETWORKS.TXT`. The model gives `found == None` instead. It returns the name list too, which the reader builds and then discards.
- Chain.ReadFile: the source loop has no bound. The model stops after `MaxSteps` (0xFF8) iterations with `Cycle`, and `ChainBound.ReadFileExact` proves that this happens only when the source would loop forever.
- `& 0x0FFF` and `>> 4` on the unpacked word are written as `% 0x1000` and `/ 0x10`. This is the same on a non-negative 16-bit value.
- fat_structs.h cross-checks the field offsets only and is not part of this model.

## Findings

| source | as written | input that shows it | evidently intended | confidence | as-written member | corrected member |
|---|---|---|---|---|---|---|
| image_reader.py:105 | the entry of odd cluster c is read from the word at `c*3//2 - 1`, shifted right by 4 | a FAT12 table starting F0 FF FF 03 F0 FF (cluster 2 to 3, 3 end) and shorter than 5762 bytes: cluster 3 reads 0xF00, the walk moves on to 0xF00, and the unpack of its entry fails | read the word at `c*3//2` for odd clusters too, which gives 0xFFF for cluster 3 and ends the file after clusters 2 and 3 | high, not executed | OddClusterLayout.AsWrittenLosesFile | OddClusterLayout.Fat12ReadsFile |
