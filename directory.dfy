/** The root directory: 32-byte slots, the names `getRootFiles` lists and
    the entry it looks up (`DirEntry`, `getRootFiles`). */
module Directory {
  import opened Wrappers
  import opened Bytes
  import opened Boot

  /** First byte of a slot that is not in use. */
  const Deleted: byte := 0xE5

  /** `DirEntry`: a slot's fields as the reader keeps them. The names are
      NUL-trimmed and ASCII-decoded but, unlike the listing, not stripped of
      spaces; times, dates and attributes stay raw. */
  datatype DirEntry = DirEntry(
    filename: string,
    extension: string,
    attributes: byte,
    reserved: seq<byte>,
    updateTime: nat,
    updateDate: nat,
    startCluster: nat,
    fileSize: nat)

  /** `bytes.rstrip(b'\x00')`: drop the NUL bytes at the end. */
  function RStripNul(s: seq<byte>): (r: seq<byte>)
    ensures |r| <= |s| && r == s[..|r|]
    ensures r == [] || r[|r| - 1] != 0
    ensures forall k :: |r| <= k < |s| ==> s[k] == 0
  {
    if s == [] || s[|s| - 1] != 0 then s else RStripNul(s[..|s| - 1])
  }

  /** `.decode('ascii', errors='ignore')`: every byte below 0x80 becomes the
      character with that code, every other byte is dropped. */
  function AsciiDecode(s: seq<byte>): (r: string)
    ensures |r| <= |s|
    ensures forall k :: 0 <= k < |r| ==> r[k] as int < 0x80
  {
    if s == [] then []
    else (if s[0] < 0x80 then [s[0] as char] else []) + AsciiDecode(s[1..])
  }

  /** On pure ASCII bytes the decoding keeps every byte, as its character. */
  lemma {:induction false} AsciiDecodeKeepsAscii(s: seq<byte>)
    requires forall k :: 0 <= k < |s| ==> s[k] < 0x80
    ensures |AsciiDecode(s)| == |s|
    ensures forall k :: 0 <= k < |s| ==> AsciiDecode(s)[k] as int == s[k]
  {
    if s != [] {
      AsciiDecodeKeepsAscii(s[1..]);
      assert AsciiDecode(s) == [s[0] as char] + AsciiDecode(s[1..]);
    }
  }

  /** The decoding works byte by byte: decoding a concatenation decodes
      each part. */
  lemma {:induction false} AsciiDecodeAppend(s: seq<byte>, t: seq<byte>)
    ensures AsciiDecode(s + t) == AsciiDecode(s) + AsciiDecode(t)
  {
    if s == [] {
      assert s + t == t;
    } else {
      assert (s + t)[1..] == s[1..] + t;
      AsciiDecodeAppend(s[1..], t);
    }
  }

  /** A single byte decodes to its character when it is ASCII and to
      nothing otherwise. */
  lemma AsciiDecodeByte(b: byte)
    ensures AsciiDecode([b]) == if b < 0x80 then [b as char] else []
  {
    assert [b][1..] == [];
  }

  /** The ASCII characters `str.strip()` removes: tab, line feed, vertical
      tab, form feed, carriage return, the four separators 0x1C..0x1F and
      the space. */
  predicate IsSpace(c: char) {
    0x09 <= c as int <= 0x0D || 0x1C <= c as int <= 0x20
  }

  /** `str.rstrip()`. */
  function RStrip(s: string): (r: string)
    ensures |r| <= |s|
  {
    if s == [] || !IsSpace(s[|s| - 1]) then s else RStrip(s[..|s| - 1])
  }

  /** `str.rstrip()` keeps a prefix that does not end in white space and
      removes only white space. */
  lemma {:induction false} RStripSpec(s: string)
    ensures RStrip(s) == s[..|RStrip(s)|]
    ensures RStrip(s) == [] || !IsSpace(RStrip(s)[|RStrip(s)| - 1])
    ensures forall k :: |RStrip(s)| <= k < |s| ==> IsSpace(s[k])
  {
    if s != [] && IsSpace(s[|s| - 1]) {
      RStripSpec(s[..|s| - 1]);
    }
  }

  /** `str.lstrip()`. */
  function LStrip(s: string): (r: string)
    ensures |r| <= |s|
  {
    if s == [] || !IsSpace(s[0]) then s else LStrip(s[1..])
  }

  /** `str.lstrip()` keeps a suffix that does not start with white space
      and removes only white space. */
  lemma {:induction false} LStripSpec(s: string)
    ensures LStrip(s) == s[|s| - |LStrip(s)|..]
    ensures LStrip(s) == [] || !IsSpace(LStrip(s)[0])
    ensures forall k :: 0 <= k < |s| - |LStrip(s)| ==> IsSpace(s[k])
  {
    if s != [] && IsSpace(s[0]) {
      LStripSpec(s[1..]);
    }
  }

  /** `str.strip()`. */
  function Strip(s: string): (r: string)
    ensures |r| <= |s|
  {
    LStrip(RStrip(s))
  }

  /** `str.strip()` keeps one contiguous run of the string: it ends where
      `rstrip` stops. */
  lemma StripIsSlice(s: string)
    ensures |Strip(s)| <= |RStrip(s)| <= |s|
    ensures Strip(s) == s[|RStrip(s)| - |Strip(s)|..|RStrip(s)|]
  {
    RStripSpec(s);
    LStripSpec(RStrip(s));
  }

  /** `str.strip()` neither starts nor ends its result with white space,
      and gives the empty string exactly when the whole string is white
      space. */
  lemma StripSpec(s: string)
    ensures Strip(s) == [] || (!IsSpace(Strip(s)[0]) && !IsSpace(Strip(s)[|Strip(s)| - 1]))
    ensures Strip(s) == [] <==> forall k :: 0 <= k < |s| ==> IsSpace(s[k])
  {
    var t := RStrip(s);
    var r := LStrip(t);
    RStripSpec(s);
    LStripSpec(t);
    assert r != [] ==> r[|r| - 1] == t[|t| - 1];
    assert r == [] ==> t == [];
  }

  /** Stripping twice strips nothing more. */
  lemma StripIdempotent(s: string)
    ensures Strip(Strip(s)) == Strip(s)
  {
    var r := Strip(s);
    StripSpec(s);
    assert RStrip(r) == r;
    assert LStrip(r) == r;
  }

  /** Stripping ASCII text leaves ASCII text with no white space at either
      end. */
  lemma StripShape(s: string)
    requires forall k :: 0 <= k < |s| ==> s[k] as int < 0x80
    ensures forall k :: 0 <= k < |Strip(s)| ==> Strip(s)[k] as int < 0x80
    ensures Strip(s) == [] || (!IsSpace(Strip(s)[0]) && !IsSpace(Strip(s)[|Strip(s)| - 1]))
  {
    StripIsSlice(s);
    StripSpec(s);
  }

  /** The decoded name in bytes `lo .. hi - 1` of a slot, NUL-trimmed. */
  function RawField(slot: seq<byte>, lo: nat, hi: nat): string
    requires lo <= hi
  {
    AsciiDecode(RStripNul(Slice(slot, lo, hi)))
  }

  /** The listing's file name: bytes 0..7, trimmed of NULs, decoded, stripped. */
  function FileName(slot: seq<byte>): (r: string)
    ensures |r| <= 8
  {
    Strip(RawField(slot, 0, 8))
  }

  /** The listing's extension: bytes 8..10, trimmed of NULs, decoded, stripped. */
  function Extension(slot: seq<byte>): (r: string)
    ensures |r| <= 3
  {
    Strip(RawField(slot, 8, 11))
  }

  /** A listed name or extension is ASCII and has no white space at either
      end. */
  lemma ListedNameShape(slot: seq<byte>)
    ensures forall k :: 0 <= k < |FileName(slot)| ==> FileName(slot)[k] as int < 0x80
    ensures forall k :: 0 <= k < |Extension(slot)| ==> Extension(slot)[k] as int < 0x80
    ensures FileName(slot) == [] || (!IsSpace(FileName(slot)[0]) && !IsSpace(FileName(slot)[|FileName(slot)| - 1]))
    ensures Extension(slot) == [] || (!IsSpace(Extension(slot)[0]) && !IsSpace(Extension(slot)[|Extension(slot)| - 1]))
  {
    StripShape(RawField(slot, 0, 8));
    StripShape(RawField(slot, 8, 11));
  }

  /** `NAME.EXT`, or just `NAME` when the extension is empty. */
  function DisplayName(filename: string, extension: string): string {
    if extension != [] then filename + "." + extension else filename
  }

  /** A displayed name starts with the file name, followed by a dot and the
      extension when there is one. */
  lemma DisplayNameParts(filename: string, extension: string)
    ensures |DisplayName(filename, extension)| ==
      |filename| + (if extension == [] then 0 else |extension| + 1)
    ensures DisplayName(filename, extension)[..|filename|] == filename
    ensures extension != [] ==> DisplayName(filename, extension)[|filename|] == '.'
    ensures extension != [] ==> DisplayName(filename, extension)[|filename| + 1..] == extension
  {
  }

  /** Split a name at its first dot (the whole name when it has none). */
  function SplitName(name: string): (string, string) {
    if name == [] then ([], [])
    else if name[0] == '.' then ([], name[1..])
    else
      var (f, e) := SplitName(name[1..]);
      ([name[0]] + f, e)
  }

  /** A displayed name gives back its file name and extension when the file
      name has no dot. */
  lemma {:induction false} SplitDisplayName(filename: string, extension: string)
    requires forall k :: 0 <= k < |filename| ==> filename[k] != '.'
    ensures SplitName(DisplayName(filename, extension)) == (filename, extension)
  {
    if filename != [] {
      SplitDisplayName(filename[1..], extension);
      if extension != [] {
        assert DisplayName(filename, extension)[1..] == DisplayName(filename[1..], extension);
      } else {
        assert DisplayName(filename, extension)[1..] == filename[1..];
      }
      assert [filename[0]] + filename[1..] == filename;
    } else if extension != [] {
      assert DisplayName(filename, extension) == "." + extension;
      assert ("." + extension)[1..] == extension;
    }
  }

  /** The reader's test that a name is a file: not empty and not made only
      of NULs and spaces. */
  predicate IsRealName(filename: string) {
    filename != [] && !(forall k :: 0 <= k < |filename| ==> filename[k] as int == 0 || filename[k] == ' ')
  }

  /** The entry `main` looks for. */
  predicate IsNetworksTxt(filename: string, extension: string) {
    filename == "NETWORKS" && extension == "TXT"
  }

  /** A name field made only of NULs and spaces is never listed, whatever
      the stripping leaves of it. */
  lemma BlankNameNotListed(slot: seq<byte>)
    requires forall k :: 0 <= k < 8 && k < |slot| ==> slot[k] == 0 || slot[k] == 0x20
    ensures !IsRealName(FileName(slot))
  {
    var b := RStripNul(Slice(slot, 0, 8));
    AsciiDecodeKeepsAscii(b);
    StripIsSlice(RawField(slot, 0, 8));
  }

  /** `DirEntry.__init__`: fixed offsets of a 32-byte slot; the unpacking
      fails (None) on a slot shorter than 32 bytes. */
  function DecodeEntry(slot: seq<byte>): (r: Option<DirEntry>)
    ensures r.Some? <==> |slot| >= SlotSize
    ensures r.Some? ==> |r.value.filename| <= 8 && |r.value.extension| <= 3
    ensures r.Some? ==> |r.value.reserved| == 10
    ensures r.Some? ==> r.value.updateTime < 0x1_0000 && r.value.updateDate < 0x1_0000
    ensures r.Some? ==> r.value.startCluster < 0x1_0000 && r.value.fileSize < 0x1_0000_0000
  {
    if |slot| < SlotSize then None
    else Some(DirEntry(
      filename := RawField(slot, 0, 8),
      extension := RawField(slot, 8, 11),
      attributes := slot[11],
      reserved := slot[12..22],
      updateTime := U16(slot[22], slot[23]),
      updateDate := U16(slot[24], slot[25]),
      startCluster := U16(slot[26], slot[27]),
      fileSize := U32(slot[28], slot[29], slot[30], slot[31])))
  }

  /** A name `DirEntry` can hold in a field of `width` bytes: ASCII, short
      enough, and not ending in NUL (which the trimming would remove). */
  predicate IsFieldName(name: string, width: nat) {
    |name| <= width
    && (forall k :: 0 <= k < |name| ==> name[k] as int < 0x80)
    && (name == [] || name[|name| - 1] as int != 0)
  }

  /** The entries a slot can represent. */
  predicate Encodable(d: DirEntry) {
    IsFieldName(d.filename, 8) && IsFieldName(d.extension, 3) && |d.reserved| == 10
    && d.updateTime < 0x1_0000 && d.updateDate < 0x1_0000
    && d.startCluster < 0x1_0000 && d.fileSize < 0x1_0000_0000
  }

  /** A name field: the name's bytes padded with NULs to `width`. */
  function FieldBytes(name: string, width: nat): (b: seq<byte>)
    requires IsFieldName(name, width)
    ensures |b| == width
  {
    seq(|name|, k requires 0 <= k < |name| => name[k] as int) + seq(width - |name|, _ => 0)
  }

  /** A slot laid out as `DirEntry` reads it. */
  function EncodeEntry(d: DirEntry): (slot: seq<byte>)
    requires Encodable(d)
    ensures |slot| == SlotSize
  {
    FieldBytes(d.filename, 8) + FieldBytes(d.extension, 3) + [d.attributes] + d.reserved
    + Le16(d.updateTime) + Le16(d.updateDate) + Le16(d.startCluster)
    + Le16(d.fileSize % 0x1_0000) + Le16(d.fileSize / 0x1_0000)
  }

  /** Trailing NUL padding is exactly what the trimming removes. */
  lemma {:induction false} RStripNulPadding(b: seq<byte>, n: nat)
    requires b == [] || b[|b| - 1] != 0
    ensures RStripNul(b + seq(n, _ => 0)) == b
  {
    if n > 0 {
      var padded := b + seq(n, _ => 0);
      assert padded[..|padded| - 1] == b + seq(n - 1, _ => 0);
      RStripNulPadding(b, n - 1);
    } else {
      assert b + seq(n, _ => 0) == b;
    }
  }

  /** A name field decodes back to its name. */
  lemma FieldRoundTrip(name: string, width: nat, slot: seq<byte>, lo: nat)
    requires IsFieldName(name, width)
    requires lo + width <= |slot| && slot[lo..lo + width] == FieldBytes(name, width)
    ensures RawField(slot, lo, lo + width) == name
  {
    var chars: seq<byte> := seq(|name|, k requires 0 <= k < |name| => name[k] as int);
    assert Slice(slot, lo, lo + width) == chars + seq(width - |name|, _ => 0);
    assert chars == [] || chars[|chars| - 1] != 0;
    RStripNulPadding(chars, width - |name|);
    AsciiDecodeKeepsAscii(chars);
  }

  /** Where each field of an entry lands in its slot. */
  lemma EncodedLayout(d: DirEntry)
    requires Encodable(d)
    ensures EncodeEntry(d)[0..8] == FieldBytes(d.filename, 8)
    ensures EncodeEntry(d)[8..11] == FieldBytes(d.extension, 3)
    ensures EncodeEntry(d)[11] == d.attributes && EncodeEntry(d)[12..22] == d.reserved
    ensures U16(EncodeEntry(d)[22], EncodeEntry(d)[23]) == d.updateTime
    ensures U16(EncodeEntry(d)[24], EncodeEntry(d)[25]) == d.updateDate
    ensures U16(EncodeEntry(d)[26], EncodeEntry(d)[27]) == d.startCluster
    ensures U32(EncodeEntry(d)[28], EncodeEntry(d)[29], EncodeEntry(d)[30], EncodeEntry(d)[31]) == d.fileSize
  {
    var lo := Le16(d.fileSize % 0x1_0000);
    var hi := Le16(d.fileSize / 0x1_0000);
    var slot := EncodeEntry(d);
    assert slot[28..30] == lo && slot[30..32] == hi;
  }

  /** Decoding a laid-out slot recovers every field of the entry. */
  lemma DecodeEncodeEntry(d: DirEntry)
    requires Encodable(d)
    ensures DecodeEntry(EncodeEntry(d)) == Some(d)
  {
    var slot := EncodeEntry(d);
    EncodedLayout(d);
    FieldRoundTrip(d.filename, 8, slot, 0);
    FieldRoundTrip(d.extension, 3, slot, 8);
  }

  /** The entry's names are the listing's names before white space is
      stripped. */
  lemma DecodedNamesStripToListed(slot: seq<byte>)
    requires DecodeEntry(slot).Some?
    ensures Strip(DecodeEntry(slot).value.filename) == FileName(slot)
    ensures Strip(DecodeEntry(slot).value.extension) == Extension(slot)
  {
  }

  /** Slot `i` of the root directory bytes: `root[i * 32:(i + 1) * 32]`. */
  function SlotAt(root: seq<byte>, i: nat): seq<byte> {
    Slice(root, i * SlotSize, (i + 1) * SlotSize)
  }

  /** The root directory region: `rootDirEntries * 32` bytes at the root
      directory offset (shorter when the image ends first). */
  function RootDir(image: seq<byte>, boot: BootParams): (root: seq<byte>)
    ensures |root| <= boot.rootDirEntries * SlotSize
    ensures boot.DataAreaStart() <= |image| ==> |root| == boot.rootDirEntries * SlotSize
    ensures boot.RootDirBase() < |image| ==>
      |root| == Min(boot.rootDirEntries * SlotSize, |image| - boot.RootDirBase())
    ensures boot.RootDirBase() >= |image| ==> root == []
    ensures root == [] || boot.RootDirBase() + |root| <= |image|
    ensures forall k :: 0 <= k < |root| ==> root[k] == image[boot.RootDirBase() + k]
  {
    ReadAt(image, boot.RootDirBase(), boot.rootDirEntries * SlotSize).value
  }

  /** What one slot means to `getRootFiles`: past the end of a short root
      directory, deleted, or in use with its displayed name, whether that
      name is listed, whether it is `NETWORKS.TXT`, and its decoded entry. */
  datatype SlotView =
    | Absent
    | Erased
    | InUse(name: string, listed: bool, target: bool, entry: Option<DirEntry>)

  /** The per-slot decoding of `getRootFiles`'s loop body. */
  function ViewSlot(slot: seq<byte>): (r: SlotView)
    ensures r == Absent <==> slot == []
    ensures r == Erased <==> slot != [] && slot[0] == Deleted
    ensures r.InUse? ==> (r.entry.Some? <==> |slot| >= SlotSize)
  {
    if slot == [] then Absent
    else if slot[0] == Deleted then Erased
    else
      var filename := FileName(slot);
      var extension := Extension(slot);
      InUse(DisplayName(filename, extension), IsRealName(filename),
            IsNetworksTxt(filename, extension), DecodeEntry(slot))
  }

  /** The slot the reader looks for is always listed, as `NETWORKS.TXT`. */
  lemma TargetIsListed(slot: seq<byte>)
    ensures ViewSlot(slot).InUse? && ViewSlot(slot).target ==>
      ViewSlot(slot).listed && ViewSlot(slot).name == "NETWORKS.TXT"
  {
    assert "NETWORKS"[0] == 'N';
  }

  /** The views of the first `count` slots of the root directory bytes. */
  function Views(root: seq<byte>, count: nat): (views: seq<SlotView>)
    ensures |views| == count
    ensures forall i :: 0 <= i < count ==> views[i] == ViewSlot(SlotAt(root, i))
  {
    seq(count, i requires 0 <= i < count => ViewSlot(SlotAt(root, i)))
  }

  /** Which slots are absent and which deleted, read off the root directory
      bytes: slot `i` is absent when the bytes end at or before `32 * i`,
      and deleted when its first byte is 0xE5. */
  lemma ViewsOfBytes(root: seq<byte>, count: nat, i: nat)
    requires i < count
    ensures Views(root, count)[i] == Absent <==> |root| <= SlotSize * i
    ensures Views(root, count)[i] == Erased <==>
      SlotSize * i < |root| && root[SlotSize * i] == Deleted
  {
    var slot := SlotAt(root, i);
    assert slot == [] <==> |root| <= SlotSize * i;
    assert slot != [] ==> slot[0] == root[SlotSize * i];
  }

  /** What `getRootFiles` has gathered so far: the listed names and the last
      `NETWORKS.TXT` entry (None while there is none, where the reader would
      fail on an unbound variable). */
  datatype Scan = Scan(names: seq<string>, found: Option<DirEntry>)

  /** Why the enumeration fails: a slot past the end of a short root
      directory (`entry[0]` on an empty slice), or a `NETWORKS.TXT` slot too
      short for `DirEntry`. */
  datatype DirError = EmptySlot | ShortEntry

  /** The bookkeeping of one iteration of the slot loop. */
  function Step(s: Scan, v: SlotView): Result<Scan, DirError> {
    match v
    case Absent => Err(EmptySlot)
    case Erased => Ok(s)
    case InUse(name, listed, target, entry) =>
      var names := if listed then s.names + [name] else s.names;
      if !target then Ok(Scan(names, s.found))
      else if entry.None? then Err(ShortEntry)
      else Ok(Scan(names, entry))
  }

  /** The slot loop over a sequence of views. */
  function ScanViews(views: seq<SlotView>): Result<Scan, DirError> {
    if views == [] then Ok(Scan([], None))
    else
      match ScanViews(views[..|views| - 1])
      case Err(e) => Err(e)
      case Ok(s) => Step(s, views[|views| - 1])
  }

  /** The enumeration of the first `count` slots of the root directory. */
  function ScanSlots(root: seq<byte>, count: nat): Result<Scan, DirError> {
    ScanViews(Views(root, count))
  }

  /** Once a slot fails, the enumeration ends with that failure. */
  lemma {:induction false} FailureIsFinal(views: seq<SlotView>, i: nat)
    requires i <= |views| && ScanViews(views[..i]).Err?
    ensures ScanViews(views) == ScanViews(views[..i])
  {
    if i < |views| {
      var front := views[..|views| - 1];
      assert front[..i] == views[..i];
      FailureIsFinal(front, i);
    } else {
      assert views[..i] == views;
    }
  }

  /** `getRootFiles`: walk the slots in order, skip deleted ones, list every
      real name and keep the last `NETWORKS.TXT` entry. */
  method GetRootFiles(image: seq<byte>, boot: BootParams) returns (r: Result<Scan, DirError>)
    ensures r == ScanSlots(RootDir(image, boot), boot.rootDirEntries)
  {
    var root := ReadAt(image, boot.RootDirBase(), boot.rootDirEntries * SlotSize).value;
    ghost var views := Views(root, boot.rootDirEntries);
    var files: seq<string> := [];
    var networkFileEntry: Option<DirEntry> := None;
    for i := 0 to boot.rootDirEntries
      invariant ScanViews(views[..i]) == Ok(Scan(files, networkFileEntry))
    {
      var entry := Slice(root, i * SlotSize, (i + 1) * SlotSize);
      assert views[..i + 1][..i] == views[..i];
      assert views[i] == ViewSlot(entry);
      if entry == [] {
        FailureIsFinal(views, i + 1);
        return Err(EmptySlot);
      }
      if entry[0] == Deleted {
        continue;
      }
      var filename := FileName(entry);
      var extension := Extension(entry);
      var fullFilename := DisplayName(filename, extension);
      assert views[i] == InUse(fullFilename, IsRealName(filename), IsNetworksTxt(filename, extension), DecodeEntry(entry));
      if IsRealName(filename) {
        files := files + [fullFilename];
      }
      if filename == "NETWORKS" && extension == "TXT" {
        var decoded := DecodeEntry(entry);
        if decoded.None? {
          FailureIsFinal(views, i + 1);
          return Err(ShortEntry);
        }
        networkFileEntry := decoded;
      }
    }
    assert views[..boot.rootDirEntries] == views;
    return Ok(Scan(files, networkFileEntry));
  }

  /** The indices of the listed slots, in order. */
  function ListedIndices(views: seq<SlotView>): seq<nat> {
    if views == [] then []
    else
      var last := views[|views| - 1];
      ListedIndices(views[..|views| - 1]) + (if last.InUse? && last.listed then [|views| - 1] else [])
  }

  /** The index of the last `NETWORKS.TXT` slot. */
  function LastTarget(views: seq<SlotView>): Option<nat> {
    if views == [] then None
    else if views[|views| - 1].InUse? && views[|views| - 1].target then Some(|views| - 1)
    else LastTarget(views[..|views| - 1])
  }

  /** The listed slots are exactly the in-use slots with a real file name,
      in increasing (on-disk) order. */
  lemma {:induction false} ListedIndicesSpec(views: seq<SlotView>)
    ensures forall j, k :: 0 <= j < k < |ListedIndices(views)| ==> ListedIndices(views)[j] < ListedIndices(views)[k]
    ensures forall j :: 0 <= j < |ListedIndices(views)| ==> ListedIndices(views)[j] < |views|
    ensures forall i :: i in ListedIndices(views) <==> 0 <= i < |views| && views[i].InUse? && views[i].listed
  {
    if views != [] {
      var front := views[..|views| - 1];
      ListedIndicesSpec(front);
      var last := views[|views| - 1];
      var tail: seq<nat> := if last.InUse? && last.listed then [|views| - 1] else [];
      assert ListedIndices(views) == ListedIndices(front) + tail;
      forall i ensures i in ListedIndices(front) + tail <==> 0 <= i < |views| && views[i].InUse? && views[i].listed {
        assert i in ListedIndices(front) + tail <==> i in ListedIndices(front) || i in tail;
        if 0 <= i < |front| {
          assert front[i] == views[i];
        }
      }
    }
  }

  /** The last `NETWORKS.TXT` slot: None when there is none, otherwise one
      with no `NETWORKS.TXT` slot after it. */
  lemma {:induction false} LastTargetSpec(views: seq<SlotView>)
    ensures LastTarget(views).None? <==> forall i :: 0 <= i < |views| ==> !(views[i].InUse? && views[i].target)
    ensures LastTarget(views).Some? ==>
      var i := LastTarget(views).value;
      i < |views| && views[i].InUse? && views[i].target
      && forall k :: i < k < |views| ==> !(views[k].InUse? && views[k].target)
  {
    if views != [] {
      var front := views[..|views| - 1];
      LastTargetSpec(front);
      assert forall i :: 0 <= i < |front| ==> front[i] == views[i];
    }
  }

  /** A completed enumeration lists the names of the listed slots, in slot
      order. */
  lemma {:induction false} ScanNames(views: seq<SlotView>)
    requires ScanViews(views).Ok?
    ensures |ScanViews(views).value.names| == |ListedIndices(views)|
    ensures forall j :: 0 <= j < |ListedIndices(views)| ==>
      var i := ListedIndices(views)[j];
      i < |views| && views[i].InUse? && ScanViews(views).value.names[j] == views[i].name
  {
    if views != [] {
      var front := views[..|views| - 1];
      ScanNames(front);
      ListedIndicesSpec(front);
      var last := views[|views| - 1];
      var before := ScanViews(front).value.names;
      var names := ScanViews(views).value.names;
      if last.InUse? && last.listed {
        assert ListedIndices(views) == ListedIndices(front) + [|views| - 1];
        assert names == before + [last.name];
      } else {
        assert ListedIndices(views) == ListedIndices(front);
        assert names == before;
      }
      assert forall i :: 0 <= i < |front| ==> front[i] == views[i];
    }
  }

  /** A completed enumeration keeps the entry of the last `NETWORKS.TXT`
      slot, and none when there is no such slot. */
  lemma {:induction false} ScanFound(views: seq<SlotView>)
    requires ScanViews(views).Ok?
    ensures LastTarget(views).None? ==> ScanViews(views).value.found == None
    ensures LastTarget(views).Some? ==>
      var i := LastTarget(views).value;
      i < |views| && views[i].InUse? && ScanViews(views).value.found == views[i].entry
  {
    if views != [] {
      var front := views[..|views| - 1];
      ScanFound(front);
      assert forall i :: 0 <= i < |front| ==> front[i] == views[i];
    }
  }

  /** The enumeration fails exactly when a slot lies past the end of the
      root directory bytes or a `NETWORKS.TXT` slot is too short to decode. */
  lemma {:induction false} ScanFailsIff(views: seq<SlotView>)
    ensures ScanViews(views).Ok? <==>
      forall i :: 0 <= i < |views| ==> views[i] != Absent && (views[i].InUse? && views[i].target ==> views[i].entry.Some?)
  {
    if views != [] {
      var front := views[..|views| - 1];
      ScanFailsIff(front);
      assert forall i :: 0 <= i < |front| ==> front[i] == views[i];
    }
  }

  /** A root directory holding all its slots always enumerates without
      failure. */
  lemma FullRootScans(root: seq<byte>, count: nat)
    requires |root| >= count * SlotSize
    ensures ScanSlots(root, count).Ok?
  {
    var views := Views(root, count);
    forall i | 0 <= i < count
      ensures views[i] != Absent && (views[i].InUse? && views[i].target ==> views[i].entry.Some?)
    {
      assert |SlotAt(root, i)| == SlotSize;
    }
    ScanFailsIff(views);
  }
}
