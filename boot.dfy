/** The boot sector: the DOS 2.0 BIOS parameter block fields the reader
    needs and the two byte offsets derived from them (`boot_t`). */
module Boot {
  import opened Wrappers
  import opened Bytes

  /** How many bytes `readBootSector` reads from the start of the image. */
  const BootSectorSize: nat := 512
  /** The last boot-sector field read ends here (sectors per FAT, bytes 22..23). */
  const BpbEnd: nat := 24
  /** Size of one root-directory slot. */
  const SlotSize: nat := 32

  /** The parsed parameter block. The media descriptor (byte 21) is not kept. */
  datatype BootParams = BootParams(
    bytesPerSector: nat,
    sectorsPerCluster: nat,
    reservedSectors: nat,
    fatCopies: nat,
    rootDirEntries: nat,
    totalSectors: nat,
    sectorsPerFat: nat)
  {
    /** Every field is as wide as its on-disk encoding. */
    predicate InRange() {
      && bytesPerSector < 0x1_0000 && sectorsPerCluster < 0x100
      && reservedSectors < 0x1_0000 && fatCopies < 0x100
      && rootDirEntries < 0x1_0000 && totalSectors < 0x1_0000
      && sectorsPerFat < 0x1_0000
    }

    /** Byte offset of the root directory: after the reserved sectors and every FAT copy. */
    function RootDirBase(): nat {
      (reservedSectors + fatCopies * sectorsPerFat) * bytesPerSector
    }

    /** Byte offset of the data area: after the root directory's slots. */
    function DataAreaStart(): nat {
      RootDirBase() + rootDirEntries * SlotSize
    }

    /** Byte offset of the first FAT copy (`readFAT`). */
    function FatStart(): nat {
      reservedSectors * bytesPerSector
    }

    /** Size in bytes of one FAT copy (`readFAT`). */
    function FatSize(): nat {
      sectorsPerFat * bytesPerSector
    }

    /** Size in bytes of one cluster (`readCluster`). */
    function ClusterSize(): nat {
      sectorsPerCluster * bytesPerSector
    }
  }

  /** The boot-sector offsets whose bytes the decoder reads. */
  predicate IsBpbOffset(i: int) {
    11 <= i < 21 || i == 22 || i == 23
  }

  /** `boot_t.__init__`: little-endian fields at fixed offsets. The unpacking
      fails (None) when the sector is too short to hold sectors-per-FAT. */
  function DecodeBoot(data: seq<byte>): (r: Option<BootParams>)
    ensures r.Some? <==> |data| >= BpbEnd
    ensures r.Some? ==> r.value.InRange()
  {
    if |data| < BpbEnd then None
    else Some(BootParams(
      bytesPerSector := U16(data[11], data[12]),
      sectorsPerCluster := data[13],
      reservedSectors := U16(data[14], data[15]),
      fatCopies := data[16],
      rootDirEntries := U16(data[17], data[18]),
      totalSectors := U16(data[19], data[20]),
      sectorsPerFat := U16(data[22], data[23])))
  }

  /** `readBootSector`: decode the first 512 bytes of the image. */
  function ReadBootSector(image: seq<byte>): (r: Option<BootParams>)
    ensures r.Some? <==> |image| >= BpbEnd
  {
    DecodeBoot(ReadAt(image, 0, BootSectorSize).value)
  }

  /** A parameter block laid out as the decoder expects it; every byte the
      decoder does not read is zero. */
  function EncodeBoot(p: BootParams): (data: seq<byte>)
    requires p.InRange()
    ensures |data| == BpbEnd
    ensures forall i :: 0 <= i < BpbEnd && !IsBpbOffset(i) ==> data[i] == 0
  {
    var z: seq<byte> := seq(11, _ => 0);
    z + Le16(p.bytesPerSector) + [p.sectorsPerCluster] + Le16(p.reservedSectors)
    + [p.fatCopies] + Le16(p.rootDirEntries) + Le16(p.totalSectors) + [0]
    + Le16(p.sectorsPerFat)
  }

  /** Decoding recovers every field that was encoded. */
  lemma DecodeEncode(p: BootParams)
    requires p.InRange()
    ensures DecodeBoot(EncodeBoot(p)) == Some(p)
  {
    var d := EncodeBoot(p);
    assert d[11..13] == Le16(p.bytesPerSector) && d[13] == p.sectorsPerCluster;
    assert d[14..16] == Le16(p.reservedSectors) && d[16] == p.fatCopies;
    assert d[17..19] == Le16(p.rootDirEntries) && d[19..21] == Le16(p.totalSectors);
    assert d[22..24] == Le16(p.sectorsPerFat);
  }

  /** The decoder reads the parameter-block offsets and no other byte: two
      sectors that agree there decode to the same parameters. */
  lemma DecodeReadsOnlyBpb(a: seq<byte>, b: seq<byte>)
    requires |a| >= BpbEnd && |b| >= BpbEnd
    requires forall i :: IsBpbOffset(i) ==> a[i] == b[i]
    ensures DecodeBoot(a) == DecodeBoot(b)
  {
    assert IsBpbOffset(11) && IsBpbOffset(12) && IsBpbOffset(13) && IsBpbOffset(14);
    assert IsBpbOffset(15) && IsBpbOffset(16) && IsBpbOffset(17) && IsBpbOffset(18);
    assert IsBpbOffset(19) && IsBpbOffset(20) && IsBpbOffset(22) && IsBpbOffset(23);
  }

  /** The media descriptor (byte 21) is never consulted. */
  lemma MediaDescriptorIgnored(data: seq<byte>, media: byte)
    requires |data| > 21
    ensures DecodeBoot(data[21 := media]) == DecodeBoot(data)
  {
  }

  /** Only the first 512 bytes of the image reach the decoder. */
  lemma BootIgnoresRestOfImage(image: seq<byte>, rest: seq<byte>)
    requires |image| >= BootSectorSize
    ensures ReadBootSector(image + rest) == ReadBootSector(image)
  {
    assert ReadAt(image + rest, 0, BootSectorSize).value == ReadAt(image, 0, BootSectorSize).value;
  }

  /** The regions follow each other: the FAT, then (when there is at least
      one FAT copy) the root directory right after every copy, then the data
      area right after the root directory's slots. */
  lemma RegionsInOrder(p: BootParams)
    ensures p.FatStart() <= p.RootDirBase() <= p.DataAreaStart()
    ensures p.fatCopies >= 1 ==> p.FatStart() + p.FatSize() <= p.RootDirBase()
    ensures p.RootDirBase() == p.FatStart() + p.fatCopies * p.FatSize()
    ensures p.DataAreaStart() - p.RootDirBase() == SlotSize * p.rootDirEntries
  {
    var bps := p.bytesPerSector;
    assert p.RootDirBase() == p.reservedSectors * bps + p.fatCopies * (p.sectorsPerFat * bps) by {
      assert (p.reservedSectors + p.fatCopies * p.sectorsPerFat) * bps
          == p.reservedSectors * bps + (p.fatCopies * p.sectorsPerFat) * bps;
    }
    if p.fatCopies >= 1 {
      assert p.fatCopies * p.FatSize() >= p.FatSize() by {
        assert p.fatCopies * p.FatSize() == p.FatSize() + (p.fatCopies - 1) * p.FatSize();
      }
    }
  }
}
