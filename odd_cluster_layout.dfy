/** A two-cluster file in a table packed the FAT12 way, read with the
    reader's lookup and with the FAT12 one. */
module OddClusterLayout {
  import opened Wrappers
  import opened Bytes
  import opened Boot
  import opened Fat
  import opened Chain

  /** Entries 0 and 1 reserved (media byte 0xF0, end mark), a file in
      cluster 2 continuing in cluster 3, and cluster 3 ending it. */
  const TwoClusterFile: seq<nat> := [0xFF0, 0xFFF, 0x003, 0xFFF]

  /** The first six bytes of such a table. */
  lemma TwoClusterFileBytes()
    ensures AreEntries(TwoClusterFile)
    ensures EncodeFat(TwoClusterFile) == [0xF0, 0xFF, 0xFF, 0x03, 0xF0, 0xFF]
  {
    assert TwoClusterFile[2..] == [0x003, 0xFFF];
    assert TwoClusterFile[2..][2..] == [];
  }

  /** With the reader's lookup the file cannot be read: cluster 3's entry is
      taken from bytes 3 and 4, which gives 0xF00 instead of the end mark,
      and the entry of cluster 0xF00 lies past the end of any table shorter
      than 5762 bytes. */
  lemma AsWrittenLosesFile(boot: BootParams, image: seq<byte>, fat: seq<byte>, fuel: nat)
    requires 6 <= |fat| < 5762 && fat[..6] == EncodeFat(TwoClusterFile)
    requires fuel >= 3
    ensures NextCluster(fat, 2) == Some(3)
    ensures NextCluster(fat, 3) == Some(0xF00)
    ensures Walk(Volume(boot, image, fat, AsWritten), 2, fuel) == Err(ShortFatEntry)
  {
    TwoClusterFileBytes();
    assert fat[3] == 0x03 && fat[4] == 0xF0 && fat[5] == 0xFF;
    var v := Volume(boot, image, fat, AsWritten);
    ClustersContiguous(boot, 2);
    ClustersContiguous(boot, 3);
    ClustersContiguous(boot, 0xF00);
    assert NextCluster(fat, 0xF00).None?;
    assert Walk(v, 0xF00, fuel - 2) == Err(ShortFatEntry);
  }

  /** With the FAT12 lookup the same table gives the file's two clusters. */
  lemma Fat12ReadsFile(boot: BootParams, image: seq<byte>, fat: seq<byte>, fuel: nat)
    requires 6 <= |fat| && fat[..6] == EncodeFat(TwoClusterFile)
    requires fuel >= 2
    ensures StandardNextCluster(fat, 2) == Some(3)
    ensures StandardNextCluster(fat, 3) == Some(0xFFF)
    ensures var v := Volume(boot, image, fat, Fat12);
      ReadCluster(v, 2).Some? && ReadCluster(v, 3).Some?
      && Walk(v, 2, fuel) == Ok(ReadCluster(v, 2).value + ReadCluster(v, 3).value)
  {
    TwoClusterFileBytes();
    assert fat[3] == 0x03 && fat[4] == 0xF0 && fat[5] == 0xFF;
    var v := Volume(boot, image, fat, Fat12);
    ClustersContiguous(boot, 2);
    ClustersContiguous(boot, 3);
    assert Walk(v, 3, fuel - 1) == Ok(ReadCluster(v, 3).value);
  }
}
