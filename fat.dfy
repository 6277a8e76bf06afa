/** The File Allocation Table: where `readFAT` finds it, and the 12-bit
    next-cluster lookup that `readFile` does inline. */
module Fat {
  import opened Wrappers
  import opened Bytes
  import opened Boot

  /** `readFAT`: one FAT copy, `sectorsPerFat * bytesPerSector` bytes read at
      `reservedSectors * bytesPerSector` (shorter when the image ends first). */
  function ReadFat(image: seq<byte>, boot: BootParams): (fat: seq<byte>)
    ensures |fat| <= boot.FatSize()
    ensures boot.FatStart() + boot.FatSize() <= |image| ==> |fat| == boot.FatSize()
    ensures boot.FatStart() < |image| ==> |fat| == Min(boot.FatSize(), |image| - boot.FatStart())
    ensures boot.FatStart() >= |image| ==> fat == []
    ensures fat == [] || boot.FatStart() + |fat| <= |image|
    ensures forall k :: 0 <= k < |fat| ==> fat[k] == image[boot.FatStart() + k]
  {
    ReadAt(image, boot.FatStart(), boot.FatSize()).value
  }

  function Pow2(n: nat): (r: nat)
    ensures r >= 1
  {
    if n == 0 then 1 else 2 * Pow2(n - 1)
  }

  /** Bits `from .. from + width - 1` of `w`. */
  function Bits(w: nat, from: nat, width: nat): nat {
    (w / Pow2(from)) % Pow2(width)
  }

  /** The little-endian 16-bit word at byte `at` of the table. */
  function Word(fat: seq<byte>, at: nat): nat
    requires at + 2 <= |fat|
  {
    U16(fat[at], fat[at + 1])
  }

  /** The byte at which an entry's 3/2-byte position starts. */
  function EntryOffset(cluster: nat): nat {
    cluster * 3 / 2
  }

  /** The next-cluster lookup exactly as `readFile` does it. An even cluster
      masks the word at `cluster * 3 / 2` with `0x0FFF`; an odd cluster shifts
      the word at `cluster * 3 / 2 - 1` right by four. `& 0x0FFF` and `>> 4`
      on a non-negative 16-bit word are `% 0x1000` and `/ 0x10`. The unpacking
      fails (None) when the two-byte slice is not wholly inside the table. */
  function NextCluster(fat: seq<byte>, cluster: nat): (r: Option<nat>)
    ensures r.Some? <==>
      if cluster % 2 == 0 then EntryOffset(cluster) + 2 <= |fat| else EntryOffset(cluster) + 1 <= |fat|
    ensures r.Some? ==> r.value <= 0xFFF
  {
    var offset := EntryOffset(cluster);
    if cluster % 2 == 0 then
      if offset + 2 <= |fat| then Some(U16(fat[offset], fat[offset + 1]) % 0x1000) else None
    else
      if offset + 1 <= |fat| then Some(U16(fat[offset - 1], fat[offset]) / 0x10) else None
  }

  /** The lookup as bit ranges: an even cluster's entry is bits 0..11 of the
      word at `cluster * 3 / 2`, an odd cluster's is bits 4..15 of the word
      one byte earlier. */
  lemma NextClusterBits(fat: seq<byte>, cluster: nat)
    requires NextCluster(fat, cluster).Some?
    ensures cluster % 2 == 0 ==>
      NextCluster(fat, cluster).value == Bits(Word(fat, EntryOffset(cluster)), 0, 12)
    ensures cluster % 2 == 1 ==>
      NextCluster(fat, cluster).value == Bits(Word(fat, EntryOffset(cluster) - 1), 4, 12)
  {
    assert Pow2(0) == 1;
    assert Pow2(4) == 0x10;
    assert Pow2(12) == 0x1000;
  }

  /** The same lookup in terms of bytes: an even entry is the low byte at
      `cluster * 3 / 2` with the low nibble of the next byte above it; an odd
      entry is the high nibble of the byte before `cluster * 3 / 2` with the
      byte at `cluster * 3 / 2` above it. */
  lemma NextClusterBytes(fat: seq<byte>, cluster: nat)
    requires NextCluster(fat, cluster).Some?
    ensures var o := EntryOffset(cluster);
      if cluster % 2 == 0 then NextCluster(fat, cluster).value == fat[o] as int + 0x100 * (fat[o + 1] as int % 0x10)
      else NextCluster(fat, cluster).value == fat[o - 1] / 0x10 + 0x10 * fat[o] as int
  {
    var o := EntryOffset(cluster);
    if cluster % 2 == 0 {
      var lo: int, hi: int := fat[o], fat[o + 1];
      assert lo + 0x100 * hi == (lo + 0x100 * (hi % 0x10)) + 0x1000 * (hi / 0x10);
    } else {
      var lo: int, hi: int := fat[o - 1], fat[o];
      assert lo + 0x100 * hi == (lo / 0x10 + 0x10 * hi) * 0x10 + lo % 0x10;
    }
  }

  /** Arithmetic behind the overlap: the top byte of the 12-bit even value
      of a word is the low byte of its shifted odd value. */
  lemma OverlapArith(lo: int, hi: int)
    requires 0 <= lo < 0x100 && 0 <= hi < 0x100
    ensures (lo / 0x10 + 0x10 * hi) % 0x100 == (lo + 0x100 * (hi % 0x10)) / 0x10
  {
    var ll, lh, hl, hh := lo % 0x10, lo / 0x10, hi % 0x10, hi / 0x10;
    assert lo + 0x100 * hl == ll + 0x10 * (lh + 0x10 * hl);
    DivAdd16(ll, lh + 0x10 * hl);
    assert lo / 0x10 + 0x10 * hi == (lh + 0x10 * hl) + 0x100 * hh;
    DivAdd256(lh + 0x10 * hl, hh);
  }

  /** In the lookup as written, an odd cluster reads the very word its even
      neighbour `cluster - 1` reads, so the two entries overlap: the low byte
      of the odd entry is always the top byte of the even one. */
  lemma OddEntryOverlapsEven(fat: seq<byte>, cluster: nat)
    requires cluster % 2 == 0 && NextCluster(fat, cluster).Some?
    ensures NextCluster(fat, cluster + 1).Some?
    ensures NextCluster(fat, cluster + 1).value % 0x100 == NextCluster(fat, cluster).value / 0x10
  {
    var m := cluster / 2;
    assert cluster == 2 * m;
    var o := EntryOffset(cluster);
    assert o == 3 * m && EntryOffset(cluster + 1) == o + 1;
    NextClusterBytes(fat, cluster);
    var even := NextCluster(fat, cluster).value;
    assert even == fat[o] as int + 0x100 * (fat[o + 1] as int % 0x10);
    assert NextCluster(fat, cluster + 1).Some?;
    NextClusterBytes(fat, cluster + 1);
    var odd := NextCluster(fat, cluster + 1).value;
    assert odd == fat[o] / 0x10 + 0x10 * fat[o + 1] as int;
    OverlapArith(fat[o], fat[o + 1]);
  }

  /** Hence a table as written cannot say "cluster 2 is followed by cluster 3,
      and cluster 3 ends the chain": once cluster 2 points at 3, the entry
      of cluster 3 is a multiple of 0x100, which is below the 0xF88 stop. */
  lemma ChainTwoThreeNeverEnds(fat: seq<byte>)
    requires NextCluster(fat, 2) == Some(3)
    ensures NextCluster(fat, 3).Some?
    ensures NextCluster(fat, 3).value % 0x100 == 0 && NextCluster(fat, 3).value <= 0xF00
  {
    OddEntryOverlapsEven(fat, 2);
  }

  /** The FAT12 layout: entry `cluster` is the word at `cluster * 3 / 2`,
      masked to 12 bits when the cluster is even and shifted right by four
      when it is odd. */
  function StandardNextCluster(fat: seq<byte>, cluster: nat): (r: Option<nat>)
    ensures r.Some? <==> EntryOffset(cluster) + 2 <= |fat|
    ensures r.Some? ==> r.value <= 0xFFF
  {
    var offset := EntryOffset(cluster);
    if offset + 2 <= |fat| then
      var w := U16(fat[offset], fat[offset + 1]);
      Some(if cluster % 2 == 0 then w % 0x1000 else w / 0x10)
    else None
  }

  /** A FAT12 entry value. */
  predicate AreEntries(entries: seq<nat>) {
    forall k :: 0 <= k < |entries| ==> entries[k] <= 0xFFF
  }

  /** Two entries packed into three bytes, the FAT12 way. */
  function EncodePair(even: nat, odd: nat): (r: seq<byte>)
    requires even <= 0xFFF && odd <= 0xFFF
    ensures |r| == 3
  {
    [even % 0x100, even / 0x100 + 0x10 * (odd % 0x10), odd / 0x10]
  }

  /** A table holding `entries`, packed the FAT12 way (a missing last odd
      entry is written as zero). */
  function EncodeFat(entries: seq<nat>): (fat: seq<byte>)
    requires AreEntries(entries)
    ensures |fat| == 3 * ((|entries| + 1) / 2)
  {
    if |entries| == 0 then []
    else if |entries| == 1 then EncodePair(entries[0], 0)
    else EncodePair(entries[0], entries[1]) + EncodeFat(entries[2..])
  }

  /** Bytes `3 * pair .. 3 * pair + 2` of the packed table are the pair
      holding entries `2 * pair` and `2 * pair + 1`. */
  lemma {:induction false} EncodeFatAt(entries: seq<nat>, pair: nat, t: nat)
    requires AreEntries(entries) && 2 * pair < |entries| && t < 3
    ensures 3 * pair + 3 <= |EncodeFat(entries)|
    ensures var odd := if 2 * pair + 1 < |entries| then entries[2 * pair + 1] else 0;
      EncodeFat(entries)[3 * pair + t] == EncodePair(entries[2 * pair], odd)[t]
  {
    if pair > 0 {
      var rest := entries[2..];
      assert AreEntries(rest);
      EncodeFatAt(rest, pair - 1, t);
      assert EncodeFat(entries) == EncodePair(entries[0], entries[1]) + EncodeFat(rest);
      assert EncodeFat(entries)[3 * pair + t] == EncodeFat(rest)[3 * (pair - 1) + t];
      assert rest[2 * (pair - 1)] == entries[2 * pair];
    }
  }

  /** Arithmetic behind the packing, even side: the masked word at the
      first byte of a pair is the even entry. */
  lemma PackEvenArith(even: int, odd: int, w: int)
    requires 0 <= even <= 0xFFF && 0 <= odd <= 0xFFF
    requires w == even % 0x100 + 0x100 * (even / 0x100 + 0x10 * (odd % 0x10))
    ensures w % 0x1000 == even
  {
    assert even % 0x100 + 0x100 * (even / 0x100 + 0x10 * (odd % 0x10)) == even + 0x1000 * (odd % 0x10);
    DivAdd4096(even, odd % 0x10);
  }

  /** Arithmetic behind the packing, odd side: the shifted word at the
      second byte of a pair is the odd entry. */
  lemma PackOddArith(even: int, odd: int, w: int)
    requires 0 <= even <= 0xFFF && 0 <= odd <= 0xFFF
    requires w == (even / 0x100 + 0x10 * (odd % 0x10)) + 0x100 * (odd / 0x10)
    ensures w / 0x10 == odd
  {
    assert (even / 0x100 + 0x10 * (odd % 0x10)) + 0x100 * (odd / 0x10) == even / 0x100 + 0x10 * odd;
    DivAdd16(even / 0x100, odd);
  }

  /** The entries of a pair start at the pair's first and second byte. */
  lemma EntryOffsetOfPair(pair: nat)
    ensures EntryOffset(2 * pair) == 3 * pair
    ensures EntryOffset(2 * pair + 1) == 3 * pair + 1
  {
    assert 2 * pair * 3 == 2 * (3 * pair);
    assert (2 * pair + 1) * 3 == 1 + 2 * (3 * pair + 1);
  }

  /** A pair of packed bytes read with the FAT12 lookup, even side. */
  lemma StandardEvenFromBytes(fat: seq<byte>, pair: nat, even: nat, odd: nat)
    requires even <= 0xFFF && odd <= 0xFFF && 3 * pair + 2 <= |fat|
    requires fat[3 * pair] == EncodePair(even, odd)[0]
    requires fat[3 * pair + 1] == EncodePair(even, odd)[1]
    ensures StandardNextCluster(fat, 2 * pair) == Some(even)
  {
    EntryOffsetOfPair(pair);
    var w := U16(fat[3 * pair], fat[3 * pair + 1]);
    PackEvenArith(even, odd, w);
  }

  /** A pair of packed bytes read with the FAT12 lookup, odd side. */
  lemma StandardOddFromBytes(fat: seq<byte>, pair: nat, even: nat, odd: nat)
    requires even <= 0xFFF && odd <= 0xFFF && 3 * pair + 3 <= |fat|
    requires fat[3 * pair + 1] == EncodePair(even, odd)[1]
    requires fat[3 * pair + 2] == EncodePair(even, odd)[2]
    ensures StandardNextCluster(fat, 2 * pair + 1) == Some(odd)
  {
    EntryOffsetOfPair(pair);
    var w := U16(fat[3 * pair + 1], fat[3 * pair + 2]);
    PackOddArith(even, odd, w);
    assert (2 * pair + 1) % 2 == 1;
  }

  /** The even half of `StandardRoundTrip`. */
  lemma StandardRoundTripEven(entries: seq<nat>, pair: nat)
    requires AreEntries(entries) && 2 * pair < |entries|
    ensures StandardNextCluster(EncodeFat(entries), 2 * pair) == Some(entries[2 * pair])
  {
    EncodeFatAt(entries, pair, 0);
    EncodeFatAt(entries, pair, 1);
    if 2 * pair + 1 < |entries| {
      StandardEvenFromBytes(EncodeFat(entries), pair, entries[2 * pair], entries[2 * pair + 1]);
    } else {
      StandardEvenFromBytes(EncodeFat(entries), pair, entries[2 * pair], 0);
    }
  }

  /** The odd half of `StandardRoundTrip`. */
  lemma StandardRoundTripOdd(entries: seq<nat>, pair: nat)
    requires AreEntries(entries) && 2 * pair + 1 < |entries|
    ensures StandardNextCluster(EncodeFat(entries), 2 * pair + 1) == Some(entries[2 * pair + 1])
  {
    EncodeFatAt(entries, pair, 1);
    EncodeFatAt(entries, pair, 2);
    StandardOddFromBytes(EncodeFat(entries), pair, entries[2 * pair], entries[2 * pair + 1]);
  }

  /** The FAT12 packing round-trips through the FAT12 lookup, for both parities. */
  lemma StandardRoundTrip(entries: seq<nat>, cluster: nat)
    requires AreEntries(entries) && cluster < |entries|
    ensures StandardNextCluster(EncodeFat(entries), cluster) == Some(entries[cluster])
  {
    var pair := cluster / 2;
    if cluster % 2 == 0 {
      assert cluster == 2 * pair;
      StandardRoundTripEven(entries, pair);
    } else {
      assert cluster == 2 * pair + 1;
      StandardRoundTripOdd(entries, pair);
    }
  }

  /** Which of the two lookups a walk of the chain uses: the one the reader
      is written with, or the FAT12 one. */
  datatype Layout = AsWritten | Fat12

  function Lookup(layout: Layout, fat: seq<byte>, cluster: nat): (r: Option<nat>)
    ensures r.Some? ==> r.value <= 0xFFF
  {
    match layout
    case AsWritten => NextCluster(fat, cluster)
    case Fat12 => StandardNextCluster(fat, cluster)
  }
}
