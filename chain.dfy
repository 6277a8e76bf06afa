/** Reading a file: cluster numbers to byte offsets (`readCluster`) and the
    walk along the cluster chain (`readFile`). */
module Chain {
  import opened Wrappers
  import opened Bytes
  import opened Boot
  import opened Fat

  /** `readFile`'s loop guard: a cluster number at or above it is not read. */
  const EndOfChain: nat := 0xFF8
  /** `readFile`'s break test: a decoded next value at or above it ends the file. */
  const StopAt: nat := 0xF88
  /** The iteration bound of the modelled loop. Every cluster the loop reads
      is below `EndOfChain`, so a walk still going after this many
      iterations has met a cluster twice and would go on forever. */
  const MaxSteps: nat := EndOfChain

  /** What `readFile` works on: the parameters, the open image, the FAT bytes
      it was handed, and which next-cluster lookup it uses. */
  datatype Volume = Volume(boot: BootParams, image: seq<byte>, fat: seq<byte>, layout: Layout)

  /** Why reading a file fails: a seek to a negative offset, a FAT entry
      whose two bytes are not both in the table (the unpacking fails), or a
      chain that never ends (the loop would not terminate). */
  datatype ChainError = NegativeSeek | ShortFatEntry | Cycle

  /** The byte offset of a cluster: numbering of the data area starts at 2. */
  function ClusterOffset(boot: BootParams, cluster: nat): (r: int)
    ensures cluster >= 2 ==> r >= boot.DataAreaStart()
    ensures cluster < 2 ==> r <= boot.DataAreaStart()
  {
    boot.DataAreaStart() + (cluster - 2) * boot.ClusterSize()
  }

  /** Cluster 2 is the first cluster of the data area. */
  lemma FirstClusterAtDataArea(boot: BootParams)
    ensures ClusterOffset(boot, 2) == boot.DataAreaStart()
  {
  }

  /** Clusters are laid out back to back, from the data area on. */
  lemma ClustersContiguous(boot: BootParams, cluster: nat)
    ensures ClusterOffset(boot, cluster + 1) == ClusterOffset(boot, cluster) + boot.ClusterSize()
    ensures cluster >= 2 ==> ClusterOffset(boot, cluster) >= boot.DataAreaStart()
  {
    var s := boot.ClusterSize();
    assert (cluster + 1 - 2) * s == (cluster - 2) * s + s;
    if cluster >= 2 {
      assert (cluster - 2) * s >= 0;
    }
  }

  /** `readCluster`: one cluster's bytes, fewer at the end of the image; the
      seek fails for a negative offset (clusters 0 and 1 may give one). */
  function ReadCluster(v: Volume, cluster: nat): (r: Option<seq<byte>>)
    ensures r.None? <==> ClusterOffset(v.boot, cluster) < 0
    ensures r.Some? ==> |r.value| <= v.boot.ClusterSize()
    ensures r.Some? && ClusterOffset(v.boot, cluster) + v.boot.ClusterSize() <= |v.image| ==>
      |r.value| == v.boot.ClusterSize()
    ensures r.Some? ==> r.value == [] || ClusterOffset(v.boot, cluster) + |r.value| <= |v.image|
    ensures r.Some? ==> forall k :: 0 <= k < |r.value| ==>
      r.value[k] == v.image[ClusterOffset(v.boot, cluster) + k]
  {
    ReadAt(v.image, ClusterOffset(v.boot, cluster), v.boot.ClusterSize())
  }

  /** Bytes already read, in front of the outcome of the rest of the walk. */
  function Prepend(data: seq<byte>, rest: Result<seq<byte>, ChainError>): Result<seq<byte>, ChainError> {
    match rest
    case Ok(more) => Ok(data + more)
    case Err(e) => Err(e)
  }

  lemma PrependNothing(rest: Result<seq<byte>, ChainError>)
    ensures Prepend([], rest) == rest
  {
    if rest.Ok? {
      assert [] + rest.value == rest.value;
    }
  }

  lemma PrependTwice(first: seq<byte>, second: seq<byte>, rest: Result<seq<byte>, ChainError>)
    ensures Prepend(first, Prepend(second, rest)) == Prepend(first + second, rest)
  {
    if rest.Ok? {
      assert first + (second + rest.value) == (first + second) + rest.value;
    }
  }

  /** `readFile`'s loop from `cluster` on, with at most `fuel` iterations left:
      nothing when the cluster is at or above the loop guard; otherwise the
      cluster's bytes, then either the end (the next value is at or above
      0xF88) or the walk from the next cluster. */
  function Walk(v: Volume, cluster: nat, fuel: nat): (r: Result<seq<byte>, ChainError>)
    ensures cluster >= EndOfChain ==> r == Ok([])
    ensures r.Ok? && cluster < EndOfChain ==>
      ReadCluster(v, cluster).Some? && ReadCluster(v, cluster).value <= r.value
    decreases fuel
  {
    if cluster >= EndOfChain then Ok([])
    else if fuel == 0 then Err(Cycle)
    else match ReadCluster(v, cluster)
      case None => Err(NegativeSeek)
      case Some(payload) =>
        match Lookup(v.layout, v.fat, cluster)
        case None => Err(ShortFatEntry)
        case Some(next) =>
          if next >= StopAt then Ok(payload) else Prepend(payload, Walk(v, next, fuel - 1))
  }

  /** `readFile`: append each cluster's bytes and follow the table until the
      next value reaches 0xF88. The loop is bounded by `MaxSteps`; the bound
      is reached exactly when the unbounded loop would never stop
      (`ChainBound.ReadFileExact`). */
  method ReadFile(v: Volume, startCluster: nat) returns (r: Result<seq<byte>, ChainError>)
    ensures r == Walk(v, startCluster, MaxSteps)
  {
    var cluster: nat := startCluster;
    var data: seq<byte> := [];
    var fuel: nat := MaxSteps;
    PrependNothing(Walk(v, cluster, fuel));
    while cluster < EndOfChain
      invariant Walk(v, startCluster, MaxSteps) == Prepend(data, Walk(v, cluster, fuel))
      decreases fuel
    {
      if fuel == 0 {
        return Err(Cycle);
      }
      var payload := ReadCluster(v, cluster);
      if payload.None? {
        return Err(NegativeSeek);
      }
      ghost var before := data;
      data := data + payload.value;
      var next := Lookup(v.layout, v.fat, cluster);
      if next.None? {
        return Err(ShortFatEntry);
      }
      if next.value >= StopAt {
        return Ok(data);
      }
      PrependTwice(before, payload.value, Walk(v, next.value, fuel - 1));
      cluster := next.value;
      fuel := fuel - 1;
    }
    assert data + [] == data;
    return Ok(data);
  }

  /** The clusters a walk reads, in order, with the same failures. */
  function Chain(v: Volume, cluster: nat, fuel: nat): Result<seq<nat>, ChainError>
    decreases fuel
  {
    if cluster >= EndOfChain then Ok([])
    else if fuel == 0 then Err(Cycle)
    else match ReadCluster(v, cluster)
      case None => Err(NegativeSeek)
      case Some(_) =>
        match Lookup(v.layout, v.fat, cluster)
        case None => Err(ShortFatEntry)
        case Some(next) =>
          if next >= StopAt then Ok([cluster])
          else match Chain(v, next, fuel - 1)
            case Ok(rest) => Ok([cluster] + rest)
            case Err(e) => Err(e)
  }

  /** `clusters` is the chain that starts at `start`: empty when `start` is at
      or above the loop guard; otherwise it starts with `start`, every
      cluster is below the guard and can be read and looked up, each next
      cluster is the looked-up value of the one before and below 0xF88, and
      the last cluster's looked-up value is at or above 0xF88 (and is not
      read). */
  ghost predicate IsChain(v: Volume, start: nat, clusters: seq<nat>) {
    if start >= EndOfChain then clusters == []
    else
      && clusters != []
      && clusters[0] == start
      && (forall i :: 0 <= i < |clusters| ==>
            && clusters[i] < EndOfChain
            && ReadCluster(v, clusters[i]).Some?
            && Lookup(v.layout, v.fat, clusters[i]).Some?)
      && (forall i, j :: 0 <= i && j == i + 1 && j < |clusters| ==>
            Lookup(v.layout, v.fat, clusters[i]) == Some(clusters[j]) && clusters[j] < StopAt)
      && Lookup(v.layout, v.fat, clusters[|clusters| - 1]).value >= StopAt
  }

  /** The bytes of the given clusters, one after the other. */
  function Payloads(v: Volume, clusters: seq<nat>): seq<byte> {
    if clusters == [] then []
    else
      match ReadCluster(v, clusters[0])
      case Some(payload) => payload + Payloads(v, clusters[1..])
      case None => Payloads(v, clusters[1..])
  }

  /** A walk fails exactly when its chain does, for the same reason, and
      otherwise returns the bytes of the chain's clusters. */
  lemma {:induction false} WalkReadsChain(v: Volume, cluster: nat, fuel: nat)
    ensures Walk(v, cluster, fuel).Err? <==> Chain(v, cluster, fuel).Err?
    ensures Walk(v, cluster, fuel).Err? ==> Walk(v, cluster, fuel).error == Chain(v, cluster, fuel).error
    ensures Walk(v, cluster, fuel).Ok? ==> Walk(v, cluster, fuel).value == Payloads(v, Chain(v, cluster, fuel).value)
    decreases fuel
  {
    if cluster < EndOfChain && fuel > 0 && ReadCluster(v, cluster).Some? && Lookup(v.layout, v.fat, cluster).Some? {
      var next := Lookup(v.layout, v.fat, cluster).value;
      if next < StopAt {
        WalkReadsChain(v, next, fuel - 1);
        var c := Chain(v, next, fuel - 1);
        if c.Ok? {
          assert ([cluster] + c.value)[1..] == c.value;
        }
      } else {
        assert [cluster][1..] == [];
      }
    }
  }

  /** What a completed walk reads is the chain of its start cluster, and it
      takes one iteration per cluster. */
  lemma {:induction false} ChainIsChain(v: Volume, cluster: nat, fuel: nat)
    requires Chain(v, cluster, fuel).Ok?
    ensures IsChain(v, cluster, Chain(v, cluster, fuel).value)
    ensures |Chain(v, cluster, fuel).value| <= fuel
    decreases fuel
  {
    if cluster < EndOfChain {
      var next := Lookup(v.layout, v.fat, cluster).value;
      if next < StopAt {
        ChainIsChain(v, next, fuel - 1);
        var rest := Chain(v, next, fuel - 1).value;
        var cs := [cluster] + rest;
        assert cs[1..] == rest;
        forall i, j | 0 <= i && j == i + 1 && j < |cs|
          ensures Lookup(v.layout, v.fat, cs[i]) == Some(cs[j]) && cs[j] < StopAt
        {
          if i > 0 {
            assert cs[i] == rest[i - 1] && cs[j] == rest[j - 1];
          }
        }
      }
    }
  }

  /** Conversely, a chain that fits in the fuel is what the walk follows. */
  lemma {:induction false} ChainIsUnique(v: Volume, cluster: nat, clusters: seq<nat>, fuel: nat)
    requires IsChain(v, cluster, clusters) && |clusters| <= fuel
    ensures Chain(v, cluster, fuel) == Ok(clusters)
    decreases fuel
  {
    if cluster < EndOfChain {
      var next := Lookup(v.layout, v.fat, cluster).value;
      assert clusters[0] == cluster && ReadCluster(v, cluster).Some?;
      if |clusters| == 1 {
        assert next >= StopAt;
        assert clusters == [cluster];
      } else {
        assert next == clusters[1] && next < StopAt;
        var rest := clusters[1..];
        assert IsChain(v, next, rest) by {
          forall i, j | 0 <= i && j == i + 1 && j < |rest|
            ensures Lookup(v.layout, v.fat, rest[i]) == Some(rest[j]) && rest[j] < StopAt
          {
            assert rest[i] == clusters[i + 1] && rest[j] == clusters[j + 1];
          }
        }
        ChainIsUnique(v, next, rest, fuel - 1);
        assert clusters == [cluster] + rest;
      }
    }
  }

  lemma MulSucc(n: nat, size: nat)
    ensures (n + 1) * size == size + n * size
  {
  }

  /** Each cluster contributes at most one cluster's worth of bytes. */
  lemma {:induction false} PayloadsAtMost(v: Volume, clusters: seq<nat>)
    ensures |Payloads(v, clusters)| <= |clusters| * v.boot.ClusterSize()
  {
    if clusters != [] {
      var rest := clusters[1..];
      var size := v.boot.ClusterSize();
      PayloadsAtMost(v, rest);
      MulSucc(|rest|, size);
      var first := ReadCluster(v, clusters[0]);
      var here: seq<byte> := if first.Some? then first.value else [];
      assert Payloads(v, clusters) == here + Payloads(v, rest);
      assert |here| <= size;
    }
  }

  /** Clusters that lie inside the image contribute exactly one cluster's
      worth of bytes each: the output is never cut to a directory entry's
      file size. */
  lemma {:induction false} PayloadsFull(v: Volume, clusters: seq<nat>)
    requires forall i :: 0 <= i < |clusters| ==>
      0 <= ClusterOffset(v.boot, clusters[i]) && ClusterOffset(v.boot, clusters[i]) + v.boot.ClusterSize() <= |v.image|
    ensures |Payloads(v, clusters)| == |clusters| * v.boot.ClusterSize()
  {
    if clusters != [] {
      var rest := clusters[1..];
      var size := v.boot.ClusterSize();
      assert forall i :: 0 <= i < |rest| ==> rest[i] == clusters[i + 1];
      PayloadsFull(v, rest);
      MulSucc(|rest|, size);
      var first := ReadCluster(v, clusters[0]);
      assert first.Some? && |first.value| == size;
      assert Payloads(v, clusters) == first.value + Payloads(v, rest);
    }
  }

  /** The two thresholds disagree: a looked-up value from 0xF88 up to 0xFF7
      passes the loop guard, yet the break test ends the file before it, so
      that cluster is never read. */
  lemma BreakBeforeGuard(v: Volume, cluster: nat, fuel: nat)
    requires cluster < EndOfChain && fuel >= 1
    requires ReadCluster(v, cluster).Some?
    requires Lookup(v.layout, v.fat, cluster).Some?
    requires StopAt <= Lookup(v.layout, v.fat, cluster).value < EndOfChain
    ensures Chain(v, cluster, fuel) == Ok([cluster])
    ensures Walk(v, cluster, fuel) == Ok(ReadCluster(v, cluster).value)
  {
  }
}
