/** The kernel loader: follow the FAT16 chain of the image, then place the ELF segments. */
module Loader {
  import opened Machine
  import Strings

  const FAT_ADDR: nat := 0x8000
  const KERNEL_IMAGE_ADDR: nat := 0x4_0000
  const LAST_CLUSTER: nat := 0xfff8

  // ----- the chain -----

  /** The FAT that has been read to FAT_ADDR. */
  function FatEntry(m: seq<u8>, c: u16): u16
    requires |m| >= KERNEL_IMAGE_ADDR
  {
    Get16(m, FAT_ADDR + 2 * c)
  }

  /** Where n steps along the chain lead; an end mark stays put. */
  function Walk(m: seq<u8>, c: u16, n: nat): u16
    requires |m| >= KERNEL_IMAGE_ADDR
  {
    if n == 0 then c
    else
      var w := Walk(m, c, n - 1);
      if w >= LAST_CLUSTER then w else FatEntry(m, w)
  }

  /** No cluster comes up twice. */
  ghost predicate Acyclic(m: seq<u8>, c: u16)
    requires |m| >= KERNEL_IMAGE_ADDR
  {
    forall i: nat, j: nat :: i < j && Walk(m, c, j) < LAST_CLUSTER ==> Walk(m, c, i) != Walk(m, c, j)
  }

  /** chain lists the clusters from c up to the end mark. */
  ghost predicate IsChain(m: seq<u8>, c: u16, chain: seq<u16>)
    requires |m| >= KERNEL_IMAGE_ADDR
    decreases |chain|
  {
    if chain == [] then c >= LAST_CLUSTER
    else c < LAST_CLUSTER && chain[0] == c && IsChain(m, FatEntry(m, c), chain[1..])
  }

  lemma {:induction false} WalkOn(m: seq<u8>, c: u16, n: nat)
    requires |m| >= KERNEL_IMAGE_ADDR && c < LAST_CLUSTER
    ensures Walk(m, c, n + 1) == Walk(m, FatEntry(m, c), n)
  {
    if n > 0 {
      WalkOn(m, c, n - 1);
    }
  }

  /** A chain of length n means the walk ends after exactly n steps. */
  lemma {:induction false} ChainIsWalk(m: seq<u8>, c: u16, chain: seq<u16>, i: nat)
    requires |m| >= KERNEL_IMAGE_ADDR && IsChain(m, c, chain)
    ensures i < |chain| ==> Walk(m, c, i) == chain[i] < LAST_CLUSTER
    ensures i >= |chain| ==> Walk(m, c, i) >= LAST_CLUSTER
    decreases i, |chain|
  {
    if chain == [] {
      if i > 0 {
        ChainIsWalk(m, c, chain, i - 1);
      }
    } else if i > 0 {
      WalkOn(m, c, i - 1);
      ChainIsWalk(m, FatEntry(m, c), chain[1..], i - 1);
    }
  }

  lemma {:induction false} ChainFromWalk(m: seq<u8>, c: u16, n: nat) returns (chain: seq<u16>)
    requires |m| >= KERNEL_IMAGE_ADDR && Walk(m, c, n) >= LAST_CLUSTER
    ensures IsChain(m, c, chain)
    decreases n
  {
    if c >= LAST_CLUSTER {
      chain := [];
    } else {
      WalkOn(m, c, n - 1);
      var rest := ChainFromWalk(m, FatEntry(m, c), n - 1);
      chain := [c] + rest;
      assert chain[1..] == rest;
    }
  }

  /** The clusters met in the first n steps. */
  ghost function Met(m: seq<u8>, c: u16, n: nat): set<int>
    requires |m| >= KERNEL_IMAGE_ADDR
  {
    set i: nat | i < n :: Walk(m, c, i) as int
  }

  lemma {:induction false} AllDifferent(m: seq<u8>, c: u16, n: nat)
    requires |m| >= KERNEL_IMAGE_ADDR && Acyclic(m, c)
    requires forall i: nat :: i < n ==> Walk(m, c, i) < LAST_CLUSTER
    ensures |Met(m, c, n)| == n
  {
    if n > 0 {
      AllDifferent(m, c, n - 1);
      assert Met(m, c, n) == Met(m, c, n - 1) + {Walk(m, c, n - 1) as int};
      assert Walk(m, c, n - 1) as int !in Met(m, c, n - 1);
    }
  }

  ghost function Below(n: nat): set<int> {
    if n == 0 then {} else Below(n - 1) + {n - 1}
  }

  lemma {:induction false} CountBelow(n: nat)
    ensures |Below(n)| == n && forall x :: x in Below(n) <==> 0 <= x < n
  {
    if n > 0 {
      CountBelow(n - 1);
    }
  }

  lemma SubsetCount(a: set<int>, b: set<int>)
    requires a <= b
    ensures |a| <= |b|
  {
    assert b == a + (b - a);
  }

  /** The clusters met must run out: there are fewer than 65529 of them. */
  lemma MustEnd(m: seq<u8>, c: u16) returns (n: nat)
    requires |m| >= KERNEL_IMAGE_ADDR && Acyclic(m, c)
    ensures Walk(m, c, n) >= LAST_CLUSTER
  {
    var limit := LAST_CLUSTER + 1;
    if forall i: nat :: i < limit ==> Walk(m, c, i) < LAST_CLUSTER {
      AllDifferent(m, c, limit);
      CountBelow(LAST_CLUSTER);
      SubsetCount(Met(m, c, limit), Below(LAST_CLUSTER));
      assert false;
    }
    n :| n < limit && Walk(m, c, n) >= LAST_CLUSTER;
  }

  /** Equal clusters are followed by equal clusters. */
  lemma {:induction false} Repeats(m: seq<u8>, c: u16, i: nat, j: nat, k: nat)
    requires |m| >= KERNEL_IMAGE_ADDR && Walk(m, c, i) == Walk(m, c, j)
    ensures Walk(m, c, i + k) == Walk(m, c, j + k)
  {
    if k > 0 {
      Repeats(m, c, i, j, k - 1);
    }
  }

  lemma ChainNeverRepeats(m: seq<u8>, c: u16, chain: seq<u16>, i: nat, j: nat)
    requires |m| >= KERNEL_IMAGE_ADDR && IsChain(m, c, chain) && i < j && Walk(m, c, j) < LAST_CLUSTER
    ensures Walk(m, c, i) != Walk(m, c, j)
  {
    ChainIsWalk(m, c, chain, j);
    ChainIsWalk(m, c, chain, |chain|);
    ChainIsWalk(m, c, chain, i + (|chain| - j));
    if Walk(m, c, i) == Walk(m, c, j) {
      Repeats(m, c, i, j, |chain| - j);
    }
  }

  lemma ChainIsAcyclic(m: seq<u8>, c: u16, chain: seq<u16>)
    requires |m| >= KERNEL_IMAGE_ADDR && IsChain(m, c, chain)
    ensures Acyclic(m, c)
  {
    forall i: nat, j: nat | i < j && Walk(m, c, j) < LAST_CLUSTER ensures Walk(m, c, i) != Walk(m, c, j) {
      ChainNeverRepeats(m, c, chain, i, j);
    }
  }

  /** The loop ends on exactly the chains that never repeat a cluster. */
  lemma TerminatesIffAcyclic(m: seq<u8>, c: u16)
    requires |m| >= KERNEL_IMAGE_ADDR
    ensures (exists chain :: IsChain(m, c, chain)) <==> Acyclic(m, c)
  {
    if Acyclic(m, c) {
      var n := MustEnd(m, c);
      var chain := ChainFromWalk(m, c, n);
      assert exists chain :: IsChain(m, c, chain);
    }
    forall chain | IsChain(m, c, chain) ensures Acyclic(m, c) {
      ChainIsAcyclic(m, c, chain);
    }
    assert (exists chain :: IsChain(m, c, chain)) ==> Acyclic(m, c);
  }

  // ----- loading the image -----

  /** The fields of the BIOS parameter block that matter here, and the first data sector. */
  datatype Volume = Volume(sectorsPerCluster: u8, bytesPerSector: u16, firstData: u16)

  type Disk = seq<seq<u8>>

  ghost predicate Sectors(disk: Disk, v: Volume) {
    forall i :: 0 <= i < |disk| ==> |disk[i]| == v.bytesPerSector
  }

  /** Sector number of a cluster, truncated to the 16 bits the BIOS call takes. */
  function Lba(v: Volume, c: u16): u16 {
    (v.firstData + (c - 2) * v.sectorsPerCluster) % 0x1_0000
  }

  function ReadSectors(disk: Disk, lba: nat, count: nat): seq<u8>
    requires lba + count <= |disk|
    decreases count
  {
    if count == 0 then [] else disk[lba] + ReadSectors(disk, lba + 1, count - 1)
  }

  lemma {:induction false} ReadLength(disk: Disk, v: Volume, lba: nat, count: nat)
    requires Sectors(disk, v) && lba + count <= |disk|
    ensures |ReadSectors(disk, lba, count)| == count * v.bytesPerSector
    decreases count
  {
    if count > 0 {
      ReadLength(disk, v, lba + 1, count - 1);
      assert count * v.bytesPerSector == v.bytesPerSector + (count - 1) * v.bytesPerSector;
    }
  }

  /** Every cluster of the chain lies on the disk. */
  ghost predicate OnDisk(disk: Disk, v: Volume, chain: seq<u16>) {
    forall i :: 0 <= i < |chain| ==> Lba(v, chain[i]) + v.sectorsPerCluster <= |disk|
  }

  /** The clusters of the chain, end to end. */
  function Image(disk: Disk, v: Volume, chain: seq<u16>): seq<u8>
    requires OnDisk(disk, v, chain)
  {
    if chain == [] then []
    else ReadSectors(disk, Lba(v, chain[0]), v.sectorsPerCluster) + Image(disk, v, chain[1..])
  }

  /** m with the bytes b written at a. */
  function Written(m: seq<u8>, a: nat, b: seq<u8>): (r: seq<u8>)
    requires a + |b| <= |m|
    ensures |r| == |m|
  {
    Strings.Overwrite(m, a, b, 0, |b|)
  }

  /** The BIOS read: count sectors from lba on, to address a. */
  method DriveRead(mem: array<u8>, disk: Disk, lba: nat, count: nat, a: nat)
    requires lba + count <= |disk| && a + |ReadSectors(disk, lba, count)| <= mem.Length
    modifies mem
    ensures mem[..] == Written(old(mem[..]), a, ReadSectors(disk, lba, count))
  {
    var b := ReadSectors(disk, lba, count);
    forall i | 0 <= i < |b| {
      mem[a + i] := b[i];
    }
    assert mem[..] == Written(old(mem[..]), a, b);
  }

  lemma WrittenTwice(m: seq<u8>, a: nat, b: seq<u8>, c: seq<u8>)
    requires a + |b| + |c| <= |m|
    ensures Written(Written(m, a, b), a + |b|, c) == Written(m, a, b + c)
  {
  }

  /** Writing the image leaves the FAT below it alone. */
  lemma FatKept(m: seq<u8>, a: nat, b: seq<u8>, c: u16)
    requires KERNEL_IMAGE_ADDR <= a && a + |b| <= |m|
    ensures FatEntry(Written(m, a, b), c) == FatEntry(m, c)
  {
  }

  method ReadFat(mem: array<u8>, c: u16) returns (next: u16)
    requires mem.Length >= KERNEL_IMAGE_ADDR
    ensures next == FatEntry(mem[..], c)
  {
    next := Load16(mem, FAT_ADDR + 2 * c);
  }

  lemma NothingWritten(m: seq<u8>, a: nat)
    requires a <= |m|
    ensures Written(m, a, []) == m
  {
  }

  /** One round of the loop, told in terms of what is left of the chain. */
  lemma ClusterStep(m: seq<u8>, disk: Disk, v: Volume, c: u16, left: seq<u16>)
    requires |m| >= KERNEL_IMAGE_ADDR && Sectors(disk, v)
    requires c < LAST_CLUSTER && IsChain(m, c, left) && OnDisk(disk, v, left)
    ensures left != [] && IsChain(m, FatEntry(m, c), left[1..]) && OnDisk(disk, v, left[1..])
    ensures Lba(v, c) + v.sectorsPerCluster <= |disk|
    ensures Image(disk, v, left) == ReadSectors(disk, Lba(v, c), v.sectorsPerCluster) + Image(disk, v, left[1..])
    ensures |ReadSectors(disk, Lba(v, c), v.sectorsPerCluster)| == v.sectorsPerCluster * v.bytesPerSector
  {
    ReadLength(disk, v, Lba(v, c), v.sectorsPerCluster);
  }

  lemma ChainEnd(m: seq<u8>, disk: Disk, v: Volume, c: u16, left: seq<u16>)
    requires |m| >= KERNEL_IMAGE_ADDR && c >= LAST_CLUSTER && IsChain(m, c, left) && OnDisk(disk, v, left)
    ensures Image(disk, v, left) == []
  {
  }

  /** The chain loop: from the first cluster to the end mark, each cluster behind the last. */
  method LoadChain(mem: array<u8>, disk: Disk, v: Volume, first: u16, ghost chain: seq<u16>)
    requires mem.Length >= KERNEL_IMAGE_ADDR && Sectors(disk, v)
    requires IsChain(mem[..], first, chain) && OnDisk(disk, v, chain)
    requires KERNEL_IMAGE_ADDR + |Image(disk, v, chain)| <= mem.Length < 0x1_0000_0000
    modifies mem
    ensures mem[..] == Written(old(mem[..]), KERNEL_IMAGE_ADDR, Image(disk, v, chain))
  {
    hide IsChain, OnDisk, Sectors, Image, ReadSectors, Written, Lba, FatEntry;
    var cluster: u16 := first;
    var offset: u32 := 0;
    ghost var left, done, m0, whole := chain, [], mem[..], Image(disk, v, chain);
    NothingWritten(m0, KERNEL_IMAGE_ADDR);
    while cluster < LAST_CLUSTER
      invariant offset == |done| && mem.Length == |m0|
      invariant IsChain(m0, cluster, left) && OnDisk(disk, v, left)
      invariant done + Image(disk, v, left) == whole
      invariant mem[..] == Written(m0, KERNEL_IMAGE_ADDR, done)
      decreases |left|
    {
      ClusterStep(m0, disk, v, cluster, left);
      ghost var block := ReadSectors(disk, Lba(v, cluster), v.sectorsPerCluster);
      ghost var rest := Image(disk, v, left[1..]);
      assert done + (block + rest) == (done + block) + rest;
      WrittenTwice(m0, KERNEL_IMAGE_ADDR, done, block);
      DriveRead(mem, disk, Lba(v, cluster), v.sectorsPerCluster, KERNEL_IMAGE_ADDR + offset);
      done := done + block;
      FatKept(m0, KERNEL_IMAGE_ADDR, done, cluster);
      cluster := ReadFat(mem, cluster);
      offset := Add32(offset, v.sectorsPerCluster * v.bytesPerSector);
      left := left[1..];
    }
    ChainEnd(m0, disk, v, cluster, left);
    assert done + [] == done;
  }

  // ----- finding the image -----

  /** "KERNEL     " */
  const KERNEL_NAME: seq<u8> := [0x4b, 0x45, 0x52, 0x4e, 0x45, 0x4c, 0x20, 0x20, 0x20, 0x20, 0x20]

  /** Directory entry i, 32 bytes with the name in front, is the kernel's. */
  predicate IsKernel(directory: seq<u8>, i: nat)
    requires 32 * i + 32 <= |directory|
  {
    directory[32 * i..32 * i + 11] == KERNEL_NAME
  }

  /** first_cluster_lo lies at offset 26. */
  function FirstCluster(directory: seq<u8>, i: nat): u16
    requires 32 * i + 32 <= |directory|
  {
    Get16(directory, 32 * i + 26)
  }

  /** The clusters of a chain that never repeats one. */
  ghost function ChainFrom(m: seq<u8>, c: u16): (chain: seq<u16>)
    requires |m| >= KERNEL_IMAGE_ADDR && Acyclic(m, c)
    ensures IsChain(m, c, chain)
  {
    TerminatesIffAcyclic(m, c);
    var chain :| IsChain(m, c, chain);
    chain
  }

  /** Any chain from c is that one. */
  lemma {:induction false} ChainIsUnique(m: seq<u8>, c: u16, a: seq<u16>, b: seq<u16>)
    requires |m| >= KERNEL_IMAGE_ADDR && IsChain(m, c, a) && IsChain(m, c, b)
    ensures a == b
    decreases |a|
  {
    if a != [] {
      ChainIsUnique(m, FatEntry(m, c), a[1..], b[1..]);
      assert a == [a[0]] + a[1..] && b == [b[0]] + b[1..];
    }
  }

  /** The chain of clusters from c ends, lies on the disk, and its image fits into memory. */
  ghost predicate Loadable(m: seq<u8>, disk: Disk, v: Volume, c: u16) {
    && |m| >= KERNEL_IMAGE_ADDR && Acyclic(m, c)
    && OnDisk(disk, v, ChainFrom(m, c))
    && KERNEL_IMAGE_ADDR + |Image(disk, v, ChainFrom(m, c))| <= |m|
  }

  /** The image of every matching directory entry can be loaded. */
  ghost predicate AllLoadable(m: seq<u8>, disk: Disk, v: Volume, directory: seq<u8>, n: nat) {
    32 * n <= |directory| &&
    forall i :: 0 <= i < n && IsKernel(directory, i) ==> Loadable(m, disk, v, FirstCluster(directory, i))
  }

  /** What the first n directory entries leave in memory: each match loads its image over the last. */
  ghost function Loaded(m: seq<u8>, disk: Disk, v: Volume, directory: seq<u8>, n: nat): (r: seq<u8>)
    requires AllLoadable(m, disk, v, directory, n)
    ensures |r| == |m|
  {
    if n == 0 then m
    else
      var r := Loaded(m, disk, v, directory, n - 1);
      if IsKernel(directory, n - 1)
      then Written(r, KERNEL_IMAGE_ADDR, Image(disk, v, ChainFrom(m, FirstCluster(directory, n - 1))))
      else r
  }

  /** Entry k is the only one with the kernel's name; none is when k is past the end. */
  ghost predicate OnlyKernel(directory: seq<u8>, n: nat, k: nat) {
    32 * n <= |directory| && forall i :: 0 <= i < n ==> (IsKernel(directory, i) <==> i == k)
  }

  /** The file of directory entry k. */
  ghost function EntryImage(m: seq<u8>, disk: Disk, v: Volume, directory: seq<u8>, n: nat, k: nat): (image: seq<u8>)
    requires AllLoadable(m, disk, v, directory, n) && OnlyKernel(directory, n, k)
    ensures k < n ==> |m| >= KERNEL_IMAGE_ADDR + |image|
  {
    if k < n then Image(disk, v, ChainFrom(m, FirstCluster(directory, k))) else []
  }

  lemma {:induction false} LoadedBefore(m: seq<u8>, disk: Disk, v: Volume, directory: seq<u8>, n: nat, k: nat)
    requires AllLoadable(m, disk, v, directory, n) && OnlyKernel(directory, n, k) && n <= k
    ensures Loaded(m, disk, v, directory, n) == m
  {
    hide IsKernel, Loadable, Written;
    if n > 0 {
      LoadedBefore(m, disk, v, directory, n - 1, k);
    }
  }

  lemma EntryLoadable(m: seq<u8>, disk: Disk, v: Volume, directory: seq<u8>, n: nat, k: nat)
    requires AllLoadable(m, disk, v, directory, n) && OnlyKernel(directory, n, k) && k < n
    ensures Loadable(m, disk, v, FirstCluster(directory, k))
    ensures |m| >= KERNEL_IMAGE_ADDR && Acyclic(m, FirstCluster(directory, k))
    ensures OnDisk(disk, v, ChainFrom(m, FirstCluster(directory, k)))
  {
  }

  /** The file of the only match is what ends up in memory: the clusters of the FAT's chain from its
      first cluster, end to end. */
  lemma {:induction false} OneKernel(m: seq<u8>, disk: Disk, v: Volume, directory: seq<u8>, n: nat, k: nat)
    requires AllLoadable(m, disk, v, directory, n) && OnlyKernel(directory, n, k)
    ensures Loaded(m, disk, v, directory, n) ==
      if k < n then Written(m, KERNEL_IMAGE_ADDR, EntryImage(m, disk, v, directory, n, k)) else m
    ensures k < n ==>
      forall chain :: IsChain(m, FirstCluster(directory, k), chain) ==>
        OnDisk(disk, v, chain) && EntryImage(m, disk, v, directory, n, k) == Image(disk, v, chain)
  {
    hide IsKernel, Loadable, Written, Acyclic, IsChain, Image, OnDisk;
    if k < n {
      EntryLoadable(m, disk, v, directory, n, k);
      forall chain | IsChain(m, FirstCluster(directory, k), chain)
        ensures OnDisk(disk, v, chain) && EntryImage(m, disk, v, directory, n, k) == Image(disk, v, chain)
      {
        ChainIsUnique(m, FirstCluster(directory, k), chain, ChainFrom(m, FirstCluster(directory, k)));
      }
    }
    if n > 0 {
      if k == n - 1 {
        LoadedBefore(m, disk, v, directory, n - 1, k);
      } else {
        OneKernel(m, disk, v, directory, n - 1, k);
      }
    }
  }

  lemma NextFits(m: seq<u8>, disk: Disk, v: Volume, directory: seq<u8>, n: nat)
    requires AllLoadable(m, disk, v, directory, n) && n > 0 && IsKernel(directory, n - 1)
    ensures Loadable(m, disk, v, FirstCluster(directory, n - 1))
  {
  }

  /** The image goes above the FAT, so the chains stay what they are. */
  lemma {:induction false} FatStays(m: seq<u8>, disk: Disk, v: Volume, directory: seq<u8>, n: nat, c: u16)
    requires |m| >= KERNEL_IMAGE_ADDR && AllLoadable(m, disk, v, directory, n)
    ensures FatEntry(Loaded(m, disk, v, directory, n), c) == FatEntry(m, c)
  {
    hide IsKernel, Loadable, Written, FatEntry;
    if n > 0 {
      FatStays(m, disk, v, directory, n - 1, c);
      if IsKernel(directory, n - 1) {
        NextFits(m, disk, v, directory, n);
        FatKept(Loaded(m, disk, v, directory, n - 1), KERNEL_IMAGE_ADDR,
                Image(disk, v, ChainFrom(m, FirstCluster(directory, n - 1))), c);
      }
    }
  }

  lemma {:induction false} ChainStays(m: seq<u8>, m': seq<u8>, c: u16, chain: seq<u16>)
    requires |m| >= KERNEL_IMAGE_ADDR && |m'| >= KERNEL_IMAGE_ADDR && IsChain(m, c, chain)
    requires forall x: u16 :: FatEntry(m', x) == FatEntry(m, x)
    ensures IsChain(m', c, chain)
    decreases |chain|
  {
    hide FatEntry;
    if chain != [] {
      ChainStays(m, m', FatEntry(m, c), chain[1..]);
    }
  }

  lemma NameMatches(directory: seq<u8>, name: seq<u8>, i: nat)
    requires 32 * i + 32 <= |directory| && name == directory[32 * i..32 * i + 11]
    ensures IsKernel(directory, i) <==> name == KERNEL_NAME
  {
  }

  lemma LoadableParts(m: seq<u8>, disk: Disk, v: Volume, c: u16)
    requires Loadable(m, disk, v, c)
    ensures |m| >= KERNEL_IMAGE_ADDR && Acyclic(m, c) && OnDisk(disk, v, ChainFrom(m, c))
    ensures KERNEL_IMAGE_ADDR + |Image(disk, v, ChainFrom(m, c))| <= |m|
  {
  }

  /** The directory loop: every entry with the kernel's name is loaded, in order. */
  method LoadKernel(mem: array<u8>, disk: Disk, v: Volume, directory: array<u8>, entries: nat)
    requires KERNEL_IMAGE_ADDR <= mem.Length < 0x1_0000_0000 && Sectors(disk, v) && mem != directory
    requires AllLoadable(mem[..], disk, v, directory[..], entries)
    modifies mem
    ensures mem[..] == Loaded(old(mem[..]), disk, v, directory[..], entries)
  {
    hide IsChain, Loadable, Sectors, Image, Written, IsKernel, Acyclic, FatEntry;
    var name := new u8[11](i requires 0 <= i < 11 => KERNEL_NAME[i]);
    assert name[..] == name[0..0 + 11] == KERNEL_NAME;
    ghost var m, d := mem[..], directory[..];
    var i := 0;
    while i < entries
      invariant 0 <= i <= entries && name[0..0 + 11] == KERNEL_NAME
      invariant mem[..] == Loaded(m, disk, v, d, i)
    {
      var difference := Strings.Memcmp(directory, 32 * i, name, 0, 11);
      NameMatches(d, directory[32 * i..32 * i + 11], i);
      if difference == 0 {
        var first := Load16(directory, 32 * i + 26);
        assert first == FirstCluster(d, i);
        LoadableParts(m, disk, v, first);
        forall x: u16 ensures FatEntry(mem[..], x) == FatEntry(m, x) {
          FatStays(m, disk, v, d, i, x);
        }
        ChainStays(m, mem[..], first, ChainFrom(m, first));
        LoadChain(mem, disk, v, first, ChainFrom(m, first));
      }
      i := i + 1;
    }
  }

  // ----- which bytes of the disk end up where -----

  lemma NextProduct(a: nat, n: nat)
    ensures (a + 1) * n == a * n + n
  {
  }

  lemma {:induction false} Product(a: nat, b: nat, n: nat)
    requires a < b
    ensures a * n + n <= b * n
  {
    NextProduct(b - 1, n);
    if a + 1 < b {
      Product(a, b - 1, n);
    }
  }

  lemma InTail(a: seq<u8>, b: seq<u8>, x: nat)
    requires x < |b|
    ensures (a + b)[|a| + x] == b[x]
  {
  }

  /** Byte o of sector s of a read. */
  lemma {:induction false} ReadByte(disk: Disk, v: Volume, lba: nat, count: nat, s: nat, o: nat)
    requires Sectors(disk, v) && lba + count <= |disk| && s < count && o < v.bytesPerSector
    ensures s * v.bytesPerSector + o < |ReadSectors(disk, lba, count)|
    ensures ReadSectors(disk, lba, count)[s * v.bytesPerSector + o] == disk[lba + s][o]
    decreases count
  {
    ReadLength(disk, v, lba, count);
    Product(s, count, v.bytesPerSector);
    if s > 0 {
      NextProduct(s - 1, v.bytesPerSector);
      var x := (s - 1) * v.bytesPerSector + o;
      ReadByte(disk, v, lba + 1, count - 1, s - 1, o);
      InTail(disk[lba], ReadSectors(disk, lba + 1, count - 1), x);
    }
  }

  lemma NonNegative(a: nat, b: nat)
    ensures a * b >= 0
  {
  }

  lemma NoWrap(x: nat)
    requires x < 0x1_0000
    ensures x % 0x1_0000 == x
  {
  }

  /** Data clusters are numbered from 2. */
  lemma LbaOf(v: Volume, c: u16)
    requires c >= 2 && v.firstData + (c - 2) * v.sectorsPerCluster < 0x1_0000
    ensures Lba(v, c) == v.firstData + (c - 2) * v.sectorsPerCluster
  {
    NonNegative(c - 2, v.sectorsPerCluster);
    NoWrap(v.firstData + (c - 2) * v.sectorsPerCluster);
  }

  /** Every cluster is a data cluster whose sectors lie on the disk, with numbers of 16 bits. */
  ghost predicate OnDataSectors(disk: Disk, v: Volume, chain: seq<u16>) {
    forall k {:trigger chain[k]} :: 0 <= k < |chain| ==>
      && chain[k] >= 2
      && v.firstData + (chain[k] - 2) * v.sectorsPerCluster < 0x1_0000
      && v.firstData + (chain[k] - 2) * v.sectorsPerCluster + v.sectorsPerCluster <= |disk|
  }

  lemma DataIsOnDisk(disk: Disk, v: Volume, chain: seq<u16>)
    requires OnDataSectors(disk, v, chain)
    ensures OnDisk(disk, v, chain)
  {
    hide Lba;
    forall k | 0 <= k < |chain| ensures Lba(v, chain[k]) + v.sectorsPerCluster <= |disk| {
      LbaOf(v, chain[k]);
    }
  }

  lemma {:induction false} ImageLength(disk: Disk, v: Volume, chain: seq<u16>)
    requires Sectors(disk, v) && OnDisk(disk, v, chain)
    ensures |Image(disk, v, chain)| == |chain| * (v.sectorsPerCluster * v.bytesPerSector)
  {
    if chain != [] {
      ReadLength(disk, v, Lba(v, chain[0]), v.sectorsPerCluster);
      ImageLength(disk, v, chain[1..]);
      var n := v.sectorsPerCluster * v.bytesPerSector;
      assert |chain| * n == n + (|chain| - 1) * n;
    }
  }

  /** Byte x of cluster j of the image. */
  lemma {:induction false} ImageCluster(disk: Disk, v: Volume, chain: seq<u16>, j: nat, x: nat)
    requires Sectors(disk, v) && OnDisk(disk, v, chain) && j < |chain| && x < v.sectorsPerCluster * v.bytesPerSector
    ensures j * (v.sectorsPerCluster * v.bytesPerSector) + x < |Image(disk, v, chain)|
    ensures x < |ReadSectors(disk, Lba(v, chain[j]), v.sectorsPerCluster)|
    ensures Image(disk, v, chain)[j * (v.sectorsPerCluster * v.bytesPerSector) + x]
      == ReadSectors(disk, Lba(v, chain[j]), v.sectorsPerCluster)[x]
    decreases j
  {
    hide Lba, ReadSectors;
    var n := v.sectorsPerCluster * v.bytesPerSector;
    ReadLength(disk, v, Lba(v, chain[0]), v.sectorsPerCluster);
    ReadLength(disk, v, Lba(v, chain[j]), v.sectorsPerCluster);
    ImageLength(disk, v, chain);
    Product(j, |chain|, n);
    if j > 0 {
      ImageCluster(disk, v, chain[1..], j - 1, x);
      NextProduct(j - 1, n);
      InTail(ReadSectors(disk, Lba(v, chain[0]), v.sectorsPerCluster), Image(disk, v, chain[1..]), (j - 1) * n + x);
    }
  }

  lemma ClusterOffset(j: nat, s: nat, o: nat, spc: nat, bps: nat)
    requires s < spc && o < bps
    ensures s * bps + o < spc * bps
    ensures (j * spc + s) * bps + o == j * (spc * bps) + (s * bps + o)
  {
    Product(s, spc, bps);
  }

  /** Byte o of sector s of cluster j of the image is that byte of the sector the cluster's number leads
      to: the first data sector, plus the sectors of the clusters from 2 on before it. */
  lemma ImageByte(disk: Disk, v: Volume, chain: seq<u16>, j: nat, s: nat, o: nat, at: nat, sector: nat)
    requires Sectors(disk, v) && OnDataSectors(disk, v, chain)
    requires j < |chain| && s < v.sectorsPerCluster && o < v.bytesPerSector
    requires at == (j * v.sectorsPerCluster + s) * v.bytesPerSector + o
    requires sector == v.firstData + (chain[j] - 2) * v.sectorsPerCluster + s
    ensures OnDisk(disk, v, chain) && at < |Image(disk, v, chain)|
    ensures sector < |disk| && o < |disk[sector]| && Image(disk, v, chain)[at] == disk[sector][o]
  {
    hide Image, ReadSectors, OnDisk, Lba;
    DataIsOnDisk(disk, v, chain);
    ClusterOffset(j, s, o, v.sectorsPerCluster, v.bytesPerSector);
    ImageCluster(disk, v, chain, j, s * v.bytesPerSector + o);
    LbaOf(v, chain[j]);
    ReadByte(disk, v, Lba(v, chain[j]), v.sectorsPerCluster, s, o);
  }

  /** The word of cluster chain[j] in the FAT at 0x8000 names the next cluster, or ends the chain. */
  ghost predicate LinkInFat(m: seq<u8>, chain: seq<u16>, j: nat)
    requires |m| >= 0x4_0000 && j < |chain|
  {
    var word := 0x8000 + 2 * (chain[j] as int);
    var next := m[word] as int + 0x100 * (m[word + 1] as int);
    chain[j] < 0xfff8 && if j + 1 < |chain| then next == chain[j + 1] else next >= 0xfff8
  }

  /** A chain spelled out in the bytes of the FAT. */
  ghost predicate ChainInFat(m: seq<u8>, c: u16, chain: seq<u16>)
    requires |m| >= 0x4_0000
  {
    && (if chain == [] then c >= 0xfff8 else chain[0] == c)
    && forall j {:trigger LinkInFat(m, chain, j)} :: 0 <= j < |chain| ==> LinkInFat(m, chain, j)
  }

  lemma FirstLink(m: seq<u8>, chain: seq<u16>)
    requires |m| >= 0x4_0000 && chain != []
    ensures LinkInFat(m, chain, 0) <==>
      var next := FatEntry(m, chain[0]);
      chain[0] < LAST_CLUSTER && if |chain| > 1 then next == chain[1] else next >= LAST_CLUSTER
  {
  }

  lemma LaterLink(m: seq<u8>, chain: seq<u16>, j: nat)
    requires |m| >= 0x4_0000 && j + 1 < |chain|
    ensures LinkInFat(m, chain, j + 1) <==> LinkInFat(m, chain[1..], j)
  {
    assert chain[1..][j] == chain[j + 1];
    assert j + 2 < |chain| ==> chain[1..][j + 1] == chain[j + 2];
  }

  lemma {:induction false} ChainInFatIff(m: seq<u8>, c: u16, chain: seq<u16>)
    requires |m| >= 0x4_0000
    ensures IsChain(m, c, chain) <==> ChainInFat(m, c, chain)
    decreases |chain|
  {
    hide LinkInFat, FatEntry;
    if chain != [] {
      ChainInFatIff(m, FatEntry(m, c), chain[1..]);
      FirstLink(m, chain);
      forall j | 0 <= j < |chain| - 1 ensures LinkInFat(m, chain, j + 1) <==> LinkInFat(m, chain[1..], j) {
        LaterLink(m, chain, j);
      }
      if ChainInFat(m, c, chain) {
        assert LinkInFat(m, chain, 0);
        forall j | 0 <= j < |chain[1..]| ensures LinkInFat(m, chain[1..], j) {
          assert LinkInFat(m, chain, j + 1);
        }
      }
      if IsChain(m, c, chain) {
        forall j | 0 <= j < |chain| ensures LinkInFat(m, chain, j) {
          assert j > 0 ==> LinkInFat(m, chain[1..], j - 1) && LinkInFat(m, chain, j - 1 + 1);
        }
      }
    }
  }

  /** The eleven characters of the kernel's file name in a directory entry, the extension blank. */
  predicate NamedKernel(directory: seq<u8>, i: nat)
    requires 32 * i + 32 <= |directory|
  {
    forall k :: 0 <= k < 11 ==> directory[32 * i + k] == "KERNEL     "[k] as int
  }

  lemma NamedKernelIff(directory: seq<u8>, i: nat)
    requires 32 * i + 32 <= |directory|
    ensures NamedKernel(directory, i) <==> IsKernel(directory, i)
  {
    var name := directory[32 * i..32 * i + 11];
    assert forall k :: 0 <= k < 11 ==> KERNEL_NAME[k] == "KERNEL     "[k] as int;
    assert forall k :: 0 <= k < 11 ==> name[k] == directory[32 * i + k];
    if NamedKernel(directory, i) {
      assert name == KERNEL_NAME;
    }
  }

  /** One directory entry is named KERNEL, chain is the list of its clusters in the FAT, and its sectors
      lie on the disk. */
  ghost predicate KernelOnDisk(m: seq<u8>, disk: Disk, v: Volume, directory: seq<u8>, n: nat, entry: nat,
                               chain: seq<u16>) {
    && |m| >= 0x4_0000 && entry < n && 32 * n <= |directory| && Sectors(disk, v)
    && (forall i :: 0 <= i < n ==> (NamedKernel(directory, i) <==> i == entry))
    && ChainInFat(m, directory[32 * entry + 26] as int + 0x100 * (directory[32 * entry + 27] as int), chain)
    && OnDataSectors(disk, v, chain)
    && 0x4_0000 + |chain| * (v.sectorsPerCluster * v.bytesPerSector) <= |m|
  }

  lemma KernelLoadable(m: seq<u8>, disk: Disk, v: Volume, directory: seq<u8>, n: nat, entry: nat, chain: seq<u16>)
    requires KernelOnDisk(m, disk, v, directory, n, entry, chain)
    ensures OnlyKernel(directory, n, entry) && IsChain(m, FirstCluster(directory, entry), chain)
    ensures OnDisk(disk, v, chain)
    ensures AllLoadable(m, disk, v, directory, n)
  {
    hide IsKernel, NamedKernel, ChainInFat, OnDisk, OnDataSectors, Acyclic, IsChain, Image, Sectors;
    forall i | 0 <= i < n ensures IsKernel(directory, i) <==> i == entry {
      NamedKernelIff(directory, i);
    }
    var c := FirstCluster(directory, entry);
    ChainInFatIff(m, c, chain);
    ChainIsAcyclic(m, c, chain);
    ChainIsUnique(m, c, chain, ChainFrom(m, c));
    DataIsOnDisk(disk, v, chain);
    ImageLength(disk, v, chain);
  }

  /** From the bytes of directory, FAT and disk to the bytes of memory: byte o of sector s of the kernel's
      j-th cluster, and nothing below the image changes. */
  lemma KernelFromDisk(m: seq<u8>, disk: Disk, v: Volume, directory: seq<u8>, n: nat, entry: nat, chain: seq<u16>,
                       j: nat, s: nat, o: nat, at: nat, sector: nat)
    requires KernelOnDisk(m, disk, v, directory, n, entry, chain)
    requires j < |chain| && s < v.sectorsPerCluster && o < v.bytesPerSector
    requires at == (j * v.sectorsPerCluster + s) * v.bytesPerSector + o
    requires sector == v.firstData + (chain[j] - 2) * v.sectorsPerCluster + s
    ensures AllLoadable(m, disk, v, directory, n) && 0x4_0000 + at < |m|
    ensures sector < |disk| && o < |disk[sector]| && Loaded(m, disk, v, directory, n)[0x4_0000 + at] == disk[sector][o]
    ensures Loaded(m, disk, v, directory, n)[..0x4_0000] == m[..0x4_0000]
  {
    hide OnlyKernel, IsChain, OnDisk, OnDataSectors, AllLoadable, Image, NamedKernel, ChainInFat, EntryImage, Loaded;
    KernelLoadable(m, disk, v, directory, n, entry, chain);
    OneKernel(m, disk, v, directory, n, entry);
    ImageByte(disk, v, chain, j, s, o, at, sector);
    ImageLength(disk, v, chain);
    assert EntryImage(m, disk, v, directory, n, entry) == Image(disk, v, chain);
  }
}
