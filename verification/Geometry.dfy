/** The layout of a volume: what fat12_init computes from the boot sector, in 32-bit arithmetic. */
module Geometry {
  import opened Bytes
  import opened Disk
  import FatTable

  const MAX_FAT_SECTORS := 64
  const MAX_ROOT_DIR_SECTORS := 64
  const MAX_SECTORS_PER_CLUSTER := 32
  const MAX_CLUSTERS := 4084
  const DIR_ENTRY_SIZE: nat := 32

  /** The BIOS parameter block fields that the driver reads. */
  datatype Bpb = Bpb(bytesPerSector: nat, sectorsPerCluster: nat, reservedSectors: nat, numFats: nat,
                     rootEntryCount: nat, totalSectors16: nat, sectorsPerFat16: nat, totalSectors32: nat)

  ghost predicate FieldsFit(b: Bpb) {
    && b.bytesPerSector < TWO16 && b.sectorsPerCluster < 256 && b.reservedSectors < TWO16 && b.numFats < 256
    && b.rootEntryCount < TWO16 && b.totalSectors16 < TWO16 && b.sectorsPerFat16 < TWO16 && b.totalSectors32 < TWO32
  }

  /** The packed structure laid over the first sector of the volume. */
  function ParseBpb(sector: Sector): (b: Bpb)
    ensures FieldsFit(b)
  {
    Bpb(FromLe16(sector[11..13]), sector[13], FromLe16(sector[14..16]), sector[16],
        FromLe16(sector[17..19]), FromLe16(sector[19..21]), FromLe16(sector[22..24]), FromLe32(sector[32..36]))
  }

  /** The fields of the structure behind the jump and the maker's name, in their order; the four that the driver does not read
      are parameters. */
  function PackBpb(b: Bpb, media: byte, track: nat, heads: nat, hidden: nat): (r: seq<byte>)
    requires FieldsFit(b) && track < TWO16 && heads < TWO16 && hidden < TWO32
    ensures |r| == 25
  {
    PackUpper(b) + PackLower(b, media, track, heads, hidden)
  }

  function PackUpper(b: Bpb): (r: seq<byte>)
    requires FieldsFit(b)
    ensures |r| == 10
  {
    Le16(b.bytesPerSector) + [b.sectorsPerCluster] + Le16(b.reservedSectors) + [b.numFats] + Le16(b.rootEntryCount)
    + Le16(b.totalSectors16)
  }

  function PackLower(b: Bpb, media: byte, track: nat, heads: nat, hidden: nat): (r: seq<byte>)
    requires FieldsFit(b) && track < TWO16 && heads < TWO16 && hidden < TWO32
    ensures |r| == 15
  {
    [media] + Le16(b.sectorsPerFat16) + Le16(track) + Le16(heads) + Le32(hidden) + Le32(b.totalSectors32)
  }

  lemma UpperFields(b: Bpb)
    requires FieldsFit(b)
    ensures var r := PackUpper(b);
            && r[0..2] == Le16(b.bytesPerSector) && r[2] == b.sectorsPerCluster && r[3..5] == Le16(b.reservedSectors)
            && r[5] == b.numFats && r[6..8] == Le16(b.rootEntryCount) && r[8..10] == Le16(b.totalSectors16)
  {
    hide FromLe16, Le16;
    var r := PackUpper(b);
    assert r[0..2] == Le16(b.bytesPerSector);
    assert r[3..5] == Le16(b.reservedSectors);
    assert r[6..8] == Le16(b.rootEntryCount);
    assert r[8..10] == Le16(b.totalSectors16);
  }

  lemma LowerFields(b: Bpb, media: byte, track: nat, heads: nat, hidden: nat)
    requires FieldsFit(b) && track < TWO16 && heads < TWO16 && hidden < TWO32
    ensures var r := PackLower(b, media, track, heads, hidden);
            r[1..3] == Le16(b.sectorsPerFat16) && r[11..15] == Le32(b.totalSectors32)
  {
    hide FromLe16, FromLe32, Le16, Le32;
    var r := PackLower(b, media, track, heads, hidden);
    assert r[1..3] == Le16(b.sectorsPerFat16);
    assert r[11..15] == Le32(b.totalSectors32);
  }

  lemma SliceOfSum(a: seq<byte>, b: seq<byte>, i: nat, j: nat)
    requires i <= j
    ensures j <= |a| ==> (a + b)[i..j] == a[i..j]
    ensures |a| <= i && j <= |a| + |b| ==> (a + b)[i..j] == b[i - |a|..j - |a|]
  {
  }

  lemma PackedFields(b: Bpb, media: byte, track: nat, heads: nat, hidden: nat)
    requires FieldsFit(b) && track < TWO16 && heads < TWO16 && hidden < TWO32
    ensures var r := PackBpb(b, media, track, heads, hidden);
            && r[0..2] == Le16(b.bytesPerSector) && r[2] == b.sectorsPerCluster && r[3..5] == Le16(b.reservedSectors)
            && r[5] == b.numFats && r[6..8] == Le16(b.rootEntryCount) && r[8..10] == Le16(b.totalSectors16)
            && r[11..13] == Le16(b.sectorsPerFat16) && r[21..25] == Le32(b.totalSectors32)
  {
    hide FromLe16, FromLe32, Le16, Le32, PackUpper, PackLower;
    var u, l := PackUpper(b), PackLower(b, media, track, heads, hidden);
    UpperFields(b);
    LowerFields(b, media, track, heads, hidden);
    SliceOfSum(u, l, 0, 2);
    SliceOfSum(u, l, 3, 5);
    SliceOfSum(u, l, 6, 8);
    SliceOfSum(u, l, 8, 10);
    SliceOfSum(u, l, 11, 13);
    SliceOfSum(u, l, 21, 25);
  }

  /** A boot sector laid out like that is read as the same parameters, whatever else it holds. */
  lemma ParsePacked(sector: Sector, b: Bpb, media: byte, track: nat, heads: nat, hidden: nat)
    requires FieldsFit(b) && track < TWO16 && heads < TWO16 && hidden < TWO32
    requires sector[11..36] == PackBpb(b, media, track, heads, hidden)
    ensures ParseBpb(sector) == b
  {
    hide FromLe16, FromLe32, Le16, Le32;
    var r := sector[11..36];
    PackedFields(b, media, track, heads, hidden);
    assert sector[13] == r[2] && sector[16] == r[5];
    SliceOfSlice(sector, 11, 36, 0, 2);
    SliceOfSlice(sector, 11, 36, 3, 5);
    SliceOfSlice(sector, 11, 36, 6, 8);
    SliceOfSlice(sector, 11, 36, 8, 10);
    SliceOfSlice(sector, 11, 36, 11, 13);
    SliceOfSlice(sector, 11, 36, 21, 25);
  }

  /** fat12_fs_t. Sector numbers are relative to `baseLba`. */
  datatype Geometry = Geometry(baseLba: nat, sectorsPerCluster: nat, reservedSectors: nat, numFats: nat,
                               rootEntryCount: nat, rootDirSectors: nat, totalSectors: nat, sectorsPerFat: nat,
                               fatStart: nat, rootStart: nat, dataStart: nat, totalDataSectors: nat,
                               totalClusters: nat, clusterSize: nat, fatSize: nat)

  datatype Acceptance = Accepted(geometry: Geometry) | BadBpb | NotFat12

  /** Subtraction of uint32_t values. */
  function Minus32(a: nat, b: nat): nat {
    (a - b) % TWO32
  }

  /** The checks and computations of fat12_init, in its order. */
  function Accept(b: Bpb, baseLba: nat): Acceptance {
    if b.bytesPerSector != SECTOR_SIZE then BadBpb
    else if b.sectorsPerCluster == 0 || b.sectorsPerCluster > MAX_SECTORS_PER_CLUSTER then NotFat12
    else if b.sectorsPerFat16 == 0 || b.sectorsPerFat16 > MAX_FAT_SECTORS then NotFat12
    else
      var rootDirSectors := (b.rootEntryCount * DIR_ENTRY_SIZE + (SECTOR_SIZE - 1)) / SECTOR_SIZE % TWO16;
      if rootDirSectors > MAX_ROOT_DIR_SECTORS then NotFat12
      else
        var total := if b.totalSectors16 != 0 then b.totalSectors16 else b.totalSectors32;
        var fats := b.numFats * b.sectorsPerFat16;
        var rootStart := (b.reservedSectors + fats) % TWO32;
        var dataStart := (rootStart + rootDirSectors) % TWO32;
        var dataSectors := Minus32(Minus32(Minus32(total, b.reservedSectors), fats), rootDirSectors);
        var clusters := dataSectors / b.sectorsPerCluster;
        if clusters < 1 || clusters > MAX_CLUSTERS then NotFat12
        else Accepted(Geometry(baseLba, b.sectorsPerCluster, b.reservedSectors, b.numFats, b.rootEntryCount,
                               rootDirSectors, total, b.sectorsPerFat16, b.reservedSectors, rootStart, dataStart,
                               dataSectors, clusters, b.sectorsPerCluster * SECTOR_SIZE,
                               b.sectorsPerFat16 * SECTOR_SIZE))
  }

  /** The two places where the layout depends on products. */
  predicate Products(g: Geometry) {
    && g.rootStart == g.fatStart + g.numFats * g.sectorsPerFat
    && g.totalClusters * g.sectorsPerCluster <= g.totalDataSectors
  }

  /** A layout that a driver may rely on: the regions follow each other inside the volume, and the table and the
      root directory fit their buffers. */
  predicate Sound(g: Geometry) {
    && 1 <= g.sectorsPerCluster <= MAX_SECTORS_PER_CLUSTER && g.clusterSize == g.sectorsPerCluster * SECTOR_SIZE
    && 1 <= g.sectorsPerFat <= MAX_FAT_SECTORS && g.fatSize == g.sectorsPerFat * SECTOR_SIZE
    && g.numFats < 256
    && g.rootEntryCount * DIR_ENTRY_SIZE <= g.rootDirSectors * SECTOR_SIZE
    && g.rootDirSectors <= MAX_ROOT_DIR_SECTORS
    && g.reservedSectors == g.fatStart <= g.rootStart
    && g.dataStart == g.rootStart + g.rootDirSectors
    && g.totalSectors == g.dataStart + g.totalDataSectors
    && 1 <= g.totalClusters <= MAX_CLUSTERS
    && Products(g)
  }

  /** The i-th of n rows of width w ends where the next begins, inside n rows. */
  lemma Rows(i: nat, n: nat, w: nat)
    requires i < n
    ensures 0 <= i * w && i * w + w <= n * w
  {
    assert (i + 1) * w <= n * w;
  }

  lemma ProductBound(a: nat, b: nat, m: nat, n: nat)
    requires a <= m && b <= n
    ensures a * b <= m * n
  {
    assert a * b <= m * b <= m * n;
  }

  lemma QuotientBound(n: nat, d: nat)
    requires d > 0
    ensures n / d * d <= n < n / d * d + d
  {
  }

  lemma WrappedCountIsHuge(n: nat, d: nat)
    requires n >= TWO32 - 100_000 && 1 <= d <= MAX_SECTORS_PER_CLUSTER
    ensures n / d > MAX_CLUSTERS
  {
    QuotientBound(n, d);
    var q := n / d;
    if q <= MAX_CLUSTERS { ProductBound(q, d, MAX_CLUSTERS, MAX_SECTORS_PER_CLUSTER); }
  }

  /** Three subtractions in a row wrap as one. */
  lemma Minus32Chain(total: nat, a: nat, b: nat, c: nat)
    requires total < TWO32 && a + b + c < TWO32
    ensures Minus32(Minus32(Minus32(total, a), b), c) ==
            if total >= a + b + c then total - a - b - c else total - a - b - c + TWO32
  {
  }

  /** The number of data sectors is right and the clusters fit into it: a wrapped difference is refused. */
  lemma DataSectorsDoNotWrap(total: nat, a: nat, b: nat, c: nat, spc: nat)
    requires total < TWO32 && a + b + c < 100_000 && 1 <= spc <= MAX_SECTORS_PER_CLUSTER
    requires Minus32(Minus32(Minus32(total, a), b), c) / spc <= MAX_CLUSTERS
    ensures Minus32(Minus32(Minus32(total, a), b), c) == total - a - b - c
  {
    Minus32Chain(total, a, b, c);
    var n := Minus32(Minus32(Minus32(total, a), b), c);
    if n >= TWO32 - 100_000 { WrappedCountIsHuge(n, spc); }
  }

  /** What the computations amount to, once the difference is known not to wrap. */
  lemma AcceptedFields(b: Bpb, baseLba: nat)
    requires FieldsFit(b) && Accept(b, baseLba).Accepted?
    ensures var g := Accept(b, baseLba).geometry;
            && 1 <= b.sectorsPerCluster <= MAX_SECTORS_PER_CLUSTER && 1 <= b.sectorsPerFat16 <= MAX_FAT_SECTORS
            && g.rootDirSectors <= MAX_ROOT_DIR_SECTORS && g.totalSectors < TWO32
            && g.rootDirSectors == (b.rootEntryCount * DIR_ENTRY_SIZE + (SECTOR_SIZE - 1)) / SECTOR_SIZE % TWO16
            && g.totalDataSectors ==
                 Minus32(Minus32(Minus32(g.totalSectors, b.reservedSectors), b.numFats * b.sectorsPerFat16), g.rootDirSectors)
            && g.totalClusters == g.totalDataSectors / b.sectorsPerCluster && 1 <= g.totalClusters <= MAX_CLUSTERS
            && g.rootStart == (b.reservedSectors + b.numFats * b.sectorsPerFat16) % TWO32
            && g.dataStart == (g.rootStart + g.rootDirSectors) % TWO32
  {
    hide Minus32;
  }

  /** Every boot sector that is accepted describes a sound layout. In particular the bound of 4084 clusters also
      refuses a count of data sectors that wrapped around below zero. */
  lemma AcceptedIsSound(b: Bpb, baseLba: nat)
    requires FieldsFit(b) && Accept(b, baseLba).Accepted?
    ensures Sound(Accept(b, baseLba).geometry)
  {
    hide Accept, Minus32;
    var g := Accept(b, baseLba).geometry;
    AcceptedFields(b, baseLba);
    AcceptedCopies(b, baseLba);
    ProductBound(b.numFats, b.sectorsPerFat16, 255, MAX_FAT_SECTORS);
    RegionStarts(g.totalSectors, b.reservedSectors, b.numFats * b.sectorsPerFat16, g.rootDirSectors, b.sectorsPerCluster,
                 g.rootStart, g.dataStart, g.totalDataSectors);
    QuotientBound(g.totalDataSectors, b.sectorsPerCluster);
    RootFits(b.rootEntryCount);
  }

  /** The number of sectors behind the root directory; it is negative when the parts before it are larger than the volume. */
  function DataSectors(b: Bpb): int {
    (if b.totalSectors16 != 0 then b.totalSectors16 else b.totalSectors32)
    - b.reservedSectors - b.numFats * b.sectorsPerFat16 - (b.rootEntryCount + 15) / 16
  }

  /** The boot sectors that a mount accepts, in exact arithmetic. */
  predicate Mountable(b: Bpb) {
    && b.bytesPerSector == 512 && 1 <= b.sectorsPerCluster <= 32 && 1 <= b.sectorsPerFat16 <= 64 && b.rootEntryCount <= 1024
    && b.sectorsPerCluster <= DataSectors(b) < 4085 * b.sectorsPerCluster
  }

  /** The layout of an accepted volume: boot sector and reserved area, FAT copies, root directory, clusters. */
  ghost predicate LaidOut(b: Bpb, g: Geometry) {
    && g.fatStart == b.reservedSectors && g.rootStart == g.fatStart + b.numFats * b.sectorsPerFat16
    && g.dataStart == g.rootStart + (b.rootEntryCount + 15) / 16 && g.totalDataSectors == DataSectors(b)
    && g.totalClusters * b.sectorsPerCluster <= DataSectors(b) < (g.totalClusters + 1) * b.sectorsPerCluster
  }

  /** Exactly these are accepted, and laid out like this, although the driver computes with 32 bits. */
  lemma AcceptedExactly(b: Bpb, baseLba: nat)
    requires FieldsFit(b)
    ensures Accept(b, baseLba).Accepted? <==> Mountable(b)
    ensures Accept(b, baseLba).Accepted? ==> LaidOut(b, Accept(b, baseLba).geometry)
    ensures Accept(b, baseLba) == BadBpb <==> b.bytesPerSector != 512
  {
    RootSectors(b.rootEntryCount);
    if Accept(b, baseLba).Accepted? { AcceptedIsMountable(b, baseLba); }
    if Mountable(b) { MountableIsAccepted(b, baseLba); }
  }

  lemma RootSectors(entries: nat)
    requires entries < TWO16
    ensures (entries * DIR_ENTRY_SIZE + (SECTOR_SIZE - 1)) / SECTOR_SIZE % TWO16 == (entries + 15) / 16
  {
  }

  lemma SoundSums(g: Geometry)
    requires Sound(g)
    ensures g.rootStart == g.fatStart + g.numFats * g.sectorsPerFat && g.dataStart == g.rootStart + g.rootDirSectors
    ensures g.totalSectors == g.dataStart + g.totalDataSectors
  {
  }

  lemma CountBounds(n: nat, d: nat)
    requires d > 0 && 1 <= n / d <= 4084
    ensures d <= n < 4085 * d && n / d * d <= n < (n / d + 1) * d
  {
    QuotientBound(n, d);
    assert (n / d + 1) * d == n / d * d + d;
    ProductBound(n / d + 1, d, 4085, d);
    ProductBound(1, d, n / d, d);
  }

  lemma AcceptedIsMountable(b: Bpb, baseLba: nat)
    requires FieldsFit(b) && Accept(b, baseLba).Accepted?
    ensures Mountable(b) && LaidOut(b, Accept(b, baseLba).geometry)
  {
    hide Accept, Minus32, Sound;
    var g := Accept(b, baseLba).geometry;
    AcceptedFields(b, baseLba);
    AcceptedIsSound(b, baseLba);
    AcceptedCopies(b, baseLba);
    AcceptedTotal(b, baseLba);
    RootSectors(b.rootEntryCount);
    SoundSums(g);
    CountBounds(g.totalDataSectors, b.sectorsPerCluster);
  }

  lemma AcceptedTotal(b: Bpb, baseLba: nat)
    requires Accept(b, baseLba).Accepted?
    ensures b.bytesPerSector == 512
    ensures Accept(b, baseLba).geometry.totalSectors == if b.totalSectors16 != 0 then b.totalSectors16 else b.totalSectors32
  {
    hide Minus32;
  }

  lemma FewFats(n: nat, w: nat)
    requires n < 256 && w <= 64
    ensures n * w <= 16320
  {
    ProductBound(n, w, 255, 64);
  }

  lemma AcceptedWhen(b: Bpb, baseLba: nat, data: nat)
    requires b.bytesPerSector == 512 && 1 <= b.sectorsPerCluster <= 32 && 1 <= b.sectorsPerFat16 <= 64
    requires var root := (b.rootEntryCount * DIR_ENTRY_SIZE + (SECTOR_SIZE - 1)) / SECTOR_SIZE % TWO16;
             var total := if b.totalSectors16 != 0 then b.totalSectors16 else b.totalSectors32;
             && root <= 64
             && data == Minus32(Minus32(Minus32(total, b.reservedSectors), b.numFats * b.sectorsPerFat16), root)
    requires 1 <= data / b.sectorsPerCluster <= 4084
    ensures Accept(b, baseLba).Accepted?
  {
    hide Minus32;
  }

  lemma DataIsDifference(b: Bpb, root: nat)
    requires FieldsFit(b) && root == (b.rootEntryCount + 15) / 16 <= 64 && b.numFats * b.sectorsPerFat16 <= 16320 && DataSectors(b) >= 0
    ensures DataSectors(b) == Minus32(Minus32(Minus32(if b.totalSectors16 != 0 then b.totalSectors16 else b.totalSectors32,
                                                      b.reservedSectors), b.numFats * b.sectorsPerFat16), root)
  {
    hide Minus32;
    var total := if b.totalSectors16 != 0 then b.totalSectors16 else b.totalSectors32;
    var fats := b.numFats * b.sectorsPerFat16;
    Minus32Chain(total, b.reservedSectors, fats, root);
  }

  lemma MountableIsAccepted(b: Bpb, baseLba: nat)
    requires FieldsFit(b) && Mountable(b)
    ensures Accept(b, baseLba).Accepted?
  {
    hide Accept, Minus32, DataSectors;
    var root := (b.rootEntryCount + 15) / 16;
    RootSectors(b.rootEntryCount);
    FewFats(b.numFats, b.sectorsPerFat16);
    DataIsDifference(b, root);
    QuotientRange(DataSectors(b), b.sectorsPerCluster);
    AcceptedWhen(b, baseLba, DataSectors(b));
  }

  lemma QuotientRange(n: nat, d: nat)
    requires d > 0 && d <= n < 4085 * d
    ensures 1 <= n / d <= 4084
  {
    QuotientBound(n, d);
    if n / d >= 4085 { ProductBound(4085, d, n / d, d); }
  }

  /** The regions start where the sums say, without wrapping. */
  lemma RegionStarts(total: nat, reserved: nat, fats: nat, root: nat, spc: nat, rootStart: nat, dataStart: nat, sectors: nat)
    requires total < TWO32 && reserved < TWO16 && fats <= 255 * MAX_FAT_SECTORS && root <= MAX_ROOT_DIR_SECTORS
    requires 1 <= spc <= MAX_SECTORS_PER_CLUSTER && sectors / spc <= MAX_CLUSTERS
    requires rootStart == (reserved + fats) % TWO32 && dataStart == (rootStart + root) % TWO32
    requires sectors == Minus32(Minus32(Minus32(total, reserved), fats), root)
    ensures rootStart == reserved + fats && dataStart == rootStart + root && total == dataStart + sectors
  {
    hide Minus32;
    DataSectorsDoNotWrap(total, reserved, fats, root, spc);
  }

  /** The fields that are copied. */
  lemma AcceptedCopies(b: Bpb, baseLba: nat)
    requires Accept(b, baseLba).Accepted?
    ensures var g := Accept(b, baseLba).geometry;
            && g.sectorsPerCluster == b.sectorsPerCluster && g.reservedSectors == b.reservedSectors
            && g.numFats == b.numFats && g.rootEntryCount == b.rootEntryCount && g.sectorsPerFat == b.sectorsPerFat16
            && g.fatStart == b.reservedSectors && g.clusterSize == b.sectorsPerCluster * SECTOR_SIZE
            && g.fatSize == b.sectorsPerFat16 * SECTOR_SIZE && g.baseLba == baseLba
  {
    hide Minus32;
  }

  lemma RootFits(entries: nat)
    requires entries < TWO16
    ensures entries * DIR_ENTRY_SIZE <= (entries * DIR_ENTRY_SIZE + (SECTOR_SIZE - 1)) / SECTOR_SIZE % TWO16 * SECTOR_SIZE
  {
  }

  // ---------------------------------------------------------------- regions of the volume

  /** fat12_cluster_to_lba, relative to the start of the volume. */
  function ClusterSector(g: Geometry, cluster: nat): nat {
    if cluster < 2 then g.dataStart else g.dataStart + (cluster - 2) * g.sectorsPerCluster
  }

  predicate InVolume(g: Geometry, cluster: nat) {
    2 <= cluster < g.totalClusters + 2
  }

  /** The sectors of the k-th FAT copy. */
  function FatSector(g: Geometry, k: nat): nat {
    g.fatStart + k * g.sectorsPerFat
  }

  /** The clusters follow each other without gaps from the start of the data on. */
  lemma ClustersFollow(g: Geometry, m: seq<byte>, c: nat)
    requires Reachable(g) && IsMedium(m) && InVolume(g, c)
    ensures ClusterSector(g, 2) == g.dataStart && ClusterSector(g, c + 1) == ClusterSector(g, c) + g.sectorsPerCluster
    ensures var at := 512 * (g.baseLba + g.dataStart + (c - 2) * g.sectorsPerCluster);
            at + 512 * g.sectorsPerCluster <= |m| && ClusterBytes(g, m, c) == m[at..at + 512 * g.sectorsPerCluster]
  {
    ClusterInsideVolume(g, c);
    assert (c - 1) * g.sectorsPerCluster == (c - 2) * g.sectorsPerCluster + g.sectorsPerCluster;
  }

  /** The bytes of the k-th FAT copy and of the root directory. */
  lemma RegionBytes(g: Geometry, m: seq<byte>, k: nat, at: nat)
    requires Reachable(g) && IsMedium(m)
    ensures at == 512 * (g.baseLba + g.rootStart) ==>
              at + 512 * g.rootDirSectors <= |m| && RootCopy(g, m) == m[at..at + 512 * g.rootDirSectors]
    ensures k < g.numFats && at == 512 * (g.baseLba + g.fatStart + k * g.sectorsPerFat) ==>
              at + 512 * g.sectorsPerFat <= |m| && FatCopy(g, m, k) == m[at..at + 512 * g.sectorsPerFat]
  {
    if k < g.numFats { FatCopyInsideFats(g, k); }
  }

  lemma ClusterInsideVolume(g: Geometry, c: nat)
    requires Sound(g) && InVolume(g, c)
    ensures g.dataStart <= ClusterSector(g, c) && ClusterSector(g, c) + g.sectorsPerCluster <= g.totalSectors
  {
    hide Sound, Products;
    SoundClusters(g);
    Rows(c - 2, g.totalClusters, g.sectorsPerCluster);
  }

  lemma SoundClusters(g: Geometry)
    requires Sound(g)
    ensures g.totalClusters * g.sectorsPerCluster <= g.totalDataSectors
    ensures g.totalSectors == g.dataStart + g.totalDataSectors
  {
  }

  lemma SoundFats(g: Geometry)
    requires Sound(g)
    ensures g.rootStart == g.fatStart + g.numFats * g.sectorsPerFat
  {
  }

  lemma ClusterBehindSystem(g: Geometry, c: nat)
    ensures g.dataStart <= ClusterSector(g, c)
  {
    if c >= 2 { assert (c - 2) * g.sectorsPerCluster >= 0; }
  }

  lemma ClustersDisjoint(g: Geometry, c: nat, d: nat)
    requires Sound(g) && 2 <= c < d
    ensures ClusterSector(g, c) + g.sectorsPerCluster <= ClusterSector(g, d)
  {
    hide Sound, Products;
    Rows(c - 2, d - 2, g.sectorsPerCluster);
  }

  lemma FatCopyInsideFats(g: Geometry, k: nat)
    requires Sound(g) && k < g.numFats
    ensures g.fatStart <= FatSector(g, k) && FatSector(g, k) + g.sectorsPerFat <= g.rootStart
  {
    hide Sound, Products;
    SoundFats(g);
    Rows(k, g.numFats, g.sectorsPerFat);
  }

  lemma FatCopiesDisjoint(g: Geometry, k: nat, l: nat)
    requires k < l
    ensures FatSector(g, k) + g.sectorsPerFat <= FatSector(g, l)
  {
    Rows(k, l, g.sectorsPerFat);
  }

  /** The regions of an accepted volume, from the boot sector to the last cluster: consecutive and disjoint, and
      every access to the table or the root buffer is in bounds. */
  lemma RegionsAreDisjoint(b: Bpb, baseLba: nat)
    requires FieldsFit(b) && Accept(b, baseLba).Accepted?
    ensures var g := Accept(b, baseLba).geometry;
            && FatSector(g, 0) == g.reservedSectors
            && (forall k | 0 <= k < g.numFats ::
                  g.reservedSectors <= FatSector(g, k) && FatSector(g, k) + g.sectorsPerFat <= g.rootStart)
            && (forall k, l | 0 <= k < l < g.numFats :: FatSector(g, k) + g.sectorsPerFat <= FatSector(g, l))
            && (forall c | InVolume(g, c) :: g.rootStart + g.rootDirSectors <= ClusterSector(g, c)
                                             && ClusterSector(g, c) + g.sectorsPerCluster <= g.totalSectors)
            && (forall c, d | InVolume(g, c) && InVolume(g, d) && c < d ::
                  ClusterSector(g, c) + g.sectorsPerCluster <= ClusterSector(g, d))
    ensures var g := Accept(b, baseLba).geometry;
            && (forall entry | 0 <= entry < 0x1000 :: FatTable.Index(entry) + 1 < FatTable.FAT_BUFFER)
            && g.fatSize <= FatTable.FAT_BUFFER
            && DIR_ENTRY_SIZE * g.rootEntryCount <= MAX_ROOT_DIR_SECTORS * SECTOR_SIZE
  {
    hide Accept, Products, FatSector, ClusterSector;
    var g := Accept(b, baseLba).geometry;
    AcceptedIsSound(b, baseLba);
    FirstFatSector(g);
    forall k | 0 <= k < g.numFats
      ensures g.reservedSectors <= FatSector(g, k) && FatSector(g, k) + g.sectorsPerFat <= g.rootStart
    {
      FatCopyInsideFats(g, k);
    }
    forall k, l | 0 <= k < l < g.numFats ensures FatSector(g, k) + g.sectorsPerFat <= FatSector(g, l) {
      FatCopiesDisjoint(g, k, l);
    }
    forall c | InVolume(g, c) ensures g.dataStart <= ClusterSector(g, c)
                                      && ClusterSector(g, c) + g.sectorsPerCluster <= g.totalSectors {
      ClusterInsideVolume(g, c);
    }
    forall c, d | InVolume(g, c) && InVolume(g, d) && c < d
      ensures ClusterSector(g, c) + g.sectorsPerCluster <= ClusterSector(g, d)
    {
      ClustersDisjoint(g, c, d);
    }
  }

  lemma FirstFatSector(g: Geometry)
    ensures FatSector(g, 0) == g.fatStart
  {
  }

  /** A boot sector without FAT copies, or without a reserved sector for itself, is accepted. */
  lemma OddLayoutsAreAccepted()
    ensures Accept(Bpb(512, 8, 128, 0, 256, 20480, 8, 0), 0).Accepted?
    ensures Accept(Bpb(512, 8, 0, 2, 256, 20480, 8, 0), 0).Accepted?
  {
  }

  // ---------------------------------------------------------------- the contents of the regions

  /** The volume lies within reach of 28-bit addresses on this device. */
  predicate Reachable(g: Geometry) {
    Sound(g) && g.baseLba + g.totalSectors <= REACH
  }

  predicate IsMedium(m: seq<byte>) {
    |m| == REACH * SECTOR_SIZE
  }

  /** The bytes of `n` sectors of the volume, from sector `s` on. */
  ghost function SectorsOf(g: Geometry, m: seq<byte>, s: nat, n: nat): (r: seq<byte>)
    requires IsMedium(m) && g.baseLba + s + n <= REACH
    ensures |r| == n * SECTOR_SIZE
  {
    m[SECTOR_SIZE * (g.baseLba + s)..SECTOR_SIZE * (g.baseLba + s + n)]
  }

  ghost function ClusterBytes(g: Geometry, m: seq<byte>, c: nat): (r: seq<byte>)
    requires Reachable(g) && IsMedium(m)
    ensures InVolume(g, c) ==> |r| == g.clusterSize
  {
    if InVolume(g, c) then
      ClusterInsideVolume(g, c);
      SectorsOf(g, m, ClusterSector(g, c), g.sectorsPerCluster)
    else []
  }

  /** The data area, as the contents of each cluster; the numbers 0 and 1 name no cluster. */
  ghost function Clusters(g: Geometry, m: seq<byte>): (data: seq<seq<byte>>)
    requires Reachable(g) && IsMedium(m)
    ensures |data| == g.totalClusters + 2
    ensures forall c | 0 <= c < |data| :: data[c] == ClusterBytes(g, m, c)
  {
    seq(g.totalClusters + 2, c requires 0 <= c => ClusterBytes(g, m, c))
  }

  /** The on-disk image of the k-th FAT copy. */
  ghost function FatCopy(g: Geometry, m: seq<byte>, k: nat): (r: seq<byte>)
    requires Reachable(g) && IsMedium(m) && k < g.numFats
    ensures |r| == g.fatSize
  {
    FatCopyInsideFats(g, k);
    SectorsOf(g, m, FatSector(g, k), g.sectorsPerFat)
  }

  /** The on-disk image of the root directory. */
  ghost function RootCopy(g: Geometry, m: seq<byte>): (r: seq<byte>)
    requires Reachable(g) && IsMedium(m)
    ensures |r| == g.rootDirSectors * SECTOR_SIZE
  {
    SectorsOf(g, m, g.rootStart, g.rootDirSectors)
  }

  /** A change inside a run of sectors leaves every window beside it alone. */
  lemma SectorsFrame(g: Geometry, m: seq<byte>, m': seq<byte>, s: nat, n: nat, at: nat, k: nat)
    requires IsMedium(m) && g.baseLba + s + n <= REACH
    requires SameOutside(m, m', SECTOR_SIZE * (g.baseLba + at), SECTOR_SIZE * (g.baseLba + at + k))
    requires s + n <= at || at + k <= s
    ensures SectorsOf(g, m', s, n) == SectorsOf(g, m, s, n)
  {
  }

  lemma ClustersFrame(g: Geometry, m: seq<byte>, m': seq<byte>, at: nat, k: nat)
    requires Reachable(g) && IsMedium(m) && at + k <= g.dataStart
    requires SameOutside(m, m', SECTOR_SIZE * (g.baseLba + at), SECTOR_SIZE * (g.baseLba + at + k))
    ensures Clusters(g, m') == Clusters(g, m)
  {
    hide Products, ClusterSector;
    forall c | 0 <= c < g.totalClusters + 2 ensures ClusterBytes(g, m', c) == ClusterBytes(g, m, c) {
      if InVolume(g, c) {
        ClusterInsideVolume(g, c);
        SectorsFrame(g, m, m', ClusterSector(g, c), g.sectorsPerCluster, at, k);
      }
    }
  }

  lemma OtherClustersFrame(g: Geometry, m: seq<byte>, m': seq<byte>, c: nat)
    requires Reachable(g) && IsMedium(m) && 2 <= c
    requires SameOutside(m, m', SECTOR_SIZE * (g.baseLba + ClusterSector(g, c)),
                         SECTOR_SIZE * (g.baseLba + ClusterSector(g, c) + g.sectorsPerCluster))
    ensures |Clusters(g, m')| == |Clusters(g, m)|
    ensures forall d | 0 <= d < g.totalClusters + 2 && d != c :: Clusters(g, m')[d] == Clusters(g, m)[d]
  {
    hide Products, ClusterSector;
    forall d | 0 <= d < g.totalClusters + 2 && d != c ensures ClusterBytes(g, m', d) == ClusterBytes(g, m, d) {
      if InVolume(g, d) {
        if c < d { ClustersDisjoint(g, c, d); } else { ClustersDisjoint(g, d, c); }
        ClusterInsideVolume(g, d);
        SectorsFrame(g, m, m', ClusterSector(g, d), g.sectorsPerCluster, ClusterSector(g, c), g.sectorsPerCluster);
      }
    }
  }

  /** Writing a cluster touches neither the FAT copies nor the root directory on the disk. */
  lemma SystemAreaFrame(g: Geometry, m: seq<byte>, m': seq<byte>, c: nat)
    requires Reachable(g) && IsMedium(m) && 2 <= c
    requires SameOutside(m, m', SECTOR_SIZE * (g.baseLba + ClusterSector(g, c)),
                         SECTOR_SIZE * (g.baseLba + ClusterSector(g, c) + g.sectorsPerCluster))
    ensures SectorsOf(g, m', 0, g.dataStart) == SectorsOf(g, m, 0, g.dataStart)
    ensures RootCopy(g, m') == RootCopy(g, m) && SameReserved(g, m, m')
    ensures forall k | 0 <= k < g.numFats :: FatCopy(g, m', k) == FatCopy(g, m, k)
  {
    hide Products, ClusterSector;
    ClusterBehindSystem(g, c);
    var at, n := ClusterSector(g, c), g.sectorsPerCluster;
    SectorsFrame(g, m, m', 0, g.dataStart, at, n);
    SectorsFrame(g, m, m', 0, g.reservedSectors, at, n);
    SectorsFrame(g, m, m', g.rootStart, g.rootDirSectors, at, n);
    forall k | 0 <= k < g.numFats ensures FatCopy(g, m', k) == FatCopy(g, m, k) {
      FatCopyInsideFats(g, k);
      SectorsFrame(g, m, m', FatSector(g, k), g.sectorsPerFat, at, n);
    }
  }

  /** The two disks hold the same FAT copies. */
  ghost predicate SameFats(g: Geometry, m: seq<byte>, m': seq<byte>) {
    && Reachable(g) && IsMedium(m) && IsMedium(m')
    && forall k | 0 <= k < g.numFats :: FatCopy(g, m', k) == FatCopy(g, m, k)
  }

  /** The two disks hold the same boot sector and reserved area. */
  ghost predicate SameReserved(g: Geometry, m: seq<byte>, m': seq<byte>) {
    && Reachable(g) && IsMedium(m) && IsMedium(m')
    && SectorsOf(g, m', 0, g.reservedSectors) == SectorsOf(g, m, 0, g.reservedSectors)
  }

  /** The first `n` FAT copies on the disk hold the bytes `want`. */
  ghost predicate FatsHold(g: Geometry, m: seq<byte>, n: nat, want: seq<byte>) {
    && Reachable(g) && IsMedium(m) && n <= g.numFats
    && forall k | 0 <= k < n :: FatCopy(g, m, k) == want
  }

  ghost predicate RunHolds(g: Geometry, m: seq<byte>, s: nat, n: nat, want: seq<byte>) {
    && IsMedium(m) && g.baseLba + s + n <= REACH && SECTOR_SIZE * n <= |want|
    && SectorsOf(g, m, s, n) == want[..SECTOR_SIZE * n]
  }

  /** One more sector of a run has been written with the bytes that `want` holds for it. */
  lemma RunExtends(g: Geometry, m: seq<byte>, m': seq<byte>, s: nat, i: nat, want: seq<byte>)
    requires IsMedium(m) && g.baseLba + s + i + 1 <= REACH && SECTOR_SIZE * (i + 1) <= |want|
    requires RunHolds(g, m, s, i, want)
    requires m' == Splice(m, SECTOR_SIZE * (g.baseLba + s + i), want[SECTOR_SIZE * i..SECTOR_SIZE * i + SECTOR_SIZE])
    ensures RunHolds(g, m', s, i + 1, want)
  {
    var at := SECTOR_SIZE * (g.baseLba + s + i);
    var patch := want[SECTOR_SIZE * i..SECTOR_SIZE * i + SECTOR_SIZE];
    var start := SECTOR_SIZE * (g.baseLba + s);
    SliceJoin(m', start, at, at + SECTOR_SIZE);
    SpliceOutside(m, at, patch, start, at);
    SpliceInside(m, at, patch);
    SliceJoin(want, 0, SECTOR_SIZE * i, SECTOR_SIZE * (i + 1));
  }

  lemma SpliceInside(m: seq<byte>, at: nat, patch: seq<byte>)
    requires at + |patch| <= |m|
    ensures Splice(m, at, patch)[at..at + |patch|] == patch
  {
  }

  /** Writing one sector of the root directory region leaves the FAT copies and the clusters alone. */
  lemma RootSectorFrame(g: Geometry, m: seq<byte>, m': seq<byte>, i: nat)
    requires Reachable(g) && IsMedium(m) && i < g.rootDirSectors
    requires SameOutside(m, m', SECTOR_SIZE * (g.baseLba + g.rootStart + i), SECTOR_SIZE * (g.baseLba + g.rootStart + i + 1))
    ensures Clusters(g, m') == Clusters(g, m) && SameFats(g, m, m') && SameReserved(g, m, m')
  {
    hide Products, ClusterSector, FatSector;
    SectorsFrame(g, m, m', 0, g.reservedSectors, g.rootStart + i, 1);
    ClustersFrame(g, m, m', g.rootStart + i, 1);
    forall k | 0 <= k < g.numFats ensures FatCopy(g, m', k) == FatCopy(g, m, k) {
      FatCopyInsideFats(g, k);
      SectorsFrame(g, m, m', FatSector(g, k), g.sectorsPerFat, g.rootStart + i, 1);
    }
  }

  /** Writing one sector of the k-th FAT copy leaves the other copies, the root and the clusters alone. */
  lemma FatSectorFrame(g: Geometry, m: seq<byte>, m': seq<byte>, k: nat, i: nat)
    requires Reachable(g) && IsMedium(m) && k < g.numFats && i < g.sectorsPerFat
    requires SameOutside(m, m', SECTOR_SIZE * (g.baseLba + FatSector(g, k) + i), SECTOR_SIZE * (g.baseLba + FatSector(g, k) + i + 1))
    ensures Clusters(g, m') == Clusters(g, m) && RootCopy(g, m') == RootCopy(g, m) && SameReserved(g, m, m')
    ensures forall l | 0 <= l < g.numFats && l != k :: FatCopy(g, m', l) == FatCopy(g, m, l)
  {
    hide Products, ClusterSector, FatSector;
    FatCopyInsideFats(g, k);
    var at := FatSector(g, k) + i;
    ClustersFrame(g, m, m', at, 1);
    SectorsFrame(g, m, m', g.rootStart, g.rootDirSectors, at, 1);
    SectorsFrame(g, m, m', 0, g.reservedSectors, at, 1);
    forall l | 0 <= l < g.numFats && l != k ensures FatCopy(g, m', l) == FatCopy(g, m, l) {
      FatCopyInsideFats(g, l);
      if l < k { FatCopiesDisjoint(g, l, k); } else { FatCopiesDisjoint(g, k, l); }
      SectorsFrame(g, m, m', FatSector(g, l), g.sectorsPerFat, at, 1);
    }
  }

  /** With its last sector written, one more copy holds the table. */
  lemma OneMoreCopy(g: Geometry, m: seq<byte>, k: nat, want: seq<byte>)
    requires FatsHold(g, m, k, want) && k < g.numFats && |want| == g.fatSize
    requires RunHolds(g, m, FatSector(g, k), g.sectorsPerFat, want)
    ensures FatsHold(g, m, k + 1, want)
  {
    FatCopyInsideFats(g, k);
    assert want[..SECTOR_SIZE * g.sectorsPerFat] == want;
  }

  lemma CopiesBefore(g: Geometry, m: seq<byte>, m': seq<byte>, k: nat, want: seq<byte>)
    requires FatsHold(g, m, k, want) && k < g.numFats && IsMedium(m')
    requires forall l | 0 <= l < g.numFats && l != k :: FatCopy(g, m', l) == FatCopy(g, m, l)
    ensures FatsHold(g, m', k, want)
  {
  }

  // ---------------------------------------------------------------- the boot sector

  /** With a reserved area, mounting this disk again computes the same layout. */
  ghost predicate Booted(g: Geometry, m: seq<byte>) {
    && Reachable(g) && IsMedium(m)
    && (g.reservedSectors > 0 ==> Accept(ParseBpb(SectorsOf(g, m, 0, 1)), g.baseLba) == Accepted(g))
  }

  lemma BootedFrame(g: Geometry, m: seq<byte>, m': seq<byte>)
    requires Booted(g, m) && SameReserved(g, m, m')
    ensures Booted(g, m')
  {
    hide Accept, ParseBpb;
    if g.reservedSectors > 0 {
      assert SectorsOf(g, m, 0, 1) == SectorsOf(g, m, 0, g.reservedSectors)[..SECTOR_SIZE];
      assert SectorsOf(g, m', 0, 1) == SectorsOf(g, m', 0, g.reservedSectors)[..SECTOR_SIZE];
    }
  }

  /** The volume that the boot sector at `baseLba` describes, if it is accepted, lies within reach of the driver. */
  ghost predicate VolumeInReach(m: seq<byte>, baseLba: nat) {
    && IsMedium(m) && baseLba < REACH
    && (var a := AcceptedAt(m, baseLba);
        a.Accepted? ==>
          && baseLba + a.geometry.totalSectors <= REACH
          && (a.geometry.numFats == 0 ==> baseLba + a.geometry.fatStart + a.geometry.sectorsPerFat <= REACH))
  }

  /** The sectors that fat12_init reads as the first and, with more than one copy, the second FAT. */
  lemma FatsInReach(g: Geometry)
    requires Reachable(g)
    ensures g.numFats > 0 ==> g.baseLba + g.fatStart + g.sectorsPerFat <= REACH
    ensures g.numFats > 1 ==> g.baseLba + g.fatStart + 2 * g.sectorsPerFat <= REACH
  {
    if g.numFats > 0 {
      FatCopyInsideFats(g, 0);
      if g.numFats > 1 { FatCopyInsideFats(g, 1); }
    }
  }

  /** What the boot sector at `baseLba` is accepted as. */
  ghost function AcceptedAt(m: seq<byte>, baseLba: nat): Acceptance
    requires IsMedium(m) && baseLba < REACH
  {
    Accept(ParseBpb(m[SECTOR_SIZE * baseLba..SECTOR_SIZE * (baseLba + 1)]), baseLba)
  }

  /** One more sector of a run has been read. */
  lemma LoadExtends(g: Geometry, m: seq<byte>, s: nat, i: nat, before: seq<byte>, after: seq<byte>)
    requires RunHolds(g, m, s, i, before) && g.baseLba + s + i + 1 <= REACH && SECTOR_SIZE * (i + 1) <= |after|
    requires SameOutside(before, after, SECTOR_SIZE * i, SECTOR_SIZE * i + SECTOR_SIZE)
    requires after[SECTOR_SIZE * i..SECTOR_SIZE * i + SECTOR_SIZE] == SectorsOf(g, m, s + i, 1)
    ensures RunHolds(g, m, s, i + 1, after)
  {
    SliceJoin(m, SECTOR_SIZE * (g.baseLba + s), SECTOR_SIZE * (g.baseLba + s + i), SECTOR_SIZE * (g.baseLba + s + i + 1));
    SliceJoin(after, 0, SECTOR_SIZE * i, SECTOR_SIZE * (i + 1));
    assert after[..SECTOR_SIZE * i] == before[..SECTOR_SIZE * i];
  }

  lemma FirstFatCopy(g: Geometry, m: seq<byte>)
    requires Reachable(g) && IsMedium(m) && g.numFats > 0
    ensures g.baseLba + g.fatStart + g.sectorsPerFat <= REACH
    ensures FatCopy(g, m, 0) == SectorsOf(g, m, g.fatStart, g.sectorsPerFat)
  {
    FatCopyInsideFats(g, 0);
    assert FatSector(g, 0) == g.fatStart;
  }

  /** Replacing the first bytes of a cluster on the disk. */
  lemma SplicedCluster(g: Geometry, m: seq<byte>, c: nat, data: seq<byte>)
    requires Reachable(g) && IsMedium(m) && InVolume(g, c) && |data| <= g.clusterSize
    ensures SECTOR_SIZE * (g.baseLba + ClusterSector(g, c)) + |data| <= |m|
    ensures |Clusters(g, m)[c]| == g.clusterSize
    ensures Clusters(g, Splice(m, SECTOR_SIZE * (g.baseLba + ClusterSector(g, c)), data))[c] == Splice(Clusters(g, m)[c], 0, data)
    ensures |data| == g.clusterSize ==> Splice(Clusters(g, m)[c], 0, data) == data
  {
    hide Products, ClusterSector;
    ClusterInsideVolume(g, c);
    var at := SECTOR_SIZE * (g.baseLba + ClusterSector(g, c));
    var m' := Splice(m, at, data);
    assert m'[at..at + g.clusterSize] == Splice(m[at..at + g.clusterSize], 0, data);
  }

  lemma NoCopies(g: Geometry, m: seq<byte>, want: seq<byte>)
    requires Reachable(g) && IsMedium(m)
    ensures FatsHold(g, m, 0, want)
  {
  }

  lemma SameReservedRefl(g: Geometry, m: seq<byte>)
    requires Reachable(g) && IsMedium(m)
    ensures SameReserved(g, m, m)
  {
  }

  lemma SameReservedJoin(g: Geometry, m: seq<byte>, m': seq<byte>, m'': seq<byte>)
    requires SameReserved(g, m, m') && SameReserved(g, m', m'')
    ensures SameReserved(g, m, m'')
  {
  }

  lemma EmptyRun(g: Geometry, m: seq<byte>, s: nat, want: seq<byte>)
    requires IsMedium(m) && g.baseLba + s <= REACH
    ensures RunHolds(g, m, s, 0, want)
  {
  }
}
