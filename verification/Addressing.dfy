/** Linear and structured flash addresses (flashsim/ssd_address.cpp) and the physical addresses handed out by the
    nested constructors (flashsim/ssd_ssd.cpp, ssd_package.cpp, ssd_die.cpp, ssd_plane.cpp). */
module Addressing {

  /** How many packages the device has, dies a package, planes a die, blocks a plane, pages a block. */
  datatype Geometry = Geometry(ssdSize: nat, packageSize: nat, dieSize: nat, planeSize: nat, blockSize: nat)
  {
    ghost predicate Ok() { ssdSize > 0 && packageSize > 0 && dieSize > 0 && planeSize > 0 && blockSize > 0 }

    /** Pages of a plane, a die, a package, and the device. */
    function Plane(): int { planeSize * blockSize }

    function Die(): int { dieSize * Plane() }

    function Package(): int { packageSize * Die() }

    function Device(): int { ssdSize * Package() }

    /** Blocks of a die and of a package. */
    function DieBlocks(): nat { dieSize * planeSize }

    function PackageBlocks(): nat { packageSize * DieBlocks() }
  }

  datatype Fields = Fields(package: int, die: int, plane: int, block: int, page: int)

  ghost predicate InRange(g: Geometry, f: Fields) {
    && 0 <= f.package < g.ssdSize && 0 <= f.die < g.packageSize && 0 <= f.plane < g.dieSize
    && 0 <= f.block < g.planeSize && 0 <= f.page < g.blockSize
  }

  /** set_linear_address: mixed-radix digits, the page first. */
  function Decompose(g: Geometry, a: nat): Fields
    requires g.Ok()
  {
    var b := a / g.blockSize;
    var p := b / g.planeSize;
    var d := p / g.dieSize;
    var k := d / g.packageSize;
    Fields(k % g.ssdSize, d % g.packageSize, p % g.dieSize, b % g.planeSize, a % g.blockSize)
  }

  /** The position of a block in the order of creation. */
  function BlockIndex(g: Geometry, f: Fields): int {
    ((f.package * g.packageSize + f.die) * g.dieSize + f.plane) * g.planeSize + f.block
  }

  /** The linear address of a structured one. */
  function Compose(g: Geometry, f: Fields): int {
    BlockIndex(g, f) * g.blockSize + f.page
  }

  // ---------- digits ----------

  lemma {:induction false} MulLe(a: int, b: int, m: nat)
    requires a <= b
    ensures a * m <= b * m
  {
    assert b * m - a * m == (b - a) * m;
  }

  /** Quotient and remainder are determined by their defining equation. */
  lemma {:induction false} DivModUnique(a: int, q: int, r: int, m: nat)
    requires m > 0 && a == q * m + r && 0 <= r < m
    ensures a / m == q && a % m == r
  {
    var q', r' := a / m, a % m;
    assert a == q' * m + r';
    if q' < q {
      MulLe(q' + 1, q, m);
    } else if q < q' {
      MulLe(q + 1, q', m);
    }
  }

  /** A number below n * m has a quotient below n. */
  lemma {:induction false} QuotientBelow(a: nat, n: nat, m: nat)
    requires m > 0 && a < n * m
    ensures 0 <= a / m < n && a == (a / m) * m + a % m
  {
    var q := a / m;
    if q >= n { MulLe(n, q, m); }
    if q < 0 {
      MulLe(q, -1, m);
    }
  }

  /** And digits in range give a number below the product. */
  lemma {:induction false} DigitsBelow(q: int, r: int, n: nat, m: nat)
    requires 0 <= q < n && 0 <= r < m
    ensures 0 <= q * m + r < n * m
  {
    MulLe(q + 1, n, m);
    assert (q + 1) * m == q * m + m;
    MulLe(0, q, m);
  }

  /** The device size as a product of the digits' ranges in the order they are split off. */
  lemma {:induction false} DeviceSize(g: Geometry)
    ensures g.Device() == (((g.ssdSize * g.packageSize) * g.dieSize) * g.planeSize) * g.blockSize
  {
    var s, k, d, p, b := g.ssdSize, g.packageSize, g.dieSize, g.planeSize, g.blockSize;
    Assoc(d, p, b);
    Assoc(k, d * p, b);
    Assoc(k, d, p);
    Assoc(s, k * d * p, b);
    Assoc(s, k * d, p);
    Assoc(s, k, d);
  }

  lemma {:induction false} Assoc(x: int, y: int, z: int)
    ensures x * (y * z) == (x * y) * z
  {
  }

  /** Decomposing an address of the device gives digits in range, and composing them gives it back. */
  lemma {:induction false} ComposeDecompose(g: Geometry, a: nat)
    requires g.Ok() && a < g.Device()
    ensures InRange(g, Decompose(g, a)) && Compose(g, Decompose(g, a)) == a
  {
    DeviceSize(g);
    var b := a / g.blockSize;
    QuotientBelow(a, ((g.ssdSize * g.packageSize) * g.dieSize) * g.planeSize, g.blockSize);
    var p := b / g.planeSize;
    QuotientBelow(b, (g.ssdSize * g.packageSize) * g.dieSize, g.planeSize);
    var d := p / g.dieSize;
    QuotientBelow(p, g.ssdSize * g.packageSize, g.dieSize);
    var k := d / g.packageSize;
    QuotientBelow(d, g.ssdSize, g.packageSize);
    DivModUnique(k, 0, k, g.ssdSize);
  }

  /** Every structured address in range is the decomposition of exactly its own linear address. */
  lemma {:induction false} DecomposeCompose(g: Geometry, f: Fields)
    requires g.Ok() && InRange(g, f)
    ensures 0 <= Compose(g, f) < g.Device() && Decompose(g, Compose(g, f)) == f
  {
    DeviceSize(g);
    var d := f.package * g.packageSize + f.die;
    DigitsBelow(f.package, f.die, g.ssdSize, g.packageSize);
    var p := d * g.dieSize + f.plane;
    DigitsBelow(d, f.plane, g.ssdSize * g.packageSize, g.dieSize);
    var b := p * g.planeSize + f.block;
    DigitsBelow(p, f.block, (g.ssdSize * g.packageSize) * g.dieSize, g.planeSize);
    var a := b * g.blockSize + f.page;
    DigitsBelow(b, f.page, ((g.ssdSize * g.packageSize) * g.dieSize) * g.planeSize, g.blockSize);
    DivModUnique(a, b, f.page, g.blockSize);
    DivModUnique(b, p, f.block, g.planeSize);
    DivModUnique(p, d, f.plane, g.dieSize);
    DivModUnique(d, f.package, f.die, g.packageSize);
    DivModUnique(f.package, 0, f.package, g.ssdSize);
  }

  // ---------- the constructors ----------

  const UINT := 0x1_0000_0000

  /** The offset of the i-th part: a product of unsigned 32-bit integers. */
  function Offset(size: int, i: int): (r: int)
    ensures 0 <= r < UINT && (size * i - r) % UINT == 0
  {
    (size * i) % UINT
  }

  /** The physical address of a block: each constructor adds the offset of its part to its own address. */
  function PhysicalAddress(g: Geometry, f: Fields): int {
    Offset(g.Package(), f.package) + Offset(g.Die(), f.die) + Offset(g.Plane(), f.plane) + Offset(g.blockSize, f.block)
  }

  /** At every address of the device the block found has the address of its first page, and dividing that by the
      block size gives the block's creation index. */
  ghost predicate Agrees(g: Geometry)
    requires g.Ok()
  {
    forall a: nat :: a < g.Device() ==> AgreesAt(g, a)
  }

  ghost predicate AgreesAt(g: Geometry, a: nat)
    requires g.Ok()
  {
    var f := Decompose(g, a);
    PhysicalAddress(g, f) == a - a % g.blockSize && PhysicalAddress(g, f) / g.blockSize == BlockIndex(g, f)
  }

  /** None of the offsets the constructors compute exceeds 32 bits. */
  predicate OffsetsFit(g: Geometry) {
    && g.Package() * (g.ssdSize - 1) < UINT && g.Die() * (g.packageSize - 1) < UINT
    && g.Plane() * (g.dieSize - 1) < UINT && g.blockSize * (g.planeSize - 1) < UINT
  }

  lemma {:induction false} SizesPositive(g: Geometry)
    requires g.Ok()
    ensures g.Plane() > 0 && g.Die() > 0 && g.Package() > 0
  {
    MulLe(1, g.planeSize, g.blockSize);
    MulLe(1, g.dieSize, g.Plane());
    MulLe(1, g.packageSize, g.Die());
  }

  lemma {:induction false} OffsetExact(size: nat, i: int, n: nat)
    requires 0 <= i < n && size * (n - 1) < UINT
    ensures Offset(size, i) == size * i
  {
    MulLe(i, n - 1, size);
    assert i * size == size * i && (n - 1) * size == size * (n - 1);
    MulLe(0, i, size);
  }

  /** The block index written out as offsets. */
  lemma {:induction false} IndexAsOffsets(g: Geometry, f: Fields)
    ensures BlockIndex(g, f) * g.blockSize
      == g.Package() * f.package + g.Die() * f.die + g.Plane() * f.plane + g.blockSize * f.block
  {
    var b, p, d, k := g.blockSize, g.planeSize, g.dieSize, g.packageSize;
    var x := f.package * k + f.die;
    var y := x * d + f.plane;
    assert (y * p + f.block) * b == y * (p * b) + b * f.block;
    assert y * (p * b) == x * (d * (p * b)) + (p * b) * f.plane;
    assert x * (d * (p * b)) == f.package * (k * (d * (p * b))) + (d * (p * b)) * f.die;
  }

  lemma {:induction false} FitMeansAgree(g: Geometry, a: nat)
    requires g.Ok() && OffsetsFit(g) && a < g.Device()
    ensures AgreesAt(g, a)
  {
    var f := Decompose(g, a);
    ComposeDecompose(g, a);
    SizesPositive(g);
    OffsetExact(g.Package(), f.package, g.ssdSize);
    OffsetExact(g.Die(), f.die, g.packageSize);
    OffsetExact(g.Plane(), f.plane, g.dieSize);
    OffsetExact(g.blockSize, f.block, g.planeSize);
    IndexAsOffsets(g, f);
    DivModUnique(BlockIndex(g, f) * g.blockSize, BlockIndex(g, f), 0, g.blockSize);
  }

  /** An offset too large is cut off: the first page of that part disagrees. */
  lemma {:induction false} OverflowDisagrees(g: Geometry, f: Fields, size: nat, i: nat)
    requires g.Ok() && InRange(g, f) && f.page == 0
    requires PhysicalAddress(g, f) == Offset(size, i) && Compose(g, f) == size * i >= UINT
    ensures !Agrees(g)
  {
    DecomposeCompose(g, f);
    var a: nat := Compose(g, f);
    DivModUnique(a, BlockIndex(g, f), 0, g.blockSize);
    assert !AgreesAt(g, a);
  }

  /** The physical addresses agree with the linear ones on the whole device exactly if no offset exceeds 32 bits. */
  lemma {:induction false} AgreeExactlyWhenFit(g: Geometry)
    requires g.Ok()
    ensures Agrees(g) <==> OffsetsFit(g)
  {
    SizesPositive(g);
    if OffsetsFit(g) {
      forall a: nat | a < g.Device() ensures AgreesAt(g, a) {
        FitMeansAgree(g, a);
      }
    } else if g.Package() * (g.ssdSize - 1) >= UINT {
      var f := Fields(g.ssdSize - 1, 0, 0, 0, 0);
      IndexAsOffsets(g, f);
      OverflowDisagrees(g, f, g.Package(), g.ssdSize - 1);
    } else if g.Die() * (g.packageSize - 1) >= UINT {
      var f := Fields(0, g.packageSize - 1, 0, 0, 0);
      IndexAsOffsets(g, f);
      OverflowDisagrees(g, f, g.Die(), g.packageSize - 1);
    } else if g.Plane() * (g.dieSize - 1) >= UINT {
      var f := Fields(0, 0, g.dieSize - 1, 0, 0);
      IndexAsOffsets(g, f);
      OverflowDisagrees(g, f, g.Plane(), g.dieSize - 1);
    } else {
      var f := Fields(0, 0, 0, g.planeSize - 1, 0);
      IndexAsOffsets(g, f);
      OverflowDisagrees(g, f, g.blockSize, g.planeSize - 1);
    }
  }

  lemma {:induction false} OffsetNone(size: int)
    ensures Offset(size, 0) == 0
  {
  }

  lemma {:induction false} FirstOfPackage(g: Geometry, k: int)
    ensures PhysicalAddress(g, Fields(k, 0, 0, 0, 0)) == Offset(g.Package(), k)
  {
    OffsetNone(g.Die());
    OffsetNone(g.Plane());
    OffsetNone(g.blockSize);
    hide Offset;
  }

  /** Two packages of 2^32 pages. */
  function TwoPackages(): Geometry { Geometry(2, 1, 1, 65536, 65536) }

  lemma {:induction false} TwoPackagesAre()
    ensures var g := TwoPackages();
      && g.Ok() && g.Package() == UINT < g.Device() && InRange(g, Fields(1, 0, 0, 0, 0)) && !OffsetsFit(g)
      && Compose(g, Fields(1, 0, 0, 0, 0)) == UINT
    ensures Offset(UINT, 1) == 0
  {
  }

  /** The first block of the second has the physical address of the first block of all. */
  lemma {:induction false} OverflowReached()
    ensures var g := TwoPackages();
      && g.Ok() && Decompose(g, UINT) == Fields(1, 0, 0, 0, 0)
      && PhysicalAddress(g, Fields(1, 0, 0, 0, 0)) == PhysicalAddress(g, Fields(0, 0, 0, 0, 0)) == 0
      && !Agrees(g)
  {
    var g := TwoPackages();
    TwoPackagesAre();
    hide *;
    FirstOfPackage(g, 0);
    FirstOfPackage(g, 1);
    OffsetNone(g.Package());
    DecomposeCompose(g, Fields(1, 0, 0, 0, 0));
    AgreeExactlyWhenFit(g);
  }

  // ---------- the blocks in the order of their creation ----------

  /** The address of the k-th block created within a plane, die or package at `base`, and on the device. */
  function PlaneAt(g: Geometry, base: int, k: int): int { base + Offset(g.blockSize, k) }

  function DieAt(g: Geometry, base: int, k: int): int
    requires g.Ok()
  {
    PlaneAt(g, base + Offset(g.Plane(), k / g.planeSize), k % g.planeSize)
  }

  function PackageAt(g: Geometry, base: int, k: int): int
    requires g.Ok()
  {
    CountsPositive(g);
    DieAt(g, base + Offset(g.Die(), k / g.DieBlocks()), k % g.DieBlocks())
  }

  function DeviceAt(g: Geometry, k: int): int
    requires g.Ok()
  {
    CountsPositive(g);
    PackageAt(g, Offset(g.Package(), k / g.PackageBlocks()), k % g.PackageBlocks())
  }

  lemma {:induction false} CountsPositive(g: Geometry)
    requires g.Ok()
    ensures g.DieBlocks() > 0 && g.PackageBlocks() > 0
  {
    MulLe(1, g.dieSize, g.planeSize);
    MulLe(1, g.packageSize, g.DieBlocks());
  }

  /** Element i * m + r of a list of chunks of m is element r of chunk i. */
  lemma {:induction false} ChunkIndex(i: nat, m: nat, k: int)
    requires m > 0 && i * m <= k < (i + 1) * m
    ensures k / m == i && k % m == k - i * m
  {
    assert (i + 1) * m == i * m + m;
    DivModUnique(k, i, k - i * m, m);
  }

  lemma {:induction false} NextChunk(i: nat, m: nat)
    ensures (i + 1) * m == i * m + m
  {
  }

  method BuildPlane(g: Geometry, base: int) returns (blocks: seq<int>)
    requires g.Ok()
    ensures |blocks| == g.planeSize && forall k :: 0 <= k < |blocks| ==> blocks[k] == PlaneAt(g, base, k)
  {
    blocks := [];
    var i := 0;
    while i < g.planeSize
      invariant i <= g.planeSize && |blocks| == i
      invariant forall k :: 0 <= k < |blocks| ==> blocks[k] == PlaneAt(g, base, k)
    {
      blocks := blocks + [base + Offset(g.blockSize, i)];
      i := i + 1;
    }
  }

  method BuildDie(g: Geometry, base: int) returns (blocks: seq<int>)
    requires g.Ok()
    ensures |blocks| == g.DieBlocks() && forall k :: 0 <= k < |blocks| ==> blocks[k] == DieAt(g, base, k)
  {
    hide Offset, PlaneAt;
    blocks := [];
    var i := 0;
    while i < g.dieSize
      invariant i <= g.dieSize && |blocks| == i * g.planeSize
      invariant forall k :: 0 <= k < |blocks| ==> blocks[k] == DieAt(g, base, k)
    {
      var plane := BuildPlane(g, base + Offset(g.Plane(), i));
      NextChunk(i, g.planeSize);
      forall k | |blocks| <= k < |blocks + plane| ensures (blocks + plane)[k] == DieAt(g, base, k) {
        ChunkIndex(i, g.planeSize, k);
      }
      blocks := blocks + plane;
      i := i + 1;
    }
  }

  method BuildPackage(g: Geometry, base: int) returns (blocks: seq<int>)
    requires g.Ok()
    ensures |blocks| == g.PackageBlocks() && forall k :: 0 <= k < |blocks| ==> blocks[k] == PackageAt(g, base, k)
  {
    hide Offset, DieAt;
    CountsPositive(g);
    blocks := [];
    var i := 0;
    while i < g.packageSize
      invariant i <= g.packageSize && |blocks| == i * g.DieBlocks()
      invariant forall k :: 0 <= k < |blocks| ==> blocks[k] == PackageAt(g, base, k)
    {
      var die := BuildDie(g, base + Offset(g.Die(), i));
      NextChunk(i, g.DieBlocks());
      forall k | |blocks| <= k < |blocks + die| ensures (blocks + die)[k] == PackageAt(g, base, k) {
        ChunkIndex(i, g.DieBlocks(), k);
      }
      blocks := blocks + die;
      i := i + 1;
    }
  }

  /** The nested constructors, listing every block as it enters the cost table. The position the table is updated at,
      the physical address divided by the block size, is the block's own exactly if no offset exceeds 32 bits. */
  method BuildDevice(g: Geometry) returns (blocks: seq<int>)
    requires g.Ok()
    ensures |blocks| == g.ssdSize * g.PackageBlocks()
    ensures forall f :: InRange(g, f) ==>
      0 <= BlockIndex(g, f) < |blocks| && blocks[BlockIndex(g, f)] == PhysicalAddress(g, f)
    ensures (forall k :: 0 <= k < |blocks| ==> blocks[k] / g.blockSize == k) <==> OffsetsFit(g)
  {
    hide Offset, PackageAt;
    CountsPositive(g);
    blocks := [];
    var i := 0;
    while i < g.ssdSize
      invariant i <= g.ssdSize && |blocks| == i * g.PackageBlocks()
      invariant forall k :: 0 <= k < |blocks| ==> blocks[k] == DeviceAt(g, k)
    {
      var package := BuildPackage(g, Offset(g.Package(), i));
      NextChunk(i, g.PackageBlocks());
      forall k | |blocks| <= k < |blocks + package| ensures (blocks + package)[k] == DeviceAt(g, k) {
        ChunkIndex(i, g.PackageBlocks(), k);
      }
      blocks := blocks + package;
      i := i + 1;
    }
    hide DeviceAt, InRange, BlockIndex, PhysicalAddress, OffsetsFit;
    forall f | InRange(g, f)
      ensures 0 <= BlockIndex(g, f) < |blocks| && blocks[BlockIndex(g, f)] == PhysicalAddress(g, f)
    {
      CreatedAt(g, f);
    }
    OwnPosition(g, blocks);
  }

  lemma {:induction false} IndexAsCounts(g: Geometry, f: Fields)
    ensures BlockIndex(g, f)
      == f.package * g.PackageBlocks() + (f.die * g.DieBlocks() + (f.plane * g.planeSize + f.block))
  {
    var p, d, k := g.planeSize, g.dieSize, g.packageSize;
    assert (f.package * k + f.die) * (d * p) == f.package * (k * (d * p)) + f.die * (d * p);
    assert ((f.package * k + f.die) * d + f.plane) * p == (f.package * k + f.die) * (d * p) + f.plane * p by {
      Assoc(f.package * k + f.die, d, p);
    }
  }

  /** The block at structured address f is created BlockIndex(f)-th, with the physical address the constructors give. */
  lemma {:induction false} CreatedAt(g: Geometry, f: Fields)
    requires g.Ok() && InRange(g, f)
    ensures 0 <= BlockIndex(g, f) < g.ssdSize * g.PackageBlocks()
    ensures DeviceAt(g, BlockIndex(g, f)) == PhysicalAddress(g, f)
  {
    IndexAsCounts(g, f);
    CountsPositive(g);
    var z := f.plane * g.planeSize + f.block;
    DigitsBelow(f.plane, f.block, g.dieSize, g.planeSize);
    var y := f.die * g.DieBlocks() + z;
    DigitsBelow(f.die, z, g.packageSize, g.DieBlocks());
    DigitsBelow(f.package, y, g.ssdSize, g.PackageBlocks());
    hide Offset;
    DivModUnique(BlockIndex(g, f), f.package, y, g.PackageBlocks());
    DivModUnique(y, f.die, z, g.DieBlocks());
    DivModUnique(z, f.plane, f.block, g.planeSize);
  }

  /** Every position of the cost table is the creation index of some block. */
  lemma {:induction false} EveryPosition(g: Geometry, k: int) returns (f: Fields)
    requires g.Ok() && 0 <= k < g.ssdSize * g.PackageBlocks()
    ensures InRange(g, f) && BlockIndex(g, f) == k && f.page == 0
  {
    CountsPositive(g);
    QuotientBelow(k, g.ssdSize, g.PackageBlocks());
    var y := k % g.PackageBlocks();
    QuotientBelow(y, g.packageSize, g.DieBlocks());
    var z := y % g.DieBlocks();
    QuotientBelow(z, g.dieSize, g.planeSize);
    f := Fields(k / g.PackageBlocks(), y / g.DieBlocks(), z / g.planeSize, z % g.planeSize, 0);
    IndexAsCounts(g, f);
  }

  lemma {:induction false} OffsetAtMost(size: nat, i: nat)
    ensures 0 <= Offset(size, i) <= size * i
  {
    MulLe(0, i, size);
    assert size * i == i * size;
  }

  /** Cutting offsets off can only lower an address. */
  lemma {:induction false} AtMostExact(g: Geometry, f: Fields)
    requires g.Ok() && InRange(g, f)
    ensures 0 <= PhysicalAddress(g, f) <= BlockIndex(g, f) * g.blockSize
  {
    SizesPositive(g);
    IndexAsOffsets(g, f);
    OffsetAtMost(g.Package(), f.package);
    OffsetAtMost(g.Die(), f.die);
    OffsetAtMost(g.Plane(), f.plane);
    OffsetAtMost(g.blockSize, f.block);
  }

  lemma {:induction false} OwnPosition(g: Geometry, blocks: seq<int>)
    requires g.Ok() && |blocks| == g.ssdSize * g.PackageBlocks()
    requires forall k :: 0 <= k < |blocks| ==> blocks[k] == DeviceAt(g, k)
    ensures (forall k :: 0 <= k < |blocks| ==> blocks[k] / g.blockSize == k) <==> OffsetsFit(g)
  {
    hide DeviceAt, InRange, BlockIndex, PhysicalAddress, OffsetsFit, Decompose, Compose;
    AgreeExactlyWhenFit(g);
    if OffsetsFit(g) {
      forall k | 0 <= k < |blocks| ensures blocks[k] / g.blockSize == k {
        var f := EveryPosition(g, k);
        CreatedAt(g, f);
        PositionAgrees(g, f);
      }
    }
    if forall k :: 0 <= k < |blocks| ==> blocks[k] / g.blockSize == k {
      forall a: nat | a < g.Device() ensures AgreesAt(g, a) {
        ComposeDecompose(g, a);
        var f := Decompose(g, a);
        CreatedAt(g, f);
        assert blocks[BlockIndex(g, f)] / g.blockSize == BlockIndex(g, f);
        AtMostExact(g, f);
        QuotientExact(g, a, f);
      }
    }
  }

  lemma {:induction false} PositionAgrees(g: Geometry, f: Fields)
    requires g.Ok() && InRange(g, f) && Agrees(g)
    ensures PhysicalAddress(g, f) / g.blockSize == BlockIndex(g, f)
  {
    DecomposeCompose(g, f);
    var a: nat := Compose(g, f);
    assert AgreesAt(g, a);
  }

  lemma {:induction false} ExactMultiple(x: int, q: int, m: nat)
    requires m > 0 && x / m == q && x <= q * m
    ensures x == q * m
  {
  }

  lemma {:induction false} QuotientExact(g: Geometry, a: nat, f: Fields)
    requires g.Ok() && a < g.Device() && f == Decompose(g, a)
    requires PhysicalAddress(g, f) / g.blockSize == BlockIndex(g, f)
    requires 0 <= PhysicalAddress(g, f) <= BlockIndex(g, f) * g.blockSize
    ensures AgreesAt(g, a)
  {
    ComposeDecompose(g, a);
    hide PhysicalAddress, BlockIndex, Decompose;
    ExactMultiple(PhysicalAddress(g, f), BlockIndex(g, f), g.blockSize);
  }

  // ---------- how far an address is valid ----------

  /** NONE, PACKAGE, DIE, PLANE, BLOCK, PAGE: how many fields of an address count. */
  type Level = n: nat | n <= 5

  /** The two addresses have the first `level` fields in common. */
  ghost predicate Shared(f: Fields, h: Fields, level: Level) {
    && (level >= 1 ==> f.package == h.package) && (level >= 2 ==> f.die == h.die)
    && (level >= 3 ==> f.plane == h.plane) && (level >= 4 ==> f.block == h.block)
    && (level >= 5 ==> f.page == h.page)
  }

  /** The first `level` fields are below the sizes of their parts. */
  ghost predicate Fitting(g: Geometry, f: Fields, level: Level) {
    && (level >= 1 ==> f.package < g.ssdSize) && (level >= 2 ==> f.die < g.packageSize)
    && (level >= 3 ==> f.plane < g.dieSize) && (level >= 4 ==> f.block < g.planeSize)
    && (level >= 5 ==> f.page < g.blockSize)
  }

  /** The number of the package, die, plane, block or page that holds page a. */
  function Part(g: Geometry, a: nat, level: Level): int
    requires g.Ok() && level > 0
  {
    if level == 5 then a
    else if level == 4 then a / g.blockSize
    else if level == 3 then a / g.blockSize / g.planeSize
    else if level == 2 then a / g.blockSize / g.planeSize / g.dieSize
    else a / g.blockSize / g.planeSize / g.dieSize / g.packageSize
  }

  lemma {:induction false} SameQuotient(a: int, b: int, m: nat)
    requires m > 0
    ensures a == b <==> a / m == b / m && a % m == b % m
  {
  }

  /** Two pages of the device share their first fields exactly if the same part of that level holds both. */
  lemma {:induction false} SharedMeansSamePart(g: Geometry, a: nat, b: nat, level: Level)
    requires g.Ok() && a < g.Device() && b < g.Device() && level > 0
    ensures Shared(Decompose(g, a), Decompose(g, b), level) <==> Part(g, a, level) == Part(g, b, level)
  {
    SameQuotient(Part(g, a, 5), Part(g, b, 5), g.blockSize);
    SameQuotient(Part(g, a, 4), Part(g, b, 4), g.planeSize);
    SameQuotient(Part(g, a, 3), Part(g, b, 3), g.dieSize);
    SameQuotient(Part(g, a, 2), Part(g, b, 2), g.packageSize);
    PackageDigit(g, a);
    PackageDigit(g, b);
  }

  /** On the device the package field is the number of the package. */
  lemma {:induction false} PackageDigit(g: Geometry, a: nat)
    requires g.Ok() && a < g.Device()
    ensures Decompose(g, a).package == Part(g, a, 1)
  {
    DeviceSize(g);
    QuotientBelow(a, ((g.ssdSize * g.packageSize) * g.dieSize) * g.planeSize, g.blockSize);
    QuotientBelow(a / g.blockSize, (g.ssdSize * g.packageSize) * g.dieSize, g.planeSize);
    QuotientBelow(a / g.blockSize / g.planeSize, g.ssdSize * g.packageSize, g.dieSize);
    QuotientBelow(a / g.blockSize / g.planeSize / g.dieSize, g.ssdSize, g.packageSize);
    DivModUnique(Part(g, a, 1), 0, Part(g, a, 1), g.ssdSize);
  }

  /** The fields of a linear address are in range, even beyond the end of the device. */
  lemma {:induction false} DigitsFit(g: Geometry, a: nat)
    requires g.Ok()
    ensures InRange(g, Decompose(g, a)) && Fitting(g, Decompose(g, a), 5)
  {
  }

  /** Beyond the end of the device the addresses start over. */
  lemma {:induction false} StartsOver(g: Geometry, a: nat)
    requires g.Ok()
    ensures g.Device() > 0 && Decompose(g, a) == Decompose(g, a % g.Device())
  {
    DeviceSize(g);
    SizesPositive(g);
    MulLe(1, g.ssdSize, g.Package());
    var r := a % g.Device();
    var n2 := g.ssdSize * g.packageSize;
    var n3 := n2 * g.dieSize;
    var n4 := n3 * g.planeSize;
    var q := a / g.Device();
    SplitOff(q, r, a, n4, g.blockSize);
    SplitOff(q, r / g.blockSize, a / g.blockSize, n3, g.planeSize);
    SplitOff(q, r / g.blockSize / g.planeSize, a / g.blockSize / g.planeSize, n2, g.dieSize);
    SplitOff(q, r / g.blockSize / g.planeSize / g.dieSize, a / g.blockSize / g.planeSize / g.dieSize, g.ssdSize,
             g.packageSize);
    SplitOff(q, r / g.blockSize / g.planeSize / g.dieSize / g.packageSize,
             a / g.blockSize / g.planeSize / g.dieSize / g.packageSize, 1, g.ssdSize);
  }

  /** Adding q times n * m leaves the digit below m and adds q times n to the rest. */
  lemma {:induction false} SplitOff(q: int, r: int, a: int, n: int, m: nat)
    requires m > 0 && a == q * (n * m) + r
    ensures a % m == r % m && a / m == q * n + r / m
  {
    Assoc(q, n, m);
    assert (q * n + r / m) * m == (q * n) * m + (r / m) * m;
    DivModUnique(a, q * n + r / m, r % m, m);
  }

  // ---------- the width of a linear address ----------

  const ULONG := 0x1_0000_0000_0000_0000

  /** A linear address moved by i, in 64 bits. */
  function Sum(a: nat, i: int): nat { (a + i) % ULONG }

  /** Within 64 bits the sum is exact, and a step back undoes a step in any case. */
  lemma {:induction false} StepsUndo(a: nat, i: int)
    requires a < ULONG && -0x8000_0000 <= i < UINT
    ensures 0 <= a + i < ULONG ==> Sum(a, i) == a + i
    ensures 0 <= Sum(a, i) < ULONG && (Sum(a, i) - (a + i)) % ULONG == 0
    ensures Sum(Sum(a, i), -i) == a
  {
  }

  /** Every address of the device survives being passed in 32 bits exactly if the device has at most 2^32 pages. */
  lemma {:induction false} NarrowedExactly(g: Geometry)
    requires g.Ok()
    ensures (forall a: nat :: a < g.Device() ==> a % UINT == a) <==> g.Device() <= UINT
  {
    if g.Device() > UINT { assert UINT % UINT != UINT; }
  }

  /** An address object: the linear address and its fields, changed together. */
  class FlashAddress {
    const geometry: Geometry
    var package: int
    var die: int
    var plane: int
    var block: int
    var page: int
    var valid: Level
    var realAddress: nat

    ghost function Structured(): Fields
      reads this
    {
      Fields(package, die, plane, block, page)
    }

    /** The fields name the same page as the linear address, for addresses on the device. */
    ghost predicate Valid()
      reads this
    {
      && geometry.Ok() && realAddress < ULONG && Structured() == Decompose(geometry, realAddress)
      && (realAddress < geometry.Device() ==>
            InRange(geometry, Structured()) && Compose(geometry, Structured()) == realAddress)
    }

    ghost predicate OnDevice()
      reads this
    {
      Valid() && realAddress < geometry.Device()
    }

    /** From a linear address, which is passed as an unsigned 32-bit integer. */
    constructor (g: Geometry, address: nat, level: Level)
      requires g.Ok()
      ensures Valid() && geometry == g && realAddress == address % UINT && valid == level
    {
      geometry, valid := g, level;
      new;
      SetLinearAddress(address % UINT);
    }

    /** From the fields; the linear address is left as it was found. */
    constructor FromFields(g: Geometry, f: Fields, level: Level, found: nat)
      requires g.Ok()
      ensures Structured() == f && geometry == g && realAddress == found && valid == level
    {
      geometry, valid, realAddress := g, level, found;
      package, die, plane, block, page := f.package, f.die, f.plane, f.block, f.page;
    }

    method SetLinearAddress(address0: nat)
      requires geometry.Ok() && address0 < ULONG
      modifies this
      ensures Valid() && realAddress == address0 && valid == old(valid)
    {
      var address := address0;
      realAddress := address;
      page := address % geometry.blockSize;
      address := address / geometry.blockSize;
      block := address % geometry.planeSize;
      address := address / geometry.planeSize;
      plane := address % geometry.dieSize;
      address := address / geometry.dieSize;
      die := address % geometry.packageSize;
      address := address / geometry.packageSize;
      package := address % geometry.ssdSize;
      if realAddress < geometry.Device() { ComposeDecompose(geometry, realAddress); }
    }

    method SetLinearAddressTo(address: nat, level: Level)
      requires geometry.Ok() && address < ULONG
      modifies this
      ensures Valid() && realAddress == address && valid == level
    {
      SetLinearAddress(address);
      valid := level;
    }

    /** Adds a signed or unsigned 32-bit integer; the sum is taken in 64 bits. */
    method Advance(i: int)
      requires Valid() && -0x8000_0000 <= i < UINT
      modifies this
      ensures Valid() && realAddress == Sum(old(realAddress), i) && valid == old(valid)
    {
      SetLinearAddress((realAddress + i) % ULONG);
    }

    /** Lowers the level to the leading fields that are in range. */
    method CheckValid() returns (level: Level)
      requires geometry.Ok()
      modifies this`valid
      ensures valid == level
      ensures forall l: Level :: l <= level <==> l <= old(valid) && Fitting(geometry, Structured(), l)
      ensures Valid() ==> valid == old(valid)
    {
      var tmp: Level := 0;
      if valid >= 1 && package < geometry.ssdSize {
        tmp := 1;
        if valid >= 2 && die < geometry.packageSize {
          tmp := 2;
          if valid >= 3 && plane < geometry.dieSize {
            tmp := 3;
            if valid >= 4 && block < geometry.planeSize {
              tmp := 4;
              if valid >= 5 && page < geometry.blockSize {
                tmp := 5;
              }
            }
          }
        }
      }
      if Valid() { DigitsFit(geometry, realAddress); }
      valid := tmp;
      level := valid;
    }

    /** To what level two addresses match: as many leading fields as they share, as far as both are valid; on the
        device that is the level of the smallest part both are in. */
    method Compare(address: FlashAddress) returns (match0: Level)
      ensures forall l: Level ::
        l <= match0 <==> l <= valid && l <= address.valid && Shared(Structured(), address.Structured(), l)
      ensures OnDevice() && address.OnDevice() && address.geometry == geometry ==>
        forall l: Level :: l > 0 ==>
          (match0 >= l <==>
           valid >= l && address.valid >= l
           && Part(geometry, realAddress, l) == Part(geometry, address.realAddress, l))
    {
      match0 := 0;
      if package == address.package && valid >= 1 && address.valid >= 1 {
        match0 := 1;
        if die == address.die && valid >= 2 && address.valid >= 2 {
          match0 := 2;
          if plane == address.plane && valid >= 3 && address.valid >= 3 {
            match0 := 3;
            if block == address.block && valid >= 4 && address.valid >= 4 {
              match0 := 4;
              if page == address.page && valid >= 5 && address.valid >= 5 {
                match0 := 5;
              }
            }
          }
        }
      }
      assert forall l: Level ::
          l <= match0 <==> l <= valid && l <= address.valid && Shared(Structured(), address.Structured(), l);
      if OnDevice() && address.OnDevice() && address.geometry == geometry {
        hide Shared, Part, Decompose, Compose;
        forall l: Level | l > 0
          ensures Shared(Structured(), address.Structured(), l)
            <==> Part(geometry, realAddress, l) == Part(geometry, address.realAddress, l)
        {
          SharedMeansSamePart(geometry, realAddress, address.realAddress, l);
        }
      }
    }
  }
}
