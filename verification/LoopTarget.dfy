/** What the loop target stores about its backing file, and what recovery checks. */
module LoopTarget {
  import opened Bits

  /** Leading zeros of `x` seen as a number of `width` bits. */
  function Clz(x: nat, width: nat): (n: nat)
    ensures n <= width
  {
    if width == 0 || x >= Pow2(width - 1) then 0 else 1 + Clz(x, width - 1)
  }

  /** `ilog2` of the program; zero has no defined result in C. */
  function Ilog2(x: nat): int { 31 - Clz(x, 32) }

  lemma {:induction false} ClzBounds(x: nat, width: nat)
    requires 0 < x < Pow2(width)
    ensures Clz(x, width) < width
    ensures Pow2(width - 1 - Clz(x, width)) <= x < Pow2(width - Clz(x, width))
  {
    if x >= Pow2(width - 1) {
    } else {
      ClzBounds(x, width - 1);
    }
  }

  /** `ilog2` is the floor of the binary logarithm, and the only number that is. */
  lemma Ilog2IsFloorLog(x: nat, k: nat)
    requires 0 < x < 0x1_0000_0000
    ensures Ilog2(x) >= 0
    ensures k == Ilog2(x) <==> Pow2(k) <= x < Pow2(k + 1)
  {
    assert Pow2(32) == 0x1_0000_0000 by { Pow2Values(); }
    ClzBounds(x, 32);
    Bracket(x, Ilog2(x), k);
  }

  lemma Bracket(x: nat, l: nat, k: nat)
    requires Pow2(l) <= x < Pow2(l + 1)
    ensures k == l <==> Pow2(k) <= x < Pow2(k + 1)
  {
    if k < l { Pow2Mono(k + 1, l); }
    if k > l { Pow2Mono(l + 1, k); }
  }

  /** What the program learns about the backing file. */
  datatype Backing =
    | BlockDevice(bytes: nat, logical: nat, physical: nat)
    | RegularFile(size: nat, blksize: nat)
    | OtherFile

  datatype Params = Params(logicalShift: int, physicalShift: int, devSectors: nat)

  function Bytes(f: Backing): nat {
    match f
    case BlockDevice(bytes, _, _) => bytes
    case RegularFile(size, _) => size
    case OtherFile => 0
  }

  /** Block sizes as `unsigned int`; a file that is neither kind keeps the defaults. */
  function LogicalSize(f: Backing): nat {
    match f
    case BlockDevice(_, logical, _) => logical
    case RegularFile(_, blksize) => blksize % 0x1_0000_0000
    case OtherFile => 512
  }

  function PhysicalSize(f: Backing): nat {
    match f
    case BlockDevice(_, _, physical) => physical
    case RegularFile(_, blksize) => blksize % 0x1_0000_0000
    case OtherFile => 4096
  }

  ghost predicate Sane(f: Backing) {
    && Bytes(f) < 0x1_0000_0000_0000_0000
    && 0 < LogicalSize(f) < 0x1_0000_0000 && 0 < PhysicalSize(f) < 0x1_0000_0000
  }

  /** `ublk_loop_tgt_init`; `direct` says whether O_DIRECT could be set. */
  function Create(f: Backing, direct: bool): Params {
    var (l, p) := match f
      case OtherFile => (9, 12)
      case _ => (Ilog2(LogicalSize(f)), Ilog2(PhysicalSize(f)));
    Params(if direct then l else 9, if direct then p else 12, Bytes(f) / 512)
  }

  /** The checks of `ublk_loop_tgt_recover`. */
  predicate Recovers(stored: Params, f: Backing, direct: bool) {
    && (direct ==> stored.logicalShift == Ilog2(LogicalSize(f)) && stored.physicalShift == Ilog2(PhysicalSize(f)))
    && stored.devSectors * 512 % 0x1_0000_0000_0000_0000 == Bytes(f)
  }

  lemma Defaults()
    ensures Ilog2(512) == 9 && Ilog2(4096) == 12
  {
    assert Pow2(9) == 512 && Pow2(12) == 4096;
    Ilog2IsFloorLog(512, 9);
    Ilog2IsFloorLog(4096, 12);
  }

  /** Recovery of an unchanged file is accepted exactly when its size is a multiple of 512. */
  lemma RecoveryAgreesIffWholeSectors(f: Backing, direct: bool)
    requires Sane(f)
    ensures Recovers(Create(f, direct), f, direct) <==> Bytes(f) % 512 == 0
  {
    Defaults();
    SectorsBack(Bytes(f));
  }

  /** Recovery with another file, or another outcome of O_DIRECT: the sizes must agree up to the
      lost part sector, and with O_DIRECT the new block sizes must lie in the stored brackets. */
  lemma RecoveryOfAnotherFile(f: Backing, direct: bool, f': Backing, direct': bool)
    requires Sane(f) && Sane(f')
    ensures var p := Create(f, direct);
      p.logicalShift >= 0 && p.physicalShift >= 0 &&
      (Recovers(p, f', direct') <==>
        && Bytes(f') == Bytes(f) - Bytes(f) % 512
        && (direct' ==>
              && Pow2(p.logicalShift) <= LogicalSize(f') < Pow2(p.logicalShift + 1)
              && Pow2(p.physicalShift) <= PhysicalSize(f') < Pow2(p.physicalShift + 1)))
  {
    ShiftsDefined(f, direct);
    var p := Create(f, direct);
    Ilog2IsFloorLog(LogicalSize(f'), p.logicalShift);
    Ilog2IsFloorLog(PhysicalSize(f'), p.physicalShift);
    SectorsBack(Bytes(f));
  }

  /** What is stored: with O_DIRECT the shifts whose powers bracket the block sizes of a block device, or
      the preferred size of a regular file for both; without, and for other files, those of 512 and 4096;
      and the whole sectors of the file. */
  lemma CreateStores(f: Backing, direct: bool)
    requires Sane(f)
    ensures var p := Create(f, direct);
      && p.logicalShift >= 0 && p.physicalShift >= 0
      && match f
         case BlockDevice(bytes, logical, physical) =>
           && (direct ==> Brackets(p.logicalShift, logical) && Brackets(p.physicalShift, physical))
           && p.devSectors == bytes / 512
         case RegularFile(size, blksize) =>
           && (direct && blksize < 0x1_0000_0000 ==>
                 Brackets(p.logicalShift, blksize) && Brackets(p.physicalShift, blksize))
           && p.devSectors == size / 512
         case OtherFile => p == Params(9, 12, 0)
    ensures !direct ==>
      var p := Create(f, direct); Pow2(p.logicalShift) == 512 && Pow2(p.physicalShift) == 4096
  {
    ShiftsDefined(f, direct);
    assert Pow2(9) == 512 && Pow2(12) == 4096;
    var p := Create(f, direct);
    if direct && !f.OtherFile? {
      Ilog2IsFloorLog(LogicalSize(f), p.logicalShift);
      Ilog2IsFloorLog(PhysicalSize(f), p.physicalShift);
    }
  }

  /** The block size lies from that power of two up to the next. */
  ghost predicate Brackets(shift: nat, size: nat) { Pow2(shift) <= size < Pow2(shift + 1) }

  /** Recovery, on what it learns about the file: with O_DIRECT the shifts stored must bracket the block
      sizes, 512 and 4096 for a file that is neither kind; the sectors stored must make up the size. */
  lemma RecoversIff(p: Params, f: Backing, direct: bool)
    requires Sane(f) && p.logicalShift >= 0 && p.physicalShift >= 0 && p.devSectors < 0x80_0000_0000_0000
    ensures Recovers(p, f, direct) <==>
      match f
      case BlockDevice(bytes, logical, physical) =>
        && (direct ==> Brackets(p.logicalShift, logical) && Brackets(p.physicalShift, physical))
        && p.devSectors * 512 == bytes
      case RegularFile(size, blksize) =>
        var b := blksize % 0x1_0000_0000;
        && (direct ==> Brackets(p.logicalShift, b) && Brackets(p.physicalShift, b))
        && p.devSectors * 512 == size
      case OtherFile => (direct ==> p.logicalShift == 9 && p.physicalShift == 12) && p.devSectors == 0
  {
    Defaults();
    assert p.logicalShift == Ilog2(LogicalSize(f)) <==> Brackets(p.logicalShift, LogicalSize(f)) by {
      Ilog2IsFloorLog(LogicalSize(f), p.logicalShift);
    }
    assert p.physicalShift == Ilog2(PhysicalSize(f)) <==> Brackets(p.physicalShift, PhysicalSize(f)) by {
      Ilog2IsFloorLog(PhysicalSize(f), p.physicalShift);
    }
    SectorBytes(p.devSectors);
  }

  lemma SectorBytes(sectors: nat)
    requires sectors < 0x80_0000_0000_0000
    ensures sectors * 512 % 0x1_0000_0000_0000_0000 == sectors * 512
  {
    ModUnique(sectors * 512, 0x1_0000_0000_0000_0000, 0, sectors * 512);
  }

  lemma ShiftsDefined(f: Backing, direct: bool)
    requires Sane(f)
    ensures Create(f, direct).logicalShift >= 0 && Create(f, direct).physicalShift >= 0
  {
    Ilog2IsFloorLog(LogicalSize(f), 0);
    Ilog2IsFloorLog(PhysicalSize(f), 0);
  }

  lemma SectorsBack(bytes: nat)
    requires bytes < 0x1_0000_0000_0000_0000
    ensures bytes / 512 * 512 % 0x1_0000_0000_0000_0000 == bytes - bytes % 512
  {
  }
}
