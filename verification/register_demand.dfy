/**
 * The register-demand arithmetic of the ACO live-variable pass: how many
 * SGPRs and VGPRs a wave really allocates, how many registers stay
 * addressable at a given occupancy, how many waves a workgroup needs, and
 * how the program's wave count and maximum demand follow from its demand.
 */
module RegisterDemand {
  import opened Wrappers
  import opened Arith

  /** GPU generations, oldest first. */
  datatype ChipClass = GFX6 | GFX7 | GFX8 | GFX9 | GFX10 | GFX10_3

  function Rank(c: ChipClass): nat
  {
    match c
    case GFX6 => 6
    case GFX7 => 7
    case GFX8 => 8
    case GFX9 => 9
    case GFX10 => 10
    case GFX10_3 => 11
  }

  /** `chip_class >= other`. */
  predicate AtLeast(c: ChipClass, other: ChipClass)
  {
    Rank(c) >= Rank(other)
  }

  /** Only the compute stage has a workgroup size of its own. */
  datatype Stage = ComputeShader | OtherStage

  /** A count of VGPRs and SGPRs. */
  datatype Demand = Demand(vgpr: nat, sgpr: nat)

  /** The fields of `Program` this arithmetic reads and writes. */
  datatype Program = Program(
    chipClass: ChipClass,
    stage: Stage,
    waveSize: nat,
    blockSize: (nat, nat, nat),   // `info->cs.block_size`
    needsFlatScr: bool,
    needsXnackMask: bool,
    needsVcc: bool,
    sgprLimit: nat,
    vgprLimit: nat,
    sgprAllocGranule: nat,        // granule minus one
    vgprAllocGranule: nat,        // granule minus one
    physicalSgprs: nat,
    ldsLimit: nat,
    ldsAllocGranule: nat,
    ldsSize: nat,                 // `config->lds_size`, in granules
    numWaves: nat,
    maxWaves: nat,
    minWaves: nat,
    maxRegDemand: Demand)

  /** Every SIMD has 256 VGPRs per lane. */
  const PhysicalVgprs: nat := 256
  const MaxWavesPerSimd: nat := 10
  const SimdPerCu: nat := 4

  /** A granule field holds a power of two minus one that fits a `uint16_t`. */
  predicate ValidGranule(m: nat)
  {
    IsPowerOfTwo(m + 1) && m + 1 < U16Modulus
  }

  /** The assertions get_extra_sgprs makes about the special registers a chip can need. */
  predicate SpecialRegsConsistent(p: Program)
  {
    && (AtLeast(p.chipClass, GFX10) ==> !p.needsFlatScr && !p.needsXnackMask)
    && (!AtLeast(p.chipClass, GFX8) ==> !p.needsXnackMask)
  }

  /** The special SGPR pairs that can sit after the addressable SGPRs. */
  datatype SpecialSgprs = Vcc | XnackMask | FlatScratch

  /**
   * The special pairs of a chip in the order they follow the addressable
   * SGPRs: reserving one pair reserves every pair before it.
   */
  function ReservedOrder(c: ChipClass): seq<SpecialSgprs>
  {
    if AtLeast(c, GFX10) then [Vcc]
    else if AtLeast(c, GFX8) then [Vcc, XnackMask, FlatScratch]
    else [Vcc, FlatScratch]
  }

  /** Whether the program needs a special pair; VCC is always reserved from GFX10 on. */
  predicate Needs(p: Program, s: SpecialSgprs)
  {
    match s
    case Vcc => p.needsVcc || AtLeast(p.chipClass, GFX10)
    case XnackMask => p.needsXnackMask
    case FlatScratch => p.needsFlatScr
  }

  /** Length of the shortest prefix of `order` holding every pair the program needs. */
  function ReservedCount(p: Program, order: seq<SpecialSgprs>): (k: nat)
    ensures k <= |order|
    decreases |order|
  {
    if |order| == 0 then 0
    else if Needs(p, order[|order| - 1]) then |order|
    else ReservedCount(p, order[..|order| - 1])
  }

  /**
   * The reserved prefix holds every needed pair, and its last pair is
   * needed, so no shorter prefix would do.
   */
  lemma {:induction false} ReservedPrefixIsShortest(p: Program, order: seq<SpecialSgprs>)
    ensures forall i :: 0 <= i < |order| && Needs(p, order[i]) ==> i < ReservedCount(p, order)
    ensures ReservedCount(p, order) > 0 ==> Needs(p, order[ReservedCount(p, order) - 1])
    decreases |order|
  {
    if |order| > 0 && !Needs(p, order[|order| - 1]) {
      var front := order[..|order| - 1];
      ReservedPrefixIsShortest(p, front);
      forall i | 0 <= i < |order| && Needs(p, order[i])
        ensures i < ReservedCount(p, order)
      {
        assert i < |front| && front[i] == order[i];
      }
    }
  }

  /**
   * get_extra_sgprs: two SGPRs for every special pair in the reserved
   * prefix of the chip's layout.
   */
  function ExtraSgprs(p: Program): (r: nat)
    requires SpecialRegsConsistent(p)
    ensures r in {0, 2, 4, 6}
    ensures r == 2 * ReservedCount(p, ReservedOrder(p.chipClass))
  {
    assert [Vcc, XnackMask, FlatScratch][..2] == [Vcc, XnackMask];
    assert [Vcc, XnackMask][..1] == [Vcc];
    assert [Vcc, FlatScratch][..1] == [Vcc];
    assert [Vcc][..0] == [];
    if AtLeast(p.chipClass, GFX10) then 2
    else if AtLeast(p.chipClass, GFX8) then
      if p.needsFlatScr then 6
      else if p.needsXnackMask then 4
      else if p.needsVcc then 2
      else 0
    else
      if p.needsFlatScr then 4
      else if p.needsVcc then 2
      else 0
  }

  /** The fields the allocation arithmetic relies on: valid granules, consistent special registers. */
  predicate Configured(p: Program)
  {
    && ValidGranule(p.sgprAllocGranule) && ValidGranule(p.vgprAllocGranule)
    && SpecialRegsConsistent(p)
    && p.physicalSgprs < U16Modulus
  }

  /** No 16-bit overflow can occur in the allocation arithmetic for counts up to the limits. */
  predicate NoOverflow(p: Program)
  {
    && p.sgprLimit + 6 + p.sgprAllocGranule + 1 <= U16Modulus
    && p.vgprLimit + p.vgprAllocGranule + 1 <= U16Modulus
  }

  function SgprGranule(p: Program): nat { p.sgprAllocGranule + 1 }
  function VgprGranule(p: Program): nat { p.vgprAllocGranule + 1 }

  /**
   * The shared shape of get_sgpr_alloc and get_vgpr_alloc: `count`
   * rounded up to a multiple of the granule (field plus one), and at least
   * one granule, all in `uint16_t`. Without overflow it is the least such
   * multiple.
   */
  function Alloc(count: nat, granuleField: nat): (r: nat)
    requires ValidGranule(granuleField)
    ensures r < U16Modulus
    ensures count + granuleField + 1 <= U16Modulus ==>
              && r % (granuleField + 1) == 0
              && r >= granuleField + 1 && r >= count
              && r < Max(count, granuleField + 1) + granuleField + 1
  {
    var granule := U16(granuleField + 1);
    var aligned := Align(Max(U16(count), granule), granule);
    AllocFits(count, granuleField);
    U16(aligned)
  }

  lemma AllocFits(count: nat, granuleField: nat)
    requires ValidGranule(granuleField)
    ensures count + granuleField + 1 <= U16Modulus ==>
              var g := granuleField + 1;
              U16(g) == g && U16(count) == count && Align(Max(count, g), g) < U16Modulus
  {
    var g := granuleField + 1;
    if count + g <= U16Modulus {
      PowerOfTwoIsPositive(g);
      if count < g {
        ProductIsMultiple(1, g);
        AlignIsLeast(g, g, g);
      }
    }
  }

  /**
   * get_sgpr_alloc: the SGPRs a wave really allocates for `n` addressable
   * ones. Without 16-bit overflow it is the least multiple of the granule
   * that covers the addressable and the special SGPRs and is at least one
   * granule.
   */
  function SgprAlloc(p: Program, n: nat): (r: nat)
    requires Configured(p) && n <= p.sgprLimit
    ensures r < U16Modulus
    ensures n + ExtraSgprs(p) + SgprGranule(p) <= U16Modulus ==>
              && r % SgprGranule(p) == 0
              && r >= SgprGranule(p) && r >= n + ExtraSgprs(p)
              && r < Max(n + ExtraSgprs(p), SgprGranule(p)) + SgprGranule(p)
  {
    Alloc(n + ExtraSgprs(p), p.sgprAllocGranule)
  }

  /**
   * get_vgpr_alloc: the least multiple of the VGPR granule that is at
   * least `n` and at least one granule (without 16-bit overflow).
   */
  function VgprAlloc(p: Program, n: nat): (r: nat)
    requires Configured(p) && n <= p.vgprLimit
    ensures r < U16Modulus
    ensures n + VgprGranule(p) <= U16Modulus ==>
              && r % VgprGranule(p) == 0
              && r >= VgprGranule(p) && r >= n
              && r < Max(n, VgprGranule(p)) + VgprGranule(p)
  {
    Alloc(n, p.vgprAllocGranule)
  }

  /** The allocation is the least qualifying multiple: any multiple of the granule that covers the demand is at least it. */
  lemma SgprAllocIsLeast(p: Program, n: nat, m: nat)
    requires Configured(p) && n <= p.sgprLimit && NoOverflow(p)
    requires m % SgprGranule(p) == 0 && m >= n + ExtraSgprs(p) && m >= SgprGranule(p)
    ensures SgprAlloc(p, n) <= m
  {
    AlignIsLeast(Max(n + ExtraSgprs(p), SgprGranule(p)), SgprGranule(p), m);
  }

  lemma VgprAllocIsLeast(p: Program, n: nat, m: nat)
    requires Configured(p) && n <= p.vgprLimit && NoOverflow(p)
    requires m % VgprGranule(p) == 0 && m >= n && m >= VgprGranule(p)
    ensures VgprAlloc(p, n) <= m
  {
    AlignIsLeast(Max(n, VgprGranule(p)), VgprGranule(p), m);
  }

  /**
   * get_addr_sgpr_from_waves: the addressable SGPRs left per wave when
   * `waves` waves share the physical SGPRs; never above the limit.
   */
  function AddrSgprFromWaves(p: Program, waves: nat): (r: nat)
    requires Configured(p) && waves > 0
    ensures r <= p.sgprLimit
  {
    var sgprs := U16(AlignDown(p.physicalSgprs / waves, SgprGranule(p)));
    var left := U16(sgprs - ExtraSgprs(p));
    Min(left, p.sgprLimit)
  }

  /** get_addr_vgpr_from_waves: the VGPRs left per wave at `waves` waves; never above the limit. */
  function AddrVgprFromWaves(p: Program, waves: nat): (r: nat)
    requires Configured(p) && waves > 0
    ensures r <= p.vgprLimit
  {
    var vgprs := U16(AlignDown(PhysicalVgprs / waves, VgprGranule(p)));
    Min(vgprs, p.vgprLimit)
  }

  /**
   * The SGPR half of the occupancy calculation inverts the allocation:
   * `n` addressable SGPRs stay within what `waves` waves leave exactly when
   * `waves` allocations of `n` fit the physical SGPRs.
   */
  lemma AddrSgprIsLargestFit(p: Program, waves: nat, n: nat)
    requires Configured(p) && NoOverflow(p) && waves > 0 && n <= p.sgprLimit
    requires AlignDown(p.physicalSgprs / waves, SgprGranule(p)) >= Max(SgprGranule(p), ExtraSgprs(p))
    ensures n <= AddrSgprFromWaves(p, waves) <==> SgprAlloc(p, n) * waves <= p.physicalSgprs
  {
    var top := AlignDown(p.physicalSgprs / waves, SgprGranule(p));
    QuotientAtMost(p.physicalSgprs, waves);
    assert AddrSgprFromWaves(p, waves) == Min(top - ExtraSgprs(p), p.sgprLimit);
    if n <= AddrSgprFromWaves(p, waves) {
      SgprAllocIsLeast(p, n, top);
      ShareFits(p.physicalSgprs, waves, SgprAlloc(p, n));
    }
    if SgprAlloc(p, n) * waves <= p.physicalSgprs {
      assert waves * SgprAlloc(p, n) == SgprAlloc(p, n) * waves;
      SgprDemandStaysAddressable(p, n, waves);
    }
  }

  /** The VGPR counterpart over the 256 physical VGPRs. */
  lemma AddrVgprIsLargestFit(p: Program, waves: nat, n: nat)
    requires Configured(p) && NoOverflow(p) && waves > 0 && n <= p.vgprLimit
    requires AlignDown(PhysicalVgprs / waves, VgprGranule(p)) >= VgprGranule(p)
    ensures n <= AddrVgprFromWaves(p, waves) <==> VgprAlloc(p, n) * waves <= PhysicalVgprs
  {
    var top := AlignDown(PhysicalVgprs / waves, VgprGranule(p));
    QuotientAtMost(PhysicalVgprs, waves);
    assert AddrVgprFromWaves(p, waves) == Min(top, p.vgprLimit);
    if n <= AddrVgprFromWaves(p, waves) {
      VgprAllocIsLeast(p, n, top);
      ShareFits(PhysicalVgprs, waves, VgprAlloc(p, n));
    }
    if VgprAlloc(p, n) * waves <= PhysicalVgprs {
      assert waves * VgprAlloc(p, n) == VgprAlloc(p, n) * waves;
      VgprDemandStaysAddressable(p, n, waves);
    }
  }

  /** The threads of one workgroup: the block size for compute, one wave otherwise. */
  function WorkgroupSize(p: Program): nat
  {
    if p.stage == ComputeShader then p.blockSize.0 * p.blockSize.1 * p.blockSize.2
    else p.waveSize
  }

  /** A wave has 32 or 64 lanes. */
  predicate ValidWaveSize(p: Program)
  {
    p.waveSize == 32 || p.waveSize == 64
  }

  /**
   * calc_waves_per_workgroup: the number of waves a workgroup occupies,
   * the workgroup size divided by the wave size and rounded up; one wave
   * outside compute.
   */
  function WavesPerWorkgroup(p: Program): (r: nat)
    requires ValidWaveSize(p)
    ensures r * p.waveSize >= WorkgroupSize(p) && r * p.waveSize < WorkgroupSize(p) + p.waveSize
    ensures p.stage != ComputeShader ==> r == 1
  {
    WaveSizeIsPowerOfTwo(p.waveSize);
    WaveCount(WorkgroupSize(p), p.waveSize);
    Align(WorkgroupSize(p), p.waveSize) / p.waveSize
  }

  lemma WaveSizeIsPowerOfTwo(w: nat)
    requires w == 32 || w == 64
    ensures IsPowerOfTwo(w)
  {
    assert IsPowerOfTwo(1) && IsPowerOfTwo(2) && IsPowerOfTwo(4) && IsPowerOfTwo(8);
    assert IsPowerOfTwo(16) && IsPowerOfTwo(32);
  }

  /** Dividing the aligned size by the wave size rounds up; a single wave's worth gives one. */
  lemma WaveCount(size: nat, w: nat)
    requires IsPowerOfTwo(w)
    ensures var r := Align(size, w) / w;
            r * w >= size && r * w < size + w && (size == w ==> r == 1)
  {
    PowerOfTwoIsPositive(w);
    var aligned := Align(size, w);
    MultipleIsProduct(aligned, w);
    if size == w {
      ProductIsMultiple(1, w);
      AlignIsLeast(size, w, w);
    }
  }

  /** SIMDs per compute unit, doubled from GFX10 on where a workgroup processor is assumed. */
  function SimdPerCuWgp(p: Program): (n: nat)
    ensures n == 4 || n == 8
  {
    if AtLeast(p.chipClass, GFX10) then SimdPerCu * 2 else SimdPerCu
  }

  /** The LDS one workgroup takes: its size in granules times the granule. */
  function LdsPerWorkgroup(p: Program): nat
  {
    p.ldsSize * p.ldsAllocGranule
  }

  /** The LDS available to a workgroup processor. */
  function LdsLimit(p: Program): nat
  {
    if AtLeast(p.chipClass, GFX10) then p.ldsLimit * 2 else p.ldsLimit
  }

  /**
   * calc_min_waves: the waves per SIMD a workgroup needs at least,
   * counted in wave64 waves.
   */
  function CalcMinWaves(p: Program): (r: Program)
    requires ValidWaveSize(p)
    ensures r == p.(minWaves := r.minWaves)
    ensures r.minWaves == DivRoundUp(WorkgroupSize(p), 64 * SimdPerCuWgp(p))
  {
    var waves := WavesPerWorkgroup(p);
    var waves64 := if p.waveSize == 32 then DivRoundUp(waves, 2) else waves;
    var minWaves := DivRoundUp(waves64, SimdPerCuWgp(p));
    MinWavesInWave64Units(p);
    p.(minWaves := minWaves)
  }

  /** Rounding to waves and then to wave64 waves is rounding to wave64 waves directly. */
  lemma MinWavesInWave64Units(p: Program)
    requires ValidWaveSize(p)
    ensures var waves := WavesPerWorkgroup(p);
            var waves64 := if p.waveSize == 32 then DivRoundUp(waves, 2) else waves;
            DivRoundUp(waves64, SimdPerCuWgp(p)) == DivRoundUp(WorkgroupSize(p), 64 * SimdPerCuWgp(p))
  {
    var size := WorkgroupSize(p);
    var s := SimdPerCuWgp(p);
    CeilingUnique(size, p.waveSize, WavesPerWorkgroup(p));
    if p.waveSize == 32 {
      NestedCeiling(size, 32, 2);
      NestedCeiling(size, 64, s);
    } else {
      NestedCeiling(size, 64, s);
    }
  }

  /**
   * update_vgpr_sgpr_demand. A demand above either limit cannot be
   * compiled: no waves, and the demand is recorded as is. Otherwise the
   * wave count is what the SGPRs, the VGPRs, the workgroup and the LDS
   * allow, and the maximum demand is what stays addressable at that wave
   * count. `None` stands for a division by zero on the way.
   */
  function UpdateDemand(p: Program, d: Demand): (r: Option<Program>)
    requires Configured(p) && ValidWaveSize(p)
    ensures d.vgpr > p.vgprLimit || d.sgpr > p.sgprLimit ==>
              r == Some(p.(numWaves := 0, maxRegDemand := d))
    ensures r.None? <==>
              && d.vgpr <= p.vgprLimit && d.sgpr <= p.sgprLimit
              && var sgprAlloc, vgprAlloc := SgprAlloc(p, d.sgpr), VgprAlloc(p, d.vgpr);
                 || sgprAlloc == 0 || vgprAlloc == 0 || MaxWaves(p).None?
                 || Min(WavesByRegs(p, sgprAlloc, vgprAlloc), MaxWaves(p).value) == 0
    ensures r.Some? && d.vgpr <= p.vgprLimit && d.sgpr <= p.sgprLimit ==>
              var q := r.value;
              && q == p.(numWaves := q.numWaves, maxWaves := q.maxWaves, maxRegDemand := q.maxRegDemand)
              && 1 <= q.numWaves <= q.maxWaves <= MaxWavesPerSimd
              && MaxWaves(p).Some? && q.maxWaves == MaxWaves(p).value
              && q.maxRegDemand == Demand(AddrVgprFromWaves(p, q.numWaves), AddrSgprFromWaves(p, q.numWaves))
              && q.numWaves * SgprAlloc(p, d.sgpr) <= p.physicalSgprs
              && q.numWaves * VgprAlloc(p, d.vgpr) <= PhysicalVgprs
              && q.maxRegDemand.vgpr <= p.vgprLimit && q.maxRegDemand.sgpr <= p.sgprLimit
              && (NoOverflow(p) ==> d.vgpr <= q.maxRegDemand.vgpr && d.sgpr <= q.maxRegDemand.sgpr)
    ensures r.Some? && d.vgpr <= p.vgprLimit && d.sgpr <= p.sgprLimit ==>
              forall k: nat ::
                k <= r.value.maxWaves
                && k * SgprAlloc(p, d.sgpr) <= p.physicalSgprs
                && k * VgprAlloc(p, d.vgpr) <= PhysicalVgprs
                ==> k <= r.value.numWaves
  {
    if d.vgpr > p.vgprLimit || d.sgpr > p.sgprLimit then
      // over a limit: no waves, and the demand is recorded
      Some(p.(numWaves := 0, maxRegDemand := d))
    else
      var sgprAlloc := SgprAlloc(p, d.sgpr);
      var vgprAlloc := VgprAlloc(p, d.vgpr);
      if sgprAlloc == 0 || vgprAlloc == 0 then None
      else
        match MaxWaves(p)
        case None => None
        case Some(maxWaves) =>
          var byRegs := WavesByRegs(p, sgprAlloc, vgprAlloc);
          var numWaves := Min(byRegs, maxWaves);
          if numWaves == 0 then None
          else
            MulMonotone(numWaves, byRegs, sgprAlloc);
            MulMonotone(numWaves, byRegs, vgprAlloc);
            var demand := Demand(AddrVgprFromWaves(p, numWaves), AddrSgprFromWaves(p, numWaves));
            DemandStaysAddressable(p, d, numWaves);
            Some(p.(numWaves := numWaves, maxWaves := maxWaves, maxRegDemand := demand))
  }

  /**
   * The waves the two register files allow side by side: the most waves
   * whose allocations fit both the physical SGPRs and the 256 VGPRs.
   */
  function WavesByRegs(p: Program, sgprAlloc: nat, vgprAlloc: nat): (r: nat)
    requires Configured(p) && sgprAlloc > 0 && vgprAlloc > 0
    ensures r * sgprAlloc <= p.physicalSgprs && r * vgprAlloc <= PhysicalVgprs
    ensures forall k: nat :: k * sgprAlloc <= p.physicalSgprs && k * vgprAlloc <= PhysicalVgprs ==> k <= r
  {
    QuotientFitsU16(p.physicalSgprs, sgprAlloc);
    QuotientFitsU16(PhysicalVgprs, vgprAlloc);
    LargestCommonFit(p.physicalSgprs, sgprAlloc, PhysicalVgprs, vgprAlloc);
    Min(U16(p.physicalSgprs / sgprAlloc), U16(PhysicalVgprs / vgprAlloc))
  }

  /**
   * The waves per SIMD the workgroup and LDS limits allow: the waves of
   * the workgroups a CU (or WGP) holds, spread over its SIMDs and rounded
   * up, and never more than ten. `None` stands for a division by zero.
   */
  function MaxWaves(p: Program): (r: Option<nat>)
    requires ValidWaveSize(p)
    ensures r.Some? ==> r.value <= MaxWavesPerSimd
    ensures r.None? <==> WavesPerWorkgroup(p) == 0 || (p.ldsSize != 0 && p.ldsAllocGranule == 0)
    ensures r.Some? ==>
              var waves := WavesPerWorkgroup(p);
              var total := WorkgroupsPerCu(p, waves) * waves;
              r.value * SimdPerCuWgp(p) >= total && r.value * SimdPerCuWgp(p) < total + SimdPerCuWgp(p)
  {
    var waves := WavesPerWorkgroup(p);
    if waves == 0 || (p.ldsSize != 0 && p.ldsAllocGranule == 0) then None
    else
      var simds := SimdPerCuWgp(p);
      var spread := DivRoundUp(WorkgroupsPerCu(p, waves) * waves, simds);
      // the workgroups fit the wave slots, so the rounded-up share is at most ten
      assert spread <= MaxWavesPerSimd by {
        if spread > MaxWavesPerSimd {
          MulMonotone(MaxWavesPerSimd + 1, spread, simds);
        }
      }
      Some(Min(MaxWavesPerSimd, U16(spread)))
  }

  /**
   * The workgroups of `waves` waves a CU (or WGP) holds: as many as its
   * SIMDs have wave slots for, capped by its LDS and, before GFX10, by 16.
   */
  function WorkgroupsPerCu(p: Program, waves: nat): (r: nat)
    requires waves > 0 && (p.ldsSize != 0 ==> p.ldsAllocGranule > 0)
    ensures r * waves <= MaxWavesPerSimd * SimdPerCuWgp(p)
    ensures waves > 1 && !AtLeast(p.chipClass, GFX10) ==> r <= 16
  {
    var slots := MaxWavesPerSimd * SimdPerCuWgp(p);
    var bySlots := slots / waves;
    var byLds :=
      if p.ldsSize != 0 then
        PositiveProduct(p.ldsSize, p.ldsAllocGranule);
        Min(bySlots, LdsLimit(p) / LdsPerWorkgroup(p))
      else bySlots;
    var r := if waves > 1 && !AtLeast(p.chipClass, GFX10) then Min(byLds, 16) else byLds;
    assert r <= bySlots;
    SlotsFit(r, bySlots, slots, waves);
    r
  }

  /** Any count up to the quotient of the slots fits them. */
  lemma SlotsFit(r: nat, bySlots: nat, slots: nat, waves: nat)
    requires waves > 0 && bySlots == slots / waves && r <= bySlots
    ensures r * waves <= slots
  {
    QuotientIsLargestFit(slots, waves);
    MulMonotone(r, bySlots, waves);
  }

  /** The workgroups a CU holds respect all three caps... */
  lemma WorkgroupsPerCuFits(p: Program, waves: nat)
    requires waves > 0 && (p.ldsSize != 0 ==> p.ldsAllocGranule > 0)
    ensures WorkgroupsPerCu(p, waves) * waves <= MaxWavesPerSimd * SimdPerCuWgp(p)
    ensures p.ldsSize != 0 ==> WorkgroupsPerCu(p, waves) * LdsPerWorkgroup(p) <= LdsLimit(p)
    ensures waves > 1 && !AtLeast(p.chipClass, GFX10) ==> WorkgroupsPerCu(p, waves) <= 16
  {
    var slots := MaxWavesPerSimd * SimdPerCuWgp(p);
    var r := WorkgroupsPerCu(p, waves);
    QuotientIsLargestFit(slots, waves);
    MulMonotone(r, slots / waves, waves);
    if p.ldsSize != 0 {
      var lds := LdsPerWorkgroup(p);
      PositiveProduct(p.ldsSize, p.ldsAllocGranule);
      QuotientIsLargestFit(LdsLimit(p), lds);
      MulMonotone(r, LdsLimit(p) / lds, lds);
    }
  }

  /** ...and any workgroup count within all three caps is at most what the CU holds. */
  lemma WorkgroupsPerCuIsLargest(p: Program, waves: nat, k: nat)
    requires waves > 0 && (p.ldsSize != 0 ==> p.ldsAllocGranule > 0)
    requires k * waves <= MaxWavesPerSimd * SimdPerCuWgp(p)
    requires p.ldsSize != 0 ==> k * LdsPerWorkgroup(p) <= LdsLimit(p)
    requires waves > 1 && !AtLeast(p.chipClass, GFX10) ==> k <= 16
    ensures k <= WorkgroupsPerCu(p, waves)
  {
    FitsUnderQuotient(k, waves, MaxWavesPerSimd * SimdPerCuWgp(p));
    if p.ldsSize != 0 {
      PositiveProduct(p.ldsSize, p.ldsAllocGranule);
      FitsUnderQuotient(k, LdsPerWorkgroup(p), LdsLimit(p));
    }
  }

  /**
   * A demand whose allocations fit `waves` times stays within what
   * `waves` waves leave addressable.
   */
  lemma DemandStaysAddressable(p: Program, d: Demand, waves: nat)
    requires Configured(p) && waves > 0 && d.vgpr <= p.vgprLimit && d.sgpr <= p.sgprLimit
    requires waves * SgprAlloc(p, d.sgpr) <= p.physicalSgprs
    requires waves * VgprAlloc(p, d.vgpr) <= PhysicalVgprs
    ensures NoOverflow(p) ==>
              d.sgpr <= AddrSgprFromWaves(p, waves) && d.vgpr <= AddrVgprFromWaves(p, waves)
  {
    if NoOverflow(p) {
      SgprDemandStaysAddressable(p, d.sgpr, waves);
      VgprDemandStaysAddressable(p, d.vgpr, waves);
    }
  }

  lemma SgprDemandStaysAddressable(p: Program, n: nat, waves: nat)
    requires Configured(p) && NoOverflow(p) && waves > 0 && n <= p.sgprLimit
    requires waves * SgprAlloc(p, n) <= p.physicalSgprs
    ensures n <= AddrSgprFromWaves(p, waves)
  {
    var sa := SgprAlloc(p, n);
    assert sa * waves == waves * sa;
    LeftAfterWaves(p.physicalSgprs, waves, sa, SgprGranule(p), ExtraSgprs(p), n);
  }

  lemma VgprDemandStaysAddressable(p: Program, n: nat, waves: nat)
    requires Configured(p) && NoOverflow(p) && waves > 0 && n <= p.vgprLimit
    requires waves * VgprAlloc(p, n) <= PhysicalVgprs
    ensures n <= AddrVgprFromWaves(p, waves)
  {
    var va := VgprAlloc(p, n);
    assert va * waves == waves * va;
    LeftAfterWaves(PhysicalVgprs, waves, va, VgprGranule(p), 0, n);
  }

  /**
   * When `waves` allocations of `alloc` registers fit `total`, the
   * granule-aligned share of one wave still holds the `n` addressable and
   * `e` special registers the allocation was made for, with no 16-bit
   * truncation on the way.
   */
  lemma LeftAfterWaves(total: nat, waves: nat, alloc: nat, g: nat, e: nat, n: nat)
    requires waves > 0 && g > 0 && total < U16Modulus
    requires alloc * waves <= total && alloc % g == 0 && alloc >= n + e
    ensures var top := AlignDown(total / waves, g);
            n + e <= top < U16Modulus && U16(top) == top && U16(top - e) == top - e
  {
    FitsUnderQuotient(alloc, waves, total);
    QuotientAtMost(total, waves);
    AlignDownIsGreatest(total / waves, g, alloc);
  }

  /**
   * What the rest of the compiler guarantees about a program: the
   * allocations at the limits fit the hardware, a workgroup needs at least
   * one and at most as many waves as a CU (or WGP) can hold, and its LDS
   * fits.
   */
  predicate Schedulable(p: Program)
    requires Configured(p) && ValidWaveSize(p)
  {
    && NoOverflow(p)
    && SgprAlloc(p, p.sgprLimit) <= p.physicalSgprs
    && VgprAlloc(p, p.vgprLimit) <= PhysicalVgprs
    && 1 <= WavesPerWorkgroup(p) <= MaxWavesPerSimd * SimdPerCuWgp(p)
    && (p.ldsSize != 0 ==> p.ldsAllocGranule > 0 && LdsPerWorkgroup(p) <= LdsLimit(p))
  }

  /** On a schedulable program no division by zero occurs and at least one wave fits. */
  lemma SchedulableNeverFaults(p: Program, d: Demand)
    requires Configured(p) && ValidWaveSize(p) && Schedulable(p)
    requires d.vgpr <= p.vgprLimit && d.sgpr <= p.sgprLimit
    ensures UpdateDemand(p, d).Some?
    ensures UpdateDemand(p, d).value.numWaves >= 1
  {
    var sa, va := SgprAlloc(p, d.sgpr), VgprAlloc(p, d.vgpr);
    SgprAllocIsLeast(p, d.sgpr, SgprAlloc(p, p.sgprLimit));
    VgprAllocIsLeast(p, d.vgpr, VgprAlloc(p, p.vgprLimit));
    assert 1 * sa <= p.physicalSgprs && 1 * va <= PhysicalVgprs;
    assert WavesByRegs(p, sa, va) >= 1;
    WorkgroupsAllowOneWave(p);
  }

  /** On a schedulable program the workgroup and LDS limits leave at least one wave per SIMD. */
  lemma WorkgroupsAllowOneWave(p: Program)
    requires Configured(p) && ValidWaveSize(p) && Schedulable(p)
    ensures MaxWaves(p).Some? && MaxWaves(p).value >= 1
  {
    var simd := SimdPerCuWgp(p);
    var waves := WavesPerWorkgroup(p);
    if p.ldsSize != 0 {
      PositiveProduct(p.ldsSize, p.ldsAllocGranule);
    }
    var workgroups := WorkgroupsPerCu(p, waves);
    assert workgroups >= 1 by {
      WorkgroupsPerCuIsLargest(p, waves, 1);
    }
    MulMonotone(1, workgroups, waves);
    WorkgroupsPerCuFits(p, waves);
    var up := DivRoundUp(workgroups * waves, simd);
    assert up >= 1;
    assert up <= MaxWavesPerSimd by {
      if up > MaxWavesPerSimd {
        MulMonotone(MaxWavesPerSimd + 1, up, simd);
      }
    }
  }
}
