/**
 Capacity and range arithmetic of the SBS backend adapter (iscsi/sbs_adapter.go):
 the advertised capacity, the two range validators, the widening of a logical
 range to backend blocks, the effective maximum transfer size and the split of a
 range into transfer chunks.
 */
module Geometry {
  import opened Words

  const DEFAULT_LOGICAL_BLOCK: U64 := 512
  const DEFAULT_WIRE_SAFE_MAX_IO: U32 := 4 * 1024 * 1024 - 64 * 1024

  datatype Profile = Profile(sizeBytes: U64, blockSize: U32, maxIOSize: U32)

  /** What the adapter is opened with: the volume profile and its own limits. */
  datatype Geometry = Geometry(profile: Profile, logicalBlock: U64, transferLimit: U32)

  datatype Chunk = Chunk(offset: nat, length: nat)

  // ---------------------------------------------------------------- gcd and lcm

  function Gcd(a: nat, b: nat): (g: nat)
    ensures a > 0 || b > 0 ==> g > 0
    decreases b
  {
    if b == 0 then a else Gcd(b, a % b)
  }

  /** The Euclidean loop of the source. */
  method GcdLoop(a0: U64, b0: U64) returns (g: U64)
    ensures g == Gcd(a0, b0)
  {
    var a, b := a0, b0;
    while b != 0
      invariant Gcd(a, b) == Gcd(a0, b0)
      decreases b
    {
      a, b := b, a % b;
    }
    g := a;
  }

  /** The loop's result divides both arguments and is a combination of them. */
  lemma {:induction false} Bezout(a: nat, b: nat) returns (x: int, y: int, p: nat, q: nat)
    requires a > 0 || b > 0
    ensures a * x + b * y == Gcd(a, b)
    ensures a == Gcd(a, b) * p && b == Gcd(a, b) * q
    decreases b
  {
    if b == 0 {
      x, y, p, q := 1, 0, 1, 0;
    } else {
      var k, r := GcdStep(a, b);
      var x', y', p', q' := Bezout(b, r);
      x, y, p, q := y', x' - k * y', k * p' + q', p';
      BezoutStep(a, b, k, r, Gcd(b, r), x', y', p', q');
    }
  }

  lemma GcdStep(a: nat, b: nat) returns (k: nat, r: nat)
    requires b > 0
    ensures a == k * b + r && r < b && Gcd(a, b) == Gcd(b, r)
  {
    k, r := a / b, a % b;
  }

  lemma BezoutStep(a: int, b: int, k: int, r: int, g: int, x: int, y: int, p: int, q: int)
    requires a == k * b + r && b * x + r * y == g && b == g * p && r == g * q
    ensures a * y + b * (x - k * y) == g
    ensures a == g * (k * p + q)
  {
    calc {
      a * y + b * (x - k * y);
      (k * b + r) * y + (b * x - b * k * y);
      k * b * y - b * k * y + b * x + r * y;
      g;
    }
    assert k * (g * p) == g * (k * p);
  }

  /** The exact least common multiple, with no machine width. */
  function Lcm(a: nat, b: nat): nat
    requires a > 0 && b > 0
  {
    (a / Gcd(a, b)) * b
  }

  /** The least common multiple through the cofactors of the greatest common divisor. */
  lemma LcmParts(a: nat, b: nat) returns (x: int, y: int, p: nat, q: nat)
    requires a > 0 && b > 0
    ensures Gcd(a, b) > 0 && a == Gcd(a, b) * p && b == Gcd(a, b) * q && a * x + b * y == Gcd(a, b)
    ensures p > 0 && q > 0 && Lcm(a, b) == p * b
  {
    x, y, p, q := Bezout(a, b);
    DivModUnique(a, Gcd(a, b), p, 0);
  }

  lemma LcmIsCommon(a: nat, b: nat)
    requires a > 0 && b > 0
    ensures Lcm(a, b) > 0 && Lcm(a, b) % a == 0 && Lcm(a, b) % b == 0
  {
    var x, y, p, q := LcmParts(a, b);
    hide Lcm, Gcd;
    var g := Gcd(a, b);
    MultipleOf(p, b);
    SwapFactor(a, b, g, p, q);
    MultipleOf(q, a);
    MulMono(1, p, b);
  }

  lemma SwapFactor(a: int, b: int, g: int, p: int, q: int)
    requires a == g * p && b == g * q
    ensures p * b == q * a
  {
    assert p * (g * q) == q * (g * p);
  }

  /** `Lcm` is a common multiple, and it divides every common multiple. */
  lemma LcmIsLeast(a: nat, b: nat, m: int)
    requires a > 0 && b > 0
    ensures Lcm(a, b) > 0 && Lcm(a, b) % a == 0 && Lcm(a, b) % b == 0
    ensures m % a == 0 && m % b == 0 ==> m % Lcm(a, b) == 0
  {
    LcmIsCommon(a, b);
    if m % a == 0 && m % b == 0 {
      var x, y, p, q := LcmParts(a, b);
      hide Lcm, Gcd;
      var i, j := m / a, m / b;
      CommonMultiple(a, b, Gcd(a, b), p, q, x, y, i, j, m);
      MultipleOf(j * x + i * y, Lcm(a, b));
    }
  }

  lemma CommonMultiple(a: int, b: int, g: int, p: int, q: int, x: int, y: int, i: int, j: int, m: int)
    requires g > 0 && a == g * p && b == g * q && a * x + b * y == g && m == i * a && m == j * b
    ensures m == (j * x + i * y) * (p * b)
  {
    calc {
      g * m;
      (a * x + b * y) * m;
      a * x * m + b * y * m;
      a * x * (j * b) + b * y * (i * a);
      a * b * (j * x + i * y);
      g * p * b * (j * x + i * y);
      g * ((j * x + i * y) * (p * b));
    }
    assert g * (m - (j * x + i * y) * (p * b)) == 0;
  }

  // ------------------------------------------------------- advertised capacity

  function EffectiveLogical(logical: U64): (r: U64)
    ensures r > 0
  {
    if logical == 0 then DEFAULT_LOGICAL_BLOCK else logical
  }

  function EffectiveBackend(logical: U64, backend: U64): (r: U64)
    ensures r > 0
  {
    if backend == 0 then EffectiveLogical(logical) else backend
  }

  /** The product wraps at 64 bits, as the source's multiplication does. */
  function CapacityAlignmentUnit(logical: U64, backend: U64): U64 {
    Wrap(Lcm(EffectiveLogical(logical), EffectiveBackend(logical, backend)))
  }

  function AdvertisedCapacity(size: U64, logical: U64, backend: U64): (r: (U64, bool))
    ensures r.0 <= size && (r.1 <==> r.0 < size)
  {
    RoundCapacity(size, CapacityAlignmentUnit(logical, backend))
  }

  function RoundCapacity(size: U64, unit: U64): (r: (U64, bool))
    ensures r.0 <= size && (r.1 <==> r.0 < size)
    ensures r.0 == if unit == 0 then size else DownTo(size, unit)
  {
    if unit == 0 || size % unit == 0 then (size, false) else (DownTo(size, unit), true)
  }

  /** The capacity the design promises: the largest multiple of both block sizes within the volume. */
  ghost predicate LargestCommonMultiple(c: int, a: nat, b: nat, size: int)
    requires a > 0 && b > 0
  {
    && 0 <= c <= size && c % a == 0 && c % b == 0
    && forall m: int {:trigger m % a} :: 0 <= m <= size && m % a == 0 && m % b == 0 ==> m <= c
  }

  /**
   The capacity is the largest common multiple exactly when the least common
   multiple fits 64 bits, or the volume is so small that rounding down by the
   wrapped unit still yields zero.
   */
  lemma CapacityCorrectIff(size: U64, logical: U64, backend: U64)
    ensures
      var a, b := EffectiveLogical(logical), EffectiveBackend(logical, backend);
      LargestCommonMultiple(AdvertisedCapacity(size, logical, backend).0, a, b, size)
      <==> Lcm(a, b) < TWO64 || size == 0 || size < Lcm(a, b) % TWO64
  {
    var a, b := EffectiveLogical(logical), EffectiveBackend(logical, backend);
    CapacityCorrectForUnit(size, a, b, Wrap(Lcm(a, b)));
  }

  lemma CapacityCorrectForUnit(size: U64, a: U64, b: U64, unit: U64)
    requires a > 0 && b > 0 && unit == Wrap(Lcm(a, b))
    ensures LargestCommonMultiple(RoundCapacity(size, unit).0, a, b, size)
      <==> unit == Lcm(a, b) || size == 0 || size < unit
  {
    LcmIsLeast(a, b, 0);
    if unit == Lcm(a, b) {
      RoundedToLcm(size, a, b);
    } else {
      OnlyZeroFits(size, a, b);
      MultipleOf(0, a);
      MultipleOf(0, b);
    }
  }

  lemma RoundedToLcm(size: nat, a: nat, b: nat)
    requires a > 0 && b > 0 && Lcm(a, b) > 0
    ensures LargestCommonMultiple(DownTo(size, Lcm(a, b)), a, b, size)
  {
    var l, c := Lcm(a, b), DownTo(size, Lcm(a, b));
    LcmIsLeast(a, b, 0);
    MultipleTransitive(c, l, a);
    MultipleTransitive(c, l, b);
    forall m: int {:trigger m % a} | 0 <= m <= size && m % a == 0 && m % b == 0
      ensures m <= c
    {
      LcmIsLeast(a, b, m);
      if c < m {
        MultipleGap(c, m, l);
      }
    }
  }

  lemma OnlyZeroFits(size: nat, a: nat, b: nat)
    requires a > 0 && b > 0 && size < Lcm(a, b)
    ensures forall m: int {:trigger m % a} :: 0 <= m <= size && m % a == 0 && m % b == 0 ==> m == 0
  {
    forall m: int {:trigger m % a} | 0 <= m <= size && m % a == 0 && m % b == 0
      ensures m == 0
    {
      LcmIsLeast(a, b, m);
      if m > 0 {
        MultipleGap(0, m, Lcm(a, b));
      }
    }
  }

  // ------------------------------------------------------------ range validators

  datatype RangeCheck = Accepted | Empty | OutOfRange | Misaligned

  /** The block size the adapter widens to. */
  function BackendBlock(g: Geometry): (b: U64)
    ensures b > 0
  {
    if g.profile.blockSize == 0 then EffectiveLogical(g.logicalBlock) else g.profile.blockSize
  }

  /** The block size the backend validator insists on; its fallback differs from `BackendBlock`. */
  function ValidatorBlock(p: Profile): (b: U64)
    ensures b > 0
  {
    if p.blockSize == 0 then DEFAULT_LOGICAL_BLOCK else p.blockSize
  }

  function Advertised(g: Geometry): U64 {
    AdvertisedCapacity(g.profile.sizeBytes, g.logicalBlock, g.profile.blockSize).0
  }

  function CheckRange(size: U64, block: U64, offset: U64, length: U64): RangeCheck
    requires block > 0
  {
    if length == 0 then Empty
    else if offset > size || length > size - offset then OutOfRange
    else if offset % block != 0 || length % block != 0 then Misaligned
    else Accepted
  }

  function CheckLogical(g: Geometry, offset: U64, length: U64): RangeCheck {
    CheckRange(Advertised(g), EffectiveLogical(g.logicalBlock), offset, length)
  }

  function CheckBackend(p: Profile, offset: U64, length: U64): RangeCheck {
    CheckRange(p.sizeBytes, ValidatorBlock(p), offset, length)
  }

  /** The smallest block-aligned range around a logical range, in wrapping arithmetic. */
  function BackendRangeFor(g: Geometry, offset: U64, length: U64): (U64, U64) {
    var b := BackendBlock(g);
    var start := DownTo(offset, b);
    var end := Wrap(offset + length);
    var end' := if end % b != 0 then Wrap(end + (b - end % b)) else end;
    (start, Wrap(end' - start))
  }

  predicate BackendAligned(g: Geometry, offset: int, length: int) {
    offset % BackendBlock(g) == 0 && length % BackendBlock(g) == 0
  }

  /** The least common multiple of the two block sizes fits a machine word. */
  predicate UnitFits(g: Geometry) {
    Lcm(EffectiveLogical(g.logicalBlock), BackendBlock(g)) < TWO64
  }

  /** The two fallbacks for a missing backend block size agree on alignment. */
  predicate FallbacksAgree(g: Geometry) {
    g.profile.blockSize > 0 || EffectiveLogical(g.logicalBlock) % DEFAULT_LOGICAL_BLOCK == 0
  }

  predicate Sound(g: Geometry) {
    UnitFits(g) && FallbacksAgree(g)
  }

  /** The usual case: a backend block that is a multiple of the logical block makes a sound geometry with itself as the unit. */
  lemma SoundWhenDivides(g: Geometry)
    requires g.profile.blockSize > 0 && g.profile.blockSize % EffectiveLogical(g.logicalBlock) == 0
    ensures Sound(g) && Advertised(g) == DownTo(g.profile.sizeBytes, g.profile.blockSize)
  {
    hide DownTo;
    var a, b := EffectiveLogical(g.logicalBlock), g.profile.blockSize;
    LcmOfMultiple(a, b);
  }

  lemma LcmOfMultiple(a: nat, b: nat)
    requires a > 0 && b > 0 && b % a == 0
    ensures Lcm(a, b) == b
  {
    var l := Lcm(a, b);
    LcmIsLeast(a, b, b);
    hide Lcm;
    if l < b {
      MultipleGap(0, l, b);
    } else if b < l {
      MultipleGap(0, b, l);
    }
  }

  lemma AdvertisedIsMultiple(g: Geometry)
    requires UnitFits(g)
    ensures Advertised(g) <= g.profile.sizeBytes
    ensures Advertised(g) % EffectiveLogical(g.logicalBlock) == 0 && Advertised(g) % BackendBlock(g) == 0
  {
    CapacityCorrectIff(g.profile.sizeBytes, g.logicalBlock, g.profile.blockSize);
  }

  /** A non-empty range inside the advertised capacity. */
  predicate Within(g: Geometry, offset: int, length: int) {
    0 <= offset && 0 < length && offset + length <= Advertised(g)
  }

  /** The widened range is the smallest aligned one around the request, and stays below any aligned bound that holds it. */
  lemma WidenedBelow(g: Geometry, offset: U64, length: U64, top: U64)
    requires top % BackendBlock(g) == 0 && 0 < length && offset + length <= top
    ensures
      var (start, size) := BackendRangeFor(g, offset, length);
      var b := BackendBlock(g);
      && start % b == 0 && size % b == 0
      && offset - b < start <= offset
      && offset + length <= start + size < offset + length + b
      && start + size <= top
      && (BackendAligned(g, offset, length) ==> start == offset && size == length)
  {
    var b := BackendBlock(g);
    var end := offset + length;
    var start, down := DownTo(offset, b), DownTo(end, b);
    var end' := if end % b != 0 then down + b else end;
    if end % b != 0 {
      MultipleGap(down, top, b);
      MultipleOf(1, b);
      AddMultiples(down, b, b);
    }
    AddMultiples(end', start, b);
    if BackendAligned(g, offset, length) {
      AddMultiples(offset, length, b);
    }
  }

  /** A range inside the capacity widens without overflow to a block-aligned range inside the advertised capacity. */
  lemma WidenedRange(g: Geometry, offset: U64, length: U64)
    requires UnitFits(g) && Within(g, offset, length)
    ensures
      var (start, size) := BackendRangeFor(g, offset, length);
      var b := BackendBlock(g);
      && start % b == 0 && size % b == 0
      && offset - b < start <= offset
      && offset + length <= start + size < offset + length + b
      && start + size <= Advertised(g)
      && (BackendAligned(g, offset, length) ==> start == offset && size == length)
  {
    hide Advertised, BackendRangeFor, UnitFits;
    AdvertisedIsMultiple(g);
    WidenedBelow(g, offset, length, Advertised(g));
  }

  function UpTo(x: nat, m: nat): (r: nat)
    requires m > 0
    ensures r % m == 0 && x <= r < x + m
  {
    var down := DownTo(x, m);
    MultipleOf(1, m);
    AddMultiples(down, m, m);
    if x % m == 0 then x else down + m
  }

  /** The end of the last whole logical block of the advertised capacity. */
  function LastLogicalEnd(g: Geometry): U64 {
    DownTo(Advertised(g), EffectiveLogical(g.logicalBlock))
  }

  predicate AllWideningsAccepted(g: Geometry) {
    forall offset: U64, length: U64 {:trigger BackendRangeFor(g, offset, length)} :: CheckLogical(g, offset, length) == Accepted ==>
      var r := BackendRangeFor(g, offset, length); CheckBackend(g.profile, r.0, r.1) == Accepted
  }

  /**
   Every range the logical validator accepts widens to a range the backend
   validator accepts, exactly when there is no such range, or the two
   block-size fallbacks agree and the last logical block, rounded up to a
   backend block, still ends inside the volume.
   */
  lemma WideningAcceptedIff(g: Geometry)
    ensures AllWideningsAccepted(g) <==>
      LastLogicalEnd(g) == 0 || (FallbacksAgree(g) && UpTo(LastLogicalEnd(g), BackendBlock(g)) <= g.profile.sizeBytes)
  {
    hide Advertised, BackendRangeFor, CheckBackend, DownTo, UpTo, AllWideningsAccepted;
    var last := LastLogicalEnd(g);
    if last == 0 || (FallbacksAgree(g) && UpTo(last, BackendBlock(g)) <= g.profile.sizeBytes) {
      forall offset: U64, length: U64 | CheckLogical(g, offset, length) == Accepted
        ensures var r := BackendRangeFor(g, offset, length); CheckBackend(g.profile, r.0, r.1) == Accepted
      {
        LogicalEndsBelow(g, offset, length);
        WidenedPasses(g, offset, length);
      }
      assert AllWideningsAccepted(g) by { AllAccepted(g); }
    } else if !FallbacksAgree(g) {
      OneBlockRefused(g);
    } else {
      LastEndRefused(g);
    }
  }

  lemma AllAccepted(g: Geometry)
    requires forall offset: U64, length: U64 :: CheckLogical(g, offset, length) == Accepted ==>
      var r := BackendRangeFor(g, offset, length); CheckBackend(g.profile, r.0, r.1) == Accepted
    ensures AllWideningsAccepted(g)
  {
  }

  /** An accepted logical range ends at or before the last logical end. */
  lemma LogicalEndsBelow(g: Geometry, offset: U64, length: U64)
    requires CheckLogical(g, offset, length) == Accepted
    ensures 0 < length && offset + length <= LastLogicalEnd(g)
  {
    hide Advertised, DownTo;
    var a := EffectiveLogical(g.logicalBlock);
    AddMultiples(offset, length, a);
    if LastLogicalEnd(g) < offset + length {
      MultipleGap(LastLogicalEnd(g), offset + length, a);
    }
  }

  /** A range below the last logical end passes when that end, rounded up, stays in the volume. */
  lemma WidenedPasses(g: Geometry, offset: U64, length: U64)
    requires FallbacksAgree(g) && 0 < length && offset + length <= LastLogicalEnd(g)
    requires UpTo(LastLogicalEnd(g), BackendBlock(g)) <= g.profile.sizeBytes
    ensures var r := BackendRangeFor(g, offset, length); CheckBackend(g.profile, r.0, r.1) == Accepted
  {
    hide LastLogicalEnd, BackendRangeFor, UpTo;
    WidenedBelow(g, offset, length, UpTo(LastLogicalEnd(g), BackendBlock(g)));
    AlignedForValidator(g, BackendRangeFor(g, offset, length));
  }

  lemma AlignedForValidator(g: Geometry, r: (U64, U64))
    requires FallbacksAgree(g) && r.0 % BackendBlock(g) == 0 && r.1 % BackendBlock(g) == 0
    ensures r.0 % ValidatorBlock(g.profile) == 0 && r.1 % ValidatorBlock(g.profile) == 0
  {
    if g.profile.blockSize == 0 {
      MultipleTransitive(r.0, BackendBlock(g), DEFAULT_LOGICAL_BLOCK);
      MultipleTransitive(r.1, BackendBlock(g), DEFAULT_LOGICAL_BLOCK);
    }
  }

  /** With disagreeing fallbacks one logical block is already refused. */
  lemma OneBlockRefused(g: Geometry)
    requires !FallbacksAgree(g) && LastLogicalEnd(g) > 0
    ensures !AllWideningsAccepted(g)
  {
    hide Advertised, BackendRangeFor, DownTo;
    var a := EffectiveLogical(g.logicalBlock);
    MultipleOf(0, a);
    MultipleOf(1, a);
    MultipleGap(0, LastLogicalEnd(g), a);
    assert CheckLogical(g, 0, a) == Accepted;
    WidenedBelow(g, 0, a, a);
    var r := BackendRangeFor(g, 0, a);
    assert CheckBackend(g.profile, r.0, r.1) != Accepted;
  }

  /** The range up to the last logical end is refused when rounding it up leaves the volume, wrapping or not. */
  lemma LastEndRefused(g: Geometry)
    requires FallbacksAgree(g) && LastLogicalEnd(g) > 0 && UpTo(LastLogicalEnd(g), BackendBlock(g)) > g.profile.sizeBytes
    ensures !AllWideningsAccepted(g)
  {
    hide LastLogicalEnd, UpTo, BackendRangeFor, CheckLogical, CheckRange;
    var last, b := LastLogicalEnd(g), BackendBlock(g);
    LastIsLogical(g);
    assert last % b != 0 by { AlignedUpTo(last, b); }
    assert g.profile.blockSize == b == ValidatorBlock(g.profile);
    RangeFromZero(g, last);
    RoundedRefused(g.profile.sizeBytes, b, last, UpTo(last, b));
    var r := BackendRangeFor(g, 0, last);
    assert CheckBackend(g.profile, r.0, r.1) != Accepted;
  }

  lemma LastIsLogical(g: Geometry)
    requires LastLogicalEnd(g) > 0
    ensures CheckLogical(g, 0, LastLogicalEnd(g)) == Accepted && LastLogicalEnd(g) <= g.profile.sizeBytes
    ensures LastLogicalEnd(g) % EffectiveLogical(g.logicalBlock) == 0
  {
    hide DownTo;
    MultipleOf(0, EffectiveLogical(g.logicalBlock));
    AdvertisedBound(g);
    hide Advertised;
  }

  lemma AdvertisedBound(g: Geometry)
    ensures Advertised(g) <= g.profile.sizeBytes
  {
    hide AdvertisedCapacity;
  }

  lemma AlignedUpTo(x: nat, m: nat)
    requires m > 0
    ensures x % m == 0 ==> UpTo(x, m) == x
  {
    hide DownTo;
  }

  /** Rounded past the volume, a length is too long, or wraps to zero or to less than a block. */
  lemma RoundedRefused(size: U64, b: U64, last: U64, x: int)
    requires b > 0 && x % b == 0 && size < x && last < x < last + b
    ensures CheckRange(size, b, 0, Wrap(x)) != Accepted
  {
    if x >= TWO64 {
      DivModUnique(x, TWO64, 1, x - TWO64);
      if x > TWO64 {
        DivModUnique(x - TWO64, b, 0, x - TWO64);
      }
    }
  }

  lemma RangeFromZero(g: Geometry, last: U64)
    requires last % BackendBlock(g) != 0
    ensures BackendRangeFor(g, 0, last) == (0, Wrap(UpTo(last, BackendBlock(g))))
  {
    MultipleOf(0, BackendBlock(g));
  }

  lemma WidenedAccepted(g: Geometry, offset: U64, length: U64)
    requires Sound(g) && Within(g, offset, length)
    ensures var r := BackendRangeFor(g, offset, length); CheckBackend(g.profile, r.0, r.1) == Accepted
  {
    hide Advertised, BackendRangeFor, UnitFits;
    WidenedRange(g, offset, length);
    AdvertisedIsMultiple(g);
    AlignedForValidator(g, BackendRangeFor(g, offset, length));
  }

  // ------------------------------------------------------- where the claims fail

  /** The unit wraps: three blocks of 2^63 bytes do not fit a word, and the capacity is no multiple of 3. */
  lemma CapacityExample()
    ensures AdvertisedCapacity(TWO63, TWO63, 3).0 == TWO63 && TWO63 % 3 != 0
  {
    assert Gcd(TWO63, 3) == 1;
    assert Wrap(Lcm(TWO63, 3)) == TWO63;
  }

  /** No backend block size and a logical block of 1000 bytes: the only logical block is refused by the backend validator. */
  lemma FallbackExample(g: Geometry)
    requires g == Geometry(Profile(1000, 0, 0), 1000, 0)
    ensures UnitFits(g) && CheckLogical(g, 0, 1000) == Accepted && BackendRangeFor(g, 0, 1000) == (0, 1000)
    ensures CheckBackend(g.profile, 0, 1000) == Misaligned
  {
    hide Lcm, DownTo, BackendRangeFor;
    LcmOfMultiple(1000, 1000);
    WidenedBelow(g, 0, 1000, 1000);
  }

  // ------------------------------------------------------------------ chunks

  /** Zero means "no usable limit": the caller then sends one chunk. */
  function EffectiveMaxIO(p: Profile, limit: U32): (r: U32)
    ensures r % ValidatorBlock(p) == 0 && r <= p.maxIOSize && r <= WireSafe(limit)
    ensures r == 0 <==> p.maxIOSize < ValidatorBlock(p) || WireSafe(limit) < ValidatorBlock(p)
    ensures p.maxIOSize < r + ValidatorBlock(p) || WireSafe(limit) < r + ValidatorBlock(p)
  {
    if p.maxIOSize == 0 then 0
    else DownTo(Min(WireSafe(limit), p.maxIOSize), ValidatorBlock(p))
  }

  function WireSafe(limit: U32): U32 {
    if limit == 0 then DEFAULT_WIRE_SAFE_MAX_IO else limit
  }

  /** The chunk length used for a transfer of `length` bytes. */
  function ChunkLimit(g: Geometry, length: nat): (m: nat)
    requires length > 0
    ensures 0 < m <= length
  {
    var maxIO := EffectiveMaxIO(g.profile, g.transferLimit);
    if maxIO == 0 || maxIO > length then length else maxIO
  }

  function ChunksFrom(offset: nat, length: nat, limit: nat): seq<Chunk>
    requires limit > 0
    decreases length
  {
    if length == 0 then []
    else
      var n := Min(limit, length);
      [Chunk(offset, n)] + ChunksFrom(offset + n, length - n, limit)
  }

  function Chunks(g: Geometry, offset: nat, length: nat): seq<Chunk> {
    if length == 0 then [] else ChunksFrom(offset, length, ChunkLimit(g, length))
  }

  /** Contiguous, non-empty, in order and covering [offset, offset+length) exactly. */
  predicate Tiles(chunks: seq<Chunk>, offset: nat, length: nat)
    decreases |chunks|
  {
    if chunks == [] then length == 0
    else
      var c := chunks[0];
      c.offset == offset && 0 < c.length <= length && Tiles(chunks[1..], offset + c.length, length - c.length)
  }

  function TotalLength(chunks: seq<Chunk>): nat {
    if chunks == [] then 0 else chunks[0].length + TotalLength(chunks[1..])
  }

  lemma {:induction false} ChunksFromTile(offset: nat, length: nat, limit: nat)
    requires limit > 0
    ensures Tiles(ChunksFrom(offset, length, limit), offset, length)
    ensures forall c :: c in ChunksFrom(offset, length, limit) ==> 0 < c.length <= limit
    decreases length
  {
    if length > 0 {
      var n := Min(limit, length);
      ChunksFromTile(offset + n, length - n, limit);
      assert ChunksFrom(offset, length, limit)[1..] == ChunksFrom(offset + n, length - n, limit);
    }
  }

  lemma {:induction false} ChunksFromAligned(offset: nat, length: nat, limit: nat, block: nat)
    requires limit > 0 && block > 0 && limit % block == 0 && offset % block == 0 && length % block == 0
    ensures forall c :: c in ChunksFrom(offset, length, limit) ==> c.offset % block == 0 && c.length % block == 0
    decreases length
  {
    if length > 0 {
      var n := Min(limit, length);
      AddMultiples(offset, n, block);
      AddMultiples(length, n, block);
      ChunksFromAligned(offset + n, length - n, limit, block);
    }
  }

  /**
   Chunks of a range the backend accepts tile it, are block aligned, lie inside
   it, and respect the effective limit unless that limit is zero, which gives
   the one whole range.
   */
  lemma ChunksCorrect(g: Geometry, offset: U64, length: U64)
    requires CheckBackend(g.profile, offset, length) == Accepted
    ensures Tiles(Chunks(g, offset, length), offset, length)
    ensures forall c :: c in Chunks(g, offset, length) ==>
      && c.offset % ValidatorBlock(g.profile) == 0 && c.length % ValidatorBlock(g.profile) == 0
      && (EffectiveMaxIO(g.profile, g.transferLimit) > 0 ==> c.length <= EffectiveMaxIO(g.profile, g.transferLimit))
      && c.offset + c.length <= g.profile.sizeBytes && c.length > 0
    ensures EffectiveMaxIO(g.profile, g.transferLimit) == 0 ==> Chunks(g, offset, length) == [Chunk(offset, length)]
  {
    var m := ChunkLimit(g, length);
    ChunksFromTile(offset, length, m);
    ChunksFromAligned(offset, length, m, ValidatorBlock(g.profile));
    TilesWithin(Chunks(g, offset, length), offset, length);
  }

  lemma {:induction false} TilesWithin(chunks: seq<Chunk>, offset: nat, length: nat)
    requires Tiles(chunks, offset, length)
    ensures forall c :: c in chunks ==> offset <= c.offset && c.offset + c.length <= offset + length
    ensures TotalLength(chunks) == length
    decreases |chunks|
  {
    if chunks != [] {
      TilesWithin(chunks[1..], offset + chunks[0].length, length - chunks[0].length);
    }
  }

  /** The first chunks of a tiling tile a prefix of the range. */
  lemma {:induction false} TilesPrefix(chunks: seq<Chunk>, offset: nat, length: nat, k: nat) returns (w: nat)
    requires Tiles(chunks, offset, length) && k <= |chunks|
    ensures w <= length && (k == |chunks| ==> w == length)
    ensures Tiles(chunks[..k], offset, w)
    decreases k
  {
    if k == 0 {
      w := 0;
    } else {
      var n := chunks[0].length;
      var w' := TilesPrefix(chunks[1..], offset + n, length - n, k - 1);
      w := n + w';
      assert chunks[..k][1..] == chunks[1..][..k - 1];
    }
  }

  /** In a tiling every address of the range lies in exactly one chunk. */
  lemma {:induction false} TilesCoverOnce(chunks: seq<Chunk>, offset: nat, length: nat, at: nat) returns (i: nat)
    requires Tiles(chunks, offset, length) && offset <= at < offset + length
    ensures i < |chunks| && chunks[i].offset <= at < chunks[i].offset + chunks[i].length
    ensures forall j :: 0 <= j < |chunks| && chunks[j].offset <= at < chunks[j].offset + chunks[j].length ==> j == i
    decreases |chunks|
  {
    var n := chunks[0].length;
    TilesWithin(chunks[1..], offset + n, length - n);
    if at < offset + n {
      i := 0;
      assert forall j :: 1 <= j < |chunks| ==> chunks[j] == chunks[1..][j - 1] && chunks[j] in chunks[1..];
    } else {
      var i' := TilesCoverOnce(chunks[1..], offset + n, length - n, at);
      i := i' + 1;
      assert forall j :: 1 <= j < |chunks| ==> chunks[j] == chunks[1..][j - 1];
    }
  }

  /** The source's loop, which validates the range and then appends chunks. */
  method TransferChunks(g: Geometry, offset: U64, length: U64) returns (check: RangeCheck, chunks: seq<Chunk>)
    ensures check == CheckBackend(g.profile, offset, length)
    ensures check == Accepted ==> chunks == Chunks(g, offset, length)
    ensures check != Accepted ==> chunks == []
  {
    check, chunks := CheckBackend(g.profile, offset, length), [];
    if check != Accepted {
      return;
    }
    var maxIO := ChunkLimit(g, length);
    var remaining, at := length, offset;
    while remaining > 0
      invariant 0 <= remaining <= length && at == offset + (length - remaining)
      invariant chunks + ChunksFrom(at, remaining, maxIO) == Chunks(g, offset, length)
    {
      var n := maxIO;
      if n > remaining {
        n := remaining;
      }
      chunks := chunks + [Chunk(at, n)];
      at := at + n;
      remaining := remaining - n;
    }
  }
}
