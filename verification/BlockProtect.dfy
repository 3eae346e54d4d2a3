/**
 * Block protection of an SPI-NOR flash through the BP and TB bits of its status
 * register: drivers/mtd/spi-nor/spi-nor.c, lines 554-809.
 */
module BlockProtect {
  import opened Common
  import opened Arith

  const BP_MASK: bv8 := 0x1C
  const SR_TB: bv8 := 0x20
  const SR_SRWD: bv8 := 0x80

  /** What the lock code needs of the chip; `hasTb` is the SNOR_F_HAS_SR_TB flag. */
  datatype Chip = Chip(size: nat, hasTb: bool)

  /** Sizes are positive and fit the signed 64-bit offsets the code computes with. */
  predicate Valid(c: Chip)
  {
    0 < c.size < Pow2(63)
  }

  datatype Range = Range(ofs: nat, len: nat)

  /** The number of halvings the BP field stands for. */
  function Halvings(sr: bv8): nat
  {
    (((sr & BP_MASK) ^ BP_MASK) >> 2) as nat
  }

  predicate FromBottom(c: Chip, sr: bv8)
  {
    c.hasTb && sr & SR_TB != 0
  }

  /** stm_get_locked_range */
  function LockedRange(c: Chip, sr: bv8): (r: Range)
    ensures r.ofs + r.len <= c.size
  {
    if sr & BP_MASK == 0 then
      Range(0, 0)
    else
      var len := Shr(c.size, Halvings(sr));
      if FromBottom(c, sr) then Range(0, len) else Range(c.size - len, len)
  }

  /** The byte-level meaning of a status register: whether byte `b` is write protected. */
  predicate Locked(c: Chip, sr: bv8, b: nat)
  {
    var r := LockedRange(c, sr);
    r.ofs <= b < r.ofs + r.len
  }

  /** stm_check_lock_status_sr */
  predicate CheckLockStatus(c: Chip, ofs: nat, len: nat, sr: bv8, locked: bool)
  {
    if len == 0 then
      true
    else
      var r := LockedRange(c, sr);
      if locked then
        ofs + len <= r.ofs + r.len && ofs >= r.ofs
      else
        ofs >= r.ofs + r.len || ofs + len <= r.ofs
  }

  /** `mask - (pow << shift)` in an 8-bit variable. */
  function BpValue(pow: nat): bv8
    requires pow < 256
  {
    BP_MASK - ((pow as bv8) << 2)
  }

  /** status_new of stm_lock: the new BP field, SRWD set, TB for a bottom range. */
  function LockRegister(sr: bv8, val: bv8, useTop: bool): bv8
  {
    (sr & !BP_MASK & !SR_TB) | val | SR_SRWD | (if useTop then 0 else SR_TB)
  }

  /** status_new of stm_unlock: SRWD is dropped once nothing stays locked. */
  function UnlockRegister(sr: bv8, val: bv8, useTop: bool, none: bool): bv8
  {
    var base := (sr & !BP_MASK & !SR_TB) | val;
    (if none then base & !SR_SRWD else base) | (if useTop then 0 else SR_TB)
  }

  datatype Decision =
    | AlreadyDone        // return 0 without touching the register
    | Refused            // -EINVAL
    | Write(sr: bv8)     // write this register value

  predicate InBounds(c: Chip, ofs: nat, len: nat)
  {
    Valid(c) && ofs + len <= c.size
  }

  /** Whether stm_lock protects from the top of the flash down. */
  predicate LockUsesTop(c: Chip, sr: bv8, ofs: nat, len: nat)
    requires InBounds(c, ofs, len)
  {
    CheckLockStatus(c, ofs + len, c.size - (ofs + len), sr, true)
  }

  function LockLength(c: Chip, sr: bv8, ofs: nat, len: nat): nat
    requires InBounds(c, ofs, len)
  {
    if LockUsesTop(c, sr, ofs, len) then c.size - ofs else ofs + len
  }

  function LockDecision(c: Chip, sr: bv8, ofs: nat, len: nat): Decision
    requires InBounds(c, ofs, len)
  {
    if CheckLockStatus(c, ofs, len, sr, true) then
      AlreadyDone
    else
      var canBeBottom := c.hasTb && CheckLockStatus(c, 0, ofs, sr, true);
      var useTop := LockUsesTop(c, sr, ofs, len);
      if !canBeBottom && !useTop then
        Refused
      else
        var lockLen := LockLength(c, sr, ofs, len);
        PowInRange(c, lockLen);
        LockChoice(sr, Log2(c.size) - Log2(lockLen), useTop)
  }

  /** The last part of stm_lock: what becomes of the register for a number of halvings and a side. */
  function LockChoice(sr: bv8, pow: nat, useTop: bool): Decision
    requires pow < 256
  {
    var val := BpValue(pow);
    var sr' := LockRegister(sr, val, useTop);
    if val & !BP_MASK != 0 || val & BP_MASK == 0 then Refused
    else if sr' == sr then AlreadyDone
    else if sr' & BP_MASK < sr & BP_MASK then Refused
    else Write(sr')
  }

  /** Whether stm_unlock keeps protecting from the top of the flash down. */
  predicate UnlockUsesTop(c: Chip, sr: bv8, ofs: nat, len: nat)
    requires InBounds(c, ofs, len)
  {
    CheckLockStatus(c, 0, ofs, sr, false)
  }

  function RemainingLength(c: Chip, sr: bv8, ofs: nat, len: nat): nat
    requires InBounds(c, ofs, len)
  {
    if UnlockUsesTop(c, sr, ofs, len) then c.size - (ofs + len) else ofs
  }

  function UnlockDecision(c: Chip, sr: bv8, ofs: nat, len: nat): Decision
    requires InBounds(c, ofs, len)
  {
    if CheckLockStatus(c, ofs, len, sr, false) then
      AlreadyDone
    else
      var useTop := UnlockUsesTop(c, sr, ofs, len);
      var canBeBottom := c.hasTb && CheckLockStatus(c, ofs + len, c.size - (ofs + len), sr, false);
      if !canBeBottom && !useTop then
        Refused
      else
        var lockLen := RemainingLength(c, sr, ofs, len);
        UnlockChoice(sr, RemainingValue(c, lockLen), useTop, lockLen == 0)
  }

  /** The BP field for a remaining length, before the test that it fits. */
  function RemainingValue(c: Chip, rem: nat): bv8
    requires Valid(c) && rem <= c.size
  {
    if rem == 0 then 0 else BpValue(RemainingPow(c, rem))
  }

  /** The last part of stm_unlock. */
  function UnlockChoice(sr: bv8, val: bv8, useTop: bool, none: bool): Decision
  {
    var sr' := UnlockRegister(sr, val, useTop, none);
    if val & !BP_MASK != 0 then Refused
    else if sr' == sr then AlreadyDone
    else if sr' & BP_MASK > sr & BP_MASK then Refused
    else Write(sr')
  }

  /**
   * The 8-bit `pow` of stm_unlock. Without a power-of-two size the difference can be -1 (never
   * less), which the 8-bit variable holds as 255.
   */
  function RemainingPow(c: Chip, lockLen: nat): (r: nat)
    requires Valid(c) && 0 < lockLen <= c.size
    ensures r < 256
  {
    LogBelow63(c);
    if CeilLog2(lockLen) > Log2(c.size) then 255 else Log2(c.size) - CeilLog2(lockLen)
  }

  lemma PowInRange(c: Chip, lockLen: nat)
    requires Valid(c) && 0 < lockLen <= c.size
    ensures 0 <= Log2(c.size) - Log2(lockLen) < 64
  {
    LogBelow63(c);
    Log2Monotone(lockLen, c.size);
  }

  lemma LogBelow63(c: Chip)
    requires Valid(c)
    ensures Log2(c.size) < 63
  {
    Log2Bounds(c.size);
    if Log2(c.size) >= 63 {
      Pow2Monotone(63, Log2(c.size));
    }
  }

  // ----- the register arithmetic

  /** The 8-bit test rejects exactly the exponents above 7, although the subtraction wraps. */
  lemma BpValueFits(pow: nat)
    requires pow < 64
    ensures BpValue(pow) & !BP_MASK != 0 <==> pow > 7
    ensures pow <= 7 ==> Halvings(BpValue(pow)) == pow
    ensures pow <= 7 ==> (BpValue(pow) & BP_MASK == 0 <==> pow == 7)
  {
  }

  lemma BpOrder(a: bv8, b: bv8)
    ensures a & BP_MASK < b & BP_MASK <==> Halvings(a) > Halvings(b)
    ensures Halvings(a) <= 7
    ensures Halvings(a) == 7 <==> a & BP_MASK == 0
  {
  }

  /** What the new register values hold: the BP field, TB, and every unrelated bit as before. */
  lemma RegisterBits(sr: bv8, val: bv8, useTop: bool, none: bool)
    requires val & !BP_MASK == 0
    ensures var sr' := LockRegister(sr, val, useTop);
            && sr' & BP_MASK == val && (sr' & SR_TB == 0 <==> useTop) && Halvings(sr') == Halvings(val)
            && sr' & SR_SRWD != 0 && sr' & 0x43 == sr & 0x43
    ensures var sr' := UnlockRegister(sr, val, useTop, none);
            && sr' & BP_MASK == val && (sr' & SR_TB == 0 <==> useTop) && Halvings(sr') == Halvings(val)
            && sr' & SR_SRWD == (if none then 0 else sr & SR_SRWD) && sr' & 0x43 == sr & 0x43
  {
  }

  /** The two answers of the status check are statements about every byte of the range. */
  lemma CheckLockStatusMeans(c: Chip, ofs: nat, len: nat, sr: bv8)
    requires InBounds(c, ofs, len)
    ensures CheckLockStatus(c, ofs, len, sr, true) <==> forall b :: ofs <= b < ofs + len ==> Locked(c, sr, b)
    ensures CheckLockStatus(c, ofs, len, sr, false) <==> forall b :: ofs <= b < ofs + len ==> !Locked(c, sr, b)
  {
    var r := LockedRange(c, sr);
    if len > 0 {
      assert Locked(c, sr, ofs) <==> r.ofs <= ofs < r.ofs + r.len;
      assert Locked(c, sr, ofs + len - 1) <==> r.ofs <= ofs + len - 1 < r.ofs + r.len;
      if !CheckLockStatus(c, ofs, len, sr, false) {
        assert Locked(c, sr, if ofs >= r.ofs then ofs else r.ofs);
      }
    }
  }

  // ----- stm_lock

  /** The register a successful call leaves behind. */
  function After(sr: bv8, d: Decision): bv8
    requires !d.Refused?
  {
    if d.Write? then d.sr else sr
  }

  /** Past the early return, a call that is not refused ends with a register of at most 6 halvings. */
  lemma LockDecisionShape(c: Chip, sr: bv8, ofs: nat, len: nat)
    requires InBounds(c, ofs, len)
    requires !CheckLockStatus(c, ofs, len, sr, true)
    requires !LockDecision(c, sr, ofs, len).Refused?
    ensures 0 < LockLength(c, sr, ofs, len) <= c.size
    ensures var pow := Log2(c.size) - Log2(LockLength(c, sr, ofs, len));
            && 0 <= pow <= 6
            && After(sr, LockDecision(c, sr, ofs, len)) ==
               LockRegister(sr, BpValue(pow), LockUsesTop(c, sr, ofs, len))
    ensures LockUsesTop(c, sr, ofs, len) || (c.hasTb && CheckLockStatus(c, 0, ofs, sr, true))
    ensures !(After(sr, LockDecision(c, sr, ofs, len)) & BP_MASK < sr & BP_MASK)
  {
    var lockLen := LockLength(c, sr, ofs, len);
    PowInRange(c, lockLen);
    BpValueFits(Log2(c.size) - Log2(lockLen));
  }

  /** What a lock of `lockLen` bytes protects: the chip halved as often as the BP field says. */
  function Rounded(c: Chip, lockLen: nat): nat
    requires Valid(c) && 0 < lockLen <= c.size
  {
    PowInRange(c, lockLen);
    Shr(c.size, Log2(c.size) - Log2(lockLen))
  }

  /** On a power-of-two chip that is the largest power of two in `lockLen`. */
  lemma RoundedPow2(c: Chip, lockLen: nat)
    requires Valid(c) && IsPow2(c.size) && 0 < lockLen <= c.size
    ensures Rounded(c, lockLen) == Pow2(Log2(lockLen)) <= lockLen
    ensures Rounded(c, lockLen) >= lockLen <==> IsPow2(lockLen)
    ensures Rounded(c, lockLen) == c.size <==> lockLen == c.size
  {
    PowInRange(c, lockLen);
    ShrPow2(Log2(c.size), Log2(c.size) - Log2(lockLen));
    Log2Bounds(lockLen);
  }

  /** Past the early return, a lock that is not refused protects `Rounded` bytes at the chosen end. */
  lemma LockedAfterLock(c: Chip, sr: bv8, ofs: nat, len: nat)
    requires InBounds(c, ofs, len)
    requires !CheckLockStatus(c, ofs, len, sr, true)
    requires !LockDecision(c, sr, ofs, len).Refused?
    ensures 0 < LockLength(c, sr, ofs, len) <= c.size
    ensures var n := Rounded(c, LockLength(c, sr, ofs, len));
            var r := LockedRange(c, After(sr, LockDecision(c, sr, ofs, len)));
            r.len == n && r.ofs == if LockUsesTop(c, sr, ofs, len) then c.size - n else 0
  {
    LockDecisionShape(c, sr, ofs, len);
    var pow := Log2(c.size) - Log2(LockLength(c, sr, ofs, len));
    BpValueFits(pow);
    RegisterBits(sr, BpValue(pow), LockUsesTop(c, sr, ofs, len), false);
  }

  /** Nothing is locked that was neither locked before nor asked for. */
  ghost predicate AddsOnlyRequest(c: Chip, sr: bv8, sr': bv8, ofs: nat, len: nat)
  {
    forall b: nat :: Locked(c, sr', b) ==> Locked(c, sr, b) || ofs <= b < ofs + len
  }

  ghost predicate CoversRequest(c: Chip, sr: bv8, ofs: nat, len: nat)
  {
    forall b: nat :: ofs <= b < ofs + len ==> Locked(c, sr, b)
  }

  ghost predicate KeepsLocked(c: Chip, sr: bv8, sr': bv8)
  {
    forall b: nat :: Locked(c, sr, b) ==> Locked(c, sr', b)
  }

  /**
   * Past the early return, a successful lock adds only the request exactly when rounding does not
   * overshoot, or the bytes below the request, into which a lock from the top overshoots, were
   * locked before (which takes a TB bit).
   */
  lemma LockAddsOnlyRequestIff(c: Chip, sr: bv8, ofs: nat, len: nat)
    requires InBounds(c, ofs, len)
    requires !CheckLockStatus(c, ofs, len, sr, true)
    requires !LockDecision(c, sr, ofs, len).Refused?
    ensures 0 < LockLength(c, sr, ofs, len) <= c.size
    ensures AddsOnlyRequest(c, sr, After(sr, LockDecision(c, sr, ofs, len)), ofs, len) <==>
            || Rounded(c, LockLength(c, sr, ofs, len)) <= LockLength(c, sr, ofs, len)
            || (LockUsesTop(c, sr, ofs, len) && CheckLockStatus(c, 0, ofs, sr, true))
    ensures !c.hasTb ==> (LockUsesTop(c, sr, ofs, len) && CheckLockStatus(c, 0, ofs, sr, true) ==> ofs == 0)
  {
    var sr' := After(sr, LockDecision(c, sr, ofs, len));
    var lockLen := LockLength(c, sr, ofs, len);
    LockedAfterLock(c, sr, ofs, len);
    LockDecisionShape(c, sr, ofs, len);
    EmptyOrAnchored(c, sr);
    var n, top := Rounded(c, lockLen), LockUsesTop(c, sr, ofs, len);
    if n > lockLen && !top {
      assert Locked(c, sr', ofs + len) && !Locked(c, sr, ofs + len);
    }
    if AddsOnlyRequest(c, sr, sr', ofs, len) && n > lockLen && top {
      assert Locked(c, sr', c.size - n) && Locked(c, sr', ofs - 1);
      assert Locked(c, sr, c.size - n) && Locked(c, sr, ofs - 1);
    }
  }

  /** A successful lock protects the whole request exactly when rounding does not fall short. */
  lemma LockCoversRequestIff(c: Chip, sr: bv8, ofs: nat, len: nat)
    requires InBounds(c, ofs, len)
    requires !CheckLockStatus(c, ofs, len, sr, true)
    requires !LockDecision(c, sr, ofs, len).Refused?
    ensures 0 < LockLength(c, sr, ofs, len) <= c.size
    ensures CoversRequest(c, After(sr, LockDecision(c, sr, ofs, len)), ofs, len) <==>
            Rounded(c, LockLength(c, sr, ofs, len)) >= LockLength(c, sr, ofs, len)
  {
    LockedAfterLock(c, sr, ofs, len);
    CheckLockStatusMeans(c, ofs, len, After(sr, LockDecision(c, sr, ofs, len)));
  }

  /** A BP field that is not smaller protects no shorter range. */
  lemma LongerRange(c: Chip, a: bv8, b: bv8)
    requires !(b & BP_MASK < a & BP_MASK)
    ensures LockedRange(c, a).len <= LockedRange(c, b).len
  {
    BpOrder(a, b);
    BpOrder(b, a);
    ShrMonotone(c.size, Halvings(b), Halvings(a));
  }

  /** Inclusion of locked bytes is inclusion of the decoded ranges. */
  lemma RangeInclusion(c: Chip, a: bv8, b: bv8)
    ensures var r, s := LockedRange(c, a), LockedRange(c, b);
            (forall x :: Locked(c, a, x) ==> Locked(c, b, x)) <==>
            r.len == 0 || (s.ofs <= r.ofs && r.ofs + r.len <= s.ofs + s.len)
  {
    var r, s := LockedRange(c, a), LockedRange(c, b);
    if r.len > 0 {
      assert Locked(c, a, r.ofs) && Locked(c, a, r.ofs + r.len - 1);
      assert Locked(c, b, r.ofs) <==> s.ofs <= r.ofs < s.ofs + s.len;
      assert Locked(c, b, r.ofs + r.len - 1) <==> s.ofs <= r.ofs + r.len - 1 < s.ofs + s.len;
    }
  }

  /** Without a TB bit a successful lock unlocks nothing, whatever the size. */
  lemma LockKeepsOldWithoutTb(c: Chip, sr: bv8, ofs: nat, len: nat)
    requires InBounds(c, ofs, len) && !c.hasTb
    requires !LockDecision(c, sr, ofs, len).Refused?
    ensures KeepsLocked(c, sr, After(sr, LockDecision(c, sr, ofs, len)))
  {
    if !CheckLockStatus(c, ofs, len, sr, true) {
      var sr' := After(sr, LockDecision(c, sr, ofs, len));
      LockDecisionShape(c, sr, ofs, len);
      LongerRange(c, sr, sr');
      RangeInclusion(c, sr, sr');
    }
  }

  /**
   * With a TB bit the last guard compares BP fields only, so a lock that changes side drops the
   * old range. It keeps every locked byte exactly when nothing was locked, the side stays, or the
   * whole chip gets locked.
   */
  lemma LockKeepsOldIff(c: Chip, sr: bv8, ofs: nat, len: nat)
    requires InBounds(c, ofs, len)
    requires !CheckLockStatus(c, ofs, len, sr, true)
    requires !LockDecision(c, sr, ofs, len).Refused?
    ensures 0 < LockLength(c, sr, ofs, len) <= c.size
    ensures KeepsLocked(c, sr, After(sr, LockDecision(c, sr, ofs, len))) <==>
            || LockedRange(c, sr).len == 0
            || FromBottom(c, sr) != LockUsesTop(c, sr, ofs, len)
            || Rounded(c, LockLength(c, sr, ofs, len)) == c.size
  {
    var sr' := After(sr, LockDecision(c, sr, ofs, len));
    LockDecisionShape(c, sr, ofs, len);
    LockedAfterLock(c, sr, ofs, len);
    LongerRange(c, sr, sr');
    RangeInclusion(c, sr, sr');
    EmptyOrAnchored(c, sr);
  }

  /** On a power-of-two chip a lock adds only the request, and covers it when lock_len is a power of two. */
  lemma LockOnPow2(c: Chip, sr: bv8, ofs: nat, len: nat)
    requires InBounds(c, ofs, len) && IsPow2(c.size)
    requires !CheckLockStatus(c, ofs, len, sr, true)
    requires !LockDecision(c, sr, ofs, len).Refused?
    ensures AddsOnlyRequest(c, sr, After(sr, LockDecision(c, sr, ofs, len)), ofs, len)
    ensures CoversRequest(c, After(sr, LockDecision(c, sr, ofs, len)), ofs, len) <==>
            IsPow2(LockLength(c, sr, ofs, len))
  {
    LockAddsOnlyRequestIff(c, sr, ofs, len);
    LockCoversRequestIff(c, sr, ofs, len);
    RoundedPow2(c, LockLength(c, sr, ofs, len));
  }

  /** A locked range is empty or touches the end its TB bit names. */
  lemma EmptyOrAnchored(c: Chip, sr: bv8)
    ensures var r := LockedRange(c, sr);
            r.len == 0 || (if FromBottom(c, sr) then r.ofs == 0 else r.ofs + r.len == c.size)
  {
  }

  /** A lock of the upper half releases a byte locked from the bottom. */
  lemma LockCanUnlock(c: Chip)
    requires c == Chip(64, true)
    ensures Valid(c) && LockDecision(c, 0x24, 32, 32) == Write(0x98)
    ensures Locked(c, 0x24, 0) && !Locked(c, 0x98, 0)
  {
    assert 64 < Pow2(63) by { Pow2Monotone(6, 62); }
    assert LockedRange(c, 0x24) == Range(0, 1) by {
      assert Halvings(0x24) == 6 && Shr(64, 6) == 1;
    }
    assert LockedRange(c, 0x98) == Range(32, 32) by {
      assert Halvings(0x98) == 1 && Shr(64, 1) == 32;
    }
    assert Log2(64) - Log2(32) == 1;
    assert BpValue(1) == 0x18 && LockRegister(0x24, 0x18, true) == 0x98;
  }

  /** Without a power-of-two size a lock can protect bytes nobody asked for. */
  lemma LockOvershootsOddSize(c: Chip)
    requires c == Chip(96, false)
    ensures Valid(c) && LockDecision(c, 0, 64, 32) == Write(0x98)
    ensures Locked(c, 0x98, 48) && !Locked(c, 0, 48)
  {
    assert 96 < Pow2(63) by { Pow2Monotone(7, 62); }
    assert LockedRange(c, 0x98) == Range(48, 48) by {
      assert Halvings(0x98) == 1 && Shr(96, 1) == 48;
    }
    assert Log2(96) - Log2(32) == 1;
    assert BpValue(1) == 0x18 && LockRegister(0, 0x18, true) == 0x98;
  }

  // ----- stm_unlock

  /** An unlock keeps every byte outside the request as it was and locks no byte. */
  ghost predicate UnlockFrame(c: Chip, sr: bv8, sr': bv8, ofs: nat, len: nat)
  {
    && (forall b: nat :: !(ofs <= b < ofs + len) ==> (Locked(c, sr', b) <==> Locked(c, sr, b)))
    && (forall b :: Locked(c, sr', b) ==> Locked(c, sr, b))
  }

  lemma UnlockDecisionShape(c: Chip, sr: bv8, ofs: nat, len: nat)
    requires InBounds(c, ofs, len)
    requires !CheckLockStatus(c, ofs, len, sr, false)
    requires !UnlockDecision(c, sr, ofs, len).Refused?
    ensures var rem := RemainingLength(c, sr, ofs, len);
            && rem <= c.size
            && RemainingValue(c, rem) & !BP_MASK == 0
            && After(sr, UnlockDecision(c, sr, ofs, len)) ==
               UnlockRegister(sr, RemainingValue(c, rem), UnlockUsesTop(c, sr, ofs, len), rem == 0)
    ensures UnlockUsesTop(c, sr, ofs, len) ||
            (c.hasTb && CheckLockStatus(c, ofs + len, c.size - (ofs + len), sr, false))
    ensures !(sr & BP_MASK < After(sr, UnlockDecision(c, sr, ofs, len)) & BP_MASK)
  {
  }

  /** Whether the remaining length can be expressed: at most six halvings are left to encode. */
  predicate Expressible(c: Chip, rem: nat)
    requires Valid(c) && rem <= c.size
  {
    rem > 0 && RemainingPow(c, rem) <= 6
  }

  /** What stays protected is at least the remaining length, or nothing if that cannot be expressed. */
  lemma UnlockRegisterRange(c: Chip, sr: bv8, rem: nat, top: bool)
    requires Valid(c) && rem <= c.size
    requires RemainingValue(c, rem) & !BP_MASK == 0 && (top || c.hasTb)
    ensures var r := LockedRange(c, UnlockRegister(sr, RemainingValue(c, rem), top, rem == 0));
            && (!Expressible(c, rem) ==> r.len == 0 && 128 * rem <= c.size)
            && (Expressible(c, rem) ==> rem <= r.len && r.ofs == (if top then c.size - r.len else 0))
  {
    RegisterBits(sr, RemainingValue(c, rem), top, rem == 0);
    if rem > 0 {
      RemainingFits(c, rem);
      BpValueFits(RemainingPow(c, rem));
      RemainingRounds(c, rem);
    }
  }

  /** Rounding up loses nothing, and only a small rest cannot be expressed. */
  lemma RemainingRounds(c: Chip, rem: nat)
    requires Valid(c) && 0 < rem <= c.size && CeilLog2(rem) <= Log2(c.size)
    ensures rem <= Shr(c.size, RemainingPow(c, rem))
    ensures RemainingPow(c, rem) > 6 ==> 128 * rem <= c.size
  {
    var n, k := Log2(c.size), CeilLog2(rem);
    Log2Bounds(c.size);
    CeilLog2Bounds(rem);
    ShrAtLeast(c.size, n, n - k);
    if n - k > 6 {
      Pow2Monotone(k, n - 7);
      SevenDoublings(n - 7, n);
    }
  }

  /** The test rejects an exponent that has wrapped, so it is below 64 otherwise. */
  lemma RemainingFits(c: Chip, rem: nat)
    requires Valid(c) && 0 < rem <= c.size && BpValue(RemainingPow(c, rem)) & !BP_MASK == 0
    ensures CeilLog2(rem) <= Log2(c.size) && RemainingPow(c, rem) < 64
  {
    LogBelow63(c);
    assert BpValue(255) & !BP_MASK != 0;
  }

  /** With a power-of-two size the unlock exponent does not wrap. */
  lemma RemainingPowRange(c: Chip, rem: nat)
    requires Valid(c) && IsPow2(c.size) && 0 < rem <= c.size
    ensures RemainingPow(c, rem) == Log2(c.size) - CeilLog2(rem) < 64
    ensures Expressible(c, rem) <==> 128 * rem > c.size
  {
    LogBelow63(c);
    CeilLog2Bounds(rem);
    CeilLog2Threshold(rem, Log2(c.size));
  }

  lemma CeilLog2Threshold(rem: nat, n: nat)
    requires 0 < rem <= Pow2(n)
    ensures CeilLog2(rem) <= n
    ensures n - CeilLog2(rem) <= 6 <==> 128 * rem > Pow2(n)
  {
    CeilLog2Bounds(rem);
    var k := CeilLog2(rem);
    if k > n {
      Pow2Monotone(n, k);
      assert false;
    }
    if n - k <= 6 {
      SevenDoublings(k, n);
    } else {
      Pow2Monotone(k, n - 7);
      SevenDoublings(n - 7, n);
    }
  }

  lemma SevenDoublings(a: nat, b: nat)
    requires a <= b <= a + 7
    ensures Pow2(b) <= 128 * Pow2(a)
    ensures b < a + 7 ==> Pow2(b) <= 64 * Pow2(a)
    ensures b == a + 7 ==> Pow2(b) == 128 * Pow2(a)
  {
    assert Pow2(a + 1) == 2 * Pow2(a);
    assert Pow2(a + 2) == 4 * Pow2(a);
    assert Pow2(a + 3) == 8 * Pow2(a);
    assert Pow2(a + 4) == 16 * Pow2(a);
    assert Pow2(a + 5) == 32 * Pow2(a);
    assert Pow2(a + 6) == 64 * Pow2(a);
    assert Pow2(a + 7) == 128 * Pow2(a);
  }

  /** A chip that is not fully locked is locked at most by half. */
  lemma AtMostHalf(c: Chip, sr: bv8)
    ensures LockedRange(c, sr).len == c.size || 2 * LockedRange(c, sr).len <= c.size
  {
    BpOrder(sr, sr);
    var k := Halvings(sr);
    if k > 0 && sr & BP_MASK != 0 {
      ShrMonotone(c.size, 1, k);
    }
  }

  /**
   * When a successful unlock is framed: nothing had to be done, nothing has to stay locked, or the
   * rest can be expressed and stays on the side it was, or the rest cannot be expressed and was not
   * locked anyway.
   */
  predicate UnlockIsFramed(c: Chip, sr: bv8, ofs: nat, len: nat)
    requires InBounds(c, ofs, len)
  {
    var rem := RemainingLength(c, sr, ofs, len);
    var full := LockedRange(c, sr).len == c.size;
    var top := UnlockUsesTop(c, sr, ofs, len);
    || CheckLockStatus(c, ofs, len, sr, false)
    || rem == 0
    || (Expressible(c, rem) && (full || FromBottom(c, sr) != top))
    || (!Expressible(c, rem) && !full && FromBottom(c, sr) && top)
  }

  /** That condition is exact, with or without TB, for every chip size. */
  lemma UnlockFrameIff(c: Chip, sr: bv8, ofs: nat, len: nat)
    requires InBounds(c, ofs, len)
    requires !UnlockDecision(c, sr, ofs, len).Refused?
    ensures UnlockFrame(c, sr, After(sr, UnlockDecision(c, sr, ofs, len)), ofs, len) <==>
            UnlockIsFramed(c, sr, ofs, len)
  {
    if !CheckLockStatus(c, ofs, len, sr, false) {
      var sr' := After(sr, UnlockDecision(c, sr, ofs, len));
      UnlockDecisionShape(c, sr, ofs, len);
      UnlockRegisterRange(c, sr, RemainingLength(c, sr, ofs, len), UnlockUsesTop(c, sr, ofs, len));
      LongerRange(c, sr', sr);
      EmptyOrAnchored(c, sr);
      AtMostHalf(c, sr);
      FrameOfRanges(c, sr, sr', ofs, len);
    }
  }

  /** The frame in terms of the decoded ranges, for a request that meets the old one. */
  lemma FrameOfRanges(c: Chip, sr: bv8, sr': bv8, ofs: nat, len: nat)
    ensures var r, s := LockedRange(c, sr), LockedRange(c, sr');
            UnlockFrame(c, sr, sr', ofs, len) <==>
            && (s.len == 0 || (r.ofs <= s.ofs && s.ofs + s.len <= r.ofs + r.len))
            && (r.len > 0 && r.ofs < ofs ==>
                s.ofs <= r.ofs && (if r.ofs + r.len < ofs then r.ofs + r.len else ofs) <= s.ofs + s.len)
            && (r.len > 0 && ofs + len < r.ofs + r.len ==>
                s.ofs <= (if r.ofs < ofs + len then ofs + len else r.ofs) && r.ofs + r.len <= s.ofs + s.len)
  {
    var r, s := LockedRange(c, sr), LockedRange(c, sr');
    RangeInclusion(c, sr', sr);
    if UnlockFrame(c, sr, sr', ofs, len) {
      if r.len > 0 && r.ofs < ofs {
        var last := (if r.ofs + r.len < ofs then r.ofs + r.len else ofs) - 1;
        assert Locked(c, sr, r.ofs) && Locked(c, sr, last);
        assert Locked(c, sr', r.ofs) && Locked(c, sr', last);
      }
      if r.len > 0 && ofs + len < r.ofs + r.len {
        var first := if r.ofs < ofs + len then ofs + len else r.ofs;
        assert Locked(c, sr, first) && Locked(c, sr, r.ofs + r.len - 1);
        assert Locked(c, sr', first) && Locked(c, sr', r.ofs + r.len - 1);
      }
    }
  }

  /** Without TB: a successful unlock is framed exactly when the rest is empty or above size/128. */
  lemma UnlockFrameWithoutTb(c: Chip, sr: bv8, ofs: nat, len: nat)
    requires InBounds(c, ofs, len) && IsPow2(c.size) && !c.hasTb && len > 0
    requires !UnlockDecision(c, sr, ofs, len).Refused?
    ensures UnlockFrame(c, sr, After(sr, UnlockDecision(c, sr, ofs, len)), ofs, len) <==>
            || CheckLockStatus(c, ofs, len, sr, false)
            || c.size == ofs + len
            || 128 * (c.size - (ofs + len)) > c.size
  {
    UnlockFrameIff(c, sr, ofs, len);
    var rem := RemainingLength(c, sr, ofs, len);
    if rem > 0 {
      RemainingPowRange(c, rem);
    }
    if !CheckLockStatus(c, ofs, len, sr, false) {
      UnlockDecisionShape(c, sr, ofs, len);
    }
  }

  /** Unlocking all but the top 1/128 of a fully locked chip unlocks that part as well. */
  lemma UnlockCanLoseRest(c: Chip)
    requires c == Chip(128, false)
    ensures Valid(c) && UnlockDecision(c, 0x9C, 0, 127) == Write(0x80)
    ensures Locked(c, 0x9C, 127) && !Locked(c, 0x80, 127)
  {
    assert 128 < Pow2(63) by { Pow2Monotone(8, 62); }
    assert LockedRange(c, 0x9C) == Range(0, 128) by {
      assert Halvings(0x9C) == 0 && Shr(128, 0) == 128;
    }
    assert RemainingPow(c, 1) == 7 by {
      assert Log2(128) == 7 && CeilLog2(1) == 0;
    }
    assert BpValue(7) == 0 && UnlockRegister(0x9C, 0, true, false) == 0x80;
  }

  /** Unlocking the lower half of a chip locked from the bottom locks its upper half. */
  lemma UnlockCanLock(c: Chip)
    requires c == Chip(64, true)
    ensures Valid(c) && UnlockDecision(c, 0x38, 0, 32) == Write(0x18)
    ensures !Locked(c, 0x38, 63) && Locked(c, 0x18, 63)
  {
    assert 64 < Pow2(63) by { Pow2Monotone(6, 62); }
    assert LockedRange(c, 0x38) == Range(0, 32) && LockedRange(c, 0x18) == Range(32, 32) by {
      assert Halvings(0x38) == 1 && Halvings(0x18) == 1 && Shr(64, 1) == 32;
    }
    assert RemainingPow(c, 32) == 1 by {
      assert Log2(64) == 6 && Log2(31) == 4;
    }
    assert BpValue(1) == 0x18 && UnlockRegister(0x38, 0x18, true, false) == 0x18;
  }

  /** What a successful lock does to every byte: three promises and exactly when each is kept. */
  ghost predicate LockReport(c: Chip, sr: bv8, sr': bv8, ofs: nat, len: nat)
    requires InBounds(c, ofs, len)
  {
    if CheckLockStatus(c, ofs, len, sr, true) then sr' == sr
    else
      var lockLen, top := LockLength(c, sr, ofs, len), LockUsesTop(c, sr, ofs, len);
      && 0 < lockLen <= c.size
      && var n := Rounded(c, lockLen);
         && (AddsOnlyRequest(c, sr, sr', ofs, len) <==> n <= lockLen || (top && CheckLockStatus(c, 0, ofs, sr, true)))
         && (CoversRequest(c, sr', ofs, len) <==> n >= lockLen)
         && (KeepsLocked(c, sr, sr') <==> LockedRange(c, sr).len == 0 || FromBottom(c, sr) != top || n == c.size)
  }

  lemma LockReports(c: Chip, sr: bv8, ofs: nat, len: nat)
    requires InBounds(c, ofs, len)
    requires !LockDecision(c, sr, ofs, len).Refused?
    ensures LockReport(c, sr, After(sr, LockDecision(c, sr, ofs, len)), ofs, len)
  {
    if !CheckLockStatus(c, ofs, len, sr, true) {
      LockAddsOnlyRequestIff(c, sr, ofs, len);
      LockCoversRequestIff(c, sr, ofs, len);
      LockKeepsOldIff(c, sr, ofs, len);
    }
  }

  // ----- when the two calls refuse, and what they write, in terms of bytes

  ghost predicate AllLocked(c: Chip, sr: bv8, from: nat, to: nat)
  {
    forall b :: from <= b < to ==> Locked(c, sr, b)
  }

  ghost predicate NoneLocked(c: Chip, sr: bv8, from: nat, to: nat)
  {
    forall b :: from <= b < to ==> !Locked(c, sr, b)
  }

  /**
   * A lock is refused exactly if the range is not locked yet and it can be made from neither end,
   * or needs more than six halvings, or more than the register has. `done`, `below` and `above` say
   * whether the request, everything below it and everything above it is locked.
   */
  predicate LockStops(c: Chip, sr: bv8, ofs: nat, len: nat, done: bool, below: bool, above: bool)
    requires InBounds(c, ofs, len) && (done || len > 0)
  {
    && !done
    && var pow := Log2(c.size) - Log2(if above then c.size - ofs else ofs + len);
       (!above && !(c.hasTb && below)) || pow > 6 || pow > Halvings(sr)
  }

  /** What a lock that is neither done nor refused writes: the protected range, SRWD, and no other bit. */
  predicate LockHolds(c: Chip, sr: bv8, sr': bv8, ofs: nat, len: nat, above: bool)
    requires InBounds(c, ofs, len) && len > 0
  {
    && Halvings(sr') == Log2(c.size) - Log2(if above then c.size - ofs else ofs + len)
    && (sr' & SR_TB == 0 <==> above)
    && sr' & SR_SRWD != 0 && sr' & 0x43 == sr & 0x43
  }

  ghost predicate LockRefused(c: Chip, sr: bv8, ofs: nat, len: nat)
    requires InBounds(c, ofs, len)
  {
    LockStops(c, sr, ofs, len,
              AllLocked(c, sr, ofs, ofs + len), AllLocked(c, sr, 0, ofs), AllLocked(c, sr, ofs + len, c.size))
  }

  ghost predicate LockWrites(c: Chip, sr: bv8, sr': bv8, ofs: nat, len: nat)
    requires InBounds(c, ofs, len) && !AllLocked(c, sr, ofs, ofs + len)
  {
    LockHolds(c, sr, sr', ofs, len, AllLocked(c, sr, ofs + len, c.size))
  }

  lemma LockRefusedIff(c: Chip, sr: bv8, ofs: nat, len: nat)
    requires InBounds(c, ofs, len)
    ensures var d := LockDecision(c, sr, ofs, len);
            && (d.Refused? <==> LockRefused(c, sr, ofs, len))
            && (AllLocked(c, sr, ofs, ofs + len) ==> d.AlreadyDone?)
            && (!d.Refused? && !AllLocked(c, sr, ofs, ofs + len) ==> LockWrites(c, sr, After(sr, d), ofs, len))
            && (d.Write? ==> d.sr != sr)
  {
    CheckLockStatusBytes(c, ofs, len, sr);
    CheckLockStatusBytes(c, 0, ofs, sr);
    CheckLockStatusBytes(c, ofs + len, c.size - (ofs + len), sr);
    if !CheckLockStatus(c, ofs, len, sr, true) {
      var lockLen, top := LockLength(c, sr, ofs, len), LockUsesTop(c, sr, ofs, len);
      PowInRange(c, lockLen);
      var pow := Log2(c.size) - Log2(lockLen);
      LockBits(sr, pow, top);
      LockInBytes(c, sr, ofs, len, LockChoice(sr, pow, top), CheckLockStatus(c, 0, ofs, sr, true), top);
    }
  }

  lemma LockInBytes(c: Chip, sr: bv8, ofs: nat, len: nat, d: Decision, below: bool, above: bool)
    requires InBounds(c, ofs, len) && len > 0 && !AllLocked(c, sr, ofs, ofs + len)
    requires (below <==> AllLocked(c, sr, 0, ofs)) && (above <==> AllLocked(c, sr, ofs + len, c.size))
    requires LockMeans(sr, Log2(c.size) - Log2(if above then c.size - ofs else ofs + len), above, d)
    ensures (if !above && !(c.hasTb && below) then Refused else d).Refused? <==> LockRefused(c, sr, ofs, len)
    ensures (above || (c.hasTb && below)) && !d.Refused? ==> LockWrites(c, sr, After(sr, d), ofs, len)
  {
  }

  lemma CheckLockStatusBytes(c: Chip, ofs: nat, len: nat, sr: bv8)
    requires InBounds(c, ofs, len)
    ensures CheckLockStatus(c, ofs, len, sr, true) <==> AllLocked(c, sr, ofs, ofs + len)
    ensures CheckLockStatus(c, ofs, len, sr, false) <==> NoneLocked(c, sr, ofs, ofs + len)
  {
    CheckLockStatusMeans(c, ofs, len, sr);
  }

  /** A choice for a number of halvings and a side: when it refuses, and what the register then holds. */
  predicate LockMeans(sr: bv8, pow: int, top: bool, d: Decision)
  {
    && (d.Refused? <==> pow > 6 || pow > Halvings(sr))
    && (d.Write? ==> d.sr != sr)
    && (!d.Refused? ==>
        var sr' := After(sr, d);
        && Halvings(sr') == pow && (sr' & SR_TB == 0 <==> top)
        && sr' & SR_SRWD != 0 && sr' & 0x43 == sr & 0x43)
  }

  lemma LockBits(sr: bv8, pow: nat, top: bool)
    requires pow < 64
    ensures LockMeans(sr, pow, top, LockChoice(sr, pow, top))
  {
    BpValueFits(pow);
    if pow <= 6 {
      RegisterBits(sr, BpValue(pow), top, false);
      BpOrder(LockRegister(sr, BpValue(pow), top), sr);
    }
  }

  /**
   * An unlock is refused exactly if the range has a locked byte and the rest could stay locked from
   * neither end, or needs more than seven halvings, or fewer than the register has. `done`, `below`
   * and `above` say whether nothing in the request, below it and above it is locked.
   */
  predicate UnlockStops(c: Chip, sr: bv8, ofs: nat, len: nat, done: bool, below: bool, above: bool)
    requires InBounds(c, ofs, len)
  {
    && !done
    && var rest := if below then c.size - (ofs + len) else ofs;
       || (!below && !(c.hasTb && above))
       || (rest > 0 && !(Halvings(sr) <= Log2(c.size) - CeilLog2(rest) <= 7))
  }

  /** What an unlock that is neither done nor refused writes; SRWD goes with the last locked byte. */
  predicate UnlockHolds(c: Chip, sr: bv8, sr': bv8, ofs: nat, len: nat, below: bool)
    requires InBounds(c, ofs, len)
  {
    var rest := if below then c.size - (ofs + len) else ofs;
    && Halvings(sr') == (if rest == 0 then 7 else Log2(c.size) - CeilLog2(rest))
    && (sr' & SR_TB == 0 <==> below)
    && sr' & SR_SRWD == (if rest == 0 then 0 else sr & SR_SRWD) && sr' & 0x43 == sr & 0x43
  }

  ghost predicate UnlockRefused(c: Chip, sr: bv8, ofs: nat, len: nat)
    requires InBounds(c, ofs, len)
  {
    UnlockStops(c, sr, ofs, len,
                NoneLocked(c, sr, ofs, ofs + len), NoneLocked(c, sr, 0, ofs), NoneLocked(c, sr, ofs + len, c.size))
  }

  ghost predicate UnlockWrites(c: Chip, sr: bv8, sr': bv8, ofs: nat, len: nat)
    requires InBounds(c, ofs, len)
  {
    UnlockHolds(c, sr, sr', ofs, len, NoneLocked(c, sr, 0, ofs))
  }

  lemma UnlockRefusedIff(c: Chip, sr: bv8, ofs: nat, len: nat)
    requires InBounds(c, ofs, len)
    ensures var d := UnlockDecision(c, sr, ofs, len);
            && (d.Refused? <==> UnlockRefused(c, sr, ofs, len))
            && (NoneLocked(c, sr, ofs, ofs + len) ==> d.AlreadyDone?)
            && (!d.Refused? && !NoneLocked(c, sr, ofs, ofs + len) ==> UnlockWrites(c, sr, After(sr, d), ofs, len))
            && (d.Write? ==> d.sr != sr)
  {
    CheckLockStatusBytes(c, ofs, len, sr);
    CheckLockStatusBytes(c, 0, ofs, sr);
    CheckLockStatusBytes(c, ofs + len, c.size - (ofs + len), sr);
    if !CheckLockStatus(c, ofs, len, sr, false) {
      var rest, top := RemainingLength(c, sr, ofs, len), UnlockUsesTop(c, sr, ofs, len);
      UnlockBits(c, sr, rest, top);
      UnlockInBytes(c, sr, ofs, len, UnlockChoice(sr, RemainingValue(c, rest), top, rest == 0), top,
                    CheckLockStatus(c, ofs + len, c.size - (ofs + len), sr, false));
    }
  }

  lemma UnlockInBytes(c: Chip, sr: bv8, ofs: nat, len: nat, d: Decision, below: bool, above: bool)
    requires InBounds(c, ofs, len) && !NoneLocked(c, sr, ofs, ofs + len)
    requires (below <==> NoneLocked(c, sr, 0, ofs)) && (above <==> NoneLocked(c, sr, ofs + len, c.size))
    requires UnlockMeans(c, sr, if below then c.size - (ofs + len) else ofs, below, d)
    ensures (if !below && !(c.hasTb && above) then Refused else d).Refused? <==> UnlockRefused(c, sr, ofs, len)
    ensures (below || (c.hasTb && above)) && !d.Refused? ==> UnlockWrites(c, sr, After(sr, d), ofs, len)
  {
  }

  /** A choice for a remaining length and a side: when it refuses, and what the register then holds. */
  predicate UnlockMeans(c: Chip, sr: bv8, rest: nat, top: bool, d: Decision)
    requires Valid(c) && rest <= c.size
  {
    var pow := if rest == 0 then 7 else Log2(c.size) - CeilLog2(rest);
    && (d.Refused? <==> rest > 0 && !(Halvings(sr) <= pow <= 7))
    && (d.Write? ==> d.sr != sr)
    && (!d.Refused? ==>
        var sr' := After(sr, d);
        && Halvings(sr') == pow && (sr' & SR_TB == 0 <==> top)
        && sr' & SR_SRWD == (if rest == 0 then 0 else sr & SR_SRWD) && sr' & 0x43 == sr & 0x43)
  }

  lemma UnlockBits(c: Chip, sr: bv8, rest: nat, top: bool)
    requires Valid(c) && rest <= c.size
    ensures UnlockMeans(c, sr, rest, top, UnlockChoice(sr, RemainingValue(c, rest), top, rest == 0))
  {
    RemainingValueMeans(c, rest);
    UnlockChoiceMeans(sr, RemainingValue(c, rest), top, rest == 0);
  }

  lemma UnlockChoiceMeans(sr: bv8, val: bv8, top: bool, none: bool)
    ensures var d := UnlockChoice(sr, val, top, none);
            && (d.Refused? <==> val & !BP_MASK != 0 || Halvings(val) < Halvings(sr))
            && (d.Write? ==> d.sr != sr)
            && (!d.Refused? ==>
                var sr' := After(sr, d);
                && Halvings(sr') == Halvings(val) && (sr' & SR_TB == 0 <==> top)
                && sr' & SR_SRWD == (if none then 0 else sr & SR_SRWD) && sr' & 0x43 == sr & 0x43)
  {
    if val & !BP_MASK == 0 {
      RegisterBits(sr, val, top, none);
      BpOrder(sr, UnlockRegister(sr, val, top, none));
    }
  }

  /** The 8-bit value is a BP field exactly for exponents from 0 to 7, and then stands for the exponent. */
  lemma RemainingValueMeans(c: Chip, rest: nat)
    requires Valid(c) && rest <= c.size
    ensures var val := RemainingValue(c, rest);
            var pow := if rest == 0 then 7 else Log2(c.size) - CeilLog2(rest);
            && (val & !BP_MASK == 0 <==> 0 <= pow <= 7)
            && (0 <= pow <= 7 ==> Halvings(val) == pow)
    ensures forall sr :: Halvings(sr) <= 7
  {
    LogBelow63(c);
    assert BpValue(255) & !BP_MASK != 0;
    assert Halvings(0) == 7;
    if rest > 0 && RemainingPow(c, rest) < 64 {
      BpValueFits(RemainingPow(c, rest));
    }
    forall sr ensures Halvings(sr) <= 7 {
      BpOrder(sr, sr);
    }
  }

  // ----- the driver operations on the register

  /**
   * What the bus answers during one call: negative codes for a failing read, write or
   * ready-wait, and whether a failing write still reached the chip.
   */
  datatype Bus = Bus(readErr: int, writeErr: int, landed: bool, readyErr: int)

  /** How a call ends, given what it decided and what the bus answered. */
  predicate Carried(d: Decision, sr: bv8, sr': bv8, bus: Bus, ret: int)
  {
    if bus.readErr < 0 then
      ret == bus.readErr && sr' == sr
    else
      match d
      case AlreadyDone => ret == 0 && sr' == sr
      case Refused => ret == -EINVAL && sr' == sr
      case Write(v) =>
        if bus.writeErr < 0 then ret == bus.writeErr && sr' == (if bus.landed then v else sr)
        else ret == bus.readyErr && sr' == v
  }

  /** How the write of a register value ends; a value that is there already is not written. */
  predicate Written(sr: bv8, value: bv8, sr': bv8, bus: Bus, ret: int)
  {
    if value == sr then ret == 0 && sr' == sr
    else if bus.writeErr < 0 then ret == bus.writeErr && sr' == (if bus.landed then value else sr)
    else ret == bus.readyErr && sr' == value
  }

  class ProtectedFlash {
    const chip: Chip
    var sr: bv8

    constructor (chip: Chip, sr: bv8)
      ensures this.chip == chip && this.sr == sr
    {
      this.chip := chip;
      this.sr := sr;
    }

    /** write_enable, write_sr and the ready-wait. */
    method WriteStatus(value: bv8, bus: Bus) returns (ret: int)
      requires bus.readErr >= 0
      modifies this`sr
      ensures Carried(Write(value), old(sr), sr, bus, ret)
    {
      if bus.writeErr < 0 {
        if bus.landed {
          sr := value;
        }
        return bus.writeErr;
      }
      sr := value;
      return bus.readyErr;
    }

    /** stm_lock */
    method Lock(ofs: nat, len: nat, bus: Bus) returns (ret: int)
      requires InBounds(chip, ofs, len)
      modifies this`sr
      ensures Carried(LockDecision(chip, old(sr), ofs, len), old(sr), sr, bus, ret)
      ensures bus.readErr < 0 ==> ret == bus.readErr && sr == old(sr)
      ensures bus.readErr >= 0 && LockRefused(chip, old(sr), ofs, len) ==> ret == -EINVAL && sr == old(sr)
      ensures bus.readErr >= 0 && AllLocked(chip, old(sr), ofs, ofs + len) ==> ret == 0 && sr == old(sr)
      ensures bus.readErr >= 0 && !LockRefused(chip, old(sr), ofs, len) && !AllLocked(chip, old(sr), ofs, ofs + len) ==>
              exists v :: LockWrites(chip, old(sr), v, ofs, len) && Written(old(sr), v, sr, bus, ret)
      ensures ret == 0 ==> LockReport(chip, old(sr), sr, ofs, len)
    {
      if bus.readErr < 0 {
        return bus.readErr;
      }
      var d := LockDecision(chip, sr, ofs, len);
      LockRefusedIff(chip, sr, ofs, len);
      if d.Refused? {
        return -EINVAL;
      }
      LockReports(chip, sr, ofs, len);
      if d.AlreadyDone? {
        return 0;
      }
      ret := WriteStatus(d.sr, bus);
    }

    /** stm_unlock; the frame is kept exactly under the condition of `UnlockFrameIff`. */
    method Unlock(ofs: nat, len: nat, bus: Bus) returns (ret: int)
      requires InBounds(chip, ofs, len)
      modifies this`sr
      ensures Carried(UnlockDecision(chip, old(sr), ofs, len), old(sr), sr, bus, ret)
      ensures bus.readErr < 0 ==> ret == bus.readErr && sr == old(sr)
      ensures bus.readErr >= 0 && UnlockRefused(chip, old(sr), ofs, len) ==> ret == -EINVAL && sr == old(sr)
      ensures bus.readErr >= 0 && NoneLocked(chip, old(sr), ofs, ofs + len) ==> ret == 0 && sr == old(sr)
      ensures bus.readErr >= 0 && !UnlockRefused(chip, old(sr), ofs, len) &&
              !NoneLocked(chip, old(sr), ofs, ofs + len) ==>
              exists v :: UnlockWrites(chip, old(sr), v, ofs, len) && Written(old(sr), v, sr, bus, ret)
      ensures ret == 0 ==> (UnlockFrame(chip, old(sr), sr, ofs, len) <==> UnlockIsFramed(chip, old(sr), ofs, len))
    {
      if bus.readErr < 0 {
        return bus.readErr;
      }
      var d := UnlockDecision(chip, sr, ofs, len);
      UnlockRefusedIff(chip, sr, ofs, len);
      if d.Refused? {
        return -EINVAL;
      }
      UnlockFrameIff(chip, sr, ofs, len);
      if d.AlreadyDone? {
        return 0;
      }
      ret := WriteStatus(d.sr, bus);
    }
  }
}
