/**
 * Binding a block of MSI-X vectors to eventfds, all or nothing:
 * drivers/fpga/intel/feature-dev.c lines 303-367.
 */
module IrqBlock {
  import opened Common

  /** Where setting one vector fails, if it does. */
  datatype Luck = Fine | NoName | BadFd(err: int) | NoIrq(err: int)

  function Error(luck: Luck): int
  {
    match luck
    case Fine => 0
    case NoName => -ENOMEM
    case BadFd(err) => err
    case NoIrq(err) => err
  }

  /** The fd meant for vector `i` of a block; no table of fds means "clear". */
  function FdAt(fds: Option<seq<int>>, i: nat): int
  {
    if fds.Some? && i < |fds.value| then fds.value[i] else -1
  }

  /** None of the first `n` vectors with an fd of a block runs into a failure. */
  ghost predicate Smooth(fds: Option<seq<int>>, luck: nat -> Luck, n: nat)
  {
    forall i :: 0 <= i < n && fds.Some? && i < |fds.value| && fds.value[i] >= 0 ==> luck(i) == Fine
  }

  /** The trigger table after a bound block: its vectors as wanted, every other one as before. */
  ghost predicate Bound(before: seq<Option<nat>>, after: seq<Option<nat>>, start: nat, end: nat, fds: Option<seq<int>>)
  {
    && |after| == |before| && end <= |after|
    && (forall v :: start <= v < end ==>
          (after[v].Some? <==> fds.Some? && v - start < |fds.value| && fds.value[v - start] >= 0))
    && (forall v :: start <= v < end && after[v].Some? ==> after[v].value == fds.value[v - start])
    && (forall v :: 0 <= v < |after| && !(start <= v < end) ==> after[v] == before[v])
  }

  /** The trigger table after a rollback: vectors `start` up to `failed` clear, every other one as before. */
  ghost predicate RolledBack(before: seq<Option<nat>>, after: seq<Option<nat>>, start: nat, failed: nat)
  {
    && |after| == |before|
    && (forall v :: start <= v <= failed && v < |after| ==> after[v].None?)
    && (forall v :: 0 <= v < |after| && !(start <= v <= failed) ==> after[v] == before[v])
  }

  class Feature {
    var trigger: seq<Option<nat>>
    // what is held from the kernel for each vector: a name, an irq, a reference to an eventfd
    var names: set<nat>
    var irqs: set<nat>
    var refs: map<nat, nat>

    constructor (n: nat)
      ensures Valid() && |trigger| == n && forall v :: 0 <= v < n ==> trigger[v].None?
    {
      trigger := seq(n, _ => None);
      names, irqs, refs := {}, {}, map[];
    }

    /** Names, irqs and references correspond one to one with the non-null triggers. */
    ghost predicate Valid()
      reads this
    {
      && names == irqs == refs.Keys
      && (forall v :: v in refs <==> 0 <= v < |trigger| && trigger[v].Some?)
      && (forall v :: v in refs ==> trigger[v].value == refs[v])
    }

    /** fpga_set_vector_signal */
    method SetVector(vector: nat, fd: int, luck: Luck) returns (ret: int)
      requires Valid()
      modifies this
      ensures Valid() && |trigger| == |old(trigger)|
      ensures vector >= |trigger| ==> ret == -EINVAL && trigger == old(trigger)
      ensures vector < |trigger| ==>
              && ret == (if fd < 0 then 0 else Error(luck))
              && trigger == old(trigger)[vector := if fd >= 0 && luck == Fine then Some(fd) else None]
    {
      if vector >= |trigger| {
        return -EINVAL;
      }
      if trigger[vector].Some? {
        irqs := irqs - {vector};
        names := names - {vector};
        refs := refs - {vector};
        trigger := trigger[vector := None];
      }
      if fd < 0 {
        return 0;
      }
      if luck.NoName? {
        return -ENOMEM;
      }
      names := names + {vector};
      if luck.BadFd? {
        names := names - {vector};
        return luck.err;
      }
      refs := refs[vector := fd];
      if luck.NoIrq? {
        names := names - {vector};
        refs := refs - {vector};
        return luck.err;
      }
      irqs := irqs + {vector};
      trigger := trigger[vector := Some(fd)];
      return 0;
    }

    /**
     * fpga_msix_set_block. Success binds the whole block; failure at vector `failed` leaves every
     * vector from the start up to it clear. Vectors outside never change, even when start + count
     * wraps around and passes the guard.
     */
    method SetBlock(start: nat, count: nat, fds: Option<seq<int>>, luck: nat -> Luck)
      returns (ret: int, ghost failed: nat)
      requires Valid() && start < U32 && count < U32 && |trigger| < 0x8000_0000
      requires fds.Some? ==> |fds.value| == count
      requires forall i :: luck(i) != Fine ==> Error(luck(i)) < 0
      modifies this
      ensures Valid()
      ensures start >= |trigger| || (start + count) % U32 > |trigger| ==> ret == -EINVAL && trigger == old(trigger)
      ensures ret == 0 ==> Bound(old(trigger), trigger, start, start + count, fds)
      ensures ret != 0 ==> trigger == old(trigger) || RolledBack(old(trigger), trigger, start, failed)
      ensures ret != 0 && start < |trigger| && (start + count) % U32 <= |trigger| ==>
              && RolledBack(old(trigger), trigger, start, failed)
              && start <= failed < start + count
              && ret == (if failed >= |trigger| then -EINVAL else Error(luck(failed - start)))
              && (failed < |trigger| ==> fds.Some? && fds.value[failed - start] >= 0)
              && Smooth(fds, luck, failed - start)
      ensures ret == 0 ==> Smooth(fds, luck, count)
    {
      failed := start;
      if start >= |trigger| || (start + count) % U32 > |trigger| {
        return -EINVAL, failed;
      }
      var i, j: int := 0, start;
      ret := 0;
      while i < count && ret == 0
        invariant Valid() && |trigger| == |old(trigger)|
        invariant 0 <= i <= count && j == start + i
        invariant ret == 0 ==> Bound(old(trigger), trigger, start, j, fds)
        invariant forall v :: 0 <= v < |trigger| && !(start <= v < j) ==> trigger[v] == old(trigger)[v]
        invariant ret != 0 ==> i > 0 && j - 1 <= |trigger|
        invariant ret != 0 ==> ret == (if j - 1 >= |trigger| then -EINVAL else Error(luck(j - 1 - start)))
        invariant ret != 0 && j - 1 < |trigger| ==> FdAt(fds, i - 1) >= 0
        invariant Smooth(fds, luck, if ret == 0 then i else i - 1)
      {
        ret := SetVector(j, FdAt(fds, i), luck(i));
        i := i + 1;
        j := j + 1;
      }
      if ret != 0 {
        failed := j - 1;
        j := j - 1;
        while j >= start
          invariant Valid() && |trigger| == |old(trigger)| && ret != 0
          invariant start - 1 <= j <= failed
          invariant forall v :: j < v <= failed && v < |trigger| ==> trigger[v].None?
          invariant forall v :: 0 <= v < |trigger| && !(start <= v <= failed) ==> trigger[v] == old(trigger)[v]
        {
          var _ := SetVector(j, -1, Fine);
          j := j - 1;
        }
      }
    }
  }
}
