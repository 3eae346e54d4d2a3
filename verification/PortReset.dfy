/**
 * The nested disable counter of a port and the actors that share it: reset ioctls and the final
 * release, error clearing, and partial reconfiguration. Each works under its own lock, and every
 * critical section on the counter is one step. drivers/fpga/intel/feature-dev.c lines 236-292,
 * include/intel/feature-dev.h lines 1733-1775 and 1819-1838,
 * drivers/fpga/intel/afu-error.c lines 40-97, drivers/fpga/intel/fme-pr.c lines 393-400.
 */
module PortReset {
  import opened Common

  /**
   * The counter, the soft reset bit of the control register, and every value written to that bit.
   */
  datatype Control = Control(count: nat, inReset: bool, writes: seq<bool>)

  datatype Result = Result(ctl: Control, ret: int)

  /** __fpga_port_disable; `acked` says whether the hardware acknowledges before the timeout. */
  function Disable(c: Control, acked: bool): Result
  {
    var d := c.(count := (c.count + 1) % U32);
    if c.count != 0 then Result(d, 0)
    else Result(d.(inReset := true, writes := c.writes + [true]), if acked then 0 else -ETIMEDOUT)
  }

  /** __fpga_port_enable; the counter is an unsigned int and wraps below zero. */
  function Enable(c: Control): Control
  {
    var d := c.(count := (c.count - 1) % U32);
    if d.count != 0 then d else d.(inReset := false, writes := c.writes + [false])
  }

  /** __fpga_port_reset */
  function Reset(c: Control, acked: bool): Result
  {
    var r := Disable(c, acked);
    if r.ret != 0 then r else Result(Enable(r.ctl), 0)
  }

  /** port_err_clear; `matches` says whether the caller named the current errors. */
  function ErrClear(c: Control, ap6: bool, acked: bool, matches: bool): Result
  {
    if ap6 then Result(c, -EBUSY)
    else
      var r := Disable(c, acked);
      if r.ret != 0 then r else Result(Enable(r.ctl), if matches then 0 else -EBUSY)
  }

  // ----- the actors

  /**
   * `brackets` counts the reconfigurations that have disabled the port and not yet enabled it
   * again; `stuck` remembers a reset or error clear that timed out and left its disable behind.
   */
  datatype System = System(ctl: Control, brackets: nat, stuck: bool)

  datatype Action =
    | ResetPort(acked: bool)
    | ClearErrors(ap6: bool, acked: bool, matches: bool)
    | PrBegin(acked: bool)     // fpga_port_disable before the load; its result is not looked at
    | PrEnd                    // fpga_port_enable after the load

  /** Reconfigurations end after they begin, and there are fewer of them than the counter holds. */
  predicate CanStep(s: System, a: Action)
  {
    match a
    case PrBegin(_) => s.brackets + 3 < U32
    case PrEnd => s.brackets > 0
    case _ => true
  }

  function Step(s: System, a: Action): System
    requires CanStep(s, a)
  {
    match a
    case ResetPort(acked) =>
      var r := Reset(s.ctl, acked);
      s.(ctl := r.ctl, stuck := s.stuck || r.ret == -ETIMEDOUT)
    case ClearErrors(ap6, acked, matches) =>
      var r := ErrClear(s.ctl, ap6, acked, matches);
      s.(ctl := r.ctl, stuck := s.stuck || r.ret == -ETIMEDOUT)
    case PrBegin(acked) => s.(ctl := Disable(s.ctl, acked).ctl, brackets := s.brackets + 1)
    case PrEnd => s.(ctl := Enable(s.ctl), brackets := s.brackets - 1)
  }

  /** The counter is exactly the open brackets plus the one disable a timeout can leave behind. */
  predicate Inv(s: System)
  {
    && s.brackets + 2 < U32
    && s.ctl.count == s.brackets + (if s.stuck then 1 else 0)
    && (s.ctl.count > 0 ==> s.ctl.inReset)
  }

  function Run(s: System, acts: seq<Action>): Option<System>
    decreases |acts|
  {
    if acts == [] then Some(s)
    else if CanStep(s, acts[0]) then Run(Step(s, acts[0]), acts[1..])
    else None
  }

  lemma StepKeeps(s: System, a: Action)
    requires Inv(s) && CanStep(s, a)
    ensures Inv(Step(s, a))
    ensures s.stuck ==> Step(s, a).stuck
  {
  }

  /** The counter equation holds between critical sections of every run. */
  lemma {:induction false} RunKeeps(s: System, acts: seq<Action>)
    requires Inv(s) && Run(s, acts).Some?
    ensures Inv(Run(s, acts).value)
    ensures s.stuck ==> Run(s, acts).value.stuck
    decreases |acts|
  {
    if acts != [] {
      StepKeeps(s, acts[0]);
      RunKeeps(Step(s, acts[0]), acts[1..]);
    }
  }

  predicate HasPrEnd(acts: seq<Action>)
  {
    exists i :: 0 <= i < |acts| && acts[i].PrEnd?
  }

  /** A step of another actor while the counter is held writes nothing to the reset bit. */
  lemma HeldStep(s: System, a: Action)
    requires Inv(s) && CanStep(s, a) && s.ctl.count > 0 && (a.PrEnd? ==> s.ctl.count > 1)
    ensures Step(s, a).ctl.writes == s.ctl.writes && Step(s, a).ctl.inReset
  {
  }

  /**
   * Reset exclusion: from the moment a reconfiguration has disabled the port until it enables it,
   * no interleaving of other actors writes the reset bit at all.
   */
  lemma {:induction false} NoReleaseDuringPr(s: System, acts: seq<Action>)
    requires Inv(s) && s.brackets > 0 && !HasPrEnd(acts) && Run(s, acts).Some?
    ensures var t := Run(s, acts).value;
            t.brackets > 0 && t.ctl.inReset && t.ctl.writes == s.ctl.writes
    decreases |acts|
  {
    if acts != [] {
      assert !acts[0].PrEnd?;
      StepKeeps(s, acts[0]);
      HeldStep(s, acts[0]);
      assert !HasPrEnd(acts[1..]) by {
        assert forall i :: 0 <= i < |acts| - 1 ==> acts[1..][i] == acts[i + 1];
      }
      NoReleaseDuringPr(Step(s, acts[0]), acts[1..]);
    }
  }

  /** After one timed-out reset no run of these actors ever takes the port out of reset again. */
  lemma {:induction false} StuckForever(s: System, acts: seq<Action>)
    requires Inv(s) && s.stuck && Run(s, acts).Some?
    ensures var t := Run(s, acts).value;
            t.ctl.inReset && t.ctl.writes == s.ctl.writes
    decreases |acts|
  {
    if acts != [] {
      StepKeeps(s, acts[0]);
      HeldStep(s, acts[0]);
      StuckForever(Step(s, acts[0]), acts[1..]);
    }
  }

  /** A step leaves a disable behind exactly when it is a reset or clear that times out on a port nobody holds. */
  lemma SticksIff(s: System, a: Action)
    requires Inv(s) && CanStep(s, a) && !s.stuck
    ensures Step(s, a).stuck <==>
            s.brackets == 0 && ((a.ResetPort? && !a.acked) || (a.ClearErrors? && !a.ap6 && !a.acked))
  {
  }

  /** After one reset that times out, the next one returns 0 without taking the port out of reset. */
  lemma OneTimeoutSticks()
    ensures var s := System(Control(0, false, []), 0, false);
            var t := Run(s, [ResetPort(false)]);
            && Inv(s) && t.Some? && t.value.stuck
            && Reset(t.value.ctl, true).ret == 0 && Reset(t.value.ctl, true).ctl.inReset
  {
    var s := System(Control(0, false, []), 0, false);
    assert [ResetPort(false)][1..] == [];
    assert Run(s, [ResetPort(false)]) == Run(Step(s, ResetPort(false)), []);
  }

  /** A reset pulses the port exactly when nobody holds it disabled and the hardware answers. */
  lemma ResetPulsesIff(s: System, acked: bool)
    requires Inv(s)
    ensures var r := Reset(s.ctl, acked);
            (r.ret == 0 && r.ctl.writes == s.ctl.writes + [true, false] && !r.ctl.inReset) <==>
            (s.brackets == 0 && !s.stuck && acked)
  {
    if s.ctl.count == 0 {
      assert s.ctl.writes + [true] + [false] == s.ctl.writes + [true, false];
    }
  }

  /** Every enable in a run finds a positive counter, so it never wraps. */
  lemma EnableNeverWraps(s: System, a: Action)
    requires Inv(s) && CanStep(s, a)
    ensures a.PrEnd? ==> s.ctl.count > 0
    ensures a.ResetPort? ==> Disable(s.ctl, a.acked).ctl.count > 0
    ensures a.ClearErrors? ==> Disable(s.ctl, a.acked).ctl.count > 0
  {
  }

  // ----- the operations on the port structure

  lemma LaterIsLater(k: nat, j: nat, interval: nat)
    ensures k <= j ==> k * interval <= j * interval
  {
    if k <= j {
      assert j * interval == k * interval + (j - k) * interval;
    }
  }

  /** fpga_wait_register_field: polls until the field matches or the time is used up. */
  method WaitField(matches: nat -> bool, timeout: nat, interval: nat) returns (ret: int)
    requires interval > 0
    ensures ret == 0 || ret == -ETIMEDOUT
    ensures ret == 0 <==> exists k: nat :: k * interval <= timeout && matches(k)
  {
    var wait, k := 0, 0;
    while wait <= timeout
      invariant wait == k * interval
      invariant forall j: nat :: j < k ==> !matches(j)
      decreases timeout + interval - wait
    {
      if matches(k) {
        return 0;
      }
      wait := wait + interval;
      k := k + 1;
    }
    forall j: nat ensures j * interval <= timeout ==> !matches(j) {
      LaterIsLater(k, j, interval);
    }
    return -ETIMEDOUT;
  }

  const RST_POLL_INVL: nat := 10
  const RST_POLL_TIMEOUT: nat := 1000

  class PortControl {
    var count: nat
    var inReset: bool
    ghost var writes: seq<bool>

    constructor (inReset: bool)
      ensures State() == Control(0, inReset, []) && Valid()
    {
      count, this.inReset, writes := 0, inReset, [];
    }

    ghost function State(): Control
      reads this
    {
      Control(count, inReset, writes)
    }

    /** A held port is in reset, and the counter has room for one more holder. */
    ghost predicate Valid()
      reads this
    {
      count + 1 < U32 && (count > 0 ==> inReset)
    }

    method WriteReset(value: bool)
      modifies this`inReset, this`writes
      ensures inReset == value && writes == old(writes) + [value]
    {
      inReset := value;
      writes := writes + [value];
    }

    /** __fpga_port_disable: one more holder; the first one sets the bit and waits for the hardware. */
    method DisablePort(ack: nat -> bool) returns (ret: int)
      requires Valid()
      modifies this
      ensures count == old(count) + 1 && inReset
      ensures writes == old(writes) + if old(count) == 0 then [true] else []
      ensures ret == -ETIMEDOUT <==> old(count) == 0 && !Acked(ack)
      ensures Result(State(), ret) == Disable(old(State()), Acked(ack))
    {
      var before := count;
      count := (count + 1) % U32;
      if before != 0 {
        return 0;
      }
      WriteReset(true);
      ret := WaitField(ack, RST_POLL_TIMEOUT, RST_POLL_INVL);
    }

    /** __fpga_port_enable: one holder less; only the last one clears the bit. */
    method EnablePort()
      requires 0 < count < U32 && inReset
      modifies this
      ensures Valid() && count == old(count) - 1 && inReset == (count > 0)
      ensures writes == old(writes) + if count == 0 then [false] else []
      ensures State() == Enable(old(State()))
    {
      count := (count - 1) % U32;
      if count != 0 {
        return;
      }
      WriteReset(false);
    }

    /**
     * __fpga_port_reset: pulses a port nobody holds, leaves a held one alone, and stays a holder
     * exactly when it times out.
     */
    method ResetPort(ack: nat -> bool) returns (ret: int)
      requires Valid()
      modifies this
      ensures count > 0 ==> inReset
      ensures old(count) > 0 ==> ret == 0 && State() == old(State())
      ensures old(count) == 0 && Acked(ack) ==> ret == 0 && State() == Control(0, false, old(writes) + [true, false])
      ensures old(count) == 0 && !Acked(ack) ==> ret == -ETIMEDOUT && State() == Control(1, true, old(writes) + [true])
      ensures Result(State(), ret) == Reset(old(State()), Acked(ack))
    {
      ret := DisablePort(ack);
      if ret != 0 {
        return;
      }
      EnablePort();
      assert old(writes) + [true] + [false] == old(writes) + [true, false];
    }

    /** port_err_clear: refused in AP6, otherwise bracketed like a reset, whatever the caller's errors. */
    method ClearErrors(ap6: bool, ack: nat -> bool, err: nat, current: nat) returns (ret: int)
      requires Valid()
      modifies this
      ensures count > 0 ==> inReset
      ensures ap6 || old(count) > 0 ==> State() == old(State())
      ensures ret == -ETIMEDOUT <==> !ap6 && old(count) == 0 && !Acked(ack)
      ensures ret == -ETIMEDOUT ==> State() == Control(1, true, old(writes) + [true])
      ensures ret == 0 ==> err == current
      ensures !ap6 && ret != -ETIMEDOUT ==> ret == (if err == current then 0 else -EBUSY) && count == old(count)
      ensures Result(State(), ret) == ErrClear(old(State()), ap6, Acked(ack), err == current)
    {
      if ap6 {
        return -EBUSY;
      }
      ret := DisablePort(ack);
      if ret != 0 {
        return;
      }
      if current != err {
        ret := -EBUSY;
      }
      EnablePort();
    }
  }

  /** Whether the hardware acknowledges a reset before the timeout. */
  ghost predicate Acked(ack: nat -> bool)
  {
    exists k: nat :: k * RST_POLL_INVL <= RST_POLL_TIMEOUT && ack(k)
  }
}
