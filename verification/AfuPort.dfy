/**
 * One port device: opening and releasing it, mapping and unmapping DMA regions, and the UMSG
 * engine whose base register points into a mapped region. Each critical section of the source is
 * one step. drivers/fpga/intel/afu.c lines 463-634 and 847-891,
 * drivers/fpga/intel/dma-region.c lines 36-124, 199-224 and 273-372,
 * include/intel/feature-dev.h lines 1598-1641.
 */
module AfuPort {
  import opened Common
  import opened DmaRegions

  const BASE_BITS: nat := 0x1_0000_0000_0000   // the base register holds 48 bits

  /** `others` is what the address space had locked before the port was used. */
  datatype Config = Config(hasUmsg: bool, numUmsgs: byte, others: nat)
  {
    function Span(): nat { numUmsgs * PAGE_SIZE }
  }

  /**
   * `tree` holds the regions the port knows; `mapped` the regions an ioctl has mapped for DMA but
   * not (or no longer) stored there; `pinned` the page counts charged to locked_vm without a
   * mapping.
   */
  datatype Port = Port(
    tree: Tree, mapped: seq<Region>, pinned: seq<nat>, lockedVm: nat,
    base: nat, enabled: bool, openCount: nat, excl: bool)

  datatype Outcome = Outcome(port: Port, ret: int)

  // ----- locked_vm

  function Sum(s: seq<nat>): nat
  {
    if s == [] then 0 else s[0] + Sum(s[1..])
  }

  function PagesOf(s: seq<Region>): nat
  {
    if s == [] then 0 else s[0].Pages() + PagesOf(s[1..])
  }

  /** The decrement of afu_dma_adjust_locked_vm, clamped at zero. */
  function Discharge(lockedVm: nat, npages: nat): nat
  {
    if npages > lockedVm then 0 else lockedVm - npages
  }

  /** The tree walk of afu_dma_region_destroy, in order of bus address. */
  function DischargeAll(t: Tree, lockedVm: nat): nat
  {
    match t
    case Leaf => lockedVm
    case Node(l, r, h) => DischargeAll(h, Discharge(DischargeAll(l, lockedVm), r.Pages()))
  }

  function Without<T>(s: seq<T>, i: nat): (r: seq<T>)
    requires i < |s|
    ensures |r| == |s| - 1
  {
    s[..i] + s[i + 1..]
  }

  // ----- UMSG

  /** afu_port_umsg_enable; `acked` says whether the hardware confirms within the timeout. */
  function UmsgEnable(p: Port, enable: bool, acked: bool): Outcome
  {
    if enable && p.base == 0 then Outcome(p, -EIO)
    else if p.enabled == enable then Outcome(p, 0)
    else Outcome(p.(enabled := enable), if acked then 0 else -ETIMEDOUT)
  }

  /** afu_port_umsg_set_addr */
  function UmsgSetAddr(c: Config, p: Port, iova: nat): Outcome
    requires iova < U64
  {
    if p.enabled then
      Outcome(p, -EIO)
    else if iova != 0 then
      if iova % PAGE_SIZE != 0 then Outcome(p, -EINVAL)
      else if (iova + c.Span()) % U64 < iova then Outcome(p, -EINVAL)
      else
        var f := Search(p.tree, iova, c.Span());
        if f.None? then Outcome(p, -EINVAL)
        else Outcome(p.(base := iova % BASE_BITS, tree := Mark(p.tree, f.value.iova, true)), 0)
    else if p.base == 0 then
      Outcome(p, 0)
    else if (p.base + c.Span()) % U64 < p.base then
      Outcome(p, -EINVAL)
    else
      var f := Search(p.tree, p.base, c.Span());
      if f.None? then Outcome(p, -ENODEV)
      else Outcome(p.(base := 0, tree := Mark(p.tree, f.value.iova, false)), 0)
  }

  /** afu_port_umsg_halt */
  function UmsgHalt(c: Config, p: Port, acked: bool): Port
  {
    if c.hasUmsg then UmsgSetAddr(c, UmsgEnable(p, false, acked).port, 0).port else p
  }

  // ----- open and release

  function Open(p: Port, excl: bool): Outcome
  {
    if excl then
      if p.openCount > 0 then Outcome(p, -EBUSY)
      else Outcome(p.(excl := true, openCount := p.openCount + 1), 0)
    else
      if p.excl then Outcome(p, -EBUSY)
      else Outcome(p.(openCount := p.openCount + 1), 0)
  }

  /** afu_release: the last close halts UMSG and then drops every region. */
  function Release(c: Config, p: Port, acked: bool): Port
    requires p.openCount > 0
  {
    var q := p.(excl := false, openCount := p.openCount - 1);
    if q.openCount > 0 then q
    else
      var h := UmsgHalt(c, q, acked);
      h.(tree := Leaf, lockedVm := DischargeAll(h.tree, h.lockedVm))
  }

  // ----- the steps

  datatype Action =
    | OpenFile(excl: bool)
    | CloseFile(acked: bool)
    | IoctlEnable(enable: bool, acked: bool)
    | IoctlSetAddr(addr: nat)
    | Charge(npages: nat)                        // adjust_locked_vm up, before pinning
    | Uncharge(i: nat)                           // adjust_locked_vm down, after unpinning
    | DmaMap(i: nat, iova: nat)                  // dma_map_page
    | DmaUnmap(i: nat)                           // dma_unmap_page
    | AddRegion(i: nat, turns: seq<Turn>)        // afu_dma_region_add
    | TakeRegion(iova: nat, turns: seq<Turn>)    // the locked part of afu_dma_unmap_region

  /**
   * When a step can happen. Ioctls run on an open file and a file is not released while one of its
   * ioctls runs; dma_map_page hands out addresses in the 48-bit space that no live mapping uses.
   */
  ghost predicate CanStep(c: Config, p: Port, a: Action)
  {
    match a
    case OpenFile(_) => true
    case CloseFile(_) => p.openCount > 0 && (p.openCount == 1 ==> p.mapped == [] && p.pinned == [])
    case IoctlEnable(_, _) => p.openCount > 0 && c.hasUmsg
    case IoctlSetAddr(addr) => p.openCount > 0 && c.hasUmsg && addr < U64
    case Charge(n) => p.openCount > 0 && n > 0
    case Uncharge(i) => p.openCount > 0 && i < |p.pinned|
    case DmaMap(i, iova) =>
      p.openCount > 0 && i < |p.pinned| && NewMapping(p, Region(iova, p.pinned[i] * PAGE_SIZE, false))
    case DmaUnmap(i) => p.openCount > 0 && i < |p.mapped|
    case AddRegion(i, _) => p.openCount > 0 && i < |p.mapped|
    case TakeRegion(iova, _) => p.openCount > 0 && iova < U64
  }

  ghost predicate NewMapping(p: Port, n: Region)
  {
    && 0 < n.length && n.End() <= BASE_BITS
    && (forall r :: r in Elems(p.tree) ==> Apart(r, n))
    && (forall i :: 0 <= i < |p.mapped| ==> Apart(p.mapped[i], n))
  }

  function TakeFrom(p: Port, iova: nat, turns: seq<Turn>): Outcome
  {
    var f := Search(p.tree, iova, 0);
    if f.None? then Outcome(p, -EINVAL)
    else if f.value.inUse then Outcome(p, -EBUSY)
    else Outcome(p.(tree := Rebalance(Delete(p.tree, f.value.iova), turns), mapped := p.mapped + [f.value]), 0)
  }

  function AddTo(p: Port, i: nat, turns: seq<Turn>): Outcome
    requires i < |p.mapped|
  {
    var t := Insert(p.tree, p.mapped[i]);
    if t.None? then Outcome(p, -EEXIST)
    else Outcome(p.(tree := Rebalance(t.value, turns), mapped := Without(p.mapped, i)), 0)
  }

  ghost function Step(c: Config, p: Port, a: Action): Port
    requires CanStep(c, p, a)
  {
    match a
    case OpenFile(excl) => Open(p, excl).port
    case CloseFile(acked) => Release(c, p, acked)
    case IoctlEnable(enable, acked) => UmsgEnable(p, enable, acked).port
    case IoctlSetAddr(addr) => UmsgSetAddr(c, p, addr).port
    case Charge(n) => p.(pinned := p.pinned + [n], lockedVm := p.lockedVm + n)
    case Uncharge(i) => p.(pinned := Without(p.pinned, i), lockedVm := Discharge(p.lockedVm, p.pinned[i]))
    case DmaMap(i, iova) =>
      p.(pinned := Without(p.pinned, i), mapped := p.mapped + [Region(iova, p.pinned[i] * PAGE_SIZE, false)])
    case DmaUnmap(i) => p.(mapped := Without(p.mapped, i), pinned := p.pinned + [p.mapped[i].Pages()])
    case AddRegion(i, turns) => AddTo(p, i, turns).port
    case TakeRegion(iova, turns) => TakeFrom(p, iova, turns).port
  }

  // ----- the invariant

  /** Every live mapping is inside the 48-bit space and apart from every other one. */
  ghost predicate Live(s: set<Region>, m: seq<Region>)
  {
    && Disjoint(s)
    && (forall r :: r in s ==> 0 < r.length && r.End() <= BASE_BITS)
    && (forall i :: 0 <= i < |m| ==> 0 < m[i].length && m[i].End() <= BASE_BITS)
    && (forall i, j :: 0 <= i < j < |m| ==> Apart(m[i], m[j]))
    && (forall r, i :: r in s && 0 <= i < |m| ==> Apart(r, m[i]))
  }

  ghost predicate LiveOk(p: Port)
  {
    Ordered(p.tree) && Live(Elems(p.tree), p.mapped)
  }

  /** The base register is zero or points into a stored region that is marked in use. */
  ghost predicate BaseOk(c: Config, p: Port)
  {
    && (p.enabled ==> p.base != 0)
    && (p.base != 0 ==>
        exists r :: r in Elems(p.tree) && r.inUse && Covers(r, p.base, c.Span()))
    && (!c.hasUmsg ==> p.base == 0 && !p.enabled)
  }

  /** locked_vm is what others locked plus every page the port still holds. */
  ghost predicate VmOk(c: Config, p: Port)
  {
    p.lockedVm == c.others + Sum(p.pinned) + PagesOf(p.mapped) + PageTotal(p.tree)
  }

  /** A port nobody has open holds nothing. */
  ghost predicate IdleOk(p: Port)
  {
    && (p.excl ==> p.openCount == 1)
    && (p.openCount == 0 ==> p.tree == Leaf && p.mapped == [] && p.pinned == [] && p.base == 0)
  }

  /** What holds even inside the final release, between its halt and its end. */
  ghost predicate Core(c: Config, p: Port)
  {
    LiveOk(p) && BaseOk(c, p) && VmOk(c, p)
  }

  ghost predicate Inv(c: Config, p: Port)
  {
    Core(c, p) && IdleOk(p)
  }

  function Initial(c: Config): Port
  {
    Port(Leaf, [], [], c.others, 0, false, 0, false)
  }

  lemma InitialInv(c: Config)
    ensures Inv(c, Initial(c))
  {
  }

  // ----- sums and lists

  lemma {:induction false} SumAppend(s: seq<nat>, x: nat)
    ensures Sum(s + [x]) == Sum(s) + x
  {
    if s != [] {
      assert (s + [x])[1..] == s[1..] + [x];
      SumAppend(s[1..], x);
    }
  }

  lemma {:induction false} SumWithout(s: seq<nat>, i: nat)
    requires i < |s|
    ensures Sum(Without(s, i)) == Sum(s) - s[i]
  {
    if i == 0 {
      assert Without(s, 0) == s[1..];
    } else {
      assert Without(s, i)[1..] == Without(s[1..], i - 1);
      SumWithout(s[1..], i - 1);
    }
  }

  lemma {:induction false} PagesAppend(s: seq<Region>, x: Region)
    ensures PagesOf(s + [x]) == PagesOf(s) + x.Pages()
  {
    if s != [] {
      assert (s + [x])[1..] == s[1..] + [x];
      PagesAppend(s[1..], x);
    }
  }

  lemma {:induction false} PagesWithout(s: seq<Region>, i: nat)
    requires i < |s|
    ensures PagesOf(Without(s, i)) == PagesOf(s) - s[i].Pages()
  {
    if i == 0 {
      assert Without(s, 0) == s[1..];
    } else {
      assert Without(s, i)[1..] == Without(s[1..], i - 1);
      PagesWithout(s[1..], i - 1);
    }
  }

  /** Draining a tree whose pages are all charged never meets the clamp. */
  lemma {:induction false} DischargeAllExact(t: Tree, lockedVm: nat)
    requires PageTotal(t) <= lockedVm
    ensures DischargeAll(t, lockedVm) == lockedVm - PageTotal(t)
  {
    match t
    case Leaf =>
    case Node(l, r, h) =>
      DischargeAllExact(l, lockedVm);
      DischargeAllExact(h, lockedVm - PageTotal(l) - r.Pages());
  }

  // ----- every step keeps the invariant

  /** In a state that satisfies the invariant, searching is asking for a stored covering region. */
  lemma SearchHere(p: Port, iova: nat, size: nat)
    requires LiveOk(p) && iova + size < U64
    ensures var f := Search(p.tree, iova, size);
            && (f.Some? ==> f.value in Elems(p.tree) && Covers(f.value, iova, size))
            && (forall w :: w in Elems(p.tree) && Covers(w, iova, size) ==> f == Some(w))
  {
    SearchSound(p.tree, iova, size);
    SearchIff(p.tree, iova, size);
  }

  lemma LiveReflag(s: set<Region>, m: seq<Region>, w: Region, inUse: bool)
    requires Live(s, m) && w in s
    ensures Live(s - {w} + {w.(inUse := inUse)}, m)
  {
    var w' := w.(inUse := inUse);
    var s' := s - {w} + {w'};
    forall a, b | a in s' && b in s' && a != b ensures Apart(a, b) {
      var a', b' := if a == w' then w else a, if b == w' then w else b;
      if a' == b' {
        // only w and w' collapse, and w is in s' only when it equals w'
        assert false;
      }
      assert Apart(a', b');
    }
    forall r, i | r in s' && 0 <= i < |m| ensures Apart(r, m[i]) {
      assert Apart(if r == w' then w else r, m[i]);
    }
  }

  lemma MarkKeepsLive(p: Port, w: Region, inUse: bool)
    requires LiveOk(p) && w in Elems(p.tree)
    ensures LiveOk(p.(tree := Mark(p.tree, w.iova, inUse)))
    ensures PageTotal(Mark(p.tree, w.iova, inUse)) == PageTotal(p.tree)
  {
    MarkElems(p.tree, w, inUse);
    MarkOrdered(p.tree, w, inUse);
    MarkPages(p.tree, w.iova, inUse);
    LiveReflag(Elems(p.tree), p.mapped, w, inUse);
  }

  /** A changed base register was written with the address the search found. */
  lemma SetAddrFound(c: Config, p: Port, addr: nat)
    requires LiveOk(p) && BaseOk(c, p) && addr < U64
    requires UmsgSetAddr(c, p, addr).port != p
    ensures var q := if addr != 0 then addr else p.base;
            var f := Search(p.tree, q, c.Span());
            && q + c.Span() < U64
            && f.Some? && f.value in Elems(p.tree) && Covers(f.value, q, c.Span())
            && UmsgSetAddr(c, p, addr).port ==
               p.(base := addr, tree := Mark(p.tree, f.value.iova, addr != 0))
            && !p.enabled
  {
    var q := if addr != 0 then addr else p.base;
    SearchHere(p, q, c.Span());
  }

  lemma SetAddrKeeps(c: Config, p: Port, addr: nat)
    requires Core(c, p) && addr < U64 && c.hasUmsg
    ensures Core(c, UmsgSetAddr(c, p, addr).port)
    ensures IdleOk(p) && p.openCount > 0 ==> IdleOk(UmsgSetAddr(c, p, addr).port)
  {
    var p' := UmsgSetAddr(c, p, addr).port;
    if p' != p {
      SetAddrFound(c, p, addr);
      var w := Search(p.tree, if addr != 0 then addr else p.base, c.Span()).value;
      MarkKeepsLive(p, w, addr != 0);
      MarkElems(p.tree, w, addr != 0);
      if addr != 0 {
        var m := w.(inUse := true);
        assert m in Elems(p'.tree) && m.inUse && Covers(m, addr, c.Span());
      }
    }
  }

  /** In a state that satisfies the invariant the base can always be cleared. */
  lemma ClearSucceeds(c: Config, p: Port)
    requires LiveOk(p) && BaseOk(c, p) && !p.enabled
    ensures UmsgSetAddr(c, p, 0).ret == 0 && UmsgSetAddr(c, p, 0).port.base == 0
  {
    if p.base != 0 {
      var r :| r in Elems(p.tree) && r.inUse && Covers(r, p.base, c.Span());
      SearchFinds(p.tree, p.base, c.Span(), r);
    }
  }

  /** The halt of the last release leaves UMSG off, the base zero and the page total as it was. */
  lemma HaltClears(c: Config, p: Port, acked: bool)
    requires LiveOk(p) && BaseOk(c, p)
    ensures var h := UmsgHalt(c, p, acked);
            && h.base == 0 && !h.enabled
            && PageTotal(h.tree) == PageTotal(p.tree)
            && h == p.(base := h.base, enabled := h.enabled, tree := h.tree)
  {
    if c.hasUmsg {
      var q := UmsgEnable(p, false, acked).port;
      ClearSucceeds(c, q);
      if UmsgSetAddr(c, q, 0).port != q {
        SetAddrFound(c, q, 0);
        MarkPages(q.tree, Search(q.tree, q.base, c.Span()).value.iova, false);
      }
    }
  }

  lemma ReleaseKeeps(c: Config, p: Port, acked: bool)
    requires Inv(c, p) && CanStep(c, p, CloseFile(acked))
    ensures Inv(c, Release(c, p, acked))
  {
    if p.openCount == 1 {
      var q := p.(excl := false, openCount := 0);
      HaltClears(c, q, acked);
      DischargeAllExact(UmsgHalt(c, q, acked).tree, p.lockedVm);
    }
  }

  lemma LiveShrink(s: set<Region>, m: seq<Region>, w: Region)
    requires Live(s, m) && w in s
    ensures Live(s - {w}, m + [w])
  {
    var m' := m + [w];
    forall i, j | 0 <= i < j < |m'| ensures Apart(m'[i], m'[j]) {
      if j == |m| {
        assert Apart(w, m[i]);
      }
    }
    forall r, i | r in s - {w} && 0 <= i < |m'| ensures Apart(r, m'[i]) {
      if i == |m| {
        assert Apart(r, w);
      }
    }
  }

  lemma LiveDrop(s: set<Region>, m: seq<Region>, i: nat)
    requires Live(s, m) && i < |m|
    ensures Live(s, Without(m, i))
    ensures forall j :: 0 <= j < |m| - 1 ==> Apart(m[i], Without(m, i)[j])
  {
    var m' := Without(m, i);
    assert forall j :: 0 <= j < |m'| ==> m'[j] == m[if j < i then j else j + 1];
  }

  lemma LiveGrow(s: set<Region>, m: seq<Region>, i: nat)
    requires Live(s, m) && i < |m|
    ensures Live(s + {m[i]}, Without(m, i))
  {
    LiveDrop(s, m, i);
    forall a, b | a in s + {m[i]} && b in s + {m[i]} && a != b ensures Apart(a, b) {
      if a !in s {
        assert Apart(b, m[i]);
      } else if b !in s {
        assert Apart(a, m[i]);
      }
    }
  }

  lemma LiveExtend(s: set<Region>, m: seq<Region>, n: Region)
    requires Live(s, m) && 0 < n.length && n.End() <= BASE_BITS
    requires forall r :: r in s ==> Apart(r, n)
    requires forall i :: 0 <= i < |m| ==> Apart(m[i], n)
    ensures Live(s, m + [n])
  {
  }

  /** Unmapping finds the exact start; a region in use, so the one under the base, stays. */
  lemma TakeKeeps(c: Config, p: Port, iova: nat, turns: seq<Turn>)
    requires Inv(c, p) && CanStep(c, p, TakeRegion(iova, turns))
    ensures Inv(c, TakeFrom(p, iova, turns).port)
    ensures var f := Search(p.tree, iova, 0);
            var p' := TakeFrom(p, iova, turns).port;
            if f.Some? && !f.value.inUse then Elems(p'.tree) == Elems(p.tree) - {f.value} else p' == p
  {
    SearchHere(p, iova, 0);
    var f := Search(p.tree, iova, 0);
    if f.Some? && !f.value.inUse {
      var p' := TakeFrom(p, iova, turns).port;
      DeleteElems(p.tree, f.value);
      RebalanceKeeps(Delete(p.tree, iova), turns);
      LiveShrink(Elems(p.tree), p.mapped, f.value);
      PagesAppend(p.mapped, f.value);
      if p.base != 0 {
        var r :| r in Elems(p.tree) && r.inUse && Covers(r, p.base, c.Span());
        assert r in Elems(p'.tree);
      }
    }
  }

  /** A mapping that is apart from every live one is always accepted by the tree. */
  lemma AddKeeps(c: Config, p: Port, i: nat, turns: seq<Turn>)
    requires Inv(c, p) && CanStep(c, p, AddRegion(i, turns))
    ensures AddTo(p, i, turns).ret == 0
    ensures Elems(AddTo(p, i, turns).port.tree) == Elems(p.tree) + {p.mapped[i]}
    ensures Inv(c, AddTo(p, i, turns).port)
  {
    var n := p.mapped[i];
    InsertRefusesIff(p.tree, n);
    InsertElems(p.tree, n);
    InsertOrdered(p.tree, n);
    InsertPages(p.tree, n);
    RebalanceKeeps(Insert(p.tree, n).value, turns);
    LiveGrow(Elems(p.tree), p.mapped, i);
    PagesWithout(p.mapped, i);
    var p' := AddTo(p, i, turns).port;
    if p.base != 0 {
      var r :| r in Elems(p.tree) && r.inUse && Covers(r, p.base, c.Span());
      assert r in Elems(p'.tree);
    }
  }

  lemma AccountingKeeps(c: Config, p: Port, a: Action)
    requires Inv(c, p) && CanStep(c, p, a)
    requires a.Charge? || a.Uncharge? || a.DmaMap? || a.DmaUnmap?
    ensures Inv(c, Step(c, p, a))
  {
    match a
    case Charge(n) => SumAppend(p.pinned, n);
    case Uncharge(i) => SumWithout(p.pinned, i);
    case DmaMap(i, iova) =>
      var n := Region(iova, p.pinned[i] * PAGE_SIZE, false);
      SumWithout(p.pinned, i);
      PagesAppend(p.mapped, n);
      assert n.Pages() == p.pinned[i];
      LiveExtend(Elems(p.tree), p.mapped, n);
    case DmaUnmap(i) =>
      SumAppend(p.pinned, p.mapped[i].Pages());
      PagesWithout(p.mapped, i);
      LiveDrop(Elems(p.tree), p.mapped, i);
  }

  lemma StepKeeps(c: Config, p: Port, a: Action)
    requires Inv(c, p) && CanStep(c, p, a)
    ensures Inv(c, Step(c, p, a))
  {
    match a
    case OpenFile(_) =>
    case CloseFile(acked) => ReleaseKeeps(c, p, acked);
    case IoctlEnable(_, _) =>
    case IoctlSetAddr(addr) => SetAddrKeeps(c, p, addr);
    case AddRegion(i, turns) => AddKeeps(c, p, i, turns);
    case TakeRegion(iova, turns) => TakeKeeps(c, p, iova, turns);
    case _ => AccountingKeeps(c, p, a);
  }

  // ----- runs

  /** The state after a run, if every step of it can happen. */
  ghost function Run(c: Config, p: Port, acts: seq<Action>): Option<Port>
    decreases |acts|
  {
    if acts == [] then Some(p)
    else if CanStep(c, p, acts[0]) then Run(c, Step(c, p, acts[0]), acts[1..])
    else None
  }

  lemma {:induction false} RunKeeps(c: Config, p: Port, acts: seq<Action>)
    requires Inv(c, p)
    ensures Run(c, p, acts).Some? ==> Inv(c, Run(c, p, acts).value)
    decreases |acts|
  {
    if acts != [] && CanStep(c, p, acts[0]) {
      StepKeeps(c, p, acts[0]);
      RunKeeps(c, Step(c, p, acts[0]), acts[1..]);
    }
  }

  /**
   * UMSG safety and locked_vm conservation in every state any interleaving reaches: an enabled
   * engine has a base; a base lies, with all its messages, in a stored region that is in use;
   * locked_vm is exactly accounted for; and a port nobody has open has released everything.
   */
  lemma EveryRunIsSafe(c: Config, acts: seq<Action>)
    requires Run(c, Initial(c), acts).Some?
    ensures var p := Run(c, Initial(c), acts).value;
            && (p.enabled ==> p.base != 0)
            && (p.base != 0 ==> exists r :: r in Elems(p.tree) && r.inUse && r.iova <= p.base &&
                                            p.base + c.numUmsgs * PAGE_SIZE <= r.End())
            && p.lockedVm == c.others + Sum(p.pinned) + PagesOf(p.mapped) + PageTotal(p.tree)
            && (p.openCount == 0 ==> p.tree == Leaf && p.base == 0 && !p.enabled && p.lockedVm == c.others)
  {
    InitialInv(c);
    RunKeeps(c, Initial(c), acts);
    var p := Run(c, Initial(c), acts).value;
    if p.base != 0 {
      var r :| r in Elems(p.tree) && r.inUse && Covers(r, p.base, c.Span());
      assert r in Elems(p.tree) && r.inUse && r.iova <= p.base && p.base + c.numUmsgs * PAGE_SIZE <= r.End();
    }
  }

  /** No decrement of locked_vm in any run is clamped. */
  lemma ClampNeverTaken(c: Config, acts: seq<Action>)
    requires Run(c, Initial(c), acts).Some?
    ensures var p := Run(c, Initial(c), acts).value;
            && (forall i :: 0 <= i < |p.pinned| ==> p.pinned[i] <= p.lockedVm)
            && DischargeAll(p.tree, p.lockedVm) == p.lockedVm - PageTotal(p.tree)
  {
    InitialInv(c);
    RunKeeps(c, Initial(c), acts);
    var p := Run(c, Initial(c), acts).value;
    DischargeAllExact(p.tree, p.lockedVm);
    forall i | 0 <= i < |p.pinned| ensures p.pinned[i] <= p.lockedVm {
      SumWithout(p.pinned, i);
    }
  }

  // ----- what in_use does and does not say

  /** Only the region under the base is marked in use. */
  ghost predicate MarksExact(c: Config, p: Port)
  {
    forall r :: r in Elems(p.tree) && r.inUse ==> p.base != 0 && Covers(r, p.base, c.Span())
  }

  /**
   * Setting a base over another one does not clear the old mark. The marks stay exact precisely
   * when there was no base, or old and new base lie in the same region; otherwise the old region
   * can no longer be unmapped before the final release.
   */
  lemma MarksExactIff(c: Config, p: Port, addr: nat)
    requires Inv(c, p) && MarksExact(c, p)
    requires 0 < addr < U64 && UmsgSetAddr(c, p, addr).ret == 0
    ensures MarksExact(c, UmsgSetAddr(c, p, addr).port) <==>
            p.base == 0 || Search(p.tree, p.base, c.Span()) == Search(p.tree, addr, c.Span())
  {
    var p' := UmsgSetAddr(c, p, addr).port;
    SetAddrMarks(c, p, addr);
    var w := Search(p.tree, addr, c.Span()).value;
    var w' := w.(inUse := true);
    if p.base == 0 {
      assert forall x :: x in Elems(p'.tree) && x.inUse ==> x == w';
    } else {
      var r :| r in Elems(p.tree) && r.inUse && Covers(r, p.base, c.Span());
      OneCover(p, r, p.base, c.Span());
      OneCover(p, w, addr, c.Span());
      if r == w {
        assert forall x :: x in Elems(p'.tree) && x.inUse ==> x == w';
      } else {
        assert r in Elems(p'.tree) && r.inUse && !Covers(r, addr, c.Span());
      }
    }
  }

  /** A successful non-zero address marks the one region that covers it. */
  lemma SetAddrMarks(c: Config, p: Port, addr: nat)
    requires LiveOk(p) && 0 < addr < U64 && UmsgSetAddr(c, p, addr).ret == 0
    ensures var p' := UmsgSetAddr(c, p, addr).port;
            var f := Search(p.tree, addr, c.Span());
            && addr + c.Span() < U64
            && f.Some? && f.value in Elems(p.tree) && Covers(f.value, addr, c.Span())
            && p'.base == addr
            && Elems(p'.tree) == Elems(p.tree) - {f.value} + {f.value.(inUse := true)}
  {
    SearchHere(p, addr, c.Span());
    MarkElems(p.tree, Search(p.tree, addr, c.Span()).value, true);
  }

  /** At most one stored region covers a query, and the search finds it. */
  lemma OneCover(p: Port, r: Region, q: nat, size: nat)
    requires LiveOk(p) && q + size < U64 && r in Elems(p.tree) && Covers(r, q, size)
    ensures Search(p.tree, q, size) == Some(r)
    ensures forall x :: x in Elems(p.tree) && Covers(x, q, size) ==> x == r
  {
    SearchHere(p, q, size);
  }

  /** A bus address outside the 48-bit space is truncated on its way into the base register. */
  lemma BaseTruncates()
    ensures var r := Region(BASE_BITS, PAGE_SIZE, false);
            var p := Port(Node(Leaf, r, Leaf), [], [], 1, 0, false, 1, false);
            var o := UmsgSetAddr(Config(true, 1, 0), p, BASE_BITS);
            o.ret == 0 && o.port.base == 0 && r.(inUse := true) in Elems(o.port.tree)
  {
  }

  /** After a successful non-zero set the register holds the address exactly when it has 48 bits. */
  lemma BaseHoldsIff(c: Config, p: Port, addr: nat)
    requires 0 < addr < U64 && UmsgSetAddr(c, p, addr).ret == 0
    ensures UmsgSetAddr(c, p, addr).port.base == addr <==> addr < BASE_BITS
    ensures UmsgSetAddr(c, p, addr).port.base == 0 <==> addr % BASE_BITS == 0
  {
  }

  // ----- a port on which moving the base leaves a mark behind

  function MapPage(iova: nat): seq<Action>
  {
    [Charge(1)] + [DmaMap(0, iova)] + [AddRegion(0, [])]
  }

  /** Opening a port, mapping two pages, and pointing the base at one and then at the other. */
  function MoveBase(): seq<Action>
  {
    [OpenFile(false)] + MapPage(4096) + MapPage(8192) + [IoctlSetAddr(4096)] + [IoctlSetAddr(8192)]
  }

  lemma {:induction false} RunAppend(c: Config, p: Port, acts: seq<Action>, a: Action)
    requires Run(c, p, acts).Some? && CanStep(c, Run(c, p, acts).value, a)
    ensures Run(c, p, acts + [a]) == Some(Step(c, Run(c, p, acts).value, a))
    decreases |acts|
  {
    if acts == [] {
      assert [] + [a] == [a] && [a][1..] == [];
    } else {
      assert (acts + [a])[1..] == acts[1..] + [a];
      RunAppend(c, Step(c, p, acts[0]), acts[1..], a);
    }
  }

  lemma RunMapPage(c: Config, p: Port, acts: seq<Action>, q: Port, iova: nat)
    requires Run(c, p, acts) == Some(q) && q.openCount > 0 && q.mapped == [] && q.pinned == []
    requires NewMapping(q, Region(iova, 4096, false)) && Insert(q.tree, Region(iova, 4096, false)).Some?
    ensures Run(c, p, acts + MapPage(iova)) ==
            Some(q.(tree := Insert(q.tree, Region(iova, 4096, false)).value, lockedVm := q.lockedVm + 1))
  {
    var n, a, b := Region(iova, 4096, false), acts + [Charge(1)], acts + [Charge(1)] + [DmaMap(0, iova)];
    RunAppend(c, p, acts, Charge(1));
    var r := q.(pinned := [1], lockedVm := q.lockedVm + 1);
    assert q.pinned + [1] == [1];
    assert Run(c, p, a) == Some(r);
    RunAppend(c, p, a, DmaMap(0, iova));
    assert r.pinned[0] * PAGE_SIZE == 4096 && Without(r.pinned, 0) == [] && r.mapped + [n] == [n];
    assert Run(c, p, b) == Some(r.(pinned := [], mapped := [n]));
    RunAppend(c, p, b, AddRegion(0, []));
    assert Without([n], 0) == [];
    assert acts + MapPage(iova) == b + [AddRegion(0, [])];
  }

  /** The port after both pages are mapped. */
  lemma TwoRegions(c: Config)
    requires c == Config(true, 1, 0)
    ensures var one, two := Region(4096, 4096, false), Region(8192, 4096, false);
            Run(c, Initial(c), [OpenFile(false)] + MapPage(4096) + MapPage(8192)) ==
            Some(Port(Node(Leaf, one, Node(Leaf, two, Leaf)), [], [], 2, 0, false, 1, false))
  {
    var p, one := Initial(c).(openCount := 1), Region(4096, 4096, false);
    RunAppend(c, Initial(c), [], OpenFile(false));
    assert [] + [OpenFile(false)] == [OpenFile(false)];
    RunMapPage(c, Initial(c), [OpenFile(false)], p, 4096);
    var q := p.(tree := Node(Leaf, one, Leaf), lockedVm := 1);
    RunMapPage(c, Initial(c), [OpenFile(false)] + MapPage(4096), q, 8192);
  }

  /** A run after which a region without the base is marked in use and cannot be unmapped. */
  lemma MarkStaysBehind(c: Config)
    requires c == Config(true, 1, 0)
    ensures var r := Run(c, Initial(c), MoveBase());
            && r.Some? && r.value.base == 8192 && !MarksExact(c, r.value)
            && TakeFrom(r.value, 4096, []).ret == -EBUSY
  {
    var one, two := Region(4096, 4096, false), Region(8192, 4096, false);
    var acts := [OpenFile(false)] + MapPage(4096) + MapPage(8192);
    TwoRegions(c);
    var p := Run(c, Initial(c), acts).value;
    var q := p.(tree := Node(Leaf, one.(inUse := true), Node(Leaf, two, Leaf)), base := 4096);
    var r := q.(tree := Node(Leaf, one.(inUse := true), Node(Leaf, two.(inUse := true), Leaf)), base := 8192);
    assert UmsgSetAddr(c, p, 4096).port == q && UmsgSetAddr(c, q, 8192).port == r;
    RunAppend(c, Initial(c), acts, IoctlSetAddr(4096));
    RunAppend(c, Initial(c), acts + [IoctlSetAddr(4096)], IoctlSetAddr(8192));
    assert one.(inUse := true) in Elems(r.tree);
  }

  // ----- the device structure and its locked operations

  function Leftmost(t: Tree): Region
    requires t.Node?
  {
    if t.left.Leaf? then t.region else Leftmost(t.left)
  }

  function DropLeftmost(t: Tree): Tree
    requires t.Node?
  {
    if t.left.Leaf? then t.right else Node(DropLeftmost(t.left), t.region, t.right)
  }

  function Count(t: Tree): nat
  {
    match t
    case Leaf => 0
    case Node(l, _, h) => Count(l) + 1 + Count(h)
  }

  lemma {:induction false} LeftmostFirst(t: Tree, lockedVm: nat)
    requires t.Node?
    ensures DischargeAll(t, lockedVm) == DischargeAll(DropLeftmost(t), Discharge(lockedVm, Leftmost(t).Pages()))
    ensures Count(DropLeftmost(t)) == Count(t) - 1
    ensures PageTotal(t) == Leftmost(t).Pages() + PageTotal(DropLeftmost(t))
  {
    if t.left.Node? {
      LeftmostFirst(t.left, lockedVm);
    }
  }

  /** afu_dma_check_continuous_pages */
  method Continuous(pfns: seq<nat>) returns (ok: bool)
    ensures ok <==> forall i, j :: 0 <= i < j < |pfns| ==> pfns[j] == pfns[i] + (j - i)
  {
    var k := 0;
    while k < |pfns| - 1
      invariant 0 <= k && (k < |pfns| || |pfns| == 0)
      invariant forall i, j :: 0 <= i < j <= k && j < |pfns| ==> pfns[j] == pfns[i] + (j - i)
    {
      if pfns[k] + 1 != pfns[k + 1] {
        return false;
      }
      k := k + 1;
    }
    return true;
  }

  /**
   * What the kernel answers during one map request: the limit of locked pages and whether the
   * caller may exceed it, whether the page array can be had, how many pages get pinned (negative:
   * an error), their frame numbers, and the bus address or an error of the DMA mapping.
   */
  datatype Kernel = Kernel(
    accessOk: bool, regionOk: bool, limit: nat, capable: bool, arrayOk: bool, pinned: int, pfns: seq<nat>,
    mapOk: bool, iova: nat, turns: seq<Turn>)

  /** One idle region has left the tree and its pages are no longer charged. */
  ghost predicate TookOut(p: Port, p': Port, r: Region)
  {
    && !r.inUse && Elems(p'.tree) == Elems(p.tree) - {r}
    && p'.lockedVm == p.lockedVm - r.Pages()
    && p' == p.(tree := p'.tree, lockedVm := p'.lockedVm)
  }

  /**
   * A set is refused exactly if UMSG runs, or the address is not page aligned, or no stored region
   * contains all messages from it on. It then marks that region and no other; clearing the base
   * takes the mark off the region it lies in.
   */
  ghost predicate SetsBase(c: Config, p: Port, addr: nat, o: Outcome)
  {
    if p.enabled then o == Outcome(p, -EIO)
    else if addr == 0 then
      && o.ret == 0
      && (p.base == 0 ==> o.port == p)
      && (p.base != 0 ==>
          exists r :: r in Elems(p.tree) && Covers(r, p.base, c.Span()) && Reflagged(p, o.port, 0, r, false))
    else if addr % PAGE_SIZE != 0 || forall r :: r in Elems(p.tree) ==> !Covers(r, addr, c.Span()) then
      o == Outcome(p, -EINVAL)
    else
      && o.ret == 0
      && exists r :: r in Elems(p.tree) && Covers(r, addr, c.Span()) && Reflagged(p, o.port, addr, r, true)
  }

  /** Base and the mark of one region have changed, nothing else. */
  ghost predicate Reflagged(p: Port, p': Port, base: nat, r: Region, inUse: bool)
  {
    && p' == p.(base := base, tree := p'.tree)
    && Elems(p'.tree) == Elems(p.tree) - {r} + {r.(inUse := inUse)}
  }

  /** What setting the base means: on success it is the address, and zero is always accepted. */
  lemma SetAddrMeans(c: Config, p: Port, addr: nat)
    requires Core(c, p) && addr < U64 && c.hasUmsg
    ensures SetsBase(c, p, addr, UmsgSetAddr(c, p, addr))
    ensures var o := UmsgSetAddr(c, p, addr);
            && Core(c, o.port) && PageTotal(o.port.tree) == PageTotal(p.tree)
            && (o.ret == 0 ==> o.port.base == addr && !p.enabled)
            && (o.ret != 0 ==> o.port == p)
            && (addr == 0 && !p.enabled ==> o.ret == 0)
  {
    SetAddrKeeps(c, p, addr);
    if UmsgSetAddr(c, p, addr).ret == 0 && addr != 0 {
      SetAddrMarks(c, p, addr);
      MarkPages(p.tree, Search(p.tree, addr, c.Span()).value.iova, true);
    } else if addr == 0 && !p.enabled {
      ClearSucceeds(c, p);
      if p.base != 0 {
        MarkPages(p.tree, Search(p.tree, p.base, c.Span()).value.iova, false);
      }
    }
    SetAddrSets(c, p, addr);
  }

  lemma SetAddrSets(c: Config, p: Port, addr: nat)
    requires LiveOk(p) && BaseOk(c, p) && addr < U64
    ensures SetsBase(c, p, addr, UmsgSetAddr(c, p, addr))
  {
    if !p.enabled && addr != 0 && addr % PAGE_SIZE == 0 {
      SetSets(c, p, addr);
    } else if !p.enabled && addr == 0 && p.base != 0 {
      ClearSets(c, p);
    }
  }

  lemma SetSets(c: Config, p: Port, addr: nat)
    requires LiveOk(p) && !p.enabled && 0 < addr < U64 && addr % PAGE_SIZE == 0
    ensures var o := UmsgSetAddr(c, p, addr);
            if forall r :: r in Elems(p.tree) ==> !Covers(r, addr, c.Span()) then o == Outcome(p, -EINVAL)
            else
              && o.ret == 0
              && exists r :: r in Elems(p.tree) && Covers(r, addr, c.Span()) && Reflagged(p, o.port, addr, r, true)
  {
    if addr + c.Span() < U64 {
      SearchHere(p, addr, c.Span());
      var f := Search(p.tree, addr, c.Span());
      if f.Some? {
        SetFound(c, p, addr, f.value);
      }
    }
  }

  lemma SetFound(c: Config, p: Port, addr: nat, r: Region)
    requires LiveOk(p) && !p.enabled && 0 < addr < U64 && addr % PAGE_SIZE == 0 && addr + c.Span() < U64
    requires Search(p.tree, addr, c.Span()) == Some(r) && r in Elems(p.tree) && Covers(r, addr, c.Span())
    ensures UmsgSetAddr(c, p, addr).ret == 0 && Reflagged(p, UmsgSetAddr(c, p, addr).port, addr, r, true)
  {
    MarkElems(p.tree, r, true);
  }

  lemma ClearSets(c: Config, p: Port)
    requires LiveOk(p) && BaseOk(c, p) && !p.enabled && p.base != 0
    ensures var o := UmsgSetAddr(c, p, 0);
            && o.ret == 0
            && exists r :: r in Elems(p.tree) && Covers(r, p.base, c.Span()) && Reflagged(p, o.port, 0, r, false)
  {
    var r :| r in Elems(p.tree) && r.inUse && Covers(r, p.base, c.Span());
    SearchFinds(p.tree, p.base, c.Span(), r);
    MarkElems(p.tree, r, false);
    assert Reflagged(p, UmsgSetAddr(c, p, 0).port, 0, r, false);
  }

  /** A new mapping is never refused by the tree. */
  lemma NewIsTaken(p: Port, n: Region)
    requires LiveOk(p) && NewMapping(p, n)
    ensures Insert(p.tree, n).Some?
  {
    InsertRefusesIff(p.tree, n);
  }

  /** The page frames follow each other. */
  predicate Consecutive(pfns: seq<nat>)
  {
    forall i, j :: 0 <= i < j < |pfns| ==> pfns[j] == pfns[i] + (j - i)
  }

  /** A request for at least one whole page at a page boundary that does not wrap around. */
  predicate PageRequest(userAddr: nat, length: nat)
  {
    userAddr % PAGE_SIZE == 0 && length % PAGE_SIZE == 0 && length != 0 && userAddr + length < U64
  }

  /** The code of a map request: the first check or answer that fails decides it. */
  function MapCode(p: Port, userAddr: nat, length: nat, k: Kernel): int
  {
    if !PageRequest(userAddr, length) || !k.accessOk then -EINVAL
    else if !k.regionOk then -ENOMEM
    else if !(p.lockedVm + length / PAGE_SIZE <= k.limit || k.capable) || !k.arrayOk then -ENOMEM
    else if k.pinned < 0 then k.pinned
    else if k.pinned != length / PAGE_SIZE then -EFAULT
    else if !Consecutive(k.pfns) then -EINVAL
    else if !k.mapOk then -EFAULT
    else if Insert(p.tree, Region(k.iova, length, false)).None? then -EEXIST
    else 0
  }

  lemma MapCodeMeans(p: Port, userAddr: nat, length: nat, k: Kernel)
    requires LiveOk(p) && NewMapping(p, Region(k.iova, length, false))
    ensures MapCode(p, userAddr, length, k) == 0 <==>
      && userAddr % PAGE_SIZE == 0 && length % PAGE_SIZE == 0 && length != 0 && userAddr + length < U64
      && k.accessOk && k.regionOk && k.arrayOk && k.mapOk
      && (p.lockedVm + length / PAGE_SIZE <= k.limit || k.capable) && k.pinned == length / PAGE_SIZE
      && forall i, j :: 0 <= i < j < |k.pfns| ==> k.pfns[j] == k.pfns[i] + (j - i)
  {
    NewIsTaken(p, Region(k.iova, length, false));
  }

  lemma CoreGrows(c: Config, p: Port, p': Port, n: Region)
    requires Core(c, p) && p.mapped == [] && NewMapping(p, n)
    requires Ordered(p'.tree) && Elems(p'.tree) == Elems(p.tree) + {n}
    requires PageTotal(p'.tree) == PageTotal(p.tree) + n.Pages()
    requires p' == p.(tree := p'.tree, lockedVm := p.lockedVm + n.Pages())
    ensures Core(c, p')
  {
    LiveExtend(Elems(p.tree), p.mapped, n);
    LiveGrow(Elems(p.tree), p.mapped + [n], 0);
    assert Without(p.mapped + [n], 0) == p'.mapped;
    if p.base != 0 {
      var r :| r in Elems(p.tree) && r.inUse && Covers(r, p.base, c.Span());
      assert r in Elems(p'.tree);
    }
  }

  lemma CoreShrinks(c: Config, p: Port, p': Port, r: Region)
    requires Core(c, p) && p.mapped == [] && r in Elems(p.tree) && TookOut(p, p', r) && Ordered(p'.tree)
    requires PageTotal(p'.tree) == PageTotal(p.tree) - r.Pages()
    ensures Core(c, p')
  {
    LiveShrink(Elems(p.tree), p.mapped, r);
    LiveDrop(Elems(p'.tree), p.mapped + [r], 0);
    assert Without(p.mapped + [r], 0) == p'.mapped;
    if p.base != 0 {
      var w :| w in Elems(p.tree) && w.inUse && Covers(w, p.base, c.Span());
      assert w in Elems(p'.tree);
    }
  }

  class AfuDevice {
    const cfg: Config
    var tree: Tree
    var lockedVm: nat
    var pageRefs: nat     // references to user pages taken by pinning
    var base: nat
    var enabled: bool
    var openCount: nat
    var excl: bool

    constructor (cfg: Config)
      ensures this.cfg == cfg && State() == Initial(cfg) && pageRefs == 0 && Valid()
    {
      this.cfg := cfg;
      tree, lockedVm, base, enabled, openCount, excl := Leaf, cfg.others, 0, false, 0, false;
      pageRefs := 0;
    }

    /** The device as a state in which no ioctl is under way. */
    ghost function State(): Port
      reads this
    {
      Port(tree, [], [], lockedVm, base, enabled, openCount, excl)
    }

    /** The core invariant, and a page reference for every stored page. */
    ghost predicate Sound()
      reads this
    {
      Core(cfg, State()) && PageTotal(tree) <= pageRefs
    }

    ghost predicate Valid()
      reads this
    {
      Sound() && IdleOk(State())
    }

    /**
     * afu_port_umsg_enable. It is refused exactly when UMSG would run without a base; otherwise the
     * bit is set as asked, even if the hardware does not confirm.
     */
    method Enable(on: bool, acked: bool) returns (ret: int)
      requires Sound()
      modifies this`enabled
      ensures Sound()
      ensures ret == -EIO <==> on && base == 0
      ensures enabled == if ret == -EIO then old(enabled) else on
      ensures ret == -ETIMEDOUT <==> enabled != old(enabled) && !acked
      ensures ret in {0, -EIO, -ETIMEDOUT}
      ensures State() == UmsgEnable(old(State()), on, acked).port
    {
      if on && base == 0 {
        return -EIO;
      }
      if (on && enabled) || !(on || enabled) {
        return 0;
      }
      enabled := on;
      return if acked then 0 else -ETIMEDOUT;
    }

    /** afu_port_umsg_set_addr: the tree is walked once for the region under the old or new base. */
    method SetAddr(addr: nat) returns (ret: int)
      requires addr < U64
      modifies this`base, this`tree
      ensures State() == UmsgSetAddr(cfg, old(State()), addr).port
      ensures ret == UmsgSetAddr(cfg, old(State()), addr).ret
    {
      var size := cfg.numUmsgs * PAGE_SIZE;
      if enabled {
        return -EIO;
      }
      if addr != 0 {
        if addr % PAGE_SIZE != 0 || (addr + size) % U64 < addr {
          return -EINVAL;
        }
        var found := FindRegion(tree, addr, size);
        if found.None? {
          return -EINVAL;
        }
        base := addr % BASE_BITS;
        tree := Mark(tree, found.value.iova, true);
      } else {
        if base == 0 {
          return 0;
        }
        if (base + size) % U64 < base {
          return -EINVAL;
        }
        var found := FindRegion(tree, base, size);
        if found.None? {
          return -ENODEV;
        }
        base := 0;
        tree := Mark(tree, found.value.iova, false);
      }
      return 0;
    }

    /** The ioctl that sets the base: on success it holds the address, and zero clears it unless UMSG runs. */
    method SetBase(addr: nat) returns (ret: int)
      requires Valid() && openCount > 0 && cfg.hasUmsg && addr < U64
      modifies this`base, this`tree
      ensures Valid()
      ensures ret == 0 ==> base == addr && !enabled
      ensures ret != 0 ==> base == old(base) && tree == old(tree)
      ensures addr == 0 ==> (ret == 0 <==> !enabled)
      ensures SetsBase(cfg, old(State()), addr, Outcome(State(), ret))
      ensures PageTotal(tree) == PageTotal(old(tree))
    {
      SetAddrMeans(cfg, State(), addr);
      ret := SetAddr(addr);
    }

    /** afu_dma_adjust_locked_vm, for a task with an address space. */
    method AdjustLockedVm(npages: nat, incr: bool, limit: nat, capable: bool) returns (ret: int)
      modifies this`lockedVm
      ensures ret == if incr && old(lockedVm) + npages > limit && !capable then -ENOMEM else 0
      ensures incr ==> lockedVm == old(lockedVm) + if ret == 0 then npages else 0
      ensures !incr ==> lockedVm == Discharge(old(lockedVm), npages)
    {
      if incr {
        var locked := lockedVm + npages;
        if locked > limit && !capable {
          return -ENOMEM;
        }
        lockedVm := lockedVm + npages;
      } else {
        var n := if npages > lockedVm then lockedVm else npages;
        lockedVm := lockedVm - n;
      }
      return 0;
    }

    /**
     * afu_dma_pin_pages. A failure at any stage leaves locked_vm as it was. Page references are
     * not conserved: pinning some but not all pages keeps the references it got.
     */
    method PinPages(npages: nat, k: Kernel) returns (ret: int)
      requires npages > 0 && k.pinned <= npages
      modifies this`lockedVm, this`pageRefs
      ensures var charged := old(lockedVm) + npages <= k.limit || k.capable;
              && ret == (if !charged || !k.arrayOk then -ENOMEM
                         else if k.pinned < 0 then k.pinned
                         else if k.pinned != npages then -EFAULT else 0)
              && lockedVm == old(lockedVm) + (if ret == 0 then npages else 0)
              && pageRefs == old(pageRefs) + (if charged && k.arrayOk && k.pinned > 0 then k.pinned else 0)
    {
      ret := AdjustLockedVm(npages, true, k.limit, k.capable);
      if ret != 0 {
        return;
      }
      if !k.arrayOk {
        var _ := AdjustLockedVm(npages, false, k.limit, k.capable);
        return -ENOMEM;
      }
      if k.pinned > 0 {
        pageRefs := pageRefs + k.pinned;
      }
      if k.pinned < 0 {
        ret := k.pinned;
      } else if k.pinned != npages {
        ret := -EFAULT;
      }
      if ret != 0 {
        var _ := AdjustLockedVm(npages, false, k.limit, k.capable);
      }
    }

    /** afu_dma_unpin_pages */
    method UnpinPages(npages: nat)
      requires npages <= pageRefs
      modifies this`lockedVm, this`pageRefs
      ensures lockedVm == Discharge(old(lockedVm), npages) && pageRefs == old(pageRefs) - npages
    {
      pageRefs := pageRefs - npages;
      var _ := AdjustLockedVm(npages, false, 0, false);
    }

    /** The part of afu_dma_map_region after pinning, undone if any of it fails. */
    method PlaceRegion(length: nat, k: Kernel) returns (ret: int)
      requires Ordered(tree) && length / PAGE_SIZE <= pageRefs && length / PAGE_SIZE <= lockedVm
      modifies this`tree, this`lockedVm, this`pageRefs
      ensures ret == if !Consecutive(k.pfns) then -EINVAL
                     else if !k.mapOk then -EFAULT
                     else if Insert(old(tree), Region(k.iova, length, false)).None? then -EEXIST
                     else 0
      ensures ret == 0 ==>
              && Ordered(tree) && Elems(tree) == Elems(old(tree)) + {Region(k.iova, length, false)}
              && PageTotal(tree) == PageTotal(old(tree)) + length / PAGE_SIZE
              && lockedVm == old(lockedVm) && pageRefs == old(pageRefs)
      ensures ret != 0 ==>
              && tree == old(tree) && ret in {-EINVAL, -EFAULT, -EEXIST}
              && lockedVm == old(lockedVm) - length / PAGE_SIZE && pageRefs == old(pageRefs) - length / PAGE_SIZE
    {
      var ok := Continuous(k.pfns);
      if !ok {
        UnpinPages(length / PAGE_SIZE);
        return -EINVAL;
      }
      if !k.mapOk {
        UnpinPages(length / PAGE_SIZE);
        return -EFAULT;
      }
      ret, tree := DmaRegions.AddRegion(tree, Region(k.iova, length, false), k.turns);
      if ret != 0 {
        UnpinPages(length / PAGE_SIZE);
      }
    }

    /** Pinning, then placing: what afu_dma_map_region does for an acceptable request. */
    method PinAndPlace(length: nat, k: Kernel) returns (ret: int)
      requires Ordered(tree) && length >= PAGE_SIZE && k.pinned <= length / PAGE_SIZE
      modifies this`tree, this`lockedVm, this`pageRefs
      ensures var npages := length / PAGE_SIZE;
              && ret == (if !(old(lockedVm) + npages <= k.limit || k.capable) || !k.arrayOk then -ENOMEM
                         else if k.pinned < 0 then k.pinned
                         else if k.pinned != npages then -EFAULT
                         else if !Consecutive(k.pfns) then -EINVAL
                         else if !k.mapOk then -EFAULT
                         else if Insert(old(tree), Region(k.iova, length, false)).None? then -EEXIST
                         else 0)
              && lockedVm == old(lockedVm) + (if ret == 0 then npages else 0)
              && pageRefs == old(pageRefs) + (if ret == 0 then npages
                                              else if ret == -EFAULT && 0 < k.pinned < npages && k.arrayOk
                                              then k.pinned else 0)
      ensures ret == 0 ==>
              && Ordered(tree) && Elems(tree) == Elems(old(tree)) + {Region(k.iova, length, false)}
              && PageTotal(tree) == PageTotal(old(tree)) + length / PAGE_SIZE
      ensures ret != 0 ==> tree == old(tree)
    {
      ret := PinPages(length / PAGE_SIZE, k);
      if ret == 0 {
        ret := PlaceRegion(length, k);
      }
    }

    /** The checks of afu_dma_map_region, then pinning and placing, with the code of every exit. */
    method TryMap(userAddr: nat, length: nat, k: Kernel) returns (ret: int)
      requires Ordered(tree) && userAddr < U64 && length < U64 && k.pinned <= length / PAGE_SIZE
      modifies this`tree, this`lockedVm, this`pageRefs
      ensures ret == MapCode(old(State()), userAddr, length, k)
      ensures ret == 0 ==>
              && Ordered(tree) && Elems(tree) == Elems(old(tree)) + {Region(k.iova, length, false)}
              && PageTotal(tree) == PageTotal(old(tree)) + length / PAGE_SIZE
      ensures ret != 0 ==> tree == old(tree)
      ensures lockedVm == old(lockedVm) + if ret == 0 then length / PAGE_SIZE else 0
      ensures pageRefs == old(pageRefs) + (if ret == 0 then length / PAGE_SIZE
                                           else if ret == -EFAULT && 0 < k.pinned < length / PAGE_SIZE && k.arrayOk
                                           then k.pinned else 0)
    {
      if userAddr % PAGE_SIZE != 0 || length % PAGE_SIZE != 0 || length == 0 {
        return -EINVAL;
      }
      if (userAddr + length) % U64 < userAddr {
        return -EINVAL;
      }
      if !k.accessOk {
        return -EINVAL;
      }
      if !k.regionOk {
        return -ENOMEM;
      }
      ret := PinAndPlace(length, k);
    }

    /**
     * afu_dma_map_region. Success stores exactly one new region and charges its pages; failure at
     * any stage leaves tree and locked_vm as they were, and leaks page references exactly when
     * pinning stopped half way. It succeeds exactly if every check and every answer of the kernel is
     * good and the page frames are consecutive, given that dma_map_page hands out an unused address;
     * the invariant then survives.
     */
    method MapRegion(userAddr: nat, length: nat, k: Kernel) returns (ret: int)
      requires Sound() && userAddr < U64 && length < U64 && k.iova < U64
      requires k.pinned <= length / PAGE_SIZE && |k.pfns| == length / PAGE_SIZE
      modifies this`tree, this`lockedVm, this`pageRefs
      ensures NewMapping(old(State()), Region(k.iova, length, false)) || ret != 0 ==> Sound()
      ensures ret == MapCode(old(State()), userAddr, length, k)
      ensures NewMapping(old(State()), Region(k.iova, length, false)) ==>
        (ret == 0 <==>
          && userAddr % PAGE_SIZE == 0 && length % PAGE_SIZE == 0 && length != 0 && userAddr + length < U64
          && k.accessOk && k.regionOk && k.arrayOk && k.mapOk
          && (old(lockedVm) + length / PAGE_SIZE <= k.limit || k.capable) && k.pinned == length / PAGE_SIZE
          && forall i, j :: 0 <= i < j < |k.pfns| ==> k.pfns[j] == k.pfns[i] + (j - i))
      ensures ret == 0 ==> Elems(tree) == Elems(old(tree)) + {Region(k.iova, length, false)}
      ensures ret != 0 ==> tree == old(tree)
      ensures lockedVm == old(lockedVm) + if ret == 0 then length / PAGE_SIZE else 0
      ensures pageRefs == old(pageRefs) + (if ret == 0 then length / PAGE_SIZE
                                           else if ret == -EFAULT && 0 < k.pinned < length / PAGE_SIZE && k.arrayOk
                                           then k.pinned else 0)
    {
      if NewMapping(State(), Region(k.iova, length, false)) {
        MapCodeMeans(State(), userAddr, length, k);
      }
      ret := TryMap(userAddr, length, k);
      if ret == 0 {
        if NewMapping(old(State()), Region(k.iova, length, false)) {
          CoreGrows(cfg, old(State()), State(), Region(k.iova, length, false));
        }
      } else {
        assert State() == old(State());
      }
    }

    /** afu_dma_unmap_region */
    method UnmapRegion(iova: nat, turns: seq<Turn>) returns (ret: int)
      requires Sound() && iova < U64
      modifies this`tree, this`lockedVm, this`pageRefs
      ensures Sound()
      ensures ret == -EINVAL <==> forall r :: r in Elems(old(tree)) ==> r.iova != iova
      ensures ret == -EBUSY <==> exists r :: r in Elems(old(tree)) && r.iova == iova && r.inUse
      ensures ret != 0 ==> ret in {-EINVAL, -EBUSY} && tree == old(tree) && lockedVm == old(lockedVm)
      ensures ret == 0 ==>
        exists r :: r in Elems(old(tree)) && r.iova == iova && TookOut(old(State()), State(), r) &&
                    pageRefs == old(pageRefs) - r.Pages()
      ensures ret != 0 ==> pageRefs == old(pageRefs)
    {
      SearchSound(tree, iova, 0);
      forall r | r in Elems(tree) && r.iova == iova ensures Search(tree, iova, 0) == Some(r) {
        SearchStart(tree, r);
      }
      var found := FindRegion(tree, iova, 0);
      if found.None? {
        return -EINVAL;
      }
      var region := found.value;
      if region.inUse {
        return -EBUSY;
      }
      DeleteElems(tree, region);
      tree := RemoveRegion(tree, region, turns);
      UnpinPages(region.Pages());
      assert TookOut(old(State()), State(), region);
      CoreShrinks(cfg, old(State()), State(), region);
      return 0;
    }

    /** afu_dma_region_destroy */
    method DestroyRegions()
      requires PageTotal(tree) <= pageRefs
      modifies this`tree, this`lockedVm, this`pageRefs
      ensures tree == Leaf && lockedVm == DischargeAll(old(tree), old(lockedVm))
      ensures pageRefs == old(pageRefs) - PageTotal(old(tree))
    {
      while tree.Node?
        invariant DischargeAll(old(tree), old(lockedVm)) == DischargeAll(tree, lockedVm)
        invariant PageTotal(tree) <= pageRefs && pageRefs - PageTotal(tree) == old(pageRefs) - PageTotal(old(tree))
        decreases Count(tree)
      {
        LeftmostFirst(tree, lockedVm);
        var region := Leftmost(tree);
        tree := DropLeftmost(tree);
        UnpinPages(region.Pages());
      }
    }

    /**
     * afu_release. The last close leaves nothing behind: no region, no base, UMSG off, locked_vm as
     * it was before the port was used, and no page reference except those an aborted pinning kept.
     */
    method Close(acked: bool)
      requires Valid() && openCount > 0
      modifies this
      ensures Valid() && openCount == old(openCount) - 1
      ensures !excl
      ensures openCount > 0 ==>
              && tree == old(tree) && base == old(base) && enabled == old(enabled)
              && lockedVm == old(lockedVm) && pageRefs == old(pageRefs)
      ensures openCount == 0 ==>
              && tree == Leaf && base == 0 && !enabled && lockedVm == cfg.others
              && pageRefs == old(pageRefs) - PageTotal(old(tree))
      ensures State() == Release(cfg, old(State()), acked)
    {
      ReleaseKeeps(cfg, State(), acked);
      excl := false;
      openCount := openCount - 1;
      if openCount == 0 {
        HaltClears(cfg, State(), acked);
        if cfg.hasUmsg {
          var _ := Enable(false, acked);
          var _ := SetAddr(0);
        }
        DestroyRegions();
      }
    }

    /** afu_open: refused exactly when the port is open and either side wants it for itself. */
    method OpenDevice(exclusive: bool) returns (ret: int)
      requires Valid()
      modifies this`excl, this`openCount
      ensures Valid()
      ensures ret == -EBUSY <==> old(openCount) > 0 && (exclusive || old(excl))
      ensures ret == 0 ==> openCount == old(openCount) + 1 && excl == exclusive
      ensures ret != 0 ==> ret == -EBUSY && openCount == old(openCount) && excl == old(excl)
      ensures State() == Open(old(State()), exclusive).port
    {
      if exclusive {
        if openCount > 0 {
          return -EBUSY;
        }
        excl := true;
      } else if excl {
        return -EBUSY;
      }
      openCount := openCount + 1;
      return 0;
    }
  }

  /** On an open port, a request for two pages of which one gets pinned fails and keeps that reference. */
  method PartialPinLeaks(cfg: Config) returns (d: AfuDevice, ret: int)
    ensures d.Valid() && d.State() == Initial(cfg).(openCount := 1)
    ensures ret == -EFAULT && d.pageRefs == 1
  {
    d := new AfuDevice(cfg);
    var first := d.OpenDevice(false);
    ret := d.MapRegion(0, 8192, Kernel(true, true, 0, true, true, 1, [7, 8], true, 4096, []));
  }
}
