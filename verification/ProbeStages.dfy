/**
 * What probing a card does and how it ends, as a function of the device memory and of the calls the
 * kernel refuses: the feature lists, the stages they lead to, and when a stage crashes or reads
 * outside a BAR. drivers/fpga/intel/pcie.c lines 384-476, 716-1094 and 1165-1206,
 * include/intel/feature-dev.h lines 1752-1775, drivers/fpga/intel/feature-dev.c lines 236-292.
 */
module ProbeStages {
  import opened Common

  const MAX_FPGA_PORT_NUM: nat := 4
  const HEADER_SIZE: nat := 8
  const AFU_HEADER_SIZE: nat := 24
  const FME_FEATURES: nat := 9
  const PORT_FEATURES: nat := 6
  const UAFU: nat := 5

  // ----- device memory

  datatype Kind = AfuType | PrivateType | FiuType | OtherType

  /** A feature header; `next` and the AFU pointers are 24-bit offsets. */
  datatype Header = Header(kind: Kind, id: nat, next: nat, eol: bool)

  datatype Guid = FmeGuid | PortGuid | OtherGuid

  datatype AfuHeader = AfuHeader(guid: Guid, nextAfu: nat)

  /** One BAR: its length and what reading it answers at each offset, whatever the device stores. */
  datatype Bar = Bar(
    len: nat, header: nat -> Header, afu: nat -> AfuHeader, mmioSize: nat -> nat, irqs: nat -> bool)

  datatype PortEntry = PortEntry(implemented: bool, bar: nat, offset: nat)

  /** A card: its BARs, the port table of an FME header, and the sizes of the feature structures. */
  datatype Card = Card(
    bars: nat -> Bar, portTable: (nat, nat) -> PortEntry, fmeSize: nat -> nat, portSize: nat -> nat)

  datatype Resource = Resource(bar: nat, start: nat, size: nat)

  // ----- the list a walk is meant to visit

  /**
   * The offsets a walk from `start` visits: each needs `need` bytes before the end, and `step`
   * tells how far the next one is, 0 for none.
   */
  function WalkFrom(end: nat, need: nat, step: nat -> nat, start: nat): seq<nat>
    decreases if start < end then end - start else 0
  {
    if start >= end || end - start < need then []
    else if step(start) == 0 then [start]
    else [start] + WalkFrom(end, need, step, start + step(start))
  }

  /** Whether the walk runs into the last bytes before the end, where nothing fits. */
  predicate Truncated(end: nat, need: nat, step: nat -> nat, start: nat)
    decreases if start < end then end - start else 0
  {
    if start >= end then false
    else if end - start < need then true
    else step(start) != 0 && Truncated(end, need, step, start + step(start))
  }

  /** How far the next header is; nothing follows the end mark. */
  function Distance(h: Header): (d: nat)
    ensures d != 0 <==> !h.eol && h.next != 0
    ensures d != 0 ==> d == h.next
  {
    if h.eol then 0 else h.next
  }

  function FeatureStep(b: Bar): nat -> nat
  {
    (o: nat) => Distance(b.header(o))
  }

  function AfuStep(b: Bar): nat -> nat
  {
    (o: nat) => b.afu(o).nextAfu
  }

  /** Every walk visits strictly increasing offsets, each with the bytes it needs before the end. */
  lemma {:induction false} WalkIncreases(end: nat, need: nat, step: nat -> nat, start: nat)
    ensures var l := WalkFrom(end, need, step, start);
            && (forall i :: 0 <= i < |l| ==> start <= l[i] && l[i] + need <= end)
            && (forall i, j :: 0 <= i < j < |l| ==> l[i] < l[j])
            && (l != [] <==> start < end && start + need <= end)
            && (l != [] ==> l[0] == start)
    decreases if start < end then end - start else 0
  {
    if start < end && end - start >= need && step(start) != 0 {
      WalkIncreases(end, need, step, start + step(start));
    }
  }

  /** The position a walk ends at: the start, or behind its last visit. */
  function Last(l: seq<nat>, step: nat -> nat, start: nat): nat
  {
    if l == [] then start else l[|l| - 1] + step(l[|l| - 1])
  }

  /**
   * Consecutive visits follow the stored offset; a walk stops exactly where that is 0 or where
   * nothing more fits, and is truncated exactly if there are bytes left there.
   */
  lemma {:induction false} WalkFollowsOffsets(end: nat, need: nat, step: nat -> nat, start: nat)
    ensures var l := WalkFrom(end, need, step, start);
            && (forall i :: 0 <= i < |l| - 1 ==> step(l[i]) != 0 && l[i + 1] == l[i] + step(l[i]))
            && ((l != [] && step(l[|l| - 1]) == 0) || Last(l, step, start) >= end || Last(l, step, start) + need > end)
            && (Truncated(end, need, step, start) <==>
                (l == [] || step(l[|l| - 1]) != 0) && Last(l, step, start) < end)
    decreases if start < end then end - start else 0
  {
    if start < end && end - start >= need && step(start) != 0 {
      var next := start + step(start);
      WalkFollowsOffsets(end, need, step, next);
      WalkIncreases(end, need, step, next);
    }
  }

  /** The feature list of a BAR from an offset on. */
  function FeatureList(b: Bar, start: nat): seq<nat>
  {
    WalkFrom(b.len, HEADER_SIZE, FeatureStep(b), start)
  }

  // ----- what a probe does, header by header

  /** Bytes of a port header that enabling the user AFU reads: up to its control register. */
  const PORT_CONTROL_END: nat := 64
  const PORT_HEADER_SIZE: nat := 112
  const GLOBAL_ERR: nat := 4
  const PORT_ERR: nat := 1
  const PORT_UINT: nat := 3

  datatype IdKind = FmeId | PortId

  /**
   * One stage of a probe: mapping a BAR, a header of a feature list, a header of an AFU list, a
   * list whose next header does not fit before the end, and registering the last device.
   */
  datatype Op = MapBar(bar: nat) | Feature(bar: nat, at: nat) | Afu(bar: nat, at: nat) | Short | CommitLast

  function Left(card: Card, bar: nat, at: nat): nat
  {
    if at < card.bars(bar).len then card.bars(bar).len - at else 0
  }

  /** The AFU list from an offset on. */
  function AfuOps(card: Card, bar: nat, at: nat): seq<Op>
    decreases Left(card, bar, at), 1
  {
    if Left(card, bar, at) == 0 then []
    else if Left(card, bar, at) < HEADER_SIZE + AFU_HEADER_SIZE then [Short]
    else [Afu(bar, at)] + AfterAfu(card, bar, at)
  }

  function AfterAfu(card: Card, bar: nat, at: nat): seq<Op>
    requires Left(card, bar, at) > 0
    decreases Left(card, bar, at), 0
  {
    var next := card.bars(bar).afu(at).nextAfu;
    if next == 0 then [] else AfuOps(card, bar, at + next)
  }

  /** The AFU list that hangs on a feature header. */
  function HangingOps(card: Card, bar: nat, at: nat): seq<Op>
  {
    var h, next := card.bars(bar).header(at), card.bars(bar).afu(at).nextAfu;
    if h.kind == AfuType || (h.kind == FiuType && h.id == 1 && next != 0) then
      AfuOps(card, bar, if h.kind == AfuType then at else at + next)
    else []
  }

  /** One feature header and what hangs on it. */
  function HeaderOps(card: Card, bar: nat, at: nat): seq<Op>
  {
    [Feature(bar, at)] + HangingOps(card, bar, at)
  }

  /** A whole feature list. */
  function ListOps(card: Card, bar: nat, at: nat): seq<Op>
    decreases Left(card, bar, at), 1
  {
    if Left(card, bar, at) == 0 then []
    else if Left(card, bar, at) < HEADER_SIZE then [Short]
    else HeaderOps(card, bar, at) + AfterHeader(card, bar, at)
  }

  function AfterHeader(card: Card, bar: nat, at: nat): seq<Op>
    requires Left(card, bar, at) > 0
    decreases Left(card, bar, at), 0
  {
    var next := Distance(card.bars(bar).header(at));
    if next == 0 then [] else ListOps(card, bar, at + next)
  }

  /** A list with the mapping of its BAR. */
  function MappedOps(card: Card, bar: nat, at: nat): seq<Op>
  {
    [MapBar(bar)] + ListOps(card, bar, at)
  }

  /** The lists of the ports of an FME, up to the first port that is not implemented. */
  function PortOps(card: Card, header: nat, i: nat): seq<Op>
    decreases MAX_FPGA_PORT_NUM - i
  {
    var entry := card.portTable(header, i);
    if i >= MAX_FPGA_PORT_NUM || !entry.implemented then []
    else MappedOps(card, entry.bar, entry.offset) + PortOps(card, header, i + 1)
  }

  predicate IsFme(card: Card, op: Op)
  {
    match op
    case Feature(bar, at) => card.bars(bar).header(at).kind == FiuType && card.bars(bar).header(at).id == 0
    case Afu(bar, at) => card.bars(bar).afu(at).guid == FmeGuid
    case _ => false
  }

  predicate IsPort(card: Card, op: Op)
  {
    match op
    case Feature(bar, at) => card.bars(bar).header(at).kind == FiuType && card.bars(bar).header(at).id == 1
    case Afu(bar, at) => card.bars(bar).afu(at).guid == PortGuid
    case _ => false
  }

  /** The FME header that the last FME among the stages leaves behind. */
  function LastFme(card: Card, ops: seq<Op>, before: Option<nat>): Option<nat>
  {
    if ops == [] then before
    else LastFme(card, ops[1..], if IsFme(card, ops[0]) then Some(ops[0].at) else before)
  }

  /** The lists that an FME header names. */
  function NamedOps(card: Card, header: Option<nat>): seq<Op>
  {
    if header.None? then [] else PortOps(card, header.value, 0)
  }

  /** Everything a probe of this card does if nothing stops it. */
  function CardOps(card: Card): seq<Op>
  {
    MappedOps(card, 0, 0) + (NamedOps(card, LastFme(card, MappedOps(card, 0, 0), None)) + [CommitLast])
  }

  // ----- the stages of a card, in terms of its lists

  /** The stages of a walk over AFU headers: its offsets in order, and the end it runs into. */
  function AfuStages(card: Card, bar: nat, at: nat): seq<Op>
  {
    var b := card.bars(bar);
    var offsets := WalkFrom(b.len, HEADER_SIZE + AFU_HEADER_SIZE, AfuStep(b), at);
    seq(|offsets|, i requires 0 <= i < |offsets| => Afu(bar, offsets[i])) +
    if Truncated(b.len, HEADER_SIZE + AFU_HEADER_SIZE, AfuStep(b), at) then [Short] else []
  }

  lemma {:induction false} AfuOpsAreList(card: Card, bar: nat, at: nat)
    ensures AfuOps(card, bar, at) == AfuStages(card, bar, at)
    decreases Left(card, bar, at)
  {
    var b := card.bars(bar);
    if Left(card, bar, at) >= HEADER_SIZE + AFU_HEADER_SIZE {
      var next := b.afu(at).nextAfu;
      assert AfuStep(b)(at) == next;
      if next != 0 {
        AfuOpsAreList(card, bar, at + next);
        assert AfuStages(card, bar, at) == [Afu(bar, at)] + AfuStages(card, bar, at + next);
      }
    }
  }

  /** What hangs on a header: the AFU list at an AFU, or the one a port points to. */
  lemma HangingOpsMean(card: Card, bar: nat, at: nat)
    ensures var h, next := card.bars(bar).header(at), card.bars(bar).afu(at).nextAfu;
            && (h.kind == AfuType ==> HangingOps(card, bar, at) == AfuStages(card, bar, at))
            && (h.kind == FiuType && h.id == 1 && next != 0 ==>
                HangingOps(card, bar, at) == AfuStages(card, bar, at + next))
            && (h.kind in {PrivateType, OtherType} || (h.kind == FiuType && (h.id != 1 || next == 0)) ==>
                HangingOps(card, bar, at) == [])
  {
    AfuOpsAreList(card, bar, at);
    AfuOpsAreList(card, bar, at + card.bars(bar).afu(at).nextAfu);
  }

  /** Each header of a list with what hangs on it. */
  function Spread(card: Card, bar: nat, offsets: seq<nat>): seq<Op>
  {
    if offsets == [] then []
    else [Feature(bar, offsets[0])] + HangingOps(card, bar, offsets[0]) + Spread(card, bar, offsets[1..])
  }

  function Tail(card: Card, bar: nat, at: nat): seq<Op>
  {
    if Truncated(card.bars(bar).len, HEADER_SIZE, FeatureStep(card.bars(bar)), at) then [Short] else []
  }

  /** The stages of a feature list are its headers in order, each with what hangs on it. */
  lemma {:induction false} ListOpsAreList(card: Card, bar: nat, at: nat)
    ensures ListOps(card, bar, at) ==
            Spread(card, bar, FeatureList(card.bars(bar), at)) + Tail(card, bar, at)
    decreases Left(card, bar, at)
  {
    var b := card.bars(bar);
    if Left(card, bar, at) >= HEADER_SIZE {
      var next := Distance(b.header(at));
      assert FeatureStep(b)(at) == next;
      if next != 0 {
        var rest := FeatureList(b, at + next);
        ListOpsAreList(card, bar, at + next);
        assert FeatureList(b, at) == [at] + rest && ([at] + rest)[1..] == rest;
        assert HeaderOps(card, bar, at) + (Spread(card, bar, rest) + Tail(card, bar, at + next)) ==
               HeaderOps(card, bar, at) + Spread(card, bar, rest) + Tail(card, bar, at + next);
      } else {
        assert FeatureList(b, at) == [at] && [at][1..] == [];
        assert HeaderOps(card, bar, at) + Spread(card, bar, []) == HeaderOps(card, bar, at);
      }
    }
  }

  /** The lists of the first `k` ports of an FME, each after the mapping of its BAR. */
  function PortLists(card: Card, header: nat, k: nat): seq<Op>
  {
    if k == 0 then []
    else
      var entry := card.portTable(header, k - 1);
      PortLists(card, header, k - 1) + [MapBar(entry.bar)] + ListOps(card, entry.bar, entry.offset)
  }

  /** The lists of exactly the ports 0, 1, ... up to the first of the four that is not implemented. */
  ghost predicate AllPorts(card: Card, header: nat, ops: seq<Op>)
  {
    exists k: nat ::
      && k <= 4 && (k == 4 || !card.portTable(header, k).implemented)
      && (forall i :: 0 <= i < k ==> card.portTable(header, i).implemented)
      && ops == PortLists(card, header, k)
  }

  lemma PortOpsFrom(card: Card, header: nat, i: nat)
    requires i <= MAX_FPGA_PORT_NUM && forall j :: 0 <= j < i ==> card.portTable(header, j).implemented
    ensures AllPorts(card, header, PortLists(card, header, i) + PortOps(card, header, i))
    decreases MAX_FPGA_PORT_NUM - i
  {
    var ops := PortOps(card, header, i);
    if i == MAX_FPGA_PORT_NUM || !card.portTable(header, i).implemented {
      assert PortLists(card, header, i) + ops == PortLists(card, header, i);
    } else {
      var entry := card.portTable(header, i);
      PortOpsFrom(card, header, i + 1);
      PortMoves(card, header, i);
    }
  }

  lemma PortMoves(card: Card, header: nat, i: nat)
    requires i < MAX_FPGA_PORT_NUM && card.portTable(header, i).implemented
    ensures PortLists(card, header, i) + PortOps(card, header, i) ==
            PortLists(card, header, i + 1) + PortOps(card, header, i + 1)
  {
    var entry := card.portTable(header, i);
    var a, list := PortLists(card, header, i), ListOps(card, entry.bar, entry.offset);
    var rest := PortOps(card, header, i + 1);
    assert PortOps(card, header, i) == ([MapBar(entry.bar)] + list) + rest;
    assert PortLists(card, header, i + 1) == a + [MapBar(entry.bar)] + list;
    assert a + (([MapBar(entry.bar)] + list) + rest) == a + [MapBar(entry.bar)] + list + rest;
  }

  /** The stages that the header of an FME leads to. */
  lemma NamedOpsAreAllPorts(card: Card, header: nat)
    ensures AllPorts(card, header, NamedOps(card, Some(header)))
    ensures NamedOps(card, None) == []
  {
    PortOpsFrom(card, header, 0);
    assert PortLists(card, header, 0) + PortOps(card, header, 0) == PortOps(card, header, 0);
  }

  /** `h` is where the last FME header among some stages lies, if there is one. */
  ghost predicate LastFmeAt(card: Card, ops: seq<Op>, h: Option<nat>)
  {
    match h
    case None => forall i :: 0 <= i < |ops| ==> !IsFme(card, ops[i])
    case Some(at) =>
      exists j :: 0 <= j < |ops| && IsFme(card, ops[j]) && ops[j].at == at &&
                  forall i :: j < i < |ops| ==> !IsFme(card, ops[i])
  }

  lemma {:induction false} LastFmeMeans(card: Card, ops: seq<Op>, before: Option<nat>)
    ensures var h := LastFme(card, ops, before);
            if LastFmeAt(card, ops, None) then h == before else h.Some? && LastFmeAt(card, ops, h)
    decreases |ops|
  {
    if ops != [] {
      var rest, now := ops[1..], if IsFme(card, ops[0]) then Some(ops[0].at) else before;
      LastFmeMeans(card, rest, now);
      assert forall i :: 0 < i < |ops| ==> ops[i] == rest[i - 1];
      if LastFmeAt(card, rest, None) {
        if !IsFme(card, ops[0]) {
          assert LastFmeAt(card, ops, None);
        } else {
          assert IsFme(card, ops[0]) && forall i :: 0 < i < |ops| ==> !IsFme(card, ops[i]);
        }
      } else {
        var h := LastFme(card, rest, now);
        var j :| 0 <= j < |rest| && IsFme(card, rest[j]) && rest[j].at == h.value &&
                 forall i :: j < i < |rest| ==> !IsFme(card, rest[i]);
        assert IsFme(card, ops[j + 1]) && ops[j + 1].at == h.value;
        assert forall i :: j + 1 < i < |ops| ==> !IsFme(card, ops[i]);
      }
    }
  }

  /** A whole probe: BAR 0 from its start, then all ports of the last FME found there, then the last device. */
  ghost predicate WholeCard(card: Card, ops: seq<Op>)
  {
    exists h, ports ::
      && LastFmeAt(card, ListOps(card, 0, 0), h)
      && (if h.None? then ports == [] else AllPorts(card, h.value, ports))
      && ops == [MapBar(0)] + ListOps(card, 0, 0) + ports + [CommitLast]
  }

  lemma CardOpsAreWhole(card: Card)
    ensures WholeCard(card, CardOps(card))
  {
    var list := ListOps(card, 0, 0);
    var h := LastFme(card, MappedOps(card, 0, 0), None);
    assert MappedOps(card, 0, 0)[1..] == list;
    LastFmeMeans(card, list, None);
    if h.Some? {
      NamedOpsAreAllPorts(card, h.value);
    }
    assert CardOps(card) == [MapBar(0)] + list + NamedOps(card, h) + [CommitLast];
  }

  // ----- the outcome of a probe, as a function of the card and of what the kernel grants

  /** How a call ends: it returns 0, it returns an error, or it dereferences a null pointer. */
  datatype Exit = Ok | Err(code: int) | Oops

  /** The stages taken and whether a read has gone past the end of a BAR. */
  datatype Trail = Trail(done: seq<Op>, past: bool)

  /**
   * Where a probe stands: how many fallible calls were made, the kind of the device under
   * construction, whether an FME is registered, the FME header, the user AFU size of the last
   * port, and the trail.
   */
  datatype Mode = Mode(clock: nat, cur: Option<IdKind>, fme: bool, header: Option<nat>, uafu: nat, trail: Trail)

  datatype Outcome = Going(mode: Mode) | Stopped(exit: Exit, trail: Trail)

  function Mark(m: Mode, beyond: bool): Trail
  {
    m.trail.(past := m.trail.past || beyond)
  }

  /** The mode after the device under construction has been registered. */
  function Committed(m: Mode): Mode
  {
    if m.cur.None? then m else m.(clock := m.clock + 1, fme := m.fme || m.cur == Some(FmeId), cur := None)
  }

  predicate CommitRefused(luck: nat -> bool, m: Mode)
  {
    m.cur.Some? && !luck(m.clock)
  }

  /** Device, id, platform data and resource table, in this order. */
  predicate Granted(luck: nat -> bool, clock: nat)
  {
    luck(clock) && luck(clock + 1) && luck(clock + 2) && luck(clock + 3)
  }

  predicate Fits(card: Card, bar: nat, at: nat, size: nat)
  {
    at + size <= card.bars(bar).len
  }

  /** parse_feature_fme */
  function VisitFme(card: Card, luck: nat -> bool, m: Mode, bar: nat, at: nat): Outcome
  {
    var c := Committed(m);
    if CommitRefused(luck, m) || !Granted(luck, c.clock) then Stopped(Err(-ENOMEM), m.trail)
    else if c.fme || !Fits(card, bar, at, card.fmeSize(0)) then Stopped(Err(-EINVAL), m.trail)
    else Going(c.(clock := c.clock + 4, cur := Some(FmeId), header := Some(at)))
  }

  /**
   * parse_feature_port and enable_port_uafu, which reads the header and resets "the port" even if
   * no port was built. A device that could not be registered is still there to be reset; otherwise
   * the device, its data or its header is missing.
   */
  function VisitPort(card: Card, luck: nat -> bool, m: Mode, bar: nat, at: nat): Outcome
  {
    var c, trail := Committed(m), Mark(m, !Fits(card, bar, at, PORT_CONTROL_END));
    var size := card.bars(bar).mmioSize(at) * 1024;
    if CommitRefused(luck, m) then Stopped(Err(-ENOMEM), trail)
    else if Granted(luck, c.clock) && Fits(card, bar, at, PORT_HEADER_SIZE) then
      Going(c.(clock := c.clock + 4, cur := Some(PortId), uafu := size, trail := trail))
    else if size != 0 then Stopped(Oops, trail)
    else Stopped(Err(if Granted(luck, c.clock) then -EINVAL else -ENOMEM), trail)
  }

  /** The feature a private header stands for: its index and size, if the driver knows it. */
  function PrivateFeature(card: Card, cur: IdKind, uafu: nat, id: nat): Option<(nat, nat)>
  {
    if cur == FmeId then
      if id >= FME_FEATURES then None else Some((id, card.fmeSize(id)))
    else
      var index := id % 16 + 1;
      if index >= PORT_FEATURES then None
      else Some((index, if index == UAFU then uafu else card.portSize(index)))
  }

  /** Features whose capability, the last register of their structure, is read for interrupts. */
  predicate ReadsCapability(cur: IdKind, index: nat)
  {
    if cur == FmeId then index == GLOBAL_ERR else index == PORT_ERR || index == PORT_UINT
  }

  /** parse_feature_private */
  function VisitPrivate(card: Card, luck: nat -> bool, m: Mode, bar: nat, at: nat): Outcome
  {
    if m.cur.None? then Stopped(Err(-EINVAL), m.trail)
    else
      var f := PrivateFeature(card, m.cur.value, m.uafu, card.bars(bar).header(at).id);
      if f.None? then Going(m)
      else
        var looks := ReadsCapability(m.cur.value, f.value.0);
        if !Fits(card, bar, at, f.value.1) then Stopped(Err(-EINVAL), Mark(m, looks))
        else if !(looks && card.bars(bar).irqs(at)) then Going(m)
        else if luck(m.clock) then Going(m.(clock := m.clock + 1))
        else Stopped(Err(-EINVAL), m.trail)
  }

  /** parse_feature_port_uafu: the first AFU that is neither FME nor port takes the size and clears it. */
  function VisitUser(card: Card, m: Mode, bar: nat, at: nat): Outcome
  {
    if m.cur != Some(PortId) then Going(m)
    else if m.uafu == 0 || !Fits(card, bar, at, m.uafu) then Stopped(Err(-EINVAL), m.trail)
    else Going(m.(uafu := 0))
  }

  function Handle(card: Card, luck: nat -> bool, m: Mode, op: Op): Outcome
  {
    if IsFme(card, op) then VisitFme(card, luck, m, op.bar, op.at)
    else if IsPort(card, op) then VisitPort(card, luck, m, op.bar, op.at)
    else
      match op
      case MapBar(_) => if luck(m.clock) then Going(m.(clock := m.clock + 1)) else Stopped(Err(-ENOMEM), m.trail)
      case Feature(bar, at) =>
        if card.bars(bar).header(at).kind == PrivateType then VisitPrivate(card, luck, m, bar, at) else Going(m)
      case Afu(bar, at) => VisitUser(card, m, bar, at)
      case Short => Stopped(Err(-EINVAL), m.trail)
      case CommitLast => if CommitRefused(luck, m) then Stopped(Err(-ENOMEM), m.trail) else Going(Committed(m))
  }

  function Noted(m: Mode, op: Op): Mode
  {
    m.(trail := m.trail.(done := m.trail.done + [op]))
  }

  function Visit(card: Card, luck: nat -> bool, m: Mode, op: Op): Outcome
  {
    Handle(card, luck, Noted(m, op), op)
  }

  /** Stage after stage, up to the first that does not end well. */
  function Scan(visit: (Mode, Op) -> Outcome, m: Mode, ops: seq<Op>): Outcome
    decreases |ops|
  {
    if ops == [] then Going(m)
    else
      var o := visit(m, ops[0]);
      if o.Going? then Scan(visit, o.mode, ops[1..]) else o
  }

  function Visitor(card: Card, luck: nat -> bool): (Mode, Op) -> Outcome
  {
    (m: Mode, op: Op) => Visit(card, luck, m, op)
  }

  function TrailOf(o: Outcome): Trail
  {
    if o.Going? then o.mode.trail else o.trail
  }

  /** A scan takes its stages in order: all of them, or those up to the one that stops it. */
  lemma {:induction false} ScanTrail(card: Card, luck: nat -> bool, m: Mode, ops: seq<Op>)
    ensures var o := Scan(Visitor(card, luck), m, ops);
            && m.trail.done <= TrailOf(o).done <= m.trail.done + ops
            && (o.Going? ==> o.mode.trail.done == m.trail.done + ops && o.mode.header == LastFme(card, ops, m.header))
    decreases |ops|
  {
    if ops != [] {
      var o := Visit(card, luck, m, ops[0]);
      assert m.trail.done + ops == (m.trail.done + [ops[0]]) + ops[1..];
      if o.Going? {
        ScanTrail(card, luck, o.mode, ops[1..]);
      }
    }
  }

  lemma {:induction false} ScanAppend(visit: (Mode, Op) -> Outcome, m: Mode, a: seq<Op>, b: seq<Op>)
    ensures var o := Scan(visit, m, a);
            Scan(visit, m, a + b) == if o.Going? then Scan(visit, o.mode, b) else o
    decreases |a|
  {
    if a == [] {
      assert a + b == b;
    } else {
      assert (a + b)[1..] == a[1..] + b;
      var o := visit(m, a[0]);
      if o.Going? {
        ScanAppend(visit, o.mode, a[1..], b);
      }
    }
  }

  lemma {:induction false} ScanSame(v: (Mode, Op) -> Outcome, w: (Mode, Op) -> Outcome, m: Mode, ops: seq<Op>)
    requires forall x, op :: v(x, op) == w(x, op)
    ensures Scan(v, m, ops) == Scan(w, m, ops)
    decreases |ops|
  {
    if ops != [] && v(m, ops[0]).Going? {
      ScanSame(v, w, v(m, ops[0]).mode, ops[1..]);
    }
  }

  // ----- what each stage takes and gives

  predicate NextGranted(luck: nat -> bool, clock: nat, n: nat)
  {
    forall i :: clock <= i < clock + n ==> luck(i)
  }

  /** The calls of a new device: the pending one is registered, then four allocations. */
  function NewDeviceCalls(m: Mode): nat
  {
    if m.cur.None? then 4 else 5
  }

  /** An FME stage goes on exactly if its calls are granted, it is the first FME, and its header fits. */
  lemma FmeStage(card: Card, luck: nat -> bool, m: Mode, bar: nat, at: nat)
    ensures var o, n := VisitFme(card, luck, m, bar, at), NewDeviceCalls(m);
            var granted := NextGranted(luck, m.clock, n);
            && (o.Going? <==>
                granted && !m.fme && m.cur != Some(FmeId) && at + card.fmeSize(0) <= card.bars(bar).len)
            && (o.Going? ==> o.mode == m.(clock := m.clock + n, cur := Some(FmeId), header := Some(at)))
            && (o.Stopped? ==> o == Stopped(Err(if granted then -EINVAL else -ENOMEM), m.trail))
  {
  }

  /**
   * A port stage goes on exactly if its calls are granted and its header fits. Otherwise it is an
   * error if there is no user AFU or the pending device was not registered, and a crash if not.
   */
  lemma PortStage(card: Card, luck: nat -> bool, m: Mode, bar: nat, at: nat)
    ensures var o, n := VisitPort(card, luck, m, bar, at), NewDeviceCalls(m);
            var granted, size := NextGranted(luck, m.clock, n), card.bars(bar).mmioSize(at);
            var trail := m.trail.(past := m.trail.past || at + 64 > card.bars(bar).len);
            && (o.Going? <==> granted && at + 112 <= card.bars(bar).len)
            && (o.Going? ==>
                o.mode == m.(clock := m.clock + n, cur := Some(PortId), fme := m.fme || m.cur == Some(FmeId),
                             uafu := size * 1024))
            && (o.Stopped? ==>
                o == Stopped(
                       if size != 0 && (m.cur.None? || luck(m.clock)) then Oops
                       else Err(if granted then -EINVAL else -ENOMEM), trail))
  {
  }

  /**
   * Which private features the driver knows: the first nine of an FME; of a port the low four bits
   * of the id count from the one after the header, and the fifth is the user AFU.
   */
  lemma PrivateFeatureMeans(card: Card, uafu: nat, id: nat)
    ensures PrivateFeature(card, FmeId, uafu, id) == if id <= 8 then Some((id, card.fmeSize(id))) else None
    ensures var low := id % 16;
            && (PrivateFeature(card, PortId, uafu, id).None? <==> low > 4)
            && (low == 4 ==> PrivateFeature(card, PortId, uafu, id) == Some((5, uafu)))
            && (low < 4 ==> PrivateFeature(card, PortId, uafu, id) == Some((low + 1, card.portSize(low + 1))))
    ensures forall i :: ReadsCapability(FmeId, i) <==> i == 4
    ensures forall i :: ReadsCapability(PortId, i) <==> i == 1 || i == 3
  {
  }

  /** A private feature needs a device; an unknown one is skipped; a known one must fit and get its vectors. */
  lemma PrivateStage(card: Card, luck: nat -> bool, m: Mode, bar: nat, at: nat)
    requires m.cur.Some?
    ensures var o := VisitPrivate(card, luck, m, bar, at);
            var f := PrivateFeature(card, m.cur.value, m.uafu, card.bars(bar).header(at).id);
            var irqs := f.Some? && ReadsCapability(m.cur.value, f.value.0) && card.bars(bar).irqs(at);
            && (f.None? ==> o == Going(m))
            && (f.Some? ==> (o.Going? <==> at + f.value.1 <= card.bars(bar).len && (irqs ==> luck(m.clock))))
            && (o.Going? ==> o.mode == m.(clock := m.clock + if irqs then 1 else 0))
            && (o.Stopped? ==> o.exit == Err(-EINVAL))
    ensures VisitPrivate(card, luck, m.(cur := None), bar, at) == Stopped(Err(-EINVAL), m.trail)
  {
  }

  /** An AFU of unknown GUID is skipped unless a port is under construction; then it needs and uses up the size. */
  lemma UserStage(card: Card, m: Mode, bar: nat, at: nat)
    ensures var o := VisitUser(card, m, bar, at);
            && (m.cur != Some(PortId) ==> o == Going(m))
            && (m.cur == Some(PortId) ==>
                o == if 0 < m.uafu <= card.bars(bar).len - at then Going(m.(uafu := 0))
                     else Stopped(Err(-EINVAL), m.trail))
  {
  }

  /** What is read at an offset decides which of these a stage is. */
  lemma StageOf(card: Card, luck: nat -> bool, m: Mode, bar: nat, at: nat)
    ensures var h, o := card.bars(bar).header(at), Handle(card, luck, m, Feature(bar, at));
            && (h.kind == FiuType && h.id == 0 ==> o == VisitFme(card, luck, m, bar, at))
            && (h.kind == FiuType && h.id == 1 ==> o == VisitPort(card, luck, m, bar, at))
            && (h.kind == PrivateType ==> o == VisitPrivate(card, luck, m, bar, at))
            && (h.kind == AfuType || h.kind == OtherType || (h.kind == FiuType && h.id > 1) ==> o == Going(m))
    ensures Handle(card, luck, m, Afu(bar, at)) ==
            match card.bars(bar).afu(at).guid
            case FmeGuid => VisitFme(card, luck, m, bar, at)
            case PortGuid => VisitPort(card, luck, m, bar, at)
            case OtherGuid => VisitUser(card, m, bar, at)
    ensures Handle(card, luck, m, MapBar(bar)) ==
            if luck(m.clock) then Going(m.(clock := m.clock + 1)) else Stopped(Err(-ENOMEM), m.trail)
    ensures Handle(card, luck, m, Short) == Stopped(Err(-EINVAL), m.trail)
    ensures Handle(card, luck, m, CommitLast) ==
            if m.cur.None? then Going(m)
            else if luck(m.clock) then
              Going(m.(clock := m.clock + 1, cur := None, fme := m.fme || m.cur == Some(FmeId)))
            else Stopped(Err(-ENOMEM), m.trail)
  {
  }

  // ----- when a probe crashes

  /** A port header that announces a user AFU. */
  predicate HasUser(card: Card, op: Op)
  {
    IsPort(card, op) && card.bars(op.bar).mmioSize(op.at) != 0
  }

  /**
   * The stage `k` resets a port that was not built: everything before it went well, the pending
   * device was registered, and then an allocation was refused or the BAR is too short.
   */
  predicate ResetsUnbuilt(card: Card, luck: nat -> bool, m: Mode, ops: seq<Op>, k: nat)
    requires k < |ops|
  {
    var o := Scan(Visitor(card, luck), m, ops[..k]);
    && o.Going? && HasUser(card, ops[k]) && !CommitRefused(luck, o.mode)
    && !(Granted(luck, Committed(o.mode).clock) && Fits(card, ops[k].bar, ops[k].at, PORT_HEADER_SIZE))
  }

  lemma VisitOopsIff(card: Card, luck: nat -> bool, m: Mode, op: Op)
    ensures var o := Visit(card, luck, m, op);
            (o.Stopped? && o.exit.Oops?) <==>
            && HasUser(card, op) && !CommitRefused(luck, m)
            && !(Granted(luck, Committed(m).clock) && Fits(card, op.bar, op.at, PORT_HEADER_SIZE))
  {
  }

  /** A scan that stops does so at one stage, reached after all earlier ones went well. */
  lemma {:induction false} ScanStopsAt(card: Card, luck: nat -> bool, m: Mode, ops: seq<Op>) returns (k: nat)
    requires Scan(Visitor(card, luck), m, ops).Stopped?
    ensures k < |ops| && Scan(Visitor(card, luck), m, ops[..k]).Going?
    ensures Visit(card, luck, Scan(Visitor(card, luck), m, ops[..k]).mode, ops[k]) == Scan(Visitor(card, luck), m, ops)
    decreases |ops|
  {
    var o := Visit(card, luck, m, ops[0]);
    if o.Stopped? {
      return 0;
    }
    k := ScanStopsAt(card, luck, o.mode, ops[1..]);
    assert ops[..k + 1][1..] == ops[1..][..k];
    k := k + 1;
  }

  /** A stage that is reached and stops decides the scan. */
  lemma ScanDecided(card: Card, luck: nat -> bool, m: Mode, ops: seq<Op>, k: nat)
    requires k < |ops| && Scan(Visitor(card, luck), m, ops[..k]).Going?
    requires Visit(card, luck, Scan(Visitor(card, luck), m, ops[..k]).mode, ops[k]).Stopped?
    ensures Scan(Visitor(card, luck), m, ops) == Visit(card, luck, Scan(Visitor(card, luck), m, ops[..k]).mode, ops[k])
  {
    assert ops == ops[..k] + ops[k..];
    ScanAppend(Visitor(card, luck), m, ops[..k], ops[k..]);
  }

  predicate Oopses(o: Outcome)
  {
    o.Stopped? && o.exit.Oops?
  }

  /** A scan crashes exactly when some stage resets a port that was not built. */
  lemma ScanOopsIff(card: Card, luck: nat -> bool, m: Mode, ops: seq<Op>)
    ensures Oopses(Scan(Visitor(card, luck), m, ops)) <==>
            exists k :: 0 <= k < |ops| && ResetsUnbuilt(card, luck, m, ops, k)
  {
    if Oopses(Scan(Visitor(card, luck), m, ops)) {
      var k := ScanStopsAt(card, luck, m, ops);
      VisitOopsIff(card, luck, Scan(Visitor(card, luck), m, ops[..k]).mode, ops[k]);
      assert ResetsUnbuilt(card, luck, m, ops, k);
    }
    forall k | 0 <= k < |ops| && ResetsUnbuilt(card, luck, m, ops, k)
      ensures Oopses(Scan(Visitor(card, luck), m, ops))
    {
      VisitOopsIff(card, luck, Scan(Visitor(card, luck), m, ops[..k]).mode, ops[k]);
      ScanDecided(card, luck, m, ops, k);
    }
  }

  lemma VisitLocal(card: Card, luck: nat -> bool, other: nat -> bool, m: Mode, op: Op)
    requires Visit(card, luck, m, op).Going?
    requires forall n :: m.clock <= n < Visit(card, luck, m, op).mode.clock && luck(n) ==> other(n)
    ensures m.clock <= Visit(card, luck, m, op).mode.clock
    ensures Visit(card, other, m, op) == Visit(card, luck, m, op)
  {
  }

  /** Only granted calls were made by a scan that goes on, so any kernel that grants them does the same. */
  lemma {:induction false} ScanLocal(card: Card, luck: nat -> bool, other: nat -> bool, m: Mode, ops: seq<Op>)
    requires Scan(Visitor(card, luck), m, ops).Going?
    requires forall n :: m.clock <= n < Scan(Visitor(card, luck), m, ops).mode.clock && luck(n) ==> other(n)
    ensures m.clock <= Scan(Visitor(card, luck), m, ops).mode.clock
    ensures Scan(Visitor(card, other), m, ops) == Scan(Visitor(card, luck), m, ops)
    decreases |ops|
  {
    if ops != [] {
      var o := Visit(card, luck, m, ops[0]);
      ClockGrows(card, luck, o.mode, ops[1..]);
      VisitLocal(card, luck, other, m, ops[0]);
      ScanLocal(card, luck, other, o.mode, ops[1..]);
    }
  }

  lemma {:induction false} ClockGrows(card: Card, luck: nat -> bool, m: Mode, ops: seq<Op>)
    requires Scan(Visitor(card, luck), m, ops).Going?
    ensures m.clock <= Scan(Visitor(card, luck), m, ops).mode.clock
    decreases |ops|
  {
    if ops != [] {
      ClockGrows(card, luck, Visit(card, luck, m, ops[0]).mode, ops[1..]);
    }
  }

  /** The calls a probe makes before it parses: driver data, parent id, vectors, build info, parent. */
  const SETUP_CALLS: nat := 5

  predicate Prepared(luck: nat -> bool)
  {
    forall n :: 0 <= n < SETUP_CALLS ==> luck(n)
  }

  /** The mode in which parsing starts; `uafu` is what an earlier probe left in the feature table. */
  function Start(uafu: nat): Mode
  {
    Mode(SETUP_CALLS, None, false, None, uafu, Trail([], false))
  }

  /** How the probe of a card ends. */
  function ProbeExit(card: Card, luck: nat -> bool, uafu: nat): Exit
  {
    if !Prepared(luck) then Err(-ENOMEM)
    else
      var o := Scan(Visitor(card, luck), Start(uafu), CardOps(card));
      if o.Going? then Ok else o.exit
  }

  /** A probe succeeds exactly if its five set-up calls are granted and each stage in turn goes on. */
  lemma ProbeOkIff(card: Card, luck: nat -> bool, uafu: nat)
    ensures ProbeExit(card, luck, uafu).Ok? <==>
            && luck(0) && luck(1) && luck(2) && luck(3) && luck(4)
            && forall k :: 0 <= k <= |CardOps(card)| ==>
                 Scan(Visitor(card, luck), Start(uafu), CardOps(card)[..k]).Going?
    ensures !(luck(0) && luck(1) && luck(2) && luck(3) && luck(4)) ==> ProbeExit(card, luck, uafu) == Err(-ENOMEM)
  {
    var ops, v, m := CardOps(card), Visitor(card, luck), Start(uafu);
    assert ops[..|ops|] == ops;
    forall k | 0 <= k <= |ops| && Scan(v, m, ops[..k]).Stopped?
      ensures Scan(v, m, ops) == Scan(v, m, ops[..k])
    {
      assert ops[..k] + ops[k..] == ops;
      ScanAppend(v, m, ops[..k], ops[k..]);
    }
    if Scan(v, m, ops).Stopped? {
      var k := ScanStopsAt(card, luck, m, ops);
      HandleExit(card, luck, Noted(Scan(v, m, ops[..k]).mode, ops[k]), ops[k]);
    }
  }

  /** The stages a probe takes and whether it reads outside a BAR. */
  function ProbeTrail(card: Card, luck: nat -> bool, uafu: nat): Trail
  {
    if !Prepared(luck) then Trail([], false) else TrailOf(Scan(Visitor(card, luck), Start(uafu), CardOps(card)))
  }

  /** A probe takes the stages of its card in order, all of them and without a stray read if it succeeds. */
  lemma ProbeFollowsCard(card: Card, luck: nat -> bool, uafu: nat)
    ensures ProbeTrail(card, luck, uafu).done <= CardOps(card)
    ensures ProbeExit(card, luck, uafu).Ok? ==> ProbeTrail(card, luck, uafu) == Trail(CardOps(card), false)
    ensures WholeCard(card, CardOps(card))
  {
    var m, ops := Start(uafu), CardOps(card);
    CardOpsAreWhole(card);
    ScanTrail(card, luck, m, ops);
    assert [] + ops == ops;
    if Scan(Visitor(card, luck), m, ops).Going? {
      GoingReadsInside(card, luck, m, ops);
    } else {
      var k := ScanStopsAt(card, luck, m, ops);
      HandleExit(card, luck, Noted(Scan(Visitor(card, luck), m, ops[..k]).mode, ops[k]), ops[k]);
    }
  }

  lemma ProbeTakesWholeCard(card: Card, luck: nat -> bool, uafu: nat)
    requires ProbeExit(card, luck, uafu).Ok?
    ensures WholeCard(card, ProbeTrail(card, luck, uafu).done) && !ProbeTrail(card, luck, uafu).past
  {
    ProbeFollowsCard(card, luck, uafu);
  }

  lemma HandleExit(card: Card, luck: nat -> bool, m: Mode, op: Op)
    ensures Handle(card, luck, m, op).Stopped? ==> Handle(card, luck, m, op).exit != Ok
  {
  }

  function Always(): nat -> bool
  {
    (n: nat) => true
  }

  /** Reached when every call is granted. */
  predicate Reachable(card: Card, uafu: nat, k: nat)
    requires k < |CardOps(card)|
  {
    Scan(Visitor(card, Always()), Start(uafu), CardOps(card)[..k]).Going?
  }

  /** The probe of a card crashes exactly when it gets to reset a port that was not built. */
  lemma ProbeOopsIff(card: Card, luck: nat -> bool, uafu: nat)
    ensures ProbeExit(card, luck, uafu).Oops? <==>
            && Prepared(luck)
            && exists k :: 0 <= k < |CardOps(card)| && ResetsUnbuilt(card, luck, Start(uafu), CardOps(card), k)
  {
    ScanOopsIff(card, luck, Start(uafu), CardOps(card));
    if Scan(Visitor(card, luck), Start(uafu), CardOps(card)).Stopped? {
      var k := ScanStopsAt(card, luck, Start(uafu), CardOps(card));
    }
  }

  /**
   * Some refused call makes the probe of a card crash exactly when a probe that is refused nothing
   * comes across a port header with a user AFU. Cards without one are safe at every failure point.
   */
  lemma CardCanOopsIff(card: Card, uafu: nat)
    ensures (exists luck :: ProbeExit(card, luck, uafu).Oops?) <==>
            exists k :: 0 <= k < |CardOps(card)| && HasUser(card, CardOps(card)[k]) && Reachable(card, uafu, k)
  {
    var ops, m := CardOps(card), Start(uafu);
    forall luck | ProbeExit(card, luck, uafu).Oops?
      ensures exists k :: 0 <= k < |ops| && HasUser(card, ops[k]) && Reachable(card, uafu, k)
    {
      ProbeOopsIff(card, luck, uafu);
      var k :| 0 <= k < |ops| && ResetsUnbuilt(card, luck, m, ops, k);
      ScanLocal(card, luck, Always(), m, ops[..k]);
      assert HasUser(card, ops[k]) && Reachable(card, uafu, k);
    }
    forall k | 0 <= k < |ops| && HasUser(card, ops[k]) && Reachable(card, uafu, k)
      ensures exists luck :: ProbeExit(card, luck, uafu).Oops?
    {
      var o := Scan(Visitor(card, Always()), m, ops[..k]);
      var refused := Committed(o.mode).clock;
      var luck := (n: nat) => n != refused;
      ClockGrows(card, Always(), m, ops[..k]);
      ScanLocal(card, Always(), luck, m, ops[..k]);
      assert !luck(refused);
      assert ResetsUnbuilt(card, luck, m, ops, k);
      ProbeOopsIff(card, luck, uafu);
      assert ProbeExit(card, luck, uafu).Oops?;
    }
  }

  /** BARs of some length with a port header at 0 that announces a user AFU. */
  function PortOnly(len: nat): Card
  {
    var header := Header(FiuType, 1, 0, true);
    var bar := Bar(len, (_: nat) => header, (_: nat) => AfuHeader(OtherGuid, 0), (_: nat) => 1, (_: nat) => false);
    Card((_: nat) => bar, (_: nat, _: nat) => PortEntry(false, 0, 0), (_: nat) => 8, (_: nat) => 8)
  }

  lemma PortOnlyOps(len: nat)
    requires len >= HEADER_SIZE
    ensures CardOps(PortOnly(len)) == [MapBar(0), Feature(0, 0), CommitLast]
  {
    var card, first := PortOnly(len), MappedOps(PortOnly(len), 0, 0);
    assert Left(card, 0, 0) == len && Distance(card.bars(0).header(0)) == 0;
    assert HangingOps(card, 0, 0) == [] && AfterHeader(card, 0, 0) == [];
    assert ListOps(card, 0, 0) == [Feature(0, 0)] + [] + [] == [Feature(0, 0)];
    assert first == [MapBar(0), Feature(0, 0)];
    assert first[1..] == [Feature(0, 0)] && first[1..][1..] == [];
    assert !IsFme(card, first[0]) && !IsFme(card, first[1]);
    assert LastFme(card, first[1..], None) == LastFme(card, first[1..][1..], None) == None;
    assert LastFme(card, first, None) == None;
  }

  lemma PortOnlyMapped(len: nat, luck: nat -> bool)
    requires len >= HEADER_SIZE && luck(SETUP_CALLS)
    ensures Scan(Visitor(PortOnly(len), luck), Start(0), CardOps(PortOnly(len))[..1]) ==
            Going(Noted(Start(0), MapBar(0)).(clock := SETUP_CALLS + 1))
  {
    var card := PortOnly(len);
    PortOnlyOps(len);
    assert CardOps(card)[..1] == [MapBar(0)] && [MapBar(0)][1..] == [];
    assert Visitor(card, luck)(Start(0), MapBar(0)) == Visit(card, luck, Start(0), MapBar(0));
  }

  /** A refused device allocation for that port crashes the probe. */
  lemma RefusedPortOops()
    ensures ProbeExit(PortOnly(4096), (n: nat) => n != 6, 0) == Oops
  {
    var card, luck := PortOnly(4096), (n: nat) => n != 6;
    PortOnlyOps(4096);
    PortOnlyMapped(4096, luck);
    assert !luck(6);
    assert ResetsUnbuilt(card, luck, Start(0), CardOps(card), 1);
    ProbeOopsIff(card, luck, 0);
  }

  /** A BAR that ends behind the header crashes it too, with every call granted, after a read past its end. */
  lemma ShortBarOops()
    ensures ProbeExit(PortOnly(8), Always(), 0) == Oops && ProbeTrail(PortOnly(8), Always(), 0).past
  {
    var card := PortOnly(8);
    PortOnlyOps(8);
    PortOnlyMapped(8, Always());
    assert ResetsUnbuilt(card, Always(), Start(0), CardOps(card), 1);
    ProbeOopsIff(card, Always(), 0);
    var m := Noted(Start(0), MapBar(0)).(clock := SETUP_CALLS + 1);
    assert ReadsPast(card, m, CardOps(card)[1]);
    ScanReadsPastIff(card, Always(), Start(0), CardOps(card));
  }

  // ----- reads past the end of a BAR

  /** The stage reads a register that does not lie inside its BAR. */
  predicate ReadsPast(card: Card, m: Mode, op: Op)
  {
    if IsFme(card, op) then false
    else if IsPort(card, op) then !Fits(card, op.bar, op.at, PORT_CONTROL_END)
    else
      && op.Feature? && card.bars(op.bar).header(op.at).kind == PrivateType && m.cur.Some?
      && var f := PrivateFeature(card, m.cur.value, m.uafu, card.bars(op.bar).header(op.at).id);
         f.Some? && ReadsCapability(m.cur.value, f.value.0) && !Fits(card, op.bar, op.at, f.value.1)
  }

  /** A scan that goes on has read nothing past an end: what reads past does not fit either. */
  lemma {:induction false} GoingReadsInside(card: Card, luck: nat -> bool, m: Mode, ops: seq<Op>)
    requires Scan(Visitor(card, luck), m, ops).Going?
    ensures Scan(Visitor(card, luck), m, ops).mode.trail.past == m.trail.past
    decreases |ops|
  {
    if ops != [] {
      GoingReadsInside(card, luck, Visit(card, luck, m, ops[0]).mode, ops[1..]);
    }
  }

  /** A scan reads past the end of a BAR exactly when a stage it reaches does, and then it fails there. */
  lemma ScanReadsPastIff(card: Card, luck: nat -> bool, m: Mode, ops: seq<Op>)
    requires !m.trail.past
    ensures TrailOf(Scan(Visitor(card, luck), m, ops)).past <==>
            exists k :: 0 <= k < |ops| && Scan(Visitor(card, luck), m, ops[..k]).Going? &&
                        ReadsPast(card, Scan(Visitor(card, luck), m, ops[..k]).mode, ops[k])
  {
    if TrailOf(Scan(Visitor(card, luck), m, ops)).past {
      if Scan(Visitor(card, luck), m, ops).Going? {
        GoingReadsInside(card, luck, m, ops);
      } else {
        var k := ScanStopsAt(card, luck, m, ops);
        GoingReadsInside(card, luck, m, ops[..k]);
        assert ReadsPast(card, Scan(Visitor(card, luck), m, ops[..k]).mode, ops[k]);
      }
    }
    forall k | 0 <= k < |ops| && Scan(Visitor(card, luck), m, ops[..k]).Going? &&
               ReadsPast(card, Scan(Visitor(card, luck), m, ops[..k]).mode, ops[k])
      ensures TrailOf(Scan(Visitor(card, luck), m, ops)).past
    {
      ScanDecided(card, luck, m, ops, k);
    }
  }
}
