/**
 * The probe itself: walking the device feature lists of the BARs, creating FME and port devices on
 * the way, and giving every id back. drivers/fpga/intel/pcie.c lines 96-143, 220-241, 384-516,
 * 559-604, 716-1136, 1165-1206 and 1365-1440.
 */
module FeatureProbe {
  import opened Common
  import opened ProbeStages

  // ----- ids

  datatype Place = Place(bar: nat, at: nat)

  /** The device under construction: its id, its platform data and its header, once it has them. */
  datatype Dev = Dev(kind: IdKind, id: Option<nat>, data: bool, header: Option<Place>)

  /** What fpga_port_reset finds behind the device pointer it is given. */
  datatype Target = NoDevice | NoData | NoHeader | Built(kind: IdKind, place: Place)

  function TargetOf(cur: Option<Dev>): Target
  {
    if cur.None? then NoDevice
    else if !cur.value.data then NoData
    else if cur.value.header.None? then NoHeader
    else Built(cur.value.kind, cur.value.header.value)
  }

  function KindOf(cur: Option<Dev>): Option<IdKind>
  {
    if cur.None? then None else Some(cur.value.kind)
  }

  function IdOf(cur: Option<Dev>, kind: IdKind): set<nat>
  {
    if cur.Some? && cur.value.kind == kind && cur.value.id.Some? then {cur.value.id.value} else {}
  }

  function One(o: Option<nat>): set<nat>
  {
    if o.Some? then {o.value} else {}
  }

  function SetOf(s: seq<nat>): set<nat>
  {
    set x | x in s
  }

  /** The FME and port ids that are taken, shared by all cards. */
  datatype Pools = Pools(fmes: set<nat>, ports: set<nat>)

  /**
   * Who holds them: the pools, the driver data with the registered FME and the registered ports,
   * and the build info with the device under construction.
   */
  datatype Holders = Holders(pools: Pools, fmeDev: Option<nat>, portDevs: seq<nat>, cur: Option<Dev>)

  /** A pool holds what it held before plus exactly what this probe holds, and the two are apart. */
  ghost predicate Pool(pool: set<nat>, base: set<nat>, held: set<nat>)
  {
    pool == base + held && base !! held
  }

  lemma {:induction false} RangeInside(n: nat, s: set<nat>)
    requires forall i :: 0 <= i < n ==> i in s
    ensures n <= |s|
  {
    if n > 0 {
      RangeInside(n - 1, s - {n - 1});
    }
  }

  /** idr_alloc: the lowest id that is not taken. */
  method LowestFree(pool: set<nat>) returns (id: nat)
    ensures id !in pool
    ensures forall i :: 0 <= i < id ==> i in pool
  {
    id := 0;
    while id in pool
      invariant forall i :: 0 <= i < id ==> i in pool
      decreases |pool| - id
    {
      RangeInside(id + 1, pool);
      id := id + 1;
    }
  }

  /** Every id taken from a pool is held in exactly one place. */
  ghost predicate Balanced(h: Holders, base: Pools)
  {
    && Pool(h.pools.fmes, base.fmes, One(h.fmeDev) + IdOf(h.cur, FmeId)) && One(h.fmeDev) !! IdOf(h.cur, FmeId)
    && Pool(h.pools.ports, base.ports, SetOf(h.portDevs) + IdOf(h.cur, PortId))
    && SetOf(h.portDevs) !! IdOf(h.cur, PortId)
    && (forall i, j :: 0 <= i < j < |h.portDevs| ==> h.portDevs[i] != h.portDevs[j])
  }

  /** The device under construction, if any, is built, and is no second FME. */
  predicate Ready(h: Holders)
  {
    h.cur.Some? ==>
      h.cur.value.id.Some? && TargetOf(h.cur).Built? && (h.cur.value.kind == FmeId ==> h.fmeDev.None?)
  }

  /** The holders after the device under construction has been registered. */
  function Registered(h: Holders): Holders
    requires h.cur.Some? ==> h.cur.value.id.Some?
  {
    if h.cur.None? then h
    else if h.cur.value.kind == PortId then h.(portDevs := [h.cur.value.id.value] + h.portDevs, cur := None)
    else h.(fmeDev := h.cur.value.id, cur := None)
  }

  lemma RegisteredBalanced(h: Holders, base: Pools)
    requires Balanced(h, base) && Ready(h)
    ensures Balanced(Registered(h), base)
  {
    if h.cur.Some? && h.cur.value.kind == PortId {
      var r := Registered(h);
      assert SetOf(r.portDevs) == SetOf(h.portDevs) + IdOf(h.cur, PortId);
    }
  }

  // ----- the probe

  class Probe {
    const card: Card
    const luck: nat -> bool          // the outcome of every call that can fail, in order
    ghost const visit: (Mode, Op) -> Outcome   // what one stage does
    ghost const base: Pools          // the pools before the probe
    ghost const parents0: set<nat>

    var clock: nat
    var parents: set<nat>            // the parent id pool and the id taken from it
    var deviceId: Option<nat>
    var held: Holders
    var bar: nat                     // build info: the BAR being parsed and the FME header
    var fmeHeader: Option<nat>
    var uafuSize: nat                // in the feature table, so it outlives a probe
    var resources: seq<Resource>
    var resets: seq<Target>          // what fpga_port_reset was called on
    var trail: Trail

    constructor (card: Card, luck: nat -> bool, pools: Pools, parents: set<nat>, uafuSize: nat)
      ensures this.card == card && this.luck == luck && base == pools && parents0 == parents
      ensures this.uafuSize == uafuSize
      ensures Idle() && clock == 0 && trail == Trail([], false) && Fit() && Wired()
    {
      this.card, this.luck, base := card, luck, pools;
      visit := Visitor(card, luck);
      parents0, this.parents, deviceId := parents, parents, None;
      held := Holders(pools, None, [], None);
      clock, bar, fmeHeader := 0, 0, None;
      this.uafuSize := uafuSize;
      resources, resets, trail := [], [], Trail([], false);
    }

    /** Nothing is held and every pool is as it was before the probe. */
    ghost predicate Idle()
      reads this`held, this`parents, this`deviceId
    {
      held == Holders(base, None, [], None) && parents == parents0 && deviceId.None?
    }

    /** The probe holds a parent id, and no device is half built. */
    ghost predicate Bound()
      reads this`held, this`parents, this`deviceId
    {
      deviceId.Some? && Pool(parents, parents0, One(deviceId)) && held.cur.None?
    }

    /** Every recorded resource lies inside the BAR it was parsed from. */
    ghost predicate Fit()
      reads this`resources
    {
      forall r :: r in resources ==> r.start + r.size <= card.bars(r.bar).len
    }

    /** `visit` is what the stages of this card do. */
    ghost predicate Wired()
    {
      forall m, op {:trigger Visit(card, luck, m, op)} :: visit(m, op) == Visit(card, luck, m, op)
    }

    /** Ids are accounted for and resources lie inside their BARs. */
    ghost predicate Sound()
      reads this`held, this`resources
    {
      Balanced(held, base) && Fit() && Wired()
    }

    ghost function Now(): Mode
      reads this`clock, this`held, this`uafuSize, this`fmeHeader, this`trail
    {
      Mode(clock, KindOf(held.cur), held.fmeDev.Some?, fmeHeader, uafuSize, trail)
    }

    /** A call that ended with `e` has done what the outcome says. */
    ghost predicate Told(o: Outcome, e: Exit)
      reads this`clock, this`held, this`uafuSize, this`fmeHeader, this`trail
    {
      if e.Ok? then o == Going(Now()) else o == Stopped(e, trail)
    }

    /** One part of the way: on with the rest, or stopped here. */
    lemma Advance(m: Mode, own: seq<Op>, rest: seq<Op>, e: Exit)
      requires Told(Scan(visit, m, own), e)
      ensures e.Ok? ==> Scan(visit, m, own + rest) == Scan(visit, Now(), rest)
      ensures !e.Ok? ==> Told(Scan(visit, m, own + rest), e)
    {
      ScanAppend(visit, m, own, rest);
    }

    lemma VisitorSame(m: Mode, ops: seq<Op>)
      requires Wired()
      ensures Scan(visit, m, ops) == Scan(Visitor(card, luck), m, ops)
    {
      forall x, op ensures visit(x, op) == Visitor(card, luck)(x, op) {
        assert Visitor(card, luck)(x, op) == Visit(card, luck, x, op);
      }
      ScanSame(visit, Visitor(card, luck), m, ops);
    }

    lemma OneStage(m: Mode, op: Op)
      requires Wired()
      ensures Scan(visit, m, [op]) == Visit(card, luck, m, op)
    {
      var o := Visit(card, luck, m, op);
      assert [op][1..] == [];
      assert o.Going? ==> Scan(visit, o.mode, []) == o;
    }

    /** The rest of an AFU list after one AFU. */
    lemma AfuDone(m: Mode, at: nat, e: Exit)
      requires Left(card, bar, at) >= HEADER_SIZE + AFU_HEADER_SIZE && Told(Scan(visit, m, [Afu(bar, at)]), e)
      ensures !e.Ok? ==> Told(Scan(visit, m, AfuOps(card, bar, at)), e)
      ensures var next := card.bars(bar).afu(at).nextAfu;
              e.Ok? ==> Scan(visit, m, AfuOps(card, bar, at)) ==
                        if next == 0 then Going(Now()) else Scan(visit, Now(), AfuOps(card, bar, at + next))
    {
      Advance(m, [Afu(bar, at)], AfterAfu(card, bar, at), e);
    }

    /** The rest of a feature list after one header and what hangs on it. */
    lemma HeaderDone(m: Mode, at: nat, e: Exit)
      requires Left(card, bar, at) >= HEADER_SIZE && Told(Scan(visit, m, HeaderOps(card, bar, at)), e)
      ensures !e.Ok? ==> Told(Scan(visit, m, ListOps(card, bar, at)), e)
      ensures var next := Distance(card.bars(bar).header(at));
              e.Ok? ==> Scan(visit, m, ListOps(card, bar, at)) ==
                        if next == 0 then Going(Now()) else Scan(visit, Now(), ListOps(card, bar, at + next))
    {
      Advance(m, HeaderOps(card, bar, at), AfterHeader(card, bar, at), e);
    }

    method Try() returns (ok: bool)
      modifies this`clock
      ensures clock == old(clock) + 1 && ok == luck(old(clock))
    {
      ok := luck(clock);
      clock := clock + 1;
    }

    method Note(op: Op)
      modifies this`trail
      ensures Now() == Noted(old(Now()), op) && trail == old(trail).(done := old(trail).done + [op])
    {
      trail := trail.(done := trail.done + [op]);
    }

    /** build_info_commit_dev */
    method CommitDev() returns (e: Exit)
      requires Sound() && Ready(held)
      modifies this`clock, this`held
      ensures e == if old(held).cur.None? || luck(old(clock)) then Ok else Err(-ENOMEM)
      ensures e.Ok? && old(held).cur.Some? ==>
        var dev := old(held).cur.value;
        held == if dev.kind == PortId then old(held).(portDevs := [dev.id.value] + old(held).portDevs, cur := None)
                else old(held).(fmeDev := dev.id, cur := None)
      ensures held == if e.Ok? then Registered(old(held)) else old(held)
      ensures e.Ok? ==> Now() == Committed(old(Now()))
      ensures Sound()
    {
      if held.cur.None? {
        return Ok;
      }
      var added := Try();
      if !added {
        return Err(-ENOMEM);
      }
      RegisteredBalanced(held, base);
      var id := held.cur.value.id;
      if held.cur.value.kind == PortId {
        held := held.(portDevs := [id.value] + held.portDevs);
      } else {
        held := held.(fmeDev := id);
      }
      held := held.(cur := None);
      return Ok;
    }

    /** alloc_fpga_id for the device under construction. */
    method TakeId()
      requires Balanced(held, base) && held.cur.Some? && held.cur.value.id.None?
      modifies this`held
      ensures Balanced(held, base) && held.cur.Some? && held.cur.value.id.Some?
      ensures held == old(held).(pools := held.pools, cur := Some(old(held).cur.value.(id := held.cur.value.id)))
    {
      var pools, dev := held.pools, held.cur.value;
      if dev.kind == FmeId {
        var id := LowestFree(pools.fmes);
        held := held.(pools := pools.(fmes := pools.fmes + {id}), cur := Some(dev.(id := Some(id))));
      } else {
        var id := LowestFree(pools.ports);
        held := held.(pools := pools.(ports := pools.ports + {id}), cur := Some(dev.(id := Some(id))));
      }
    }

    /** The allocations of build_info_create_dev: device, id, platform data, resource table. */
    method AllocDev(kind: IdKind) returns (e: Exit)
      requires Balanced(held, base) && held.cur.None?
      modifies this`clock, this`held
      ensures e == if NextGranted(luck, old(clock), 4) then Ok else Err(-ENOMEM)
      ensures held == old(held).(pools := held.pools, cur := held.cur)
      ensures e.Ok? ==> clock == old(clock) + 4 && held.cur.Some? && held.cur.value.id.Some?
      ensures e.Ok? ==> held.cur.value == Dev(kind, held.cur.value.id, true, None)
      ensures e.Err? ==> !TargetOf(held.cur).Built?
      ensures Balanced(held, base)
    {
      var device := Try();
      if !device {
        return Err(-ENOMEM);
      }
      held := held.(cur := Some(Dev(kind, None, false, None)));
      var idFree := Try();
      if !idFree {
        return Err(-ENOMEM);
      }
      TakeId();
      var data := Try();
      if !data {
        return Err(-ENOMEM);
      }
      held := held.(cur := Some(held.cur.value.(data := true)));
      var table := Try();
      if !table {
        return Err(-ENOMEM);
      }
      return Ok;
    }

    /** build_info_create_dev: registers the previous device and allocates the next one. */
    method CreateDev(kind: IdKind) returns (e: Exit)
      requires Sound() && Ready(held)
      modifies this`clock, this`held
      ensures var c := Committed(old(Now()));
              && e == (if CommitRefused(luck, old(Now())) || !Granted(luck, c.clock) then Err(-ENOMEM) else Ok)
              && (e.Ok? ==> Now() == c.(clock := c.clock + 4, cur := Some(kind)))
      ensures e.Ok? ==>
        && held.cur.Some? && held.cur.value.id.Some? && held.cur.value == Dev(kind, held.cur.value.id, true, None)
        && held == Registered(old(held)).(pools := held.pools, cur := held.cur)
      ensures e == if NextGranted(luck, old(clock), NewDeviceCalls(old(Now()))) then Ok else Err(-ENOMEM)
      ensures e.Err? ==>
        if CommitRefused(luck, old(Now())) then held == old(held) else !TargetOf(held.cur).Built?
      ensures Sound()
    {
      e := CommitDev();
      if e.Ok? {
        e := AllocDev(kind);
      }
    }

    /** create_feature_instance; `vectors` says whether the feature asks for interrupt vectors. */
    method CreateInstance(index: nat, start: nat, size: nat, vectors: bool) returns (e: Exit)
      requires Sound() && held.cur.Some? && start < card.bars(bar).len
      modifies this`clock, this`resources, this`held
      ensures var fits := start + size <= card.bars(bar).len;
              && e == (if !fits || (vectors && !luck(old(clock))) then Err(-EINVAL) else Ok)
              && clock == old(clock) + (if fits && vectors then 1 else 0)
              && resources == old(resources) + (if fits then [Resource(bar, start, size)] else [])
      ensures var dev := old(held).cur.value;
              held == if e.Ok? && index == 0 then old(held).(cur := Some(dev.(header := Some(Place(bar, start)))))
                      else old(held)
      ensures Sound()
    {
      if card.bars(bar).len - start < size {
        return Err(-EINVAL);
      }
      resources := resources + [Resource(bar, start, size)];
      if vectors {
        var enough := Try();
        if !enough {
          return Err(-EINVAL);
        }
      }
      if index == 0 {
        held := held.(cur := Some(held.cur.value.(header := Some(Place(bar, start)))));
      }
      return Ok;
    }

    /** parse_feature_fme and the header kept for later: a second FME is refused after the first is registered. */
    method ParseFme(start: nat) returns (e: Exit)
      requires Sound() && Ready(held) && start < card.bars(bar).len
      modifies this`clock, this`held, this`resources, this`fmeHeader
      ensures Told(VisitFme(card, luck, old(Now()), bar, start), e) && fmeHeader == Some(start)
      ensures e.Ok? ==> Ready(held) && TargetOf(held.cur) == Built(FmeId, Place(bar, start)) && held.fmeDev.None?
      ensures e.Ok? ==> resources == old(resources) + [Resource(bar, start, card.fmeSize(0))]
      ensures Sound()
    {
      e := CreateDev(FmeId);
      if e.Ok? {
        if held.fmeDev.Some? {
          e := Err(-EINVAL);
        } else {
          e := CreateInstance(0, start, card.fmeSize(0), false);
        }
      }
      fmeHeader := Some(start);
    }

    /** fpga_port_reset, which takes the device, its data and its header for granted. */
    method ResetPort() returns (e: Exit)
      modifies this`resets
      ensures resets == old(resets) + [TargetOf(held.cur)]
      ensures e == if TargetOf(held.cur).Built? then Ok else Oops
      ensures e.Ok? <==> held.cur.Some? && held.cur.value.data && held.cur.value.header.Some?
    {
      var target := TargetOf(held.cur);
      resets := resets + [target];
      return if target.Built? then Ok else Oops;
    }

    /** parse_feature_port: the device and its header. */
    method BuildPort(start: nat) returns (e: Exit)
      requires Sound() && Ready(held) && start < card.bars(bar).len
      modifies this`clock, this`held, this`resources
      ensures var c := Committed(old(Now()));
              var refused := CommitRefused(luck, old(Now()));
              && e == (if refused || !Granted(luck, c.clock) then Err(-ENOMEM)
                       else if Fits(card, bar, start, PORT_HEADER_SIZE) then Ok else Err(-EINVAL))
              && (e.Ok? ==> Now() == c.(clock := c.clock + 4, cur := Some(PortId)))
              && (e.Err? ==> if refused then held == old(held) else !TargetOf(held.cur).Built?)
      ensures e.Ok? ==> Ready(held) && TargetOf(held.cur) == Built(PortId, Place(bar, start))
      ensures e.Ok? ==> resources == old(resources) + [Resource(bar, start, PORT_HEADER_SIZE)]
      ensures Sound()
    {
      e := CreateDev(PortId);
      if e.Ok? {
        e := CreateInstance(0, start, PORT_HEADER_SIZE, false);
      }
    }

    /**
     * parse_feature_port and enable_port_uafu. The header is read and the reset called whether or
     * not the port was built: the reset hits the built port, crashes for want of one, or hits the
     * device before it, which could not be registered.
     */
    method ParsePort(start: nat) returns (e: Exit)
      requires Sound() && Ready(held) && start < card.bars(bar).len
      modifies this`clock, this`held, this`resources, this`uafuSize, this`resets, this`trail
      ensures Told(VisitPort(card, luck, old(Now()), bar, start), e)
      ensures uafuSize == card.bars(bar).mmioSize(start) * 1024
      ensures resets == old(resets) + if uafuSize == 0 then [] else [TargetOf(held.cur)]
      ensures e.Ok? ==> Ready(held) && TargetOf(held.cur) == Built(PortId, Place(bar, start))
      ensures e.Oops? ==> uafuSize != 0 && !TargetOf(held.cur).Built?
      ensures e.Err? && uafuSize != 0 ==> held == old(held) && held.cur.Some?
      ensures e.Ok? ==> resources == old(resources) + [Resource(bar, start, PORT_HEADER_SIZE)]
      ensures Sound()
    {
      e := BuildPort(start);
      trail := trail.(past := trail.past || card.bars(bar).len - start < PORT_CONTROL_END);
      uafuSize := card.bars(bar).mmioSize(start) * 1024;
      if uafuSize != 0 {
        var reset := ResetPort();
        if reset.Oops? {
          e := Oops;
        }
      }
    }

    /** parse_feature_private: adds a sub-feature to the device under construction. */
    method ParsePrivate(start: nat) returns (e: Exit)
      requires Sound() && Ready(held) && start < card.bars(bar).len
      modifies this`clock, this`resources, this`held, this`trail
      ensures Told(VisitPrivate(card, luck, old(Now()), bar, start), e)
      ensures old(held).cur.None? ==> e == Err(-EINVAL)
      ensures e.Ok? ==>
              resources == old(resources) +
                match PrivateFeature(card, old(held).cur.value.kind, uafuSize, card.bars(bar).header(start).id)
                case None => []
                case Some(f) => [Resource(bar, start, f.1)]
      ensures Sound() && Ready(held)
    {
      if held.cur.None? {
        return Err(-EINVAL);
      }
      var id := card.bars(bar).header(start).id;
      var index, size;
      if held.cur.value.kind == FmeId {
        if id >= FME_FEATURES {
          return Ok;
        }
        index, size := id, card.fmeSize(id);
      } else {
        index := id % 16 + 1;
        if index >= PORT_FEATURES {
          return Ok;
        }
        size := if index == UAFU then uafuSize else card.portSize(index);
      }
      var looks := ReadsCapability(held.cur.value.kind, index);
      trail := trail.(past := trail.past || (looks && card.bars(bar).len - start < size));
      e := CreateInstance(index, start, size, looks && card.bars(bar).irqs(start));
    }

    /** parse_feature_port_uafu, for an AFU of the current port. */
    method ParseUser(at: nat) returns (e: Exit)
      requires Sound() && Ready(held) && at < card.bars(bar).len
      modifies this`clock, this`held, this`resources, this`uafuSize
      ensures Told(VisitUser(card, old(Now()), bar, at), e) && held == old(held)
      ensures e.Ok? ==> resources == old(resources) +
                          if KindOf(held.cur) == Some(PortId) then [Resource(bar, at, old(uafuSize))] else []
      ensures Sound() && Ready(held)
    {
      e := Ok;
      if held.cur.Some? && held.cur.value.kind == PortId {
        if uafuSize == 0 {
          return Err(-EINVAL);
        }
        e := CreateInstance(UAFU, at, uafuSize, false);
        uafuSize := 0;
      }
    }

    /** One AFU of parse_feature_afus: an FME, a port, or the user AFU of the current port. */
    method ParseAfu(at: nat) returns (e: Exit)
      requires Sound() && Ready(held) && at < card.bars(bar).len
      modifies this`clock, this`held, this`resources, this`uafuSize, this`fmeHeader, this`resets, this`trail
      ensures Told(Scan(visit, old(Now()), [Afu(bar, at)]), e)
      ensures Sound() && (e.Ok? ==> Ready(held) && old(resources) <= resources)
      ensures e.Ok? ==>
        match card.bars(bar).afu(at).guid
        case FmeGuid => TargetOf(held.cur) == Built(FmeId, Place(bar, at)) && fmeHeader == Some(at)
        case PortGuid => TargetOf(held.cur) == Built(PortId, Place(bar, at)) && fmeHeader == old(fmeHeader)
        case OtherGuid =>
          && held == old(held) && fmeHeader == old(fmeHeader)
          && resources == old(resources) +
             if KindOf(held.cur) == Some(PortId) then [Resource(bar, at, old(uafuSize))] else []
    {
      OneStage(Now(), Afu(bar, at));
      Note(Afu(bar, at));
      match card.bars(bar).afu(at).guid {
        case FmeGuid => e := ParseFme(at);
        case PortGuid => e := ParsePort(at);
        case OtherGuid => e := ParseUser(at);
      }
    }

    /** Too few bytes are left for the next header. */
    method RunShort() returns (e: Exit)
      requires Wired()
      modifies this`trail
      ensures Told(Scan(visit, old(Now()), [Short]), e) && e.Err?
    {
      OneStage(Now(), Short);
      Note(Short);
      return Err(-EINVAL);
    }

    /** parse_feature_afus */
    method ParseAfus(start: nat) returns (e: Exit)
      requires Sound() && Ready(held)
      modifies this`clock, this`held, this`resources, this`uafuSize, this`fmeHeader, this`resets, this`trail
      ensures Told(Scan(visit, old(Now()), AfuOps(card, bar, start)), e)
      ensures Sound() && (e.Ok? ==> Ready(held) && old(resources) <= resources)
    {
      var b, at: nat := card.bars(bar), start;
      while at < b.len
        invariant Sound() && Ready(held) && old(resources) <= resources
        invariant Scan(visit, old(Now()), AfuOps(card, bar, start)) == Scan(visit, Now(), AfuOps(card, bar, at))
        decreases Left(card, bar, at)
      {
        ghost var here := Now();
        if b.len - at < HEADER_SIZE + AFU_HEADER_SIZE {
          e := RunShort();
          return;
        }
        e := ParseAfu(at);
        AfuDone(here, at, e);
        if !e.Ok? || b.afu(at).nextAfu == 0 {
          return;
        }
        at := at + b.afu(at).nextAfu;
      }
      e := Ok;
    }

    /** parse_feature_fiu without the AFU list of a port: an FME, a port, or nothing. */
    method ParseFiu(start: nat) returns (e: Exit)
      requires Sound() && Ready(held) && start < card.bars(bar).len && card.bars(bar).header(start).kind == FiuType
      modifies this`clock, this`held, this`resources, this`uafuSize, this`fmeHeader, this`resets, this`trail
      ensures Told(Handle(card, luck, old(Now()), Feature(bar, start)), e)
      ensures e.Ok? ==>
        resources == old(resources) +
          match card.bars(bar).header(start).id
          case 0 => [Resource(bar, start, card.fmeSize(0))]
          case 1 => [Resource(bar, start, PORT_HEADER_SIZE)]
          case _ => []
      ensures e.Ok? ==>
        match card.bars(bar).header(start).id
        case 0 => TargetOf(held.cur) == Built(FmeId, Place(bar, start)) && fmeHeader == Some(start)
        case 1 => TargetOf(held.cur) == Built(PortId, Place(bar, start)) && fmeHeader == old(fmeHeader)
        case _ => held == old(held) && fmeHeader == old(fmeHeader)
      ensures card.bars(bar).header(start).id > 1 ==> e.Ok?
      ensures Sound() && (e.Ok? ==> Ready(held))
    {
      e := Ok;
      if card.bars(bar).header(start).id == 0 {
        e := ParseFme(start);
      } else if card.bars(bar).header(start).id == 1 {
        e := ParsePort(start);
      }
    }

    /** The header itself, by its type. */
    method ParseHeader(start: nat) returns (e: Exit)
      requires Sound() && Ready(held) && start < card.bars(bar).len
      modifies this`clock, this`held, this`resources, this`uafuSize, this`fmeHeader, this`resets, this`trail
      ensures Told(Scan(visit, old(Now()), [Feature(bar, start)]), e)
      ensures Sound() && (e.Ok? ==> Ready(held) && old(resources) <= resources)
      ensures var h := card.bars(bar).header(start);
              && (e.Ok? && h.kind == FiuType && h.id == 0 ==>
                  TargetOf(held.cur) == Built(FmeId, Place(bar, start)) && fmeHeader == Some(start))
              && (e.Ok? && h.kind == FiuType && h.id == 1 ==>
                  TargetOf(held.cur) == Built(PortId, Place(bar, start)) && fmeHeader == old(fmeHeader))
              && (h.kind == PrivateType && old(held).cur.None? ==> e == Err(-EINVAL))
              && (h.kind in {AfuType, OtherType} || (h.kind == FiuType && h.id > 1) ==>
                  e.Ok? && held == old(held) && resources == old(resources) && fmeHeader == old(fmeHeader))
    {
      OneStage(Now(), Feature(bar, start));
      Note(Feature(bar, start));
      e := Ok;
      match card.bars(bar).header(start).kind {
        case PrivateType => e := ParsePrivate(start);
        case FiuType => e := ParseFiu(start);
        case _ =>
      }
    }

    /** parse_feature: one header and the AFU list that hangs on it. */
    method ParseFeature(start: nat) returns (e: Exit)
      requires Sound() && Ready(held) && start < card.bars(bar).len
      modifies this`clock, this`held, this`resources, this`uafuSize, this`fmeHeader, this`resets, this`trail
      ensures Told(Scan(visit, old(Now()), HeaderOps(card, bar, start)), e)
      ensures Sound() && (e.Ok? ==> Ready(held) && old(resources) <= resources)
    {
      var b := card.bars(bar);
      e := ParseHeader(start);
      Advance(old(Now()), [Feature(bar, start)], HangingOps(card, bar, start), e);
      if !e.Ok? {
        return;
      }
      var h, next := b.header(start), b.afu(start).nextAfu;
      if h.kind == AfuType || (h.kind == FiuType && h.id == 1 && next != 0) {
        e := ParseAfus(if h.kind == AfuType then start else start + next);
      }
    }

    /** parse_feature_list */
    method ParseList(start: nat) returns (e: Exit)
      requires Sound() && Ready(held)
      modifies this`clock, this`held, this`resources, this`uafuSize, this`fmeHeader, this`resets, this`trail
      ensures Told(Scan(visit, old(Now()), ListOps(card, bar, start)), e)
      ensures Sound() && (e.Ok? ==> Ready(held))
    {
      var b, at: nat := card.bars(bar), start;
      while at < b.len
        invariant Sound() && Ready(held)
        invariant Scan(visit, old(Now()), ListOps(card, bar, start)) == Scan(visit, Now(), ListOps(card, bar, at))
        decreases Left(card, bar, at)
      {
        ghost var here := Now();
        if b.len - at < HEADER_SIZE {
          e := RunShort();
          return;
        }
        e := ParseFeature(at);
        HeaderDone(here, at, e);
        if !e.Ok? || b.header(at).eol || b.header(at).next == 0 {
          return;
        }
        at := at + b.header(at).next;
      }
      e := Ok;
    }

    /** parse_switch_to: maps another BAR. */
    method SwitchTo(newBar: nat) returns (e: Exit)
      requires Wired()
      modifies this`clock, this`bar, this`trail
      ensures Told(Scan(visit, old(Now()), [MapBar(newBar)]), e)
      ensures bar == if e.Ok? then newBar else old(bar)
    {
      OneStage(Now(), MapBar(newBar));
      Note(MapBar(newBar));
      var mapped := Try();
      if !mapped {
        return Err(-ENOMEM);
      }
      bar := newBar;
      return Ok;
    }

    /** Mapping a BAR and parsing the list that starts there. */
    method ParseListAt(newBar: nat, start: nat) returns (e: Exit)
      requires Sound() && Ready(held)
      modifies this`clock, this`held, this`resources, this`uafuSize, this`fmeHeader, this`resets, this`trail, this`bar
      ensures Told(Scan(visit, old(Now()), MappedOps(card, newBar, start)), e)
      ensures Sound() && (e.Ok? ==> Ready(held))
    {
      e := SwitchTo(newBar);
      Advance(old(Now()), [MapBar(newBar)], ListOps(card, newBar, start), e);
      if e.Ok? {
        e := ParseList(start);
      }
    }

    /** parse_ports_from_fme: the lists of all ports up to the first one not implemented. */
    method ParsePorts() returns (e: Exit)
      requires Sound() && Ready(held)
      modifies this`clock, this`held, this`resources, this`uafuSize, this`fmeHeader, this`resets, this`trail, this`bar
      ensures old(fmeHeader).None? ==> e.Ok? && Now() == old(Now())
      ensures old(fmeHeader).Some? ==>
        exists ops :: AllPorts(card, old(fmeHeader).value, ops) && Told(Scan(visit, old(Now()), ops), e)
      ensures Told(Scan(visit, old(Now()), NamedOps(card, old(fmeHeader))), e)
      ensures Sound() && (e.Ok? ==> Ready(held))
    {
      e := Ok;
      if fmeHeader.None? {
        return;
      }
      NamedOpsAreAllPorts(card, fmeHeader.value);
      var header, i := fmeHeader.value, 0;
      ghost var o := Scan(visit, Now(), PortOps(card, header, 0));
      while i < MAX_FPGA_PORT_NUM && card.portTable(header, i).implemented
        invariant Sound() && Ready(held) && i <= MAX_FPGA_PORT_NUM
        invariant Scan(visit, Now(), PortOps(card, header, i)) == o
      {
        var entry := card.portTable(header, i);
        ghost var here := Now();
        e := ParseListAt(entry.bar, entry.offset);
        Advance(here, MappedOps(card, entry.bar, entry.offset), PortOps(card, header, i + 1), e);
        if !e.Ok? {
          return;
        }
        i := i + 1;
      }
      e := Ok;
    }

    /** Registering the device the last list left behind. */
    method CommitLastDev() returns (e: Exit)
      requires Sound() && Ready(held)
      modifies this`clock, this`held, this`trail
      ensures Told(Scan(visit, old(Now()), [CommitLast]), e)
      ensures Sound() && (e.Ok? ==> held.cur.None?)
    {
      OneStage(Now(), CommitLast);
      Note(CommitLast);
      e := CommitDev();
    }

    /** BAR 0 first, then the ports its FME names, then the last device. */
    method ParseAll() returns (e: Exit)
      requires Sound() && held.cur.None? && fmeHeader.None?
      modifies this`clock, this`held, this`resources, this`uafuSize, this`fmeHeader, this`resets, this`trail, this`bar
      ensures Told(Scan(visit, old(Now()), CardOps(card)), e)
      ensures Sound() && (e.Ok? ==> held.cur.None?)
    {
      ghost var first := MappedOps(card, 0, 0);
      ghost var named := NamedOps(card, LastFme(card, first, None));
      e := ParseListAt(0, 0);
      VisitorSame(old(Now()), first);
      ScanTrail(card, luck, old(Now()), first);
      Advance(old(Now()), first, named + [CommitLast], e);
      if !e.Ok? {
        return;
      }
      ghost var second := Now();
      e := ParsePorts();
      Advance(second, named, [CommitLast], e);
      if e.Ok? {
        e := CommitLastDev();
      }
    }

    /** build_info_free: drops the device that was not committed. */
    method FreeBuildInfo()
      requires Sound()
      modifies this`held
      ensures Sound() && held.cur.None?
    {
      if held.cur.Some? && held.cur.value.id.Some? {
        var id, pools := held.cur.value.id.value, held.pools;
        if held.cur.value.kind == FmeId {
          assert id in pools.fmes;
          held := held.(pools := pools.(fmes := pools.fmes - {id}), cur := None);
        } else {
          assert id in pools.ports;
          held := held.(pools := pools.(ports := pools.ports - {id}), cur := None);
        }
      }
      held := held.(cur := None);
    }

    /** destroy_drvdata: gives back the ids of the registered devices and the parent id. */
    method DestroyDrvdata()
      requires Sound() && Bound()
      modifies this`held, this`parents, this`deviceId
      ensures Idle() && Fit()
    {
      if held.fmeDev.Some? {
        assert held.fmeDev.value in held.pools.fmes;
        held := held.(pools := held.pools.(fmes := held.pools.fmes - {held.fmeDev.value}), fmeDev := None);
      }
      while held.portDevs != []
        invariant Sound() && Bound() && held.fmeDev.None?
        decreases |held.portDevs|
      {
        var id := held.portDevs[0];
        assert id in held.pools.ports;
        held := held.(pools := held.pools.(ports := held.pools.ports - {id}), portDevs := held.portDevs[1..]);
      }
      assert deviceId.value in parents;
      parents := parents - {deviceId.value};
      deviceId := None;
    }

    /** cci_pci_create_feature_devs; a crash leaves everything as it is. */
    method CreateFeatureDevs() returns (e: Exit)
      requires Sound() && held.cur.None?
      modifies this`clock, this`held, this`resources, this`uafuSize, this`fmeHeader, this`resets, this`trail, this`bar
      ensures var granted := luck(old(clock)) && luck(old(clock) + 1);
              var o := Scan(visit, old(Now()).(clock := old(clock) + 2, header := None), CardOps(card));
              && e == (if !granted then Err(-ENOMEM) else if o.Going? then Ok else o.exit)
              && trail == (if granted then TrailOf(o) else old(trail))
      ensures Sound() && (!e.Oops? ==> held.cur.None?)
    {
      var info := Try();
      if !info {
        return Err(-ENOMEM);
      }
      var parent := Try();
      if !parent {
        FreeBuildInfo();
        return Err(-ENOMEM);
      }
      fmeHeader := None;
      e := ParseAll();
      if !e.Oops? {
        FreeBuildInfo();
      }
    }

    /** create_init_drvdata and the irq setup. */
    method Prepare() returns (e: Exit)
      requires Idle() && Fit() && Wired() && clock == 0
      modifies this`clock, this`held, this`parents, this`deviceId
      ensures e == if luck(0) && luck(1) && luck(2) then Ok else Err(-ENOMEM)
      ensures e.Err? ==> Idle()
      ensures e.Ok? ==> clock == 3 && Sound() && Bound() && held == old(held)
    {
      var drvdata := Try();
      if !drvdata {
        return Err(-ENOMEM);
      }
      var idFree := Try();
      if !idFree {
        return Err(-ENOMEM);
      }
      var id := LowestFree(parents);
      parents := parents + {id};
      deviceId := Some(id);
      var vectors := Try();
      if !vectors {
        DestroyDrvdata();
        return Err(-ENOMEM);
      }
      return Ok;
    }

    /**
     * The probe, with every failure exit. One that returns an error has put every pool back; one
     * that crashes keeps at least the parent id. Which of the two happens is a function of the card
     * and of the calls that are refused.
     */
    method ProbeCard() returns (e: Exit)
      requires Idle() && Fit() && Wired() && clock == 0 && trail == Trail([], false)
      modifies this
      ensures e == ProbeExit(card, luck, old(uafuSize))
      ensures e.Err? ==> Idle()
      ensures e.Ok? ==> Bound()
      ensures e.Oops? ==> parents0 < parents
      ensures Fit() && (!e.Err? ==> Balanced(held, base))
      ensures trail == ProbeTrail(card, luck, old(uafuSize))
      ensures e.Ok? ==> WholeCard(card, trail.done) && !trail.past
    {
      if ProbeExit(card, luck, uafuSize).Ok? {
        ProbeTakesWholeCard(card, luck, uafuSize);
      }
      e := Prepare();
      assert Prepared(luck) <==> luck(0) && luck(1) && luck(2) && luck(3) && luck(4);
      if e.Err? {
        return;
      }
      VisitorSame(Start(uafuSize), CardOps(card));
      e := CreateFeatureDevs();
      if e.Err? {
        DestroyDrvdata();
      }
    }

    /** cci_pci_remove, after the virtual functions are off. */
    method RemoveCard()
      requires Sound() && Bound()
      modifies this`held, this`parents, this`deviceId
      ensures Idle() && Fit()
    {
      DestroyDrvdata();
    }
  }

}
