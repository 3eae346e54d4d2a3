/**
 * Which function owns a port: releasing and assigning ports, opening them, and turning released
 * ports into virtual functions. drivers/fpga/intel/pcie.c lines 145-156, 243-323 and 1228-1306,
 * include/intel/feature-dev.h lines 1598-1641.
 */
module PortOwnership {
  import opened Common

  /** `files` counts the open device files of the port; `id` is its hardware port number. */
  datatype PortDev = PortDev(id: nat, registered: bool, excl: bool, openCount: nat, files: nat)

  /** `vf` holds the port numbers whose access control in the FME header says VF. */
  datatype Device = Device(ports: seq<PortDev>, released: int, vf: set<nat>)

  datatype Outcome = Outcome(dev: Device, ret: int)
  // ----- counting and naming ports

  function Ids(ports: seq<PortDev>): set<nat>
  {
    set p | p in ports :: p.id
  }

  function Unregistered(ports: seq<PortDev>): nat
  {
    if ports == [] then 0 else (if ports[0].registered then 0 else 1) + Unregistered(ports[1..])
  }

  /** The numbers of the first `n` unregistered ports of the list. */
  function FirstFree(ports: seq<PortDev>, n: nat): set<nat>
    decreases |ports|
  {
    if ports == [] || n == 0 then {}
    else if ports[0].registered then FirstFree(ports[1..], n)
    else {ports[0].id} + FirstFree(ports[1..], n - 1)
  }

  function FreeIds(ports: seq<PortDev>): set<nat>
  {
    set p | p in ports && !p.registered :: p.id
  }

  /** cci_pci_lookup_port_by_id: the first port with that number. */
  function Lookup(ports: seq<PortDev>, id: nat): (r: Option<nat>)
    ensures r.Some? ==> r.value < |ports| && ports[r.value].id == id
    ensures r.None? ==> id !in Ids(ports)
  {
    if ports == [] then None
    else if ports[0].id == id then Some(0)
    else
      var r := Lookup(ports[1..], id);
      assert forall p :: p in ports ==> p == ports[0] || p in ports[1..];
      if r.None? then None else Some(r.value + 1)
  }

  // ----- the operations

  /** feature_dev_use_begin and feature_dev_use_excl_begin */
  function UseBegin(p: PortDev, excl: bool): Option<PortDev>
  {
    if excl then
      if p.openCount > 0 then None else Some(p.(excl := true, openCount := p.openCount + 1))
    else
      if p.excl then None else Some(p.(openCount := p.openCount + 1))
  }

  function UseEnd(p: PortDev): PortDev
  {
    p.(excl := false, openCount := if p.openCount > 0 then p.openCount - 1 else 0)
  }

  /** attach_port_dev; `addErr` is what platform_device_add answers. */
  function Attach(d: Device, id: nat, addErr: int): Outcome
  {
    if id in d.vf then Outcome(d, -EBUSY)
    else
      var i := Lookup(d.ports, id);
      if i.None? then Outcome(d, -EINVAL)
      else if d.ports[i.value].registered then Outcome(d, -EBUSY)
      else if addErr != 0 then Outcome(d, addErr)
      else
        var p := UseEnd(d.ports[i.value]).(registered := true);
        Outcome(d.(ports := d.ports[i.value := p], released := d.released - 1), 0)
  }

  /** detach_port_dev */
  function Detach(d: Device, id: nat): Outcome
  {
    var i := Lookup(d.ports, id);
    if i.None? then Outcome(d, -EINVAL)
    else if !d.ports[i.value].registered then Outcome(d, -EBUSY)
    else
      var p := UseBegin(d.ports[i.value], true);
      if p.None? then Outcome(d, -EBUSY)
      else Outcome(d.(ports := d.ports[i.value := p.value.(registered := false)], released := d.released + 1), 0)
  }

  /** cci_pci_sriov_configure; `enableErr` is what pci_enable_sriov answers. */
  function Configure(d: Device, numVfs: nat, enableErr: int): Outcome
  {
    if d.released < numVfs then Outcome(d, -EBUSY)
    else if numVfs == 0 then Outcome(d.(vf := d.vf - FreeIds(d.ports)), 0)
    else if enableErr != 0 then Outcome(d.(vf := d.vf - FreeIds(d.ports)), enableErr)
    else Outcome(d.(vf := d.vf + FirstFree(d.ports, numVfs)), numVfs)
  }

  function OpenFile(d: Device, i: nat, excl: bool): Outcome
    requires i < |d.ports|
  {
    var p := UseBegin(d.ports[i], excl);
    if p.None? then Outcome(d, -EBUSY)
    else Outcome(d.(ports := d.ports[i := p.value.(files := p.value.files + 1)]), 0)
  }

  function CloseFile(d: Device, i: nat): Device
    requires i < |d.ports| && d.ports[i].files > 0
  {
    var p := UseEnd(d.ports[i]);
    d.(ports := d.ports[i := p.(files := p.files - 1)])
  }

  // ----- the invariant

  ghost predicate PortOk(p: PortDev)
  {
    && p.openCount == p.files + (if p.registered then 0 else 1)
    && (p.excl ==> p.openCount == 1)
    && (!p.registered ==> p.excl)
  }

  ghost predicate DistinctIds(ports: seq<PortDev>)
  {
    forall i, j :: 0 <= i < j < |ports| ==> ports[i].id != ports[j].id
  }

  ghost predicate Inv(d: Device)
  {
    && DistinctIds(d.ports)
    && (forall i :: 0 <= i < |d.ports| ==> PortOk(d.ports[i]))
    && d.released == Unregistered(d.ports)
    && d.vf <= FreeIds(d.ports)
  }

  /** What the invariant means for one port. */
  lemma OwnershipMeans(d: Device, i: nat)
    requires Inv(d) && i < |d.ports|
    ensures d.ports[i].id in d.vf ==> !d.ports[i].registered
    ensures !d.ports[i].registered ==> d.ports[i].excl && d.ports[i].openCount == 1 && d.ports[i].files == 0
  {
    if d.ports[i].id in d.vf {
      var p :| p in d.ports && !p.registered && p.id == d.ports[i].id;
      var j :| 0 <= j < |d.ports| && d.ports[j] == p;
      assert j < i || i < j || i == j;
    }
  }

  lemma {:induction false} CountUpdate(ports: seq<PortDev>, i: nat, p: PortDev)
    requires i < |ports|
    ensures Unregistered(ports[i := p]) ==
            Unregistered(ports) - (if ports[i].registered then 0 else 1) + (if p.registered then 0 else 1)
  {
    if i > 0 {
      assert ports[i := p][1..] == ports[1..][i - 1 := p];
      CountUpdate(ports[1..], i - 1, p);
    } else {
      assert ports[i := p][1..] == ports[1..];
    }
  }

  /** Updating a port keeps the free ids, apart from its own. */
  lemma FreeIdsUpdate(ports: seq<PortDev>, i: nat, p: PortDev)
    requires i < |ports| && DistinctIds(ports) && p.id == ports[i].id
    ensures DistinctIds(ports[i := p])
    ensures FreeIds(ports[i := p]) == FreeIds(ports) - {p.id} + (if p.registered then {} else {p.id})
  {
    var ports' := ports[i := p];
    forall x | x in FreeIds(ports') ensures x in FreeIds(ports) - {p.id} + (if p.registered then {} else {p.id}) {
      var q :| q in ports' && !q.registered && q.id == x;
      var j :| 0 <= j < |ports'| && ports'[j] == q;
      if j != i {
        assert ports[j] == q && q in ports;
      }
    }
    forall x | x in FreeIds(ports) && x != p.id ensures x in FreeIds(ports') {
      var q :| q in ports && !q.registered && q.id == x;
      var j :| 0 <= j < |ports| && ports[j] == q;
      assert ports'[j] == q;
    }
    if !p.registered {
      assert ports'[i] == p && p in ports';
    }
  }

  lemma {:induction false} FirstFreeIsFree(ports: seq<PortDev>, n: nat)
    ensures FirstFree(ports, n) <= FreeIds(ports)
    decreases |ports|
  {
    if ports != [] && n > 0 {
      assert forall p :: p in ports[1..] ==> p in ports;
      FirstFreeIsFree(ports[1..], if ports[0].registered then n else n - 1);
    }
  }

  /** With distinct numbers, the first `n` free ports are `n` ports if there are that many. */
  lemma {:induction false} FirstFreeCount(ports: seq<PortDev>, n: nat)
    requires DistinctIds(ports) && n <= Unregistered(ports)
    ensures |FirstFree(ports, n)| == n
    decreases |ports|
  {
    if ports != [] && n > 0 {
      var m := if ports[0].registered then n else n - 1;
      FirstFreeCount(ports[1..], m);
      FirstFreeIsFree(ports[1..], m);
      if !ports[0].registered {
        forall p | p in ports[1..] ensures p.id != ports[0].id {
          var j :| 0 <= j < |ports| - 1 && ports[1..][j] == p;
          assert ports[j + 1] == p;
        }
        assert ports[0].id !in FirstFree(ports[1..], m);
      }
    }
  }

  // ----- every operation keeps the invariant

  lemma UpdateKeeps(d: Device, i: nat, p: PortDev)
    requires Inv(d) && i < |d.ports| && p.id == d.ports[i].id && PortOk(p)
    requires p.registered ==> p.id !in d.vf
    ensures Inv(Device(d.ports[i := p],
                       d.released - (if d.ports[i].registered then 0 else 1) + (if p.registered then 0 else 1), d.vf))
  {
    CountUpdate(d.ports, i, p);
    FreeIdsUpdate(d.ports, i, p);
  }

  lemma AttachKeeps(d: Device, id: nat, addErr: int)
    requires Inv(d)
    ensures Inv(Attach(d, id, addErr).dev)
  {
    var i := Lookup(d.ports, id);
    if Attach(d, id, addErr).dev != d {
      assert PortOk(d.ports[i.value]);
      UpdateKeeps(d, i.value, UseEnd(d.ports[i.value]).(registered := true));
    }
  }

  lemma DetachKeeps(d: Device, id: nat)
    requires Inv(d)
    ensures Inv(Detach(d, id).dev)
  {
    var i := Lookup(d.ports, id);
    if Detach(d, id).dev != d {
      assert PortOk(d.ports[i.value]);
      UpdateKeeps(d, i.value, UseBegin(d.ports[i.value], true).value.(registered := false));
    }
  }

  lemma FileKeeps(d: Device, i: nat, excl: bool)
    requires Inv(d) && i < |d.ports|
    ensures Inv(OpenFile(d, i, excl).dev)
    ensures d.ports[i].files > 0 ==> Inv(CloseFile(d, i))
  {
    assert PortOk(d.ports[i]);
    OwnershipMeans(d, i);
    var p := UseBegin(d.ports[i], excl);
    if p.Some? {
      UpdateKeeps(d, i, p.value.(files := p.value.files + 1));
    }
    if d.ports[i].files > 0 {
      var q := UseEnd(d.ports[i]);
      UpdateKeeps(d, i, q.(files := q.files - 1));
    }
  }

  /** Opening is refused exactly if the port is held and one side wants it for itself; closing undoes opening. */
  lemma FileMeans(d: Device, i: nat, excl: bool)
    requires Inv(d) && i < |d.ports|
    ensures var p, o := d.ports[i], OpenFile(d, i, excl);
            && (o.ret == -EBUSY <==> p.openCount > 0 && (excl || p.excl))
            && (o.ret != 0 ==> o == Outcome(d, -EBUSY))
            && (o.ret == 0 ==>
                && (var q := p.(openCount := p.openCount + 1, files := p.files + 1, excl := excl);
                    o.dev == d.(ports := d.ports[i := q]))
                && (excl ==> p.openCount == 0)
                && CloseFile(o.dev, i) == d)
  {
    assert PortOk(d.ports[i]);
    var o := OpenFile(d, i, excl);
    if o.ret == 0 {
      assert CloseFile(o.dev, i).ports == d.ports;
    }
  }

  lemma ConfigureKeeps(d: Device, numVfs: nat, enableErr: int)
    requires Inv(d)
    ensures Inv(Configure(d, numVfs, enableErr).dev)
  {
    FirstFreeIsFree(d.ports, numVfs);
  }

  /**
   * A successful configure(n) leaves exactly n ports with VF access precisely when every port that
   * had it before is among the first n free ones; in particular from a state without VF ports.
   */
  lemma ConfigureMakesExactly(d: Device, numVfs: nat)
    requires Inv(d) && 0 < numVfs && Configure(d, numVfs, 0).ret == numVfs
    ensures var d' := Configure(d, numVfs, 0).dev;
            && (|d'.vf| == numVfs <==> d.vf <= FirstFree(d.ports, numVfs))
            && d'.ports == d.ports && FirstFree(d.ports, numVfs) <= d'.vf
  {
    var first := FirstFree(d.ports, numVfs);
    FirstFreeCount(d.ports, numVfs);
    var both := d.vf + first;
    if d.vf <= first {
      assert both == first;
    } else {
      var x :| x in d.vf && x !in first;
      SubsetSmaller(first + {x}, both);
    }
  }

  lemma {:induction false} SubsetSmaller(a: set<nat>, b: set<nat>)
    requires a <= b
    ensures |a| <= |b|
    decreases a
  {
    if a != {} {
      var x :| x in a;
      SubsetSmaller(a - {x}, b - {x});
    }
  }

  /** Turning virtual functions off, as removal does first, leaves no port with VF access. */
  lemma ConfigureZeroClears(d: Device, enableErr: int)
    requires Inv(d)
    ensures Configure(d, 0, enableErr).ret == 0 && Configure(d, 0, enableErr).dev.vf == {}
  {
  }

  datatype Action =
    | AssignPort(id: nat, addErr: int)
    | ReleasePort(id: nat)
    | Open(i: nat, excl: bool)
    | Close(i: nat)
    | SetVfs(n: nat, enableErr: int)

  predicate CanStep(d: Device, a: Action)
  {
    match a
    case Open(i, _) => i < |d.ports|
    case Close(i) => i < |d.ports| && d.ports[i].files > 0
    case _ => true
  }

  function Step(d: Device, a: Action): Device
    requires CanStep(d, a)
  {
    match a
    case AssignPort(id, addErr) => Attach(d, id, addErr).dev
    case ReleasePort(id) => Detach(d, id).dev
    case Open(i, excl) => OpenFile(d, i, excl).dev
    case Close(i) => CloseFile(d, i)
    case SetVfs(n, enableErr) => Configure(d, n, enableErr).dev
  }

  function Run(d: Device, acts: seq<Action>): Option<Device>
    decreases |acts|
  {
    if acts == [] then Some(d)
    else if CanStep(d, acts[0]) then Run(Step(d, acts[0]), acts[1..])
    else None
  }

  /** After probing, with every port registered and closed, the invariant holds. */
  lemma {:induction false} ProbedInv(ports: seq<PortDev>)
    requires DistinctIds(ports)
    requires forall p :: p in ports ==> p == PortDev(p.id, true, false, 0, 0)
    ensures Unregistered(ports) == 0
    ensures Inv(Device(ports, 0, {}))
  {
    if ports != [] {
      ProbedInv(ports[1..]);
    }
    assert forall i :: 0 <= i < |ports| ==> ports[i] in ports;
  }

  lemma StepKeeps(d: Device, a: Action)
    requires Inv(d) && CanStep(d, a)
    ensures Inv(Step(d, a))
  {
    match a
    case AssignPort(id, addErr) => AttachKeeps(d, id, addErr);
    case ReleasePort(id) => DetachKeeps(d, id);
    case Open(i, excl) => FileKeeps(d, i, excl);
    case Close(i) => FileKeeps(d, i, false);
    case SetVfs(n, enableErr) => ConfigureKeeps(d, n, enableErr);
  }

  /**
   * Over every run: released_port_num counts the unregistered ports, a port with VF access is not
   * registered, and an unregistered port is held exclusively by nobody's file.
   */
  lemma {:induction false} OwnershipOverRuns(d: Device, acts: seq<Action>)
    requires Inv(d) && Run(d, acts).Some?
    ensures var e := Run(d, acts).value;
            && Inv(e)
            && e.released == Unregistered(e.ports)
            && forall i :: 0 <= i < |e.ports| ==>
                 && (e.ports[i].id in e.vf ==> !e.ports[i].registered)
                 && (!e.ports[i].registered ==> e.ports[i].excl && e.ports[i].openCount == 1)
    decreases |acts|
  {
    if acts == [] {
      forall i | 0 <= i < |d.ports|
        ensures (d.ports[i].id in d.vf ==> !d.ports[i].registered) &&
                (!d.ports[i].registered ==> d.ports[i].excl && d.ports[i].openCount == 1)
      {
        OwnershipMeans(d, i);
      }
    } else {
      StepKeeps(d, acts[0]);
      OwnershipOverRuns(Step(d, acts[0]), acts[1..]);
    }
  }

  // ----- the driver data and its locked operations

  lemma {:induction false} FreeStep(ports: seq<PortDev>, k: nat)
    requires k < |ports|
    ensures Unregistered(ports[..k + 1]) == Unregistered(ports[..k]) + (if ports[k].registered then 0 else 1)
    ensures FreeIds(ports[..k + 1]) == FreeIds(ports[..k]) + (if ports[k].registered then {} else {ports[k].id})
    decreases k
  {
    assert forall p :: p in ports[..k + 1] <==> p in ports[..k] || p == ports[k];
    if k > 0 {
      assert ports[..k + 1][1..] == ports[1..][..k];
      assert ports[..k][1..] == ports[1..][..k - 1];
      FreeStep(ports[1..], k - 1);
    }
  }

  lemma {:induction false} FirstFreeAll(ports: seq<PortDev>, n: nat)
    requires Unregistered(ports) <= n
    ensures FirstFree(ports, n) == FreeIds(ports)
    decreases |ports|
  {
    if ports != [] {
      assert forall p :: p in ports <==> p == ports[0] || p in ports[1..];
      FirstFreeAll(ports[1..], if ports[0].registered then n else n - 1);
      if n == 0 {
        assert FirstFree(ports[1..], 0) == {};
      }
    }
  }

  /** Once `n` free ports have been passed the rest of the list does not matter. */
  lemma {:induction false} FirstFreePrefix(ports: seq<PortDev>, k: nat, n: nat)
    requires k <= |ports| && Unregistered(ports[..k]) == n
    ensures FirstFree(ports, n) == FreeIds(ports[..k])
    decreases k
  {
    if k > 0 {
      var p := ports[0];
      assert ports[..k][1..] == ports[1..][..k - 1];
      assert forall q :: q in ports[..k] <==> q == p || q in ports[1..][..k - 1];
      if !(n == 0) {
        FirstFreePrefix(ports[1..], k - 1, if p.registered then n else n - 1);
      } else {
        FirstFreePrefix(ports[1..], k - 1, 0);
      }
    }
  }

  /** With distinct numbers the lookup finds the one port of that number. */
  lemma LookupMeans(ports: seq<PortDev>, id: nat)
    requires DistinctIds(ports)
    ensures var i := Lookup(ports, id);
            && (i.None? ==> forall p :: p in ports ==> p.id != id)
            && (i.Some? ==> forall p :: p in ports && p.id == id ==> p == ports[i.value])
  {
    var i := Lookup(ports, id);
    forall p | p in ports && p.id == id ensures i.Some? && p == ports[i.value] {
      assert id in Ids(ports);
      var j :| 0 <= j < |ports| && ports[j] == p;
      assert j < i.value || i.value < j || j == i.value;
    }
  }

  class CciDrvdata {
    var ports: seq<PortDev>
    var released: int
    var vf: set<nat>

    constructor (ports: seq<PortDev>)
      ensures State() == Device(ports, 0, {})
    {
      this.ports, released, vf := ports, 0, {};
    }

    ghost function State(): Device
      reads this
    {
      Device(ports, released, vf)
    }

    method FindPort(id: nat) returns (r: Option<nat>)
      ensures r == Lookup(ports, id)
    {
      var k := 0;
      while k < |ports|
        invariant k <= |ports|
        invariant Lookup(ports, id) ==
                  var rest := Lookup(ports[k..], id);
                  if rest.None? then None else Some(rest.value + k)
      {
        assert ports[k..][1..] == ports[k + 1..];
        if ports[k].id == id {
          return Some(k);
        }
        k := k + 1;
      }
      return None;
    }

    /**
     * attach_port_dev: succeeds exactly for a released port that no virtual function owns, and
     * then registers that port and changes nothing else.
     */
    method AttachPort(id: nat, addErr: int) returns (ret: int)
      requires Inv(State())
      modifies this`ports, this`released
      ensures Inv(State())
      ensures ret == 0 <==> id !in vf && id in FreeIds(old(ports)) && addErr == 0
      ensures ret == 0 ==>
              && released == old(released) - 1 && FreeIds(ports) == FreeIds(old(ports)) - {id}
              && exists i :: 0 <= i < |old(ports)| && old(ports)[i].id == id &&
                             ports == old(ports)[i := PortDev(id, true, false, 0, 0)]
      ensures ret != 0 ==> State() == old(State())
      ensures Outcome(State(), ret) == Attach(old(State()), id, addErr)
    {
      AttachKeeps(State(), id, addErr);
      LookupMeans(ports, id);
      if id in vf {
        return -EBUSY;
      }
      var i := FindPort(id);
      if i.None? {
        return -EINVAL;
      }
      if ports[i.value].registered {
        return -EBUSY;
      }
      if addErr != 0 {
        return addErr;
      }
      var p := ports[i.value];
      OwnershipMeans(State(), i.value);
      var q := UseEnd(p).(registered := true);
      FreeIdsUpdate(ports, i.value, q);
      ports := ports[i.value := q];
      released := released - 1;
      return 0;
    }

    /**
     * detach_port_dev: succeeds exactly for a registered port that nobody has open, and then
     * releases that port, held exclusively by nobody's file, and changes nothing else.
     */
    method DetachPort(id: nat) returns (ret: int)
      requires Inv(State())
      modifies this`ports, this`released
      ensures Inv(State())
      ensures ret == 0 <==> exists p :: p in old(ports) && p.id == id && p.registered && p.files == 0
      ensures ret == 0 ==>
              && released == old(released) + 1 && FreeIds(ports) == FreeIds(old(ports)) + {id}
              && exists i :: 0 <= i < |old(ports)| && old(ports)[i].id == id &&
                             ports == old(ports)[i := PortDev(id, false, true, 1, 0)]
      ensures ret != 0 ==> State() == old(State())
      ensures Outcome(State(), ret) == Detach(old(State()), id)
    {
      DetachKeeps(State(), id);
      LookupMeans(ports, id);
      var i := FindPort(id);
      if i.None? {
        return -EINVAL;
      }
      var p := ports[i.value];
      if !p.registered || p.openCount > 0 {
        return -EBUSY;
      }
      var q := p.(excl := true, openCount := 1, registered := false);
      FreeIdsUpdate(ports, i.value, q);
      ports := ports[i.value := q];
      released := released + 1;
      return 0;
    }

    /** Takes VF access from every unregistered port. */
    method AllToPf()
      modifies this`vf
      ensures vf == old(vf) - FreeIds(ports)
    {
      var k := 0;
      while k < |ports|
        invariant k <= |ports| && vf == old(vf) - FreeIds(ports[..k])
      {
        FreeStep(ports, k);
        if !ports[k].registered {
          vf := vf - {ports[k].id};
        }
        k := k + 1;
      }
      assert ports[..|ports|] == ports;
    }

    /**
     * cci_pci_sriov_configure: refused exactly for more functions than ports are released; turning
     * them off, or a refusal by the PCI core, leaves no VF port; otherwise the first `numVfs` ports
     * that are not registered become VF ports.
     */
    method SriovConfigure(numVfs: nat, enableErr: int) returns (ret: int)
      requires Inv(State())
      modifies this`vf
      ensures Inv(State())
      ensures numVfs > Unregistered(ports) ==> ret == -EBUSY && vf == old(vf)
      ensures numVfs == 0 ==> ret == 0 && vf == {}
      ensures 0 < numVfs <= Unregistered(ports) && enableErr == 0 ==>
              && ret == numVfs
              && exists k :: 0 <= k <= |ports| && Unregistered(ports[..k]) == numVfs &&
                             vf == old(vf) + FreeIds(ports[..k])
      ensures 0 < numVfs <= Unregistered(ports) && enableErr != 0 ==> ret == enableErr && vf == {}
      ensures Outcome(State(), ret) == Configure(old(State()), numVfs, enableErr)
    {
      ConfigureKeeps(State(), numVfs, enableErr);
      if released < numVfs {
        return -EBUSY;
      }
      if numVfs == 0 {
        AllToPf();
        return 0;
      }
      var k, vfPorts := 0, 0;
      while k < |ports| && vfPorts != numVfs
        invariant k <= |ports| && vfPorts == Unregistered(ports[..k]) <= numVfs
        invariant vf == old(vf) + FreeIds(ports[..k])
      {
        FreeStep(ports, k);
        if !ports[k].registered {
          vf := vf + {ports[k].id};
          vfPorts := vfPorts + 1;
        }
        k := k + 1;
      }
      assert ports[..|ports|] == ports;
      if vfPorts == numVfs {
        FirstFreePrefix(ports, k, numVfs);
      } else {
        FirstFreeAll(ports, numVfs);
      }
      if enableErr != 0 {
        FreePrefix(ports, k);
        AllToPf();
        return enableErr;
      }
      return numVfs;
    }
  }

  lemma FreePrefix(ports: seq<PortDev>, k: nat)
    requires k <= |ports|
    ensures FreeIds(ports[..k]) <= FreeIds(ports)
  {
    assert forall p :: p in ports[..k] ==> p in ports;
  }
}
