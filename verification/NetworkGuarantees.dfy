/** What clients of the network graph can rely on: single owners, what each accepted write
    stores and leaves alone, what a delete takes along, and when the addresses of one NIC differ. */
module NetworkGuarantees {
  import opened Common
  import opened Ipv4
  import opened NetworkGraph
  import opened NetworkConsistency

  // ---------- ownership ----------

  /** In a consistent graph a public IP serves one NIC and a NIC serves one VM. */
  lemma {:induction false} OneOwnerEach(net: Net, p: Id, m: Id, n: Id, v: Id, w: Id)
    requires Consistent(net) && p.PipId? && m.NicId? && n.NicId? && v.VmId? && w.VmId?
    ensures m in net && n in net && References(net[m].ipcs, p) && References(net[n].ipcs, p) ==> m == n
    ensures v in net && w in net && Lists(net[v].refs, m) && Lists(net[w].refs, m) ==> v == w
  {
    if m in net && References(net[m].ipcs, p) {
      assert net[p].link.value.nic == m;
    }
    if n in net && References(net[n].ipcs, p) {
      assert net[p].link.value.nic == n;
    }
  }

  // ---------- what each write does ----------

  lemma {:induction false} BuildHonours(net: Net, id: Id, args: seq<IpcArg>, i: nat)
    requires i < |args| && Build(net, id, args).Ok?
    ensures var ipcs := Build(net, id, args).value;
            && |ipcs| == |args|
            && Resolve(net, id, args[i], i) == Ok(ipcs[i])
  {
    var n := |args| - 1;
    BuildLast(net, id, args);
    if i < n {
      BuildHonours(net, id, args[..n], i);
    } else if n > 0 {
      BuildHonours(net, id, args[..n], 0);
    }
  }

  /** What an accepted NIC write stores: each requested subnet, public IP, mark and method, the
      requested name or a numbered one, a static address as asked and inside its subnet, a
      dynamic one kept from before or else the least free one; its VM is kept. */
  lemma {:induction false} NicPutHonours(net: Net, id: Id, args: seq<IpcArg>, i: nat)
    requires i < |args| && !NicPut(net, id, Some(args), true).1.Refused?
    ensures var t := NicPut(net, id, Some(args), true).0;
            && id in t && |t[id].ipcs| == |args|
            && t[id].vm == RecordOf(net, id).vm
            && var c := t[id].ipcs[i];
               && c.subnet == args[i].subnet && HasSubnet(net, c.subnet) && c.pip == args[i].pip
               && c.deletePip == args[i].deletePip && c.alloc == args[i].alloc
               && c.name == (if args[i].name != "" then args[i].name else "ipconfig" + Decimal(i + 1))
               && (args[i].alloc.Static? ==> args[i].ip == Some(c.ip) && Holds(Block(net, c.subnet), c.ip))
               && (args[i].alloc.Dynamic? ==>
                     if Previous(OldConfigs(net, id), args[i].name, c.subnet).Some?
                     then Previous(OldConfigs(net, id), args[i].name, c.subnet) == Some(c.ip)
                     else Allocate(Block(net, c.subnet), UsedIps(net, id)) == Some(c.ip))
  {
    BuildHonours(net, id, args, i);
    WriteNicWrites(net, id, Build(net, id, args).value);
  }

  /** What an accepted NIC write leaves alone and relinks: every other record stays but for
      its link; what the NIC references, as a public IP or not, is linked to one of its
      configurations that does, what it referenced before is no longer linked to it, and
      other links stay. */
  lemma {:induction false} NicPutRelinks(net: Net, id: Id, args: seq<IpcArg>, x: Id)
    requires !NicPut(net, id, Some(args), true).1.Refused? && x in net && x != id
    ensures var t := NicPut(net, id, Some(args), true).0;
            && t.Keys == net.Keys + {id} && id in t && t[x] == net[x].(link := t[x].link)
            && if References(t[id].ipcs, x) then LinkedTo(t[x], id) && Names(t[id].ipcs, t[x].link.value.ipc, x)
               else t[x].link == if References(OldConfigs(net, id), x) && LinkedTo(net[x], id) then None else net[x].link
  {
    var ipcs := Build(net, id, args).value;
    var mid := UnlinkAll(net, id, OldConfigs(net, id));
    UnlinkAllEffect(net, id, OldConfigs(net, id));
    LinkAllEffect(mid[id := RecordOf(mid, id).(ipcs := ipcs)], id, ipcs);
  }

  /** What an accepted VM write stores: each record listed was there and not another VM's; the
      NICs among them are its own now, it gives up the others it had, and every other record stays. */
  lemma {:induction false} VmPutHonours(net: Net, id: Id, patch: bool, refs: seq<NicRef>)
    requires id.VmId? && !VmPut(net, id, patch, Some(refs), true).1.Refused?
    ensures var t := VmPut(net, id, patch, Some(refs), true).0;
            && VmWritten(net, id, refs, t)
            && forall r :: r in refs ==> r.nic in net && (net[r.nic].vm.None? || net[r.nic].vm == Some(id))
                                         && (r.nic.NicId? ==> t[r.nic] == net[r.nic].(vm := Some(id)))
  {
    RefsProblemMeaning(net, id, refs);
    assert forall r :: r in refs ==> Lists(refs, r.nic);
  }

  /** An accepted public-IP write keeps the address and the link there were; a new address is
      a candidate no public IP had, and there is none only if every candidate was taken. */
  lemma {:induction false} PipPutHonours(net: Net, id: Id, candidates: seq<nat>)
    ensures var t := PipPut(net, id, true, candidates).0;
            && t.Keys == net.Keys + {id}
            && (forall x :: x in net && x != id ==> t[x] == net[x])
            && t[id] == RecordOf(net, id).(address := t[id].address)
            && if RecordOf(net, id).address.Some? then t[id] == net[id]
               else match t[id].address
                    case Some(a) => a in candidates && a !in Addresses(net)
                    case None => forall i :: 0 <= i < |candidates| ==> candidates[i] in Addresses(net)
  {
    FirstUnusedExactly(candidates, Addresses(net));
  }

  lemma {:induction false} FirstUnusedExactly(candidates: seq<nat>, used: set<nat>)
    ensures match FirstUnused(candidates, used)
            case Some(a) => a in candidates && a !in used
            case None => forall i :: 0 <= i < |candidates| ==> candidates[i] in used
  {
    if candidates != [] {
      FirstUnusedExactly(candidates[1..], used);
      assert candidates == [candidates[0]] + candidates[1..];
    }
  }

  /** Addresses are apart between NICs only: two dynamic configurations of one new NIC in
      one subnet always get the same address. */
  lemma {:induction false} TwinConfigsCollide(net: Net, id: Id, args: seq<IpcArg>, i: nat, j: nat)
    requires id !in net && i < j < |args| && !NicPut(net, id, Some(args), true).1.Refused?
    requires args[i].alloc.Dynamic? && args[j].alloc.Dynamic? && args[i].subnet == args[j].subnet
    ensures var ipcs := RecordOf(NicPut(net, id, Some(args), true).0, id).ipcs;
            |ipcs| == |args| && ipcs[i].ip == ipcs[j].ip
  {
    NicPutHonours(net, id, args, i);
    NicPutHonours(net, id, args, j);
  }

  // ---------- when two configurations of one NIC get one address ----------

  /** The address a configuration brings along: a static one as asked, a dynamic one as the
      last old configuration of its name and subnet had it. */
  function Brought(net: Net, id: Id, arg: IpcArg): Option<nat> {
    if arg.alloc.Static? then arg.ip else Previous(OldConfigs(net, id), arg.name, arg.subnet)
  }

  /** `ip` is the least host of the block, from its fifth address on, that is not used. */
  ghost predicate LeastFree(p: Prefix, used: set<nat>, ip: nat) {
    Base(p) + 4 <= ip < Broadcast(p) && ip !in used && forall k :: Base(p) + 4 <= k < ip ==> k in used
  }

  function Lower(a: nat, b: nat): nat {
    if a <= b then a else b
  }

  function Upper(a: nat, b: nat): nat {
    if a <= b then b else a
  }

  /** The blocks overlap, and every host from where allocation starts in the one to where it
      starts in the other is used. */
  ghost predicate SameStart(p: Prefix, q: Prefix, used: set<nat>) {
    Overlaps(p, q) && forall k :: Lower(Base(p), Base(q)) + 4 <= k < Upper(Base(p), Base(q)) + 4 ==> k in used
  }

  /** Two configurations of a payload that will get one address, told from the payload and
      the state before the write. */
  ghost predicate Collide(net: Net, id: Id, a: IpcArg, b: IpcArg)
    requires HasSubnet(net, a.subnet) && HasSubnet(net, b.subnet)
  {
    match (Brought(net, id, a), Brought(net, id, b))
    case (Some(x), Some(y)) => x == y
    case (Some(x), None) => LeastFree(Block(net, b.subnet), UsedIps(net, id), x)
    case (None, Some(y)) => LeastFree(Block(net, a.subnet), UsedIps(net, id), y)
    case (None, None) => SameStart(Block(net, a.subnet), Block(net, b.subnet), UsedIps(net, id))
  }

  lemma LeastFreeUnique(p: Prefix, used: set<nat>, x: nat, y: nat)
    requires LeastFree(p, used, x) && LeastFree(p, used, y)
    ensures x == y
  {
  }

  /** Allocation from two blocks gives one address exactly when it starts, in effect, at one place. */
  lemma SameLeastFree(p: Prefix, q: Prefix, used: set<nat>, x: nat, y: nat)
    requires LeastFree(p, used, x) && LeastFree(q, used, y)
    ensures x == y <==> SameStart(p, q, used)
  {
    if x == y {
      assert Holds(p, x) && Holds(q, x);
    }
    NestedOrDisjoint(p, q);
    if SubnetOf(p, q) {
      NestedLeastFree(p, q, used, x, y);
    } else if SubnetOf(q, p) {
      NestedLeastFree(q, p, used, y, x);
    }
  }

  lemma NestedLeastFree(inner: Prefix, outer: Prefix, used: set<nat>, x: nat, y: nat)
    requires SubnetOf(inner, outer) && LeastFree(inner, used, x) && LeastFree(outer, used, y)
    ensures x == y <==> forall k :: Base(outer) + 4 <= k < Base(inner) + 4 ==> k in used
  {
    if forall k :: Base(outer) + 4 <= k < Base(inner) + 4 ==> k in used {
      assert LeastFree(outer, used, x);
      LeastFreeUnique(outer, used, x, y);
    } else {
      assert x >= Base(inner) + 4;
    }
  }

  lemma {:induction false} StoredAddress(net: Net, id: Id, args: seq<IpcArg>, i: nat)
    requires i < |args| && !NicPut(net, id, Some(args), true).1.Refused?
    ensures HasSubnet(net, args[i].subnet) && |RecordOf(NicPut(net, id, Some(args), true).0, id).ipcs| == |args|
    ensures var ip := RecordOf(NicPut(net, id, Some(args), true).0, id).ipcs[i].ip;
            if Brought(net, id, args[i]).Some? then Brought(net, id, args[i]) == Some(ip)
            else LeastFree(Block(net, args[i].subnet), UsedIps(net, id), ip)
  {
    NicPutHonours(net, id, args, i);
    AllocateIsLeast(Block(net, args[i].subnet), UsedIps(net, id));
  }

  /** Two configurations of an accepted NIC write get one address exactly when they collide. */
  lemma {:induction false} SharedAddressExactly(net: Net, id: Id, args: seq<IpcArg>, i: nat, j: nat)
    requires i < |args| && j < |args| && !NicPut(net, id, Some(args), true).1.Refused?
    ensures HasSubnet(net, args[i].subnet) && HasSubnet(net, args[j].subnet)
    ensures var ipcs := RecordOf(NicPut(net, id, Some(args), true).0, id).ipcs;
            |ipcs| == |args| && (ipcs[i].ip == ipcs[j].ip <==> Collide(net, id, args[i], args[j]))
  {
    NicPutHonours(net, id, args, i);
    StoredAddress(net, id, args, i);
    StoredAddress(net, id, args, j);
    var used, ipcs := UsedIps(net, id), RecordOf(NicPut(net, id, Some(args), true).0, id).ipcs;
    var p, q, x, y := Block(net, args[i].subnet), Block(net, args[j].subnet), ipcs[i].ip, ipcs[j].ip;
    match (Brought(net, id, args[i]), Brought(net, id, args[j])) {
      case (Some(_), Some(_)) =>
      case (Some(_), None) =>
        if LeastFree(q, used, x) {
          LeastFreeUnique(q, used, x, y);
        }
      case (None, Some(_)) =>
        if LeastFree(p, used, y) {
          LeastFreeUnique(p, used, x, y);
        }
      case (None, None) => SameLeastFree(p, q, used, x, y);
    }
  }

  ghost predicate AddressesDiffer(ipcs: seq<IpConfig>) {
    forall i, j :: 0 <= i < j < |ipcs| ==> ipcs[i].ip != ipcs[j].ip
  }

  ghost predicate NoneCollide(net: Net, id: Id, args: seq<IpcArg>)
    requires forall i :: 0 <= i < |args| ==> HasSubnet(net, args[i].subnet)
  {
    forall i, j :: 0 <= i < j < |args| ==> !Collide(net, id, args[i], args[j])
  }

  /** The addresses of an accepted NIC write all differ exactly when no two configurations of
      its payload collide in the state before. */
  lemma {:induction false} NicAddressesApartExactly(net: Net, id: Id, args: seq<IpcArg>)
    requires !NicPut(net, id, Some(args), true).1.Refused?
    ensures forall i :: 0 <= i < |args| ==> HasSubnet(net, args[i].subnet)
    ensures AddressesDiffer(RecordOf(NicPut(net, id, Some(args), true).0, id).ipcs) <==> NoneCollide(net, id, args)
  {
    var ipcs := RecordOf(NicPut(net, id, Some(args), true).0, id).ipcs;
    NicPutHonours(net, id, args, 0);
    forall i | 0 <= i < |args|
      ensures HasSubnet(net, args[i].subnet)
    {
      StoredAddress(net, id, args, i);
    }
    if i, j :| 0 <= i < j < |args| && Collide(net, id, args[i], args[j]) {
      SharedAddressExactly(net, id, args, i, j);
    } else {
      forall i, j | 0 <= i < j < |ipcs|
        ensures ipcs[i].ip != ipcs[j].ip
      {
        SharedAddressExactly(net, id, args, i, j);
      }
    }
  }

  /** Over subnets that do not overlap, two dynamic configurations that keep no address get
      one address exactly when they are in one subnet. */
  lemma {:induction false} FreshConfigsCollide(net: Net, id: Id, args: seq<IpcArg>, i: nat, j: nat)
    requires i < |args| && j < |args| && !NicPut(net, id, Some(args), true).1.Refused?
    requires args[i].alloc.Dynamic? && args[j].alloc.Dynamic?
    requires Brought(net, id, args[i]).None? && Brought(net, id, args[j]).None?
    requires forall a, b :: HasSubnet(net, a) && HasSubnet(net, b) && a != b ==> !Overlaps(Block(net, a), Block(net, b))
    ensures var ipcs := RecordOf(NicPut(net, id, Some(args), true).0, id).ipcs;
            |ipcs| == |args| && (ipcs[i].ip == ipcs[j].ip <==> args[i].subnet == args[j].subnet)
  {
    SharedAddressExactly(net, id, args, i, j);
    var p := Block(net, args[i].subnet);
    assert Holds(p, Base(p));
  }

  // ---------- deleting a VM ----------

  /** Deleting a VM removes the records it deletes by reference, each at its turn, with what
      their configurations mark, and changes of every record left only two things: it is no
      VM's if it was listed, and a link to a record deleted by reference is gone if that record
      referenced it. */
  lemma {:induction false} VmDeleteCascades(net: Net, id: Id, x: Id)
    requires id in net
    ensures var t, refs, targets := VmDelete(net, id).0, net[id].refs, TargetsOf(net, id);
            && (x in t <==> x in net && x != id && x !in targets && !MarkedBy(net, targets, x))
            && (x in t ==>
                  && t[x].vm == (if Lists(refs, x) then None else net[x].vm)
                  && t[x].link == (if net[x].link.Some? && net[x].link.value.nic in targets && References(OldConfigs(net, net[x].link.value.nic), x)
                                   then None else net[x].link)
                  && t[x] == net[x].(vm := t[x].vm, link := t[x].link))
  {
    VmDeleteEffect(net, id);
    TargetsListed(net - {id}, net[id].refs);
    GoneMeaning(net, id, x);
  }

  lemma GoneMeaning(net: Net, id: Id, x: Id)
    requires id in net
    ensures x in Gone(net - {id}, TargetsOf(net, id)) <==> x in TargetsOf(net, id) || MarkedBy(net, TargetsOf(net, id), x)
  {
    TargetsListed(net - {id}, net[id].refs);
    if MarkedBy(net, TargetsOf(net, id), x) {
      var t :| t in TargetsOf(net, id) && t in net && x in Marked(net[t].ipcs);
      assert t in net - {id} && x in Marked((net - {id})[t].ipcs);
    }
  }

  ghost predicate MarkedBy(net: Net, targets: set<Id>, x: Id) {
    exists t :: t in targets && t in net && x in Marked(net[t].ipcs)
  }

  /** In a consistent graph where only NICs and public IPs are marked, what is deleted by
      reference are exactly the NICs so marked. */
  lemma {:induction false} TargetsExactly(net: Net, id: Id, n: Id)
    requires Consistent(net) && RightKinds(net) && id.VmId? && id in net
    ensures n in TargetsOf(net, id) <==> exists r :: r in net[id].refs && r.nic == n && r.deleteNic
  {
    TargetsListed(net - {id}, net[id].refs);
    if r :| r in net[id].refs && r.nic == n && r.deleteNic {
      assert n.NicId? && Lists(net[id].refs, n);
      assert n in net - {id};
      var i :| 0 <= i < |net[id].refs| && net[id].refs[i] == r;
      MarkedAreTargets(net - {id}, net[id].refs, i);
    }
  }

  /** A NIC marked by a reference becomes a target, as no configuration can have marked it. */
  lemma {:induction false} MarkedAreTargets(net: Net, refs: seq<NicRef>, i: nat)
    requires i < |refs| && refs[i].deleteNic && refs[i].nic.NicId? && refs[i].nic in net
    requires RightRefs(refs) && forall n :: n in net && n.NicId? ==> RightMarks(net[n].ipcs)
    ensures refs[i].nic in Targets(net, refs)
  {
    var k := |refs| - 1;
    if i < k {
      MarkedAreTargets(net, refs[..k], i);
    } else {
      MarksArePips(net, refs[..k]);
    }
  }

  lemma MarksArePips(net: Net, refs: seq<NicRef>)
    requires RightRefs(refs) && forall n :: n in net && n.NicId? ==> RightMarks(net[n].ipcs)
    ensures forall x :: x in Gone(net, Targets(net, refs)) ==> x.PipId? || x in Targets(net, refs)
  {
    TargetsListed(net, refs);
    forall t: Id, x | t in Targets(net, refs) && t in net && x in Marked(net[t].ipcs)
      ensures x.PipId?
    {
      MarkedRight(net[t].ipcs, x);
    }
  }

  // ---------- a reference of the wrong kind ----------

  const NET_ID := OtherId("net")
  const PIP_ID := PipId("p")
  const VM_ID := VmId("v")
  const SUBNET := SubnetId(NET_ID, "s")

  /** A configuration on the public IP "p" with a static address. */
  function OnPip(ip: nat): IpcArg {
    IpcArg("c", SUBNET, Some(PIP_ID), false, Static, Some(ip))
  }

  /** A network, a public IP and a NIC on it. */
  function Begun(): seq<Request> {
    [PutOther("net", BLANK.(subnets := map["s" := Cidr(0, 30)])), PutPip("p", true, []), PutNic("n", Some([OnPip(1)]), true)]
  }

  const TAKE := PutVm("v", false, Some([NicRef(PIP_ID, true)]), true)

  /** Two NICs on one public IP: a VM names the public IP where a NIC is meant, and takes it
      along when it is deleted, so that it can be made and given out again. */
  function WrongKind(): seq<Request> {
    Begun() + [TAKE] + [DeleteVm("v")] + [PutPip("p", true, [])] + [PutNic("m", Some([OnPip(2)]), true)]
  }

  /** The state in which a NIC is put on the public IP: the address is free and so is the public IP. */
  ghost predicate Ready(net: Net, nic: Id, ip: nat) {
    && NET_ID in net && "s" in net[NET_ID].subnets && net[NET_ID].subnets["s"] == Cidr(0, 30)
    && PIP_ID in net && net[PIP_ID].link.None? && nic !in net && ip !in UsedIps(net, nic)
  }

  lemma NicOnPip(net: Net, nic: string, ip: nat)
    requires Ready(net, NicId(nic), ip) && 0 < ip < 3
    ensures var (t, reply) := Step(net, PutNic(nic, Some([OnPip(ip)]), true));
            && reply.Created? && t.Keys == net.Keys + {NicId(nic)}
            && References(t[NicId(nic)].ipcs, PIP_ID) && LinkedTo(t[PIP_ID], NicId(nic))
            && t[NicId(nic)].vm.None? && t[NicId(nic)].ipcs == [IpConfig("c", SUBNET, Some(PIP_ID), false, Static, ip)]
            && (forall x :: x in net && x != PIP_ID ==> t[x] == net[x])
            && t[PIP_ID] == net[PIP_ID].(link := t[PIP_ID].link)
  {
    var args, id := [OnPip(ip)], NicId(nic);
    var c := IpConfig("c", SUBNET, Some(PIP_ID), false, Static, ip);
    assert Pow2(2) == 4 && Holds(Cidr(0, 30), ip);
    assert args[..0] == [] && Resolve(net, id, args[0], 0) == Ok(c);
    assert Build(net, id, args) == Ok([] + [c]);
    WriteNicWrites(net, id, [c]);
    assert [c][0].pip == Some(PIP_ID);
    LinkAllEffect(net[id := BLANK.(ipcs := [c])], id, [c]);
  }

  /** No request of the run is refused. */
  ghost predicate Accepted(rs: seq<Request>) {
    rs != [] ==> Accepted(rs[..|rs| - 1]) && !Step(Run(EMPTY, rs[..|rs| - 1]), rs[|rs| - 1]).1.Refused?
  }

  lemma AcceptedSnoc(rs: seq<Request>, r: Request)
    requires Accepted(rs) && !Step(Run(EMPTY, rs), r).1.Refused?
    ensures Accepted(rs + [r]) && Run(EMPTY, rs + [r]) == Step(Run(EMPTY, rs), r).0
  {
    assert (rs + [r])[..|rs|] == rs;
  }

  /** A VM that names a public IP is accepted, and takes it along when it is deleted. */
  lemma VmTakesPip(net: Net, refs: seq<NicRef>)
    requires refs == [NicRef(PIP_ID, true)]
    requires VM_ID !in net && PIP_ID in net && net[PIP_ID].ipcs == [] && forall x :: x in net ==> net[x].vm.None?
    ensures Step(net, TAKE).1.Created? && Step(Step(net, TAKE).0, DeleteVm("v")) == (net - {PIP_ID}, Deleted)
  {
    assert RefsProblem(net, VM_ID, refs).None? by {
      assert refs[1..] == [];
    }
    var t := Step(net, TAKE).0;
    assert t == net[VM_ID := BLANK.(refs := refs)];
    assert t - {VM_ID} == net && refs[..0] == [];
    assert ReleaseAll(net, refs) == Release(net, refs[0]);
    assert Release(net, refs[0]) == net - {PIP_ID};
  }

  /** Two NICs that reference one public IP. */
  ghost predicate Shared(net: Net, m: Id, n: Id, p: Id) {
    && m != n && m.NicId? && n.NicId? && p.PipId? && m in net && n in net
    && References(net[m].ipcs, p) && References(net[n].ipcs, p)
  }

  /** The network, the public IP and the first NIC on it. */
  ghost predicate FirstNic(net: Net) {
    && net.Keys == {NET_ID, PIP_ID, NicId("n")}
    && net[NET_ID] == BLANK.(subnets := map["s" := Cidr(0, 30)])
    && net[PIP_ID].ipcs == [] && net[PIP_ID].vm.None?
    && net[NicId("n")].ipcs == [IpConfig("c", SUBNET, Some(PIP_ID), false, Static, 1)] && net[NicId("n")].vm.None?
  }

  lemma FirstNicThere()
    ensures Accepted(Begun()) && FirstNic(Run(EMPTY, Begun()))
  {
    var net, pip, nic := Begun()[0], Begun()[1], Begun()[2];
    AcceptedSnoc([], net);
    assert Run(EMPTY, [] + [net]) == map[NET_ID := net.record];
    AcceptedSnoc([] + [net], pip);
    var s := map[NET_ID := net.record, PIP_ID := BLANK];
    assert Run(EMPTY, [] + [net] + [pip]) == s;
    NicOnPip(s, "n", 1);
    AcceptedSnoc([] + [net] + [pip], nic);
    assert Begun() == [] + [net] + [pip] + [nic];
  }

  /** Taken by the VM and made again, the public IP is blank, while the NIC still references it. */
  lemma TakenAndRemade(s: Net)
    requires FirstNic(s)
    ensures var a := Step(s, TAKE);
            var b := Step(a.0, DeleteVm("v"));
            a.1.Created? && b.1.Deleted? && Step(b.0, PutPip("p", true, [])) == (s[PIP_ID := BLANK], Created)
  {
    VmTakesPip(s, [NicRef(PIP_ID, true)]);
    RemadeBlank(s);
  }

  lemma RemadeBlank(s: Net)
    ensures Step(s - {PIP_ID}, PutPip("p", true, [])) == (s[PIP_ID := BLANK], Created)
  {
    assert (s - {PIP_ID})[PIP_ID := BLANK] == s[PIP_ID := BLANK];
  }

  /** The public IP is given to the second NIC. */
  lemma GivenAgain(s: Net)
    requires FirstNic(s)
    ensures var (t, reply) := Step(s[PIP_ID := BLANK], PutNic("m", Some([OnPip(2)]), true));
            reply.Created? && Shared(t, NicId("m"), NicId("n"), PIP_ID)
  {
    NicOnPip(s[PIP_ID := BLANK], "m", 2);
    assert s[NicId("n")].ipcs[0].pip == Some(PIP_ID);
  }

  lemma SharedBreaks(t: Net, m: Id, n: Id, p: Id)
    requires Shared(t, m, n, p)
    ensures !Consistent(t)
  {
    if Consistent(t) {
      OneOwnerEach(t, p, m, n, VM_ID, VM_ID);
      assert false;
    }
  }

  /** A run of accepted requests that leaves two NICs on one public IP. */
  lemma WrongKindShares()
    ensures Accepted(WrongKind()) && Shared(Run(EMPTY, WrongKind()), NicId("m"), NicId("n"), PIP_ID)
    ensures !Consistent(Run(EMPTY, WrongKind()))
  {
    FirstNicThere();
    var s := Run(EMPTY, Begun());
    TakenAndRemade(s);
    GivenAgain(s);
    AcceptedSnoc(Begun(), TAKE);
    AcceptedSnoc(Begun() + [TAKE], DeleteVm("v"));
    AcceptedSnoc(Begun() + [TAKE] + [DeleteVm("v")], PutPip("p", true, []));
    AcceptedSnoc(Begun() + [TAKE] + [DeleteVm("v")] + [PutPip("p", true, [])], PutNic("m", Some([OnPip(2)]), true));
    SharedBreaks(Run(EMPTY, WrongKind()), NicId("m"), NicId("n"), PIP_ID);
  }
}
