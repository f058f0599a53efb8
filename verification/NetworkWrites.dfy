/** What each write of the network graph keeps of the state before, and when it is refused:
    told from the records, over every state. */
module NetworkWrites {
  import opened Common
  import opened Ipv4
  import opened NetworkGraph
  import opened NetworkConsistency
  import opened NetworkGuarantees

  // ---------- a NIC write without a list of configurations ----------

  /** Configuration `j` is the last one of this name and subnet. */
  ghost predicate IsLastOf(ipcs: seq<IpConfig>, name: string, subnet: SubnetId, j: nat) {
    && j < |ipcs| && ipcs[j].name == name && ipcs[j].subnet == subnet
    && forall k :: j < k < |ipcs| ==> ipcs[k].name != name || ipcs[k].subnet != subnet
  }

  /** The address kept from before is that of the last configuration of the name and subnet. */
  lemma {:induction false} PreviousIsLast(ipcs: seq<IpConfig>, name: string, subnet: SubnetId)
    ensures match Previous(ipcs, name, subnet)
            case Some(ip) => exists j: nat :: IsLastOf(ipcs, name, subnet, j) && ipcs[j].ip == ip
            case None => forall j :: 0 <= j < |ipcs| ==> ipcs[j].name != name || ipcs[j].subnet != subnet
  {
    if ipcs != [] {
      var n := |ipcs| - 1;
      PreviousIsLast(ipcs[..n], name, subnet);
      if ipcs[n].name == name && ipcs[n].subnet == subnet {
        assert IsLastOf(ipcs, name, subnet, n);
      } else if Previous(ipcs[..n], name, subnet).Some? {
        var j: nat :| IsLastOf(ipcs[..n], name, subnet, j) && ipcs[..n][j].ip == Previous(ipcs, name, subnet).value;
        assert IsLastOf(ipcs, name, subnet, j);
      }
    }
  }

  /** A configuration rewritten without being named in the payload: all of it stays, but a
      missing name is filled in, and a dynamic address is that of the last old configuration
      of the same name and subnet. */
  ghost predicate Rewritten(ipcs: seq<IpConfig>, i: nat, c: IpConfig)
    requires i < |ipcs|
  {
    var was := ipcs[i];
    && c.subnet == was.subnet && c.pip == was.pip && c.deletePip == was.deletePip && c.alloc == was.alloc
    && c.name == (if was.name == "" then "ipconfig" + Decimal(i + 1) else was.name)
    && if was.alloc.Static? then c.ip == was.ip
       else exists j: nat :: IsLastOf(ipcs, was.name, was.subnet, j) && c.ip == ipcs[j].ip
  }

  lemma WithoutList(net: Net, id: Id, nsgFound: bool)
    ensures NicPut(net, id, None, nsgFound) == NicPut(net, id, Some(ConfigsOf(net, id, None)), nsgFound)
  {
  }

  /** A write that lists no configurations, such as a PATCH of the tags, goes on with those there
      were: it keeps their number and what is theirs, links what they reference to the NIC and
      touches nothing else; of a new NIC it is refused. */
  lemma {:induction false} NicRewriteKeeps(net: Net, id: Id, i: nat)
    requires id in net && !NicPut(net, id, None, true).1.Refused?
    ensures var t, ipcs := NicPut(net, id, None, true).0, net[id].ipcs;
            && id in t && |t[id].ipcs| == |ipcs| && t[id].vm == net[id].vm
            && (i < |ipcs| ==> Rewritten(ipcs, i, t[id].ipcs[i]))
  {
    var args := ConfigsOf(net, id, None);
    WithoutList(net, id, true);
    NicPutHonours(net, id, args, 0);
    if i < |args| {
      NicPutHonours(net, id, args, i);
      PreviousIsLast(net[id].ipcs, args[i].name, args[i].subnet);
      if Previous(net[id].ipcs, args[i].name, args[i].subnet).None? {
        assert net[id].ipcs[i].name == args[i].name;
      }
    }
  }

  /** What such a write does to the other records: links to the NIC, where it references them, and nothing else. */
  lemma {:induction false} NicRewriteRelinks(net: Net, id: Id, x: Id)
    requires id in net && x in net && x != id && !NicPut(net, id, None, true).1.Refused?
    ensures var t := NicPut(net, id, None, true).0;
            && t.Keys == net.Keys && t[x] == net[x].(link := t[x].link)
            && if References(net[id].ipcs, x) then LinkedTo(t[x], id) else t[x].link == net[x].link
  {
    var ipcs, args := net[id].ipcs, ConfigsOf(net, id, None);
    var t := NicPut(net, id, None, true).0;
    WithoutList(net, id, true);
    NicPutRelinks(net, id, args, x);
    NicRewriteKeeps(net, id, 0);
    forall i | 0 <= i < |ipcs|
      ensures t[id].ipcs[i].pip == ipcs[i].pip
    {
      NicRewriteKeeps(net, id, i);
    }
    assert References(t[id].ipcs, x) <==> References(ipcs, x);
  }

  /** No configurations are found exactly when the payload lists none, or has no list and there
      are none to go on with, as for a new NIC. */
  lemma NoConfigurationsExactly(net: Net, id: Id, configs: Option<seq<IpcArg>>, nsgFound: bool)
    ensures NicPut(net, id, configs, nsgFound).1 == Refused(NoConfigurations) <==>
            match configs
            case Some(args) => args == []
            case None => id !in net || net[id].ipcs == []
  {
    var args := ConfigsOf(net, id, configs);
    if args != [] {
      BuildFails(net, id, args);
    }
  }

  // ---------- when a NIC write is refused ----------

  /** The entry names a subnet that is there, and as a public IP nothing or a record that is there. */
  predicate RefsThere(net: Net, arg: IpcArg) {
    HasSubnet(net, arg.subnet) && (arg.pip.Some? ==> arg.pip.value in net)
  }

  /** What is wrong with one entry of a payload, in the state before the write. */
  ghost predicate Faulty(net: Net, id: Id, arg: IpcArg, e: Error) {
    if !RefsThere(net, arg) then e == InvalidReference
    else if arg.pip.Some? && !FreeFor(net, arg.pip.value, id) then e == PipInUse
    else
      var block := Block(net, arg.subnet);
      match e
      case NotInSubnet => arg.alloc.Static? && forall ip :: arg.ip == Some(ip) ==> !Holds(block, ip)
      case IpInUse => arg.alloc.Static? && exists ip :: arg.ip == Some(ip) && Holds(block, ip) && TakenByOther(net, id, ip)
      case SubnetIsFull =>
        && arg.alloc.Dynamic?
        && (forall j :: 0 <= j < |OldConfigs(net, id)| ==> OldConfigs(net, id)[j].name != arg.name || OldConfigs(net, id)[j].subnet != arg.subnet)
        && (forall ip :: Base(block) + 4 <= ip < Broadcast(block) ==> TakenByOther(net, id, ip))
      case _ => false
  }

  /** A NIC other than this one has the address. */
  ghost predicate TakenByOther(net: Net, id: Id, ip: nat) {
    exists n :: n in net && n.NicId? && n != id && HasIp(net[n], ip)
  }

  lemma PrivateIpFails(net: Net, id: Id, arg: IpcArg)
    requires RefsThere(net, arg) && (arg.pip.Some? ==> FreeFor(net, arg.pip.value, id))
    ensures match PrivateIp(net, id, arg)
            case Err(e) => Faulty(net, id, arg, e)
            case Ok(_) => forall e :: !Faulty(net, id, arg, e)
  {
    var block, used := Block(net, arg.subnet), UsedIps(net, id);
    forall ip: nat
      ensures ip in used <==> TakenByOther(net, id, ip)
    {
      UsedIpsMeaning(net, id, ip);
    }
    PreviousIsLast(OldConfigs(net, id), arg.name, arg.subnet);
    AllocateIsLeast(block, used);
  }

  lemma ResolveFails(net: Net, id: Id, arg: IpcArg, n: nat)
    ensures match Resolve(net, id, arg, n)
            case Err(e) => Faulty(net, id, arg, e)
            case Ok(_) => forall e :: !Faulty(net, id, arg, e)
  {
    if RefsThere(net, arg) && (arg.pip.Some? ==> FreeFor(net, arg.pip.value, id)) {
      PrivateIpFails(net, id, arg);
    }
  }

  /** Entry `i` is the first faulty one. */
  ghost predicate FirstFaulty(net: Net, id: Id, args: seq<IpcArg>, i: nat, e: Error) {
    i < |args| && Faulty(net, id, args[i], e) && forall j, f :: 0 <= j < i ==> !Faulty(net, id, args[j], f)
  }

  lemma {:induction false} BuildFails(net: Net, id: Id, args: seq<IpcArg>)
    ensures match Build(net, id, args)
            case Err(e) => e != NoConfigurations && exists i: nat :: FirstFaulty(net, id, args, i, e)
            case Ok(_) => forall i, e :: 0 <= i < |args| ==> !Faulty(net, id, args[i], e)
  {
    if args != [] {
      var n := |args| - 1;
      BuildFails(net, id, args[..n]);
      if Build(net, id, args[..n]).Ok? {
        ResolveFails(net, id, args[n], n);
        if Resolve(net, id, args[n], n).Err? {
          assert FirstFaulty(net, id, args, n, Resolve(net, id, args[n], n).error);
        }
      } else {
        var e := Build(net, id, args[..n]).error;
        var i: nat :| FirstFaulty(net, id, args[..n], i, e);
        assert FirstFaulty(net, id, args, i, e);
      }
    }
  }

  lemma OneFault(net: Net, id: Id, arg: IpcArg, e: Error, f: Error)
    requires Faulty(net, id, arg, e) && Faulty(net, id, arg, f)
    ensures e == f
  {
  }

  /** A NIC write is refused exactly when a group it names is missing or an entry of its list is
      faulty, for the fault of the first such entry; refused, it changes nothing. */
  lemma {:induction false} NicPutRefusedExactly(net: Net, id: Id, args: seq<IpcArg>, nsgFound: bool, e: Error)
    requires args != []
    ensures NicPut(net, id, Some(args), nsgFound).1 == Refused(e) <==>
            if !nsgFound then e == InvalidReference else exists i: nat :: FirstFaulty(net, id, args, i, e)
    ensures NicPut(net, id, Some(args), nsgFound).1.Refused? ==> NicPut(net, id, Some(args), nsgFound).0 == net
    ensures !NicPut(net, id, Some(args), nsgFound).1.Refused? ==>
              NicPut(net, id, Some(args), nsgFound).1 == if id in net then Updated else Created
  {
    BuildFails(net, id, args);
    if nsgFound {
      if i: nat :| FirstFaulty(net, id, args, i, e) {
        if Build(net, id, args).Err? {
          var f := Build(net, id, args).error;
          var j: nat :| FirstFaulty(net, id, args, j, f);
          assert i == j;
          OneFault(net, id, args[i], e, f);
        }
      }
    }
  }

  // ---------- writes of virtual machines ----------

  /** What is wrong with one reference of a VM. */
  predicate BadRef(net: Net, vm: Id, r: NicRef, e: Error) {
    match e
    case InvalidReference => r.nic !in net
    case NicInUse => r.nic in net && net[r.nic].vm.Some? && net[r.nic].vm != Some(vm)
    case _ => false
  }

  /** Reference `i` is the first bad one. */
  ghost predicate FirstBad(net: Net, vm: Id, refs: seq<NicRef>, i: nat, e: Error) {
    i < |refs| && BadRef(net, vm, refs[i], e) && forall j, f :: 0 <= j < i ==> !BadRef(net, vm, refs[j], f)
  }

  lemma {:induction false} RefsProblemIsFirst(net: Net, vm: Id, refs: seq<NicRef>)
    ensures RefsProblem(net, vm, refs).Some? ==> exists i: nat :: FirstBad(net, vm, refs, i, RefsProblem(net, vm, refs).value)
    ensures RefsProblem(net, vm, refs).None? ==> forall i, e :: 0 <= i < |refs| ==> !BadRef(net, vm, refs[i], e)
  {
    if refs != [] {
      var first := refs[0];
      if BadRef(net, vm, first, InvalidReference) || BadRef(net, vm, first, NicInUse) {
        assert FirstBad(net, vm, refs, 0, RefsProblem(net, vm, refs).value);
      } else {
        RefsProblemIsFirst(net, vm, refs[1..]);
        if RefsProblem(net, vm, refs[1..]).Some? {
          var e := RefsProblem(net, vm, refs[1..]).value;
          var i: nat :| FirstBad(net, vm, refs[1..], i, e);
          FirstBadShift(net, vm, refs, i, e);
        } else {
          forall i, e | 0 <= i < |refs|
            ensures !BadRef(net, vm, refs[i], e)
          {
            assert i > 0 ==> refs[i] == refs[1..][i - 1];
          }
        }
      }
    }
  }

  lemma FirstBadShift(net: Net, vm: Id, refs: seq<NicRef>, i: nat, e: Error)
    requires refs != [] && FirstBad(net, vm, refs[1..], i, e) && forall f :: !BadRef(net, vm, refs[0], f)
    ensures FirstBad(net, vm, refs, i + 1, e)
  {
    forall j, f | 0 <= j < i + 1
      ensures !BadRef(net, vm, refs[j], f)
    {
      assert j > 0 ==> refs[j] == refs[1..][j - 1];
    }
  }

  /** The references of a VM write's payload. */
  function Listed(refs: Option<seq<NicRef>>): seq<NicRef> {
    if refs.Some? then refs.value else []
  }

  /** A VM write is refused exactly for the first bad reference of its payload, or else if its
      other fields are not accepted; refused, it changes nothing. */
  lemma {:induction false} VmPutRefusedExactly(net: Net, id: Id, patch: bool, refs: Option<seq<NicRef>>, accepted: bool, e: Error)
    ensures VmPut(net, id, patch, refs, accepted).1 == Refused(e) <==>
              || (exists i: nat :: FirstBad(net, id, Listed(refs), i, e))
              || (e == InvalidRequest && !accepted && forall i, f :: 0 <= i < |Listed(refs)| ==> !BadRef(net, id, Listed(refs)[i], f))
    ensures VmPut(net, id, patch, refs, accepted).1.Refused? ==> VmPut(net, id, patch, refs, accepted).0 == net
    ensures !VmPut(net, id, patch, refs, accepted).1.Refused? ==>
              VmPut(net, id, patch, refs, accepted).1 == if id in net then Updated else Created
  {
    RefsProblemIsFirst(net, id, Listed(refs));
    if i: nat :| FirstBad(net, id, Listed(refs), i, e) {
      if RefsProblem(net, id, Listed(refs)).Some? {
        var f := RefsProblem(net, id, Listed(refs)).value;
        var j: nat :| FirstBad(net, id, Listed(refs), j, f);
        assert i == j;
      }
    }
  }

  /** A PATCH of an existing VM that lists no NICs goes on with those it had: the VM's record is
      as it was, and in a graph whose owners match nothing changes at all. */
  lemma VmPatchKeeps(net: Net, id: Id)
    requires id.VmId? && id in net
    ensures var (t, reply) := VmPut(net, id, true, None, true);
            reply == Updated && t[id] == net[id] && VmWritten(net, id, net[id].refs, t) && (OwnersMatch(net) ==> t == net)
  {
    var t := VmPut(net, id, true, None, true).0;
    if OwnersMatch(net) {
      forall x | x in net
        ensures t[x] == net[x]
      {
        if x.NicId? && Lists(net[id].refs, x) {
          assert net[x].vm == Some(id);
        }
      }
    }
  }

  /** A PUT replaces the VM's record: one that lists no NICs gives up all the VM had, and one
      that lists some stores those. */
  lemma VmPutReplaces(net: Net, id: Id, refs: Option<seq<NicRef>>)
    requires id.VmId? && !VmPut(net, id, false, refs, true).1.Refused?
    ensures var t := VmPut(net, id, false, refs, true).0;
            VmWritten(net, id, Listed(refs), t) && t[id] == BLANK.(refs := Listed(refs))
  {
  }

  /** A PATCH that lists NICs changes the VM's list and no other field of its record. */
  lemma VmPatchLists(net: Net, id: Id, refs: seq<NicRef>)
    requires id.VmId? && id in net && !VmPut(net, id, true, Some(refs), true).1.Refused?
    ensures var t := VmPut(net, id, true, Some(refs), true).0;
            VmWritten(net, id, refs, t) && t[id] == net[id].(refs := refs)
  {
  }

  // ---------- deletes, and the other writes ----------

  /** A NIC is deleted exactly if it is there and no VM's: it goes, the links to it that it
      referenced go, and everything else stays. */
  lemma {:induction false} NicDeleteExactly(net: Net, id: Id)
    ensures var (t, reply) := NicDelete(net, id);
            if id !in net then t == net && reply == NothingToDelete
            else if net[id].vm.Some? then t == net && reply == Refused(NicInUse)
            else
              && reply == Deleted && t.Keys == net.Keys - {id}
              && forall x :: x in t ==>
                   t[x] == if References(net[id].ipcs, x) && LinkedTo(net[x], id) then net[x].(link := None) else net[x]
  {
    if id in net {
      UnlinkAllEffect(net, id, net[id].ipcs);
    }
  }

  /** A public IP is deleted exactly if it is there and not linked, and nothing else changes. */
  lemma PipDeleteExactly(net: Net, id: Id)
    ensures var (t, reply) := PipDelete(net, id);
            && (reply == Refused(PipInUse) <==> id in net && net[id].link.Some?)
            && (reply == NothingToDelete <==> id !in net)
            && t == if id in net && net[id].link.None? then map x | x in net && x != id :: net[x] else net
  {
  }

  /** The list spells out these configurations, with the addresses they have. */
  ghost predicate Spells(args: seq<IpcArg>, ipcs: seq<IpConfig>) {
    |args| == |ipcs| && forall i :: 0 <= i < |ipcs| ==>
      args[i] == IpcArg(ipcs[i].name, ipcs[i].subnet, ipcs[i].pip, ipcs[i].deletePip, ipcs[i].alloc, Some(ipcs[i].ip))
  }

  /** A write without a list is answered, and refused, as one that spells out the configurations
      there were: a static one asks for its address again. */
  lemma {:induction false} NicRewriteIsExplicit(net: Net, id: Id, args: seq<IpcArg>, nsgFound: bool)
    requires Spells(args, OldConfigs(net, id))
    ensures NicPut(net, id, None, nsgFound) == NicPut(net, id, Some(args), nsgFound)
  {
    assert ConfigsOf(net, id, None) == args;
  }

  predicate UsedByPip(net: Net, a: nat) {
    exists p :: p in net && p.PipId? && net[p].address == Some(a)
  }

  /** A public IP without an address gets the first candidate that no public IP has. */
  lemma {:induction false} PipAddressExactly(net: Net, id: Id, candidates: seq<nat>)
    requires RecordOf(net, id).address.None?
    ensures var t := PipPut(net, id, true, candidates).0;
            match t[id].address
            case Some(a) => exists i: nat :: FirstFree(net, candidates, i) && candidates[i] == a
            case None => forall i :: 0 <= i < |candidates| ==> UsedByPip(net, candidates[i])
  {
    FirstUnusedPlace(net, candidates);
  }

  ghost predicate FirstFree(net: Net, candidates: seq<nat>, i: nat) {
    i < |candidates| && !UsedByPip(net, candidates[i]) && forall j :: 0 <= j < i ==> UsedByPip(net, candidates[j])
  }

  lemma {:induction false} FirstUnusedPlace(net: Net, candidates: seq<nat>)
    ensures match FirstUnused(candidates, Addresses(net))
            case Some(a) => exists i: nat :: FirstFree(net, candidates, i) && candidates[i] == a
            case None => forall i :: 0 <= i < |candidates| ==> UsedByPip(net, candidates[i])
  {
    if candidates != [] {
      assert candidates[0] in Addresses(net) <==> UsedByPip(net, candidates[0]);
      FirstUnusedPlace(net, candidates[1..]);
      assert forall j :: 1 <= j < |candidates| ==> candidates[j] == candidates[1..][j - 1];
      if candidates[0] !in Addresses(net) {
        assert FirstFree(net, candidates, 0);
      } else if FirstUnused(candidates, Addresses(net)).Some? {
        var i: nat :| FirstFree(net, candidates[1..], i) && candidates[1..][i] == FirstUnused(candidates, Addresses(net)).value;
        assert FirstFree(net, candidates, i + 1);
      }
    }
  }

  // ---------- the answers ----------

  function IdOf(r: Request): Id {
    match r
    case PutNic(name, _, _) => NicId(name)
    case DeleteNic(name) => NicId(name)
    case PutPip(name, _, _) => PipId(name)
    case DeletePip(name) => PipId(name)
    case PutVm(name, _, _, _) => VmId(name)
    case DeleteVm(name) => VmId(name)
    case PutOther(name, _) => OtherId(name)
    case DeleteOther(name) => OtherId(name)
    case PutRest(id, _) => id
  }

  predicate Deletes(r: Request) {
    r.DeleteNic? || r.DeletePip? || r.DeleteVm? || r.DeleteOther?
  }

  /** The answer tells what became of the record: a delete is answered as one of nothing exactly if
      there was none, and takes it if it is not refused; a write that is not refused is answered
      as an update exactly if it was there, and leaves it there; a refusal changes nothing, and of a public IP it is for its payload only. */
  lemma RepliesExactly(net: Net, r: Request)
    ensures var id, (t, reply) := IdOf(r), Step(net, r);
            && (reply.Refused? || reply == NothingToDelete ==> t == net)
            && (!reply.Refused? && Deletes(r) ==> reply == (if id in net then Deleted else NothingToDelete) && id !in t)
            && (!reply.Refused? && !Deletes(r) ==> reply == (if id in net then Updated else Created) && id in t)
            && (r.PutPip? ==> (reply.Refused? <==> !r.accepted) && (reply.Refused? ==> reply.error == InvalidRequest))
  {
    if r.DeleteVm? && VmId(r.name) in net {
      ReleaseAllEffect(net - {VmId(r.name)}, net[VmId(r.name)].refs);
    }
    if r.PutNic? && !Step(net, r).1.Refused? {
      WriteNicWrites(net, NicId(r.name), Build(net, NicId(r.name), ConfigsOf(net, NicId(r.name), r.configs)).value);
    }
  }

  /** Records that no request of the graph reads are written and deleted for themselves: one is
      refused only a payload for what is not there. */
  lemma OtherRecordsExactly(net: Net, r: Request)
    requires r.PutOther? || r.DeleteOther? || r.PutRest?
    ensures var id, (t, reply) := IdOf(r), Step(net, r);
            && (reply.Refused? <==> r.PutRest? && id !in net) && (reply.Refused? ==> reply.error == InvalidRequest)
            && (forall x :: x != id ==> (x in t <==> x in net) && (x in net ==> t[x] == net[x]))
            && (r.PutOther? ==> t[id] == r.record)
            && (r.PutRest? && id in net && id.OtherId? ==> t[id] == r.rest)
            && (r.PutRest? && id in net && id.NicId? ==> t[id] == Record(net[id].ipcs, net[id].vm, r.rest.link, r.rest.address, r.rest.refs, r.rest.subnets))
            && (r.PutRest? && id in net && id.PipId? ==> t[id] == Record(r.rest.ipcs, r.rest.vm, net[id].link, net[id].address, r.rest.refs, r.rest.subnets))
            && (r.PutRest? && id in net && id.VmId? ==> t[id] == Record(r.rest.ipcs, r.rest.vm, r.rest.link, r.rest.address, net[id].refs, r.rest.subnets))
  {
  }
}
