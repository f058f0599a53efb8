/** What keeps the network graph consistent: every request but the delete of a VM, and that
    one exactly when it removes nothing that a record left over is tied to. */
module NetworkConsistency {
  import opened Common
  import opened Ipv4
  import opened NetworkGraph

  // ---------- records the graph does not depend on ----------

  /** The same NICs with the same configurations, and the same public IPs. */
  ghost predicate SameWires(net: Net, after: Net) {
    && (forall x: Id :: x.NicId? || x.PipId? ==> (x in net <==> x in after))
    && (forall n :: n in net && n.NicId? ==> after[n].ipcs == net[n].ipcs)
    && (forall p :: p in net && p.PipId? ==> after[p].link == net[p].link && after[p].address == net[p].address)
  }

  /** The same NICs with the same owners, and the same VMs. */
  ghost predicate SameOwners(net: Net, after: Net) {
    && (forall x: Id :: x.NicId? || x.VmId? ==> (x in net <==> x in after))
    && (forall n :: n in net && n.NicId? ==> after[n].vm == net[n].vm)
    && (forall v :: v in net && v.VmId? ==> after[v].refs == net[v].refs)
  }

  lemma SameWiresLinked(net: Net, after: Net)
    requires LinksLive(net) && ReferencesOwned(net) && SameWires(net, after)
    ensures LinksLive(after) && ReferencesOwned(after)
  {
  }

  lemma SameWiresApart(net: Net, after: Net)
    requires IpsApart(net) && AddressesApart(net) && SameWires(net, after)
    ensures IpsApart(after) && AddressesApart(after)
  {
    assert forall n, ip :: n in after && n.NicId? && HasIp(after[n], ip) ==> HasIp(net[n], ip);
  }

  lemma SameWiresWired(net: Net, after: Net)
    requires Wired(net) && SameWires(net, after)
    ensures Wired(after)
  {
    SameWiresLinked(net, after);
    SameWiresApart(net, after);
  }

  lemma SameOwnersMatch(net: Net, after: Net)
    requires OwnersMatch(net) && SameOwners(net, after)
    ensures OwnersMatch(after)
  {
  }

  lemma SameConsistent(net: Net, after: Net)
    requires Consistent(net) && SameWires(net, after) && SameOwners(net, after)
    ensures Consistent(after)
  {
    SameWiresWired(net, after);
    SameOwnersMatch(net, after);
  }

  // ---------- writes and deletes of NICs and public IPs ----------

  /** A NIC is rewritten: its public IPs were free or its own and are linked to it, its other
      links are gone. */
  ghost predicate Relinked(net: Net, id: Id, ipcs: seq<IpConfig>, after: Net) {
    && after.Keys == net.Keys + {id} && after[id].ipcs == ipcs
    && (forall x :: x in net && x != id ==> after[x].ipcs == net[x].ipcs && after[x].address == net[x].address)
    && (forall p :: p in net && p.PipId? ==>
          if References(ipcs, p) then LinkedTo(after[p], id) && Names(ipcs, after[p].link.value.ipc, p)
          else after[p].link == if LinkedTo(net[p], id) then None else net[p].link)
    && (forall p: Id :: p.PipId? && References(ipcs, p) ==> FreeFor(net, p, id))
  }

  lemma RelinkedLive(net: Net, id: Id, ipcs: seq<IpConfig>, after: Net)
    requires LinksLive(net) && id.NicId? && Relinked(net, id, ipcs, after)
    ensures LinksLive(after)
  {
  }

  lemma RelinkedOwned(net: Net, id: Id, ipcs: seq<IpConfig>, after: Net)
    requires ReferencesOwned(net) && id.NicId? && Relinked(net, id, ipcs, after)
    ensures ReferencesOwned(after)
  {
    forall n: Id, p: Id | n in after && n.NicId? && p.PipId? && References(after[n].ipcs, p)
      ensures p in after && after[p].link.Some? && after[p].link.value.nic == n
    {
      if n != id {
        assert net[p].link.value.nic == n;
      }
    }
  }

  lemma RelinkedApart(net: Net, id: Id, ipcs: seq<IpConfig>, after: Net)
    requires AddressesApart(net) && id.NicId? && Relinked(net, id, ipcs, after)
    ensures AddressesApart(after)
  {
  }

  lemma WriteNicRelinks(net: Net, id: Id, ipcs: seq<IpConfig>)
    requires Wired(net) && id.NicId?
    requires forall p: Id :: p.PipId? && References(ipcs, p) ==> FreeFor(net, p, id)
    ensures Relinked(net, id, ipcs, WriteNic(net, id, ipcs))
  {
    var mid := UnlinkAll(net, id, OldConfigs(net, id));
    UnlinkClears(net, id);
    LinkAllEffect(mid[id := RecordOf(mid, id).(ipcs := ipcs)], id, ipcs);
  }

  /** Nothing is written but the configurations and links. */
  ghost predicate NicWritten(net: Net, id: Id, ipcs: seq<IpConfig>, after: Net) {
    && after.Keys == net.Keys + {id}
    && after[id].ipcs == ipcs && after[id].vm == RecordOf(net, id).vm && after[id].refs == RecordOf(net, id).refs
    && forall x :: x in net && x != id ==> after[x] == net[x].(link := after[x].link)
  }

  lemma WriteNicWrites(net: Net, id: Id, ipcs: seq<IpConfig>)
    ensures NicWritten(net, id, ipcs, WriteNic(net, id, ipcs))
  {
    var mid := UnlinkAll(net, id, OldConfigs(net, id));
    UnlinkAllEffect(net, id, OldConfigs(net, id));
    LinkAllEffect(mid[id := RecordOf(mid, id).(ipcs := ipcs)], id, ipcs);
  }

  lemma {:induction false} NicPutConsistent(net: Net, id: Id, ipcs: seq<IpConfig>)
    requires Consistent(net) && id.NicId?
    requires forall i :: 0 <= i < |ipcs| ==> Sound(net, id, ipcs[i])
    ensures Consistent(WriteNic(net, id, ipcs))
  {
    var t := WriteNic(net, id, ipcs);
    forall p: Id | References(ipcs, p)
      ensures FreeFor(net, p, id)
    {
      var i :| 0 <= i < |ipcs| && ipcs[i].pip == Some(p);
      assert Sound(net, id, ipcs[i]);
    }
    WriteNicRelinks(net, id, ipcs);
    RelinkedLive(net, id, ipcs, t);
    RelinkedOwned(net, id, ipcs, t);
    RelinkedApart(net, id, ipcs, t);
    WriteNicWrites(net, id, ipcs);
    NicPutApart(net, id, ipcs, t);
    NicPutOwners(net, id, ipcs, t);
  }

  lemma NicPutOwners(net: Net, id: Id, ipcs: seq<IpConfig>, t: Net)
    requires OwnersMatch(net) && id.NicId? && NicWritten(net, id, ipcs, t)
    ensures OwnersMatch(t)
  {
    assert forall v :: v in t && v.VmId? ==> v in net && t[v].refs == net[v].refs;
  }

  lemma NicPutApart(net: Net, id: Id, ipcs: seq<IpConfig>, t: Net)
    requires IpsApart(net) && id.NicId? && NicWritten(net, id, ipcs, t)
    requires forall i :: 0 <= i < |ipcs| ==> Sound(net, id, ipcs[i])
    ensures IpsApart(t)
  {
    forall m, n, ip | m in t && n in t && m.NicId? && n.NicId? && HasIp(t[m], ip) && HasIp(t[n], ip)
      ensures m == n
    {
      UsedIpsMeaning(net, id, ip);
      assert forall x :: x in net && x != id ==> t[x].ipcs == net[x].ipcs;
    }
  }

  /** Fewer records hold no more addresses. */
  lemma FewerApart(net: Net, t: Net)
    requires IpsApart(net) && AddressesApart(net)
    requires forall x :: x in t ==> x in net && t[x].ipcs == net[x].ipcs && t[x].address == net[x].address
    ensures IpsApart(t) && AddressesApart(t)
  {
    assert forall n, ip :: n in t && HasIp(t[n], ip) ==> HasIp(net[n], ip);
  }

  lemma RemoveNicWired(net: Net, id: Id)
    requires Wired(net) && id.NicId? && id in net
    ensures Wired(RemoveNic(net, id))
  {
    UnlinkClears(net, id);
    RemoveNicLinks(net, id, UnlinkAll(net, id, net[id].ipcs));
    FewerApart(net, RemoveNic(net, id));
  }

  lemma RemoveNicLinks(net: Net, id: Id, mid: Net)
    requires Wired(net) && id.NicId? && Cleared(net, mid, id)
    ensures LinksLive(mid - {id}) && ReferencesOwned(mid - {id})
  {
    var t := mid - {id};
    assert forall x :: x in t ==> t[x].ipcs == net[x].ipcs;
    forall n: Id, p: Id | n in t && n.NicId? && p.PipId? && References(t[n].ipcs, p)
      ensures p in t && t[p].link.Some? && t[p].link.value.nic == n
    {
      assert net[p].link.value.nic == n;
    }
  }

  lemma RemoveNicOwners(net: Net, id: Id)
    requires OwnersMatch(net) && id.NicId? && id in net && net[id].vm.None?
    ensures OwnersMatch(RemoveNic(net, id))
  {
    WithoutFreeNic(net, id);
    UnlinkKeepsOwners(net, id);
    SameOwnersMatch(net - {id}, RemoveNic(net, id));
  }

  lemma WithoutFreeNic(net: Net, id: Id)
    requires OwnersMatch(net) && id.NicId? && id in net && net[id].vm.None?
    ensures OwnersMatch(net - {id})
  {
  }

  lemma UnlinkKeepsOwners(net: Net, id: Id)
    requires id in net
    ensures SameOwners(net - {id}, RemoveNic(net, id))
  {
    UnlinkAllEffect(net, id, net[id].ipcs);
  }

  lemma {:induction false} FirstUnusedIsUnused(candidates: seq<nat>, used: set<nat>)
    ensures FirstUnused(candidates, used).Some? ==> FirstUnused(candidates, used).value !in used
  {
    if candidates != [] {
      FirstUnusedIsUnused(candidates[1..], used);
    }
  }

  /** One public IP gets an address, or comes with one. */
  ghost predicate Addressed(net: Net, id: Id, t: Net) {
    && id.PipId? && t.Keys == net.Keys + {id} && t[id].link == RecordOf(net, id).link
    && forall x :: x in net && x != id ==> t[x] == net[x]
  }

  lemma AddressedWired(net: Net, id: Id, t: Net)
    requires Wired(net) && Addressed(net, id, t) && AddressesApart(t)
    ensures Wired(t)
  {
    AddressedLinks(net, id, t);
    assert forall n :: n in t && n.NicId? ==> n in net && t[n] == net[n];
  }

  lemma AddressedLinks(net: Net, id: Id, t: Net)
    requires LinksLive(net) && ReferencesOwned(net) && Addressed(net, id, t)
    ensures LinksLive(t) && ReferencesOwned(t)
  {
  }

  lemma PipPutApart(net: Net, id: Id, candidates: seq<nat>)
    requires AddressesApart(net) && id.PipId?
    ensures AddressesApart(PipPut(net, id, true, candidates).0)
  {
    FirstUnusedIsUnused(candidates, Addresses(net));
  }

  lemma {:induction false} PipPutConsistent(net: Net, id: Id, accepted: bool, candidates: seq<nat>)
    requires Consistent(net) && id.PipId?
    ensures Consistent(PipPut(net, id, accepted, candidates).0)
  {
    if accepted {
      var t := PipPut(net, id, accepted, candidates).0;
      PipPutApart(net, id, candidates);
      AddressedWired(net, id, t);
      SameOwnersMatch(net, t);
    }
  }

  lemma PipDeleteWired(net: Net, id: Id)
    requires Wired(net) && id.PipId? && id in net && net[id].link.None?
    ensures Wired(net - {id})
  {
    FewerApart(net, net - {id});
  }

  lemma PipDeleteOwners(net: Net, id: Id)
    requires OwnersMatch(net) && id.PipId?
    ensures OwnersMatch(net - {id})
  {
  }

  // ---------- writes of VMs ----------

  lemma {:induction false} RefsProblemMeaning(net: Net, vm: Id, refs: seq<NicRef>)
    ensures RefsProblem(net, vm, refs).None? <==>
            forall n :: Lists(refs, n) ==> n in net && (net[n].vm.None? || net[n].vm.value == vm)
  {
    if refs != [] {
      RefsProblemMeaning(net, vm, refs[1..]);
      assert Lists(refs, refs[0].nic) by { assert refs[0] in refs; }
      forall n
        ensures Lists(refs, n) <==> n == refs[0].nic || Lists(refs[1..], n)
      {
        assert refs == [refs[0]] + refs[1..];
      }
    }
  }

  /** Only the VM's record and the owners of NICs change. */
  ghost predicate VmWritten(net: Net, id: Id, refs: seq<NicRef>, after: Net) {
    && after.Keys == net.Keys + {id} && after[id].refs == refs
    && forall x :: x in net && x != id ==>
         after[x] == if !x.NicId? then net[x]
                     else if Lists(refs, x) then net[x].(vm := Some(id))
                     else if net[x].vm == Some(id) then net[x].(vm := None)
                     else net[x]
  }

  lemma VmWrittenOwners(net: Net, id: Id, refs: seq<NicRef>, after: Net)
    requires OwnersMatch(net) && id.VmId? && VmWritten(net, id, refs, after)
    requires forall n: Id :: n.NicId? && Lists(refs, n) ==> n in net && (net[n].vm.None? || net[n].vm.value == id)
    ensures OwnersMatch(after)
  {
  }

  lemma {:induction false} VmPutConsistent(net: Net, id: Id, patch: bool, refs: Option<seq<NicRef>>, accepted: bool)
    requires Consistent(net) && id.VmId?
    ensures Consistent(VmPut(net, id, patch, refs, accepted).0)
  {
    RefsProblemMeaning(net, id, if refs.Some? then refs.value else []);
    var (t, reply) := VmPut(net, id, patch, refs, accepted);
    if !reply.Refused? {
      SameWiresWired(net, t);
      VmWrittenOwners(net, id, t[id].refs, t);
    }
  }

  // ---------- deleting a virtual machine ----------

  /** The records deleted by their own reference, in the order listed: those there when their
      turn comes, which no reference before them deleted or marked. */
  function Targets(net: Net, refs: seq<NicRef>): set<Id> {
    if refs == [] then {}
    else
      var before, last := Targets(net, refs[..|refs| - 1]), refs[|refs| - 1];
      if last.deleteNic && last.nic in net && last.nic !in Gone(net, before) then before + {last.nic} else before
  }

  /** The targets and what their configurations mark. */
  function Gone(net: Net, targets: set<Id>): set<Id> {
    targets + set t, x | t in targets && t in net && x in Marked(net[t].ipcs) :: x
  }

  /** What is left of a record once the references are gone through. */
  function Released(net: Net, refs: seq<NicRef>, targets: set<Id>, x: Id): Record
    requires x in net
  {
    var r := net[x];
    r.(vm := if Lists(refs, x) then None else r.vm,
       link := if r.link.Some? && r.link.value.nic in targets && References(OldConfigs(net, r.link.value.nic), x) then None else r.link)
  }

  ghost predicate ReleasedAll(net: Net, refs: seq<NicRef>, t: Net) {
    var targets := Targets(net, refs);
    && t.Keys == net.Keys - Gone(net, targets)
    && forall x :: x in t ==> t[x] == Released(net, refs, targets, x)
  }

  lemma ListsSnoc(refs: seq<NicRef>, x: Id)
    requires refs != []
    ensures Lists(refs, x) <==> Lists(refs[..|refs| - 1], x) || refs[|refs| - 1].nic == x
  {
    var k := |refs| - 1;
    assert refs == refs[..k] + [refs[k]];
    assert refs[k] in refs;
  }

  lemma GoneOneMore(net: Net, targets: set<Id>, t: Id)
    requires t in net
    ensures Gone(net, targets + {t}) == Gone(net, targets) + {t} + Marked(net[t].ipcs)
  {
  }

  lemma RemoveNicEffect(net: Net, id: Id)
    requires id in net
    ensures RemoveNic(net, id).Keys == net.Keys - {id}
    ensures forall x :: x in net && x != id ==>
              RemoveNic(net, id)[x] == net[x].(link := if References(net[id].ipcs, x) && LinkedTo(net[x], id) then None else net[x].link)
  {
    UnlinkAllEffect(net, id, net[id].ipcs);
  }

  /** Going through the references in order has this effect. */
  lemma {:induction false} ReleaseAllEffect(net: Net, refs: seq<NicRef>)
    ensures ReleasedAll(net, refs, ReleaseAll(net, refs))
  {
    if refs != [] {
      var k := |refs| - 1;
      ReleaseAllEffect(net, refs[..k]);
      ReleaseStep(net, refs, ReleaseAll(net, refs[..k]));
    }
  }

  lemma ReleaseStep(net: Net, refs: seq<NicRef>, mid: Net)
    requires refs != [] && ReleasedAll(net, refs[..|refs| - 1], mid)
    ensures ReleasedAll(net, refs, Release(mid, refs[|refs| - 1]))
  {
    var r := refs[|refs| - 1];
    forall x {
      ListsSnoc(refs, x);
    }
    if r.nic in mid && r.deleteNic {
      ReleaseTarget(net, refs, mid);
    }
  }

  lemma ReleaseTarget(net: Net, refs: seq<NicRef>, mid: Net)
    requires refs != [] && ReleasedAll(net, refs[..|refs| - 1], mid)
    requires refs[|refs| - 1].nic in mid && refs[|refs| - 1].deleteNic
    ensures ReleasedAll(net, refs, Release(mid, refs[|refs| - 1]))
  {
    var r := refs[|refs| - 1];
    var freed := mid[r.nic := mid[r.nic].(vm := None)];
    var before := Targets(net, refs[..|refs| - 1]);
    assert Targets(net, refs) == before + {r.nic};
    GoneOneMore(net, before, r.nic);
    RemoveNicEffect(freed, r.nic);
    var t := Release(mid, r);
    forall x | x in t
      ensures t[x] == Released(net, refs, before + {r.nic}, x)
    {
      ListsSnoc(refs, x);
      assert t[x] == RemoveNic(freed, r.nic)[x];
    }
  }

  /** The public IP `a` is linked to the NIC `b`, or the NIC `a` belongs to the VM `b`. */
  predicate Tied(net: Net, a: Id, b: Id)
    requires a in net
  {
    (a.PipId? && LinkedTo(net[a], b)) || (a.NicId? && net[a].vm == Some(b))
  }

  function TargetsOf(net: Net, id: Id): set<Id>
    requires id in net
  {
    Targets(net - {id}, net[id].refs)
  }

  /** What deleting the VM removes beside the VM itself. */
  function Removed(net: Net, id: Id): set<Id>
    requires id in net
  {
    Gone(net - {id}, TargetsOf(net, id)) * (net - {id}).Keys
  }

  /** No record is removed by a mark, or by a reference to what is no NIC, that is linked to or
      owns a record that is left, or is linked or owned by one. */
  ghost predicate CleanDelete(net: Net, id: Id)
    requires id in net
  {
    forall a: Id, b: Id ::
      a in Removed(net, id) && !(a.NicId? && a in TargetsOf(net, id)) && b in net && b != id && b !in Removed(net, id) ==>
        !Tied(net, a, b) && !Tied(net, b, a)
  }

  lemma VmDeleteEffect(net: Net, id: Id)
    requires id in net
    ensures var t := VmDelete(net, id).0;
            && t.Keys == net.Keys - {id} - Removed(net, id)
            && forall x :: x in t ==> t[x] == Released(net - {id}, net[id].refs, TargetsOf(net, id), x)
  {
    ReleaseAllEffect(net - {id}, net[id].refs);
  }

  lemma CleanKeepsLinks(net: Net, id: Id)
    requires Consistent(net) && id.VmId? && id in net && CleanDelete(net, id)
    ensures LinksLive(VmDelete(net, id).0)
  {
    var t := VmDelete(net, id).0;
    VmDeleteEffect(net, id);
    forall p | p in t && p.PipId? && t[p].link.Some?
      ensures var l := t[p].link.value; l.nic.NicId? && l.nic in t && Names(t[l.nic].ipcs, l.ipc, p)
    {
      var l := net[p].link.value;
      assert LinkedTo(net[p], l.nic) && References(net[l.nic].ipcs, p);
      assert Tied(net, p, l.nic);
    }
  }

  lemma CleanKeepsReferences(net: Net, id: Id)
    requires Consistent(net) && id.VmId? && id in net && CleanDelete(net, id)
    ensures ReferencesOwned(VmDelete(net, id).0)
  {
    var t := VmDelete(net, id).0;
    VmDeleteEffect(net, id);
    forall n: Id, p: Id | n in t && n.NicId? && p.PipId? && References(t[n].ipcs, p)
      ensures p in t && t[p].link.Some? && t[p].link.value.nic == n
    {
      assert t[n].ipcs == net[n].ipcs;
      assert LinkedTo(net[p], n);
      assert Tied(net, p, n);
      assert n !in TargetsOf(net, id);
    }
  }

  lemma CleanKeepsOwners(net: Net, id: Id)
    requires Consistent(net) && id.VmId? && id in net && CleanDelete(net, id)
    ensures OwnersMatch(VmDelete(net, id).0)
  {
    var t := VmDelete(net, id).0;
    VmDeleteEffect(net, id);
    forall n | n in t && n.NicId? && t[n].vm.Some?
      ensures var v := t[n].vm.value; v.VmId? && v in t && Lists(t[v].refs, n)
    {
      assert Tied(net, n, t[n].vm.value) && t[n].vm.value != id;
    }
    forall v: Id, n: Id | v in t && v.VmId? && n.NicId? && Lists(t[v].refs, n)
      ensures n in t && t[n].vm == Some(v)
    {
      CleanKeepsListed(net, id, v, n);
    }
  }

  lemma CleanKeepsListed(net: Net, id: Id, v: Id, n: Id)
    requires Consistent(net) && id.VmId? && id in net && CleanDelete(net, id)
    requires v in VmDelete(net, id).0 && v.VmId? && n.NicId? && Lists(VmDelete(net, id).0[v].refs, n)
    ensures n in VmDelete(net, id).0 && VmDelete(net, id).0[n].vm == Some(v)
  {
    VmDeleteEffect(net, id);
    assert Lists(net[v].refs, n) && net[n].vm == Some(v) && Tied(net, n, v);
    TargetsListed(net - {id}, net[id].refs);
  }

  /** What is deleted by its own reference is listed. */
  lemma {:induction false} TargetsListed(net: Net, refs: seq<NicRef>)
    ensures forall x :: x in Targets(net, refs) ==> x in net && exists r :: r in refs && r.nic == x && r.deleteNic
    ensures forall x :: x in Targets(net, refs) ==> Lists(refs, x)
  {
    if refs != [] {
      var k := |refs| - 1;
      TargetsListed(net, refs[..k]);
      assert refs == refs[..k] + [refs[k]] && refs[k] in refs;
    }
  }

  lemma DeleteKeepsApart(net: Net, id: Id)
    requires IpsApart(net) && AddressesApart(net) && id in net
    ensures IpsApart(VmDelete(net, id).0) && AddressesApart(VmDelete(net, id).0)
  {
    VmDeleteEffect(net, id);
    FewerApart(net, VmDelete(net, id).0);
  }

  /** A tie between a removed record and one that is left breaks the graph. */
  lemma TornTie(net: Net, id: Id, a: Id, b: Id)
    requires Consistent(net) && id.VmId? && id in net
    requires a in Removed(net, id) && !(a.NicId? && a in TargetsOf(net, id)) && b in net && b != id && b !in Removed(net, id)
    requires Tied(net, a, b) || Tied(net, b, a)
    ensures !Consistent(VmDelete(net, id).0)
  {
    var t := VmDelete(net, id).0;
    VmDeleteEffect(net, id);
    assert a !in t && b in t && t[b].ipcs == net[b].ipcs && t[b].refs == net[b].refs;
    if Tied(net, a, b) {
      if a.PipId? {
        NamedIsReferenced(net[b].ipcs, net[a].link.value.ipc, a);
        assert References(t[b].ipcs, a);
      } else {
        assert Lists(t[b].refs, a);
      }
    } else if b.PipId? {
      assert t[b].link == net[b].link;
    } else {
      assert !Lists(net[id].refs, b);
      assert t[b].vm == Some(a);
    }
  }

  lemma NamedIsReferenced(ipcs: seq<IpConfig>, ipc: string, p: Id)
    requires Names(ipcs, ipc, p)
    ensures References(ipcs, p)
  {
  }

  /** Deleting a VM keeps the graph consistent exactly when it is clean. */
  lemma {:induction false} VmDeleteExactly(net: Net, id: Id)
    requires Consistent(net) && id.VmId? && id in net
    ensures Consistent(VmDelete(net, id).0) <==> CleanDelete(net, id)
  {
    if CleanDelete(net, id) {
      CleanKeepsLinks(net, id);
      CleanKeepsReferences(net, id);
      CleanKeepsOwners(net, id);
      DeleteKeepsApart(net, id);
    } else {
      var a: Id, b: Id :| a in Removed(net, id) && !(a.NicId? && a in TargetsOf(net, id)) && b in net && b != id && b !in Removed(net, id)
                          && (Tied(net, a, b) || Tied(net, b, a));
      TornTie(net, id, a, b);
    }
  }

  // ---------- every request ----------

  /** A VM delete is clean in the state it meets; other requests always are. */
  ghost predicate Clean(net: Net, r: Request) {
    r.DeleteVm? && VmId(r.name) in net ==> CleanDelete(net, VmId(r.name))
  }

  /** Every request keeps the graph consistent exactly when it is clean: every one but the
      delete of a VM does, whatever kind of record its payload names. */
  lemma {:induction false} StepConsistentExactly(net: Net, r: Request)
    requires Consistent(net)
    ensures Consistent(Step(net, r).0) <==> Clean(net, r)
  {
    if r.DeleteVm? {
      if VmId(r.name) in net {
        VmDeleteExactly(net, VmId(r.name));
      }
    } else {
      OthersConsistent(net, r);
    }
  }

  lemma NicRequestConsistent(net: Net, id: Id, configs: Option<seq<IpcArg>>, nsgFound: bool)
    requires Consistent(net) && id.NicId?
    ensures Consistent(NicPut(net, id, configs, nsgFound).0)
  {
    var args := ConfigsOf(net, id, configs);
    if args != [] && nsgFound && Build(net, id, args).Ok? {
      BuildSound(net, id, args);
      NicPutConsistent(net, id, Build(net, id, args).value);
    }
  }

  lemma NicDeleteConsistent(net: Net, id: Id)
    requires Consistent(net) && id.NicId?
    ensures Consistent(NicDelete(net, id).0)
  {
    if id in net && net[id].vm.None? {
      RemoveNicWired(net, id);
      RemoveNicOwners(net, id);
    }
  }

  lemma PipDeleteConsistent(net: Net, id: Id)
    requires Consistent(net) && id.PipId?
    ensures Consistent(PipDelete(net, id).0)
  {
    if id in net && net[id].link.None? {
      PipDeleteWired(net, id);
      PipDeleteOwners(net, id);
    }
  }

  lemma {:induction false} OthersConsistent(net: Net, r: Request)
    requires Consistent(net) && !r.DeleteVm?
    ensures Consistent(Step(net, r).0)
  {
    match r
    case PutNic(name, configs, nsgFound) => NicRequestConsistent(net, NicId(name), configs, nsgFound);
    case DeleteNic(name) => NicDeleteConsistent(net, NicId(name));
    case PutPip(name, accepted, candidates) => PipPutConsistent(net, PipId(name), accepted, candidates);
    case DeletePip(name) => PipDeleteConsistent(net, PipId(name));
    case PutVm(name, patch, refs, accepted) => VmPutConsistent(net, VmId(name), patch, refs, accepted);
    case PutOther(_, _) => SameConsistent(net, Step(net, r).0);
    case DeleteOther(_) => SameConsistent(net, Step(net, r).0);
    case PutRest(_, _) => SameConsistent(net, Step(net, r).0);
  }

  ghost predicate AllConsistent(rs: seq<Request>) {
    Consistent(Run(EMPTY, rs)) && (rs != [] ==> AllConsistent(rs[..|rs| - 1]))
  }

  ghost predicate AllClean(rs: seq<Request>) {
    rs != [] ==> AllClean(rs[..|rs| - 1]) && Clean(Run(EMPTY, rs[..|rs| - 1]), rs[|rs| - 1])
  }

  /** The graph is consistent throughout a run exactly when every VM delete of the run is
      clean in the state it meets. */
  lemma {:induction false} ConsistentThroughoutExactly(rs: seq<Request>)
    ensures AllConsistent(rs) <==> AllClean(rs)
  {
    if rs != [] {
      var k := |rs| - 1;
      ConsistentThroughoutExactly(rs[..k]);
      if AllConsistent(rs[..k]) {
        StepConsistentExactly(Run(EMPTY, rs[..k]), rs[k]);
      }
    }
  }

  // ---------- addresses over every run ----------

  /** No two NICs hold one private address, and no two public IPs one public address. */
  ghost predicate Apart(net: Net) {
    IpsApart(net) && AddressesApart(net)
  }

  lemma NicPutKeepsApart(net: Net, id: Id, configs: Option<seq<IpcArg>>, nsgFound: bool)
    requires Apart(net) && id.NicId?
    ensures Apart(NicPut(net, id, configs, nsgFound).0)
  {
    var args := ConfigsOf(net, id, configs);
    if args != [] && nsgFound && Build(net, id, args).Ok? {
      var ipcs := Build(net, id, args).value;
      BuildSound(net, id, args);
      WriteNicWrites(net, id, ipcs);
      NicPutApart(net, id, ipcs, WriteNic(net, id, ipcs));
      SamePublicApart(net, WriteNic(net, id, ipcs));
    }
  }

  lemma SamePublicApart(net: Net, t: Net)
    requires AddressesApart(net) && forall p :: p in t && p.PipId? ==> p in net && t[p].address == net[p].address
    ensures AddressesApart(t)
  {
  }

  lemma SamePrivateApart(net: Net, t: Net)
    requires IpsApart(net) && forall n :: n in t && n.NicId? ==> n in net && t[n].ipcs == net[n].ipcs
    ensures IpsApart(t)
  {
    assert forall n, ip :: n in t && n.NicId? && HasIp(t[n], ip) ==> HasIp(net[n], ip);
  }

  lemma PipPutKeepsApart(net: Net, id: Id, accepted: bool, candidates: seq<nat>)
    requires Apart(net) && id.PipId?
    ensures Apart(PipPut(net, id, accepted, candidates).0)
  {
    if accepted {
      PipPutApart(net, id, candidates);
      SamePrivateApart(net, PipPut(net, id, accepted, candidates).0);
    }
  }

  lemma SameApart(net: Net, t: Net)
    requires Apart(net)
    requires forall x :: x in t && (x.NicId? || x.PipId?) ==> x in net && t[x].ipcs == net[x].ipcs && t[x].address == net[x].address
    ensures Apart(t)
  {
    SamePrivateApart(net, t);
    SamePublicApart(net, t);
  }

  lemma RestKeepsApart(net: Net, id: Id, rest: Record)
    requires Apart(net)
    ensures Apart(RestPut(net, id, rest).0)
  {
    SamePrivateApart(net, RestPut(net, id, rest).0);
    SamePublicApart(net, RestPut(net, id, rest).0);
  }

  lemma {:induction false} StepKeepsApart(net: Net, r: Request)
    requires Apart(net)
    ensures Apart(Step(net, r).0)
  {
    match r
    case PutNic(name, configs, nsgFound) => NicPutKeepsApart(net, NicId(name), configs, nsgFound);
    case DeleteNic(name) =>
      if NicId(name) in net {
        RemoveNicEffect(net, NicId(name));
        FewerApart(net, RemoveNic(net, NicId(name)));
      }
    case PutPip(name, accepted, candidates) => PipPutKeepsApart(net, PipId(name), accepted, candidates);
    case DeletePip(_) => SameApart(net, Step(net, r).0);
    case PutVm(_, _, _, _) => SameApart(net, Step(net, r).0);
    case DeleteVm(name) =>
      if VmId(name) in net {
        DeleteKeepsApart(net, VmId(name));
      }
    case PutOther(_, _) => SameApart(net, Step(net, r).0);
    case DeleteOther(_) => SameApart(net, Step(net, r).0);
    case PutRest(id, rest) => RestKeepsApart(net, id, rest);
  }

  /** Over every run, whatever kinds of record its payloads name, no two NICs hold one private
      address and no two public IPs one public address. */
  lemma {:induction false} AlwaysApart(rs: seq<Request>)
    ensures IpsApart(Run(EMPTY, rs)) && AddressesApart(Run(EMPTY, rs))
  {
    if rs != [] {
      AlwaysApart(rs[..|rs| - 1]);
      StepKeepsApart(Run(EMPTY, rs[..|rs| - 1]), rs[|rs| - 1]);
    }
  }

  // ---------- references of the right kind ----------

  /** What is to be deleted with the VM is named as the NIC it is. */
  predicate RightRefs(refs: seq<NicRef>) {
    forall i :: 0 <= i < |refs| && refs[i].deleteNic ==> refs[i].nic.NicId?
  }

  /** What is to be deleted with the NIC is named as the public IP it is. */
  predicate RightMarks(ipcs: seq<IpConfig>) {
    forall i :: 0 <= i < |ipcs| && ipcs[i].deletePip && ipcs[i].pip.Some? ==> ipcs[i].pip.value.PipId?
  }

  predicate RightRequest(r: Request) {
    match r
    case PutNic(_, Some(args), _) =>
      forall i :: 0 <= i < |args| && args[i].deletePip && args[i].pip.Some? ==> args[i].pip.value.PipId?
    case PutVm(_, _, Some(refs), _) => RightRefs(refs)
    case _ => true
  }

  ghost predicate RightKinds(net: Net) {
    && (forall v :: v in net && v.VmId? ==> RightRefs(net[v].refs))
    && (forall n :: n in net && n.NicId? ==> RightMarks(net[n].ipcs))
  }

  /** Deleting a VM is clean when all it deletes is named as what it is. */
  lemma RightKindsClean(net: Net, id: Id)
    requires Consistent(net) && RightKinds(net) && id.VmId? && id in net
    ensures CleanDelete(net, id)
  {
    TargetsListed(net - {id}, net[id].refs);
    forall a: Id, b: Id | a in Removed(net, id) && !(a.NicId? && a in TargetsOf(net, id)) && b in net && b != id && b !in Removed(net, id)
      ensures !Tied(net, a, b) && !Tied(net, b, a)
    {
      var t: Id :| t in TargetsOf(net, id) && t in net && t.NicId? && a in Marked(net[t].ipcs);
      MarkedRight(net[t].ipcs, a);
    }
  }

  lemma MarkedRight(ipcs: seq<IpConfig>, p: Id)
    requires p in Marked(ipcs)
    ensures References(ipcs, p) && (RightMarks(ipcs) ==> p.PipId?)
  {
    var c :| c in ipcs && c.pip == Some(p) && c.deletePip;
    var i :| 0 <= i < |ipcs| && ipcs[i] == c;
  }

  lemma ResolveMarks(net: Net, id: Id, arg: IpcArg, n: nat)
    requires Resolve(net, id, arg, n).Ok?
    ensures Resolve(net, id, arg, n).value.pip == arg.pip && Resolve(net, id, arg, n).value.deletePip == arg.deletePip
  {
  }

  lemma {:induction false} BuildMarks(net: Net, id: Id, args: seq<IpcArg>)
    requires Build(net, id, args).Ok?
    ensures var ipcs := Build(net, id, args).value;
            |ipcs| == |args| && forall i :: 0 <= i < |ipcs| ==> ipcs[i].pip == args[i].pip && ipcs[i].deletePip == args[i].deletePip
  {
    if args != [] {
      var n := |args| - 1;
      BuildLast(net, id, args);
      BuildMarks(net, id, args[..n]);
      ResolveMarks(net, id, args[n], n);
    }
  }

  lemma {:induction false} StepKeepsKinds(net: Net, r: Request)
    requires RightKinds(net) && RightRequest(r)
    ensures RightKinds(Step(net, r).0)
  {
    match r
    case PutNic(name, configs, nsgFound) => NicPutKeepsKinds(net, NicId(name), configs, nsgFound);
    case DeleteNic(name) =>
      if NicId(name) in net {
        RemoveNicEffect(net, NicId(name));
      }
    case PutPip(_, _, _) =>
    case DeletePip(_) =>
    case PutVm(_, _, _, _) =>
    case DeleteVm(name) =>
      if VmId(name) in net {
        VmDeleteEffect(net, VmId(name));
      }
    case PutOther(_, _) =>
    case DeleteOther(_) =>
    case PutRest(_, _) =>
  }

  lemma NicPutKeepsKinds(net: Net, id: Id, configs: Option<seq<IpcArg>>, nsgFound: bool)
    requires RightKinds(net) && id.NicId? && RightRequest(PutNic(id.name, configs, nsgFound))
    ensures RightKinds(NicPut(net, id, configs, nsgFound).0)
  {
    var args := ConfigsOf(net, id, configs);
    if args != [] && nsgFound && Build(net, id, args).Ok? {
      var ipcs := Build(net, id, args).value;
      BuildMarks(net, id, args);
      WriteNicWrites(net, id, ipcs);
      WriteKeepsKinds(net, id, ipcs, WriteNic(net, id, ipcs));
    }
  }

  lemma WriteKeepsKinds(net: Net, id: Id, ipcs: seq<IpConfig>, t: Net)
    requires RightKinds(net) && id.NicId? && RightMarks(ipcs) && NicWritten(net, id, ipcs, t)
    ensures RightKinds(t)
  {
    assert forall x :: x in net && x != id ==> t[x].ipcs == net[x].ipcs && t[x].refs == net[x].refs;
  }

  /** Over any run whose VM writes mark for deletion only NICs, and whose NIC writes only
      public IPs, nothing ever has two owners or a dangling link, beside what holds anyway. */
  lemma {:induction false} AlwaysConsistent(rs: seq<Request>)
    requires forall i :: 0 <= i < |rs| ==> RightRequest(rs[i])
    ensures Consistent(Run(EMPTY, rs)) && RightKinds(Run(EMPTY, rs))
  {
    if rs != [] {
      var k := |rs| - 1;
      AlwaysConsistent(rs[..k]);
      var net := Run(EMPTY, rs[..k]);
      if rs[k].DeleteVm? && VmId(rs[k].name) in net {
        RightKindsClean(net, VmId(rs[k].name));
      }
      StepConsistentExactly(net, rs[k]);
      StepKeepsKinds(net, rs[k]);
    }
  }
}
