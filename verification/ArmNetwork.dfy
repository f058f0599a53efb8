/** The network resources of one Azure Resource Manager store as the program keeps
    them: one dictionary of records of all kinds, updated in place, one loop per cascade. */
module ArmNetwork {
  import opened Common
  import opened Ipv4
  import opened NetworkGraph
  import opened NetworkConsistency

  class Network {
    var state: map<Id, Record>

    constructor ()
      ensures state == EMPTY && Consistent(state)
    {
      state := map[];
    }

    method UsedPrivateIps(exclude: Id) returns (used: set<nat>)
      ensures used == UsedIps(state, exclude)
    {
      used := {};
      var rest := state.Keys;
      while rest != {}
        invariant rest <= state.Keys
        invariant used == UsedIps(state - rest, exclude)
        decreases rest
      {
        var n :| n in rest;
        ghost var before := state - rest;
        rest := rest - {n};
        assert state - rest == before[n := state[n]];
        if !n.NicId? || n == exclude {
          UsedIpsSkipped(before, n, state[n], exclude);
          continue;
        }
        var i := 0;
        while i < |state[n].ipcs|
          invariant 0 <= i <= |state[n].ipcs|
          invariant used == UsedIps(before, exclude) + set k | 0 <= k < i :: state[n].ipcs[k].ip
        {
          used := used + {state[n].ipcs[i].ip};
          i := i + 1;
        }
        UsedIpsOneMore(before, n, state[n], exclude);
      }
      assert state - {} == state;
    }

    static lemma UsedIpsOneMore(before: Net, n: Id, nic: Record, exclude: Id)
      requires n !in before && n.NicId? && n != exclude
      ensures UsedIps(before[n := nic], exclude) == UsedIps(before, exclude) + set k | 0 <= k < |nic.ipcs| :: nic.ipcs[k].ip
    {
      var after := before[n := nic];
      forall ip | ip in UsedIps(before, exclude)
        ensures ip in UsedIps(after, exclude)
      {
        var m, i :| m in before && m.NicId? && m != exclude && 0 <= i < |before[m].ipcs| && before[m].ipcs[i].ip == ip;
        assert after[m].ipcs[i].ip == ip;
      }
      forall k | 0 <= k < |nic.ipcs|
        ensures nic.ipcs[k].ip in UsedIps(after, exclude)
      {
        assert after[n].ipcs[k].ip == nic.ipcs[k].ip;
      }
    }

    static lemma UsedIpsSkipped(before: Net, n: Id, r: Record, exclude: Id)
      requires n !in before && (!n.NicId? || n == exclude)
      ensures UsedIps(before[n := r], exclude) == UsedIps(before, exclude)
    {
      var after := before[n := r];
      forall ip | ip in UsedIps(before, exclude)
        ensures ip in UsedIps(after, exclude)
      {
        var m, i :| m in before && m.NicId? && m != exclude && 0 <= i < |before[m].ipcs| && before[m].ipcs[i].ip == ip;
        assert after[m].ipcs[i].ip == ip;
      }
      forall ip | ip in UsedIps(after, exclude)
        ensures ip in UsedIps(before, exclude)
      {
        var m, i :| m in after && m.NicId? && m != exclude && 0 <= i < |after[m].ipcs| && after[m].ipcs[i].ip == ip;
        assert before[m].ipcs[i].ip == ip;
      }
    }

    /** Links every existing record the configurations reference to the NIC; the last reference wins. */
    method NicLink(id: Id, ipcs: seq<IpConfig>)
      modifies this
      ensures state == LinkAll(old(state), id, ipcs)
    {
      var i := 0;
      while i < |ipcs|
        invariant 0 <= i <= |ipcs|
        invariant state == LinkAll(old(state), id, ipcs[..i])
      {
        assert ipcs[..i + 1][..i] == ipcs[..i];
        var p := ipcs[i].pip;
        if p.Some? && p.value in state {
          state := state[p.value := state[p.value].(link := Some(Link(id, ipcs[i].name)))];
        }
        i := i + 1;
      }
      assert ipcs[..i] == ipcs;
    }

    method NicUnlink(id: Id, ipcs: seq<IpConfig>)
      modifies this
      ensures state == UnlinkAll(old(state), id, ipcs)
    {
      var i := 0;
      while i < |ipcs|
        invariant 0 <= i <= |ipcs|
        invariant state == UnlinkAll(old(state), id, ipcs[..i])
      {
        assert ipcs[..i + 1][..i] == ipcs[..i];
        var p := ipcs[i].pip;
        if p.Some? && p.value in state && state[p.value].link.Some? && state[p.value].link.value.nic == id {
          state := state[p.value := state[p.value].(link := None)];
        }
        i := i + 1;
      }
      assert ipcs[..i] == ipcs;
    }

    method PreviousIp(id: Id, name: string, subnet: SubnetId) returns (prev: Option<nat>)
      ensures prev == Previous(OldConfigs(state, id), name, subnet)
    {
      prev := None;
      if id !in state {
        return;
      }
      var ipcs := state[id].ipcs;
      var i := 0;
      while i < |ipcs|
        invariant 0 <= i <= |ipcs|
        invariant prev == Previous(ipcs[..i], name, subnet)
      {
        assert ipcs[..i + 1][..i] == ipcs[..i];
        if ipcs[i].name == name && ipcs[i].subnet == subnet {
          prev := Some(ipcs[i].ip);
        }
        i := i + 1;
      }
      assert ipcs[..i] == ipcs;
    }

    method ResolveConfig(id: Id, arg: IpcArg, n: nat) returns (r: Result<IpConfig>)
      ensures r == Resolve(state, id, arg, n)
    {
      if !HasSubnet(state, arg.subnet) || (arg.pip.Some? && arg.pip.value !in state) {
        return Err(InvalidReference);
      }
      if arg.pip.Some? {
        var other := state[arg.pip.value].link;
        if other.Some? && other.value.nic != id {
          return Err(PipInUse);
        }
      }
      var prefix := Block(state, arg.subnet);
      var ip: Option<nat>;
      var used := UsedPrivateIps(id);
      if arg.alloc.Static? {
        ip := arg.ip;
        if ip.None? || !Holds(prefix, ip.value) {
          return Err(NotInSubnet);
        }
        if ip.value in used {
          return Err(IpInUse);
        }
      } else {
        ip := PreviousIp(id, arg.name, arg.subnet);
        if ip.None? {
          ip := AllocPrivateIp(prefix, used);
        }
        if ip.None? {
          return Err(SubnetIsFull);
        }
      }
      var name := if arg.name == "" then "ipconfig" + Decimal(n + 1) else arg.name;
      r := Ok(IpConfig(name, arg.subnet, arg.pip, arg.deletePip, arg.alloc, ip.value));
    }

    method BuildConfigs(id: Id, args: seq<IpcArg>) returns (r: Result<seq<IpConfig>>)
      ensures r == Build(state, id, args)
    {
      var ipcs: seq<IpConfig>, n := [], 0;
      while n < |args|
        invariant 0 <= n <= |args|
        invariant Build(state, id, args[..n]) == Ok(ipcs)
      {
        var upto := args[..n + 1];
        assert upto != [] && |upto| - 1 == n && upto[..n] == args[..n] && upto[n] == args[n];
        var ipc := ResolveConfig(id, args[n], n);
        if ipc.Err? {
          BuildStops(state, id, args, n + 1, ipc.error);
          return Err(ipc.error);
        }
        ipcs := ipcs + [ipc.value];
        n := n + 1;
      }
      assert args[..n] == args;
      r := Ok(ipcs);
    }

    method PutNic(id: Id, configs: Option<seq<IpcArg>>, nsgFound: bool) returns (r: Reply)
      modifies this
      ensures (state, r) == NicPut(old(state), id, configs, nsgFound)
    {
      var args := ConfigsOf(state, id, configs);
      if args == [] {
        return Refused(NoConfigurations);
      }
      if !nsgFound {
        return Refused(InvalidReference);
      }
      var ipcs := BuildConfigs(id, args);
      if ipcs.Err? {
        return Refused(ipcs.error);
      }
      var existed := id in state;
      UnlinkAllEffect(state, id, OldConfigs(state, id));
      if existed {
        NicUnlink(id, state[id].ipcs);
      }
      state := state[id := RecordOf(state, id).(ipcs := ipcs.value)];
      NicLink(id, ipcs.value);
      r := if existed then Updated else Created;
    }

    /** The first configuration that is refused refuses the whole NIC. */
    static lemma BuildStops(net: Net, id: Id, args: seq<IpcArg>, n: nat, e: Error)
      requires n <= |args| && Build(net, id, args[..n]) == Err(e)
      ensures Build(net, id, args) == Err(e)
      decreases |args| - n
    {
      if n == |args| {
        assert args[..n] == args;
      } else {
        assert args[..n + 1][..n] == args[..n];
        BuildStops(net, id, args, n + 1, e);
      }
    }

    method DeleteNic(id: Id) returns (r: Reply)
      modifies this
      ensures (state, r) == NicDelete(old(state), id)
    {
      if id !in state {
        return NothingToDelete;
      }
      if state[id].vm.Some? {
        return Refused(NicInUse);
      }
      NicUnlink(id, state[id].ipcs);
      state := state - {id};
      r := Deleted;
    }

    method PutPip(id: Id, accepted: bool, candidates: seq<nat>) returns (r: Reply)
      modifies this
      ensures (state, r) == PipPut(old(state), id, accepted, candidates)
    {
      if !accepted {
        return Refused(InvalidRequest);
      }
      var existed := id in state;
      var pip := RecordOf(state, id);
      if pip.address.None? {
        var used := Addresses(state);
        var k := 0;
        while k < |candidates| && candidates[k] in used
          invariant 0 <= k <= |candidates|
          invariant FirstUnused(candidates, used) == FirstUnused(candidates[k..], used)
        {
          assert candidates[k..][1..] == candidates[k + 1..];
          k := k + 1;
        }
        pip := pip.(address := if k < |candidates| then Some(candidates[k]) else None);
      }
      state := state[id := pip];
      r := if existed then Updated else Created;
    }

    method DeletePip(id: Id) returns (r: Reply)
      modifies this
      ensures (state, r) == PipDelete(old(state), id)
    {
      if id !in state {
        return NothingToDelete;
      }
      if state[id].link.Some? {
        return Refused(PipInUse);
      }
      state := state - {id};
      r := Deleted;
    }

    method ValidateVm(id: Id, refs: seq<NicRef>) returns (problem: Option<Error>)
      ensures problem == RefsProblem(state, id, refs)
    {
      var i := 0;
      while i < |refs|
        invariant 0 <= i <= |refs|
        invariant RefsProblem(state, id, refs) == RefsProblem(state, id, refs[i..])
      {
        assert refs[i..][1..] == refs[i + 1..];
        if refs[i].nic !in state {
          return Some(InvalidReference);
        }
        var owner := state[refs[i].nic].vm;
        if owner.Some? && owner.value != id {
          return Some(NicInUse);
        }
        i := i + 1;
      }
      problem := None;
    }

    /** Goes through every NIC once, in any order. */
    method AfterVmUpsert(id: Id, refs: seq<NicRef>)
      modifies this
      ensures state == Attach(old(state), id, refs)
    {
      var rest := state.Keys;
      while rest != {}
        invariant rest <= state.Keys == old(state).Keys
        invariant forall n :: n in state ==> state[n] == if n in rest then old(state)[n] else Attach(old(state), id, refs)[n]
        decreases rest
      {
        var n :| n in rest;
        rest := rest - {n};
        if n.NicId? && Lists(refs, n) {
          state := state[n := state[n].(vm := Some(id))];
        } else if n.NicId? && state[n].vm == Some(id) {
          state := state[n := state[n].(vm := None)];
        }
      }
    }

    method PutVm(id: Id, patch: bool, refs: Option<seq<NicRef>>, accepted: bool) returns (r: Reply)
      modifies this
      ensures (state, r) == VmPut(old(state), id, patch, refs, accepted)
    {
      var problem := ValidateVm(id, if refs.Some? then refs.value else []);
      if problem.Some? {
        return Refused(problem.value);
      }
      if !accepted {
        return Refused(InvalidRequest);
      }
      var existed := id in state;
      var vm := if patch then RecordOf(state, id) else BLANK;
      if refs.Some? {
        vm := vm.(refs := refs.value);
      }
      state := state[id := vm];
      AfterVmUpsert(id, vm.refs);
      r := if existed then Updated else Created;
    }

    /** The VM's cascade: frees or deletes each record it lists, with what its configurations mark. */
    method DeleteVm(id: Id) returns (r: Reply)
      modifies this
      ensures (state, r) == VmDelete(old(state), id)
    {
      if id !in state {
        return NothingToDelete;
      }
      var refs := state[id].refs;
      state := state - {id};
      ghost var start := state;
      var i := 0;
      while i < |refs|
        invariant 0 <= i <= |refs|
        invariant state == ReleaseAll(start, refs[..i])
      {
        assert refs[..i + 1][..i] == refs[..i];
        ReleaseOne(refs[i]);
        i := i + 1;
      }
      assert refs[..i] == refs;
      r := Deleted;
    }

    method ReleaseOne(ref: NicRef)
      modifies this
      ensures state == Release(old(state), ref)
    {
      if ref.nic !in state {
        return;
      }
      state := state[ref.nic := state[ref.nic].(vm := None)];
      if ref.deleteNic {
        var ipcs := state[ref.nic].ipcs;
        NicUnlink(ref.nic, ipcs);
        state := state - {ref.nic};
        DeleteMarked(ipcs);
      }
    }

    method DeleteMarked(ipcs: seq<IpConfig>)
      modifies this
      ensures state == old(state) - Marked(ipcs)
    {
      var i := 0;
      while i < |ipcs|
        invariant 0 <= i <= |ipcs|
        invariant state == old(state) - Marked(ipcs[..i])
      {
        MarkedSnoc(ipcs[..i], ipcs[i]);
        assert ipcs[..i + 1] == ipcs[..i] + [ipcs[i]];
        if ipcs[i].pip.Some? && ipcs[i].deletePip {
          state := state - {ipcs[i].pip.value};
        }
        i := i + 1;
      }
      assert ipcs[..i] == ipcs;
    }

    static lemma MarkedSnoc(init: seq<IpConfig>, last: IpConfig)
      ensures Marked(init + [last]) == Marked(init) + if last.pip.Some? && last.deletePip then {last.pip.value} else {}
    {
      assert forall c :: c in init + [last] <==> c in init || c == last;
    }

    method PutOtherRecord(id: Id, record: Record) returns (r: Reply)
      modifies this
      ensures state == old(state)[id := record] && r == if id in old(state) then Updated else Created
    {
      r := if id in state then Updated else Created;
      state := state[id := record];
    }

    method DeleteOtherRecord(id: Id) returns (r: Reply)
      modifies this
      ensures (state, r) == OtherDelete(old(state), id)
    {
      if id !in state {
        return NothingToDelete;
      }
      state := state - {id};
      r := Deleted;
    }

    method PutRestOf(id: Id, rest: Record) returns (r: Reply)
      modifies this
      ensures (state, r) == RestPut(old(state), id, rest)
    {
      if id !in state {
        return Refused(InvalidRequest);
      }
      state := state[id := WithRest(id, state[id], rest)];
      r := Updated;
    }

    method Dispatch(q: Request) returns (r: Reply)
      modifies this
      ensures (state, r) == Step(old(state), q)
    {
      match q
      case PutNic(name, configs, nsgFound) => r := PutNic(NicId(name), configs, nsgFound);
      case DeleteNic(name) => r := DeleteNic(NicId(name));
      case PutPip(name, accepted, candidates) => r := PutPip(PipId(name), accepted, candidates);
      case DeletePip(name) => r := DeletePip(PipId(name));
      case PutVm(name, patch, refs, accepted) => r := PutVm(VmId(name), patch, refs, accepted);
      case DeleteVm(name) => r := DeleteVm(VmId(name));
      case PutOther(name, record) => r := PutOtherRecord(OtherId(name), record);
      case DeleteOther(name) => r := DeleteOtherRecord(OtherId(name));
      case PutRest(id, rest) => r := PutRestOf(id, rest);
    }

    /** Every request keeps the graph consistent if and only if it is clean. */
    method Handle(q: Request) returns (r: Reply)
      requires Consistent(state)
      modifies this
      ensures Consistent(state) <==> old(Clean(state, q))
      ensures (state, r) == Step(old(state), q)
    {
      StepConsistentExactly(state, q);
      r := Dispatch(q);
    }
  }
}
