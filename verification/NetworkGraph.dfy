/** Network interfaces, public IP addresses and virtual machines that point at each
    other from both ends, as a state machine over values. All records are in one store,
    and a reference may name a record of any kind. Resource ids are taken lower-cased;
    the id of an IP configuration is the pair of its NIC and its name. */
module NetworkGraph {
  import opened Common
  import opened Ipv4

  // ---------- entities ----------

  /** A resource id, which says what kind of record it names. */
  datatype Id = NicId(name: string) | PipId(name: string) | VmId(name: string) | OtherId(name: string)

  datatype SubnetId = SubnetId(vnet: Id, name: string)

  datatype Method = Static | Dynamic

  datatype IpConfig = IpConfig(name: string, subnet: SubnetId, pip: Option<Id>, deletePip: bool, alloc: Method, ip: nat)

  datatype Link = Link(nic: Id, ipc: string)

  datatype NicRef = NicRef(nic: Id, deleteNic: bool)

  /** The properties of a record that some request reads, whatever its kind: `ipcs` and `vm`
      are kept for NICs, `link` and `address` for public IPs, `refs` for VMs, `subnets` for
      virtual networks, but a payload or a stray reference can set them elsewhere. */
  datatype Record = Record(ipcs: seq<IpConfig>, vm: Option<Id>, link: Option<Link>, address: Option<nat>, refs: seq<NicRef>,
                           subnets: map<string, Prefix>)

  type Net = map<Id, Record>

  const BLANK := Record([], None, None, None, [], map[])

  const EMPTY: Net := map[]

  /** One entry of a NIC payload; an empty name asks for a default one. */
  datatype IpcArg = IpcArg(name: string, subnet: SubnetId, pip: Option<Id>, deletePip: bool, alloc: Method, ip: Option<nat>)

  datatype Error = NoConfigurations | InvalidReference | PipInUse | NotInSubnet | IpInUse | SubnetIsFull
                 | NicInUse | InvalidRequest

  datatype Result<T> = Ok(value: T) | Err(error: Error)

  datatype Reply = Created | Updated | Deleted | NothingToDelete | Refused(error: Error)

  /** `PutOther` stands for every write of another kind of record, a virtual network for one,
      and `PutRest` for what the payload of any write adds beside the fields of the record's kind. */
  datatype Request =
    | PutNic(name: string, configs: Option<seq<IpcArg>>, nsgFound: bool)
    | DeleteNic(name: string)
    | PutPip(name: string, accepted: bool, candidates: seq<nat>)
    | DeletePip(name: string)
    | PutVm(name: string, patch: bool, refs: Option<seq<NicRef>>, accepted: bool)
    | DeleteVm(name: string)
    | PutOther(name: string, record: Record)
    | DeleteOther(name: string)
    | PutRest(id: Id, rest: Record)

  // ---------- private addresses ----------

  /** The private addresses of every NIC but `exclude`. */
  function UsedIps(net: Net, exclude: Id): set<nat> {
    set n, i | n in net && n.NicId? && n != exclude && 0 <= i < |net[n].ipcs| :: net[n].ipcs[i].ip
  }

  /** The address that the last old configuration of this name and subnet had. */
  function Previous(ipcs: seq<IpConfig>, name: string, subnet: SubnetId): Option<nat> {
    if ipcs == [] then None
    else
      var last := ipcs[|ipcs| - 1];
      if last.name == name && last.subnet == subnet then Some(last.ip)
      else Previous(ipcs[..|ipcs| - 1], name, subnet)
  }

  function OldConfigs(net: Net, id: Id): seq<IpConfig> {
    if id in net then net[id].ipcs else []
  }

  predicate HasSubnet(net: Net, s: SubnetId) {
    s.vnet in net && s.name in net[s.vnet].subnets
  }

  function Block(net: Net, s: SubnetId): Prefix
    requires HasSubnet(net, s)
  {
    net[s.vnet].subnets[s.name]
  }

  function PrivateIp(net: Net, id: Id, arg: IpcArg): Result<nat>
    requires HasSubnet(net, arg.subnet)
  {
    var prefix := Block(net, arg.subnet);
    if arg.alloc.Static? then
      if arg.ip.None? || !Holds(prefix, arg.ip.value) then Err(NotInSubnet)
      else if arg.ip.value in UsedIps(net, id) then Err(IpInUse)
      else Ok(arg.ip.value)
    else
      match Previous(OldConfigs(net, id), arg.name, arg.subnet)
      case Some(ip) => Ok(ip)
      case None =>
        match Allocate(prefix, UsedIps(net, id))
        case Some(ip) => Ok(ip)
        case None => Err(SubnetIsFull)
  }

  /** What is named as a public IP has to be there and not linked to another NIC; its kind is not asked. */
  function Resolve(net: Net, id: Id, arg: IpcArg, n: nat): Result<IpConfig> {
    if !HasSubnet(net, arg.subnet) then Err(InvalidReference)
    else if arg.pip.Some? && arg.pip.value !in net then Err(InvalidReference)
    else if arg.pip.Some? && net[arg.pip.value].link.Some? && net[arg.pip.value].link.value.nic != id then Err(PipInUse)
    else
      match PrivateIp(net, id, arg)
      case Err(e) => Err(e)
      case Ok(ip) =>
        var name := if arg.name == "" then "ipconfig" + Decimal(n + 1) else arg.name;
        Ok(IpConfig(name, arg.subnet, arg.pip, arg.deletePip, arg.alloc, ip))
  }

  /** The configurations of a NIC payload, all checked against the state before the write. */
  function Build(net: Net, id: Id, args: seq<IpcArg>): Result<seq<IpConfig>> {
    if args == [] then Ok([])
    else
      var n := |args| - 1;
      match Build(net, id, args[..n])
      case Err(e) => Err(e)
      case Ok(ipcs) =>
        match Resolve(net, id, args[n], n)
        case Err(e) => Err(e)
        case Ok(ipc) => Ok(ipcs + [ipc])
  }

  // ---------- links ----------

  function SetLink(net: Net, p: Id, link: Option<Link>): Net {
    if p in net then net[p := net[p].(link := link)] else net
  }

  function LinkAll(net: Net, nic: Id, ipcs: seq<IpConfig>): Net {
    if ipcs == [] then net
    else
      var before := LinkAll(net, nic, ipcs[..|ipcs| - 1]);
      var last := ipcs[|ipcs| - 1];
      if last.pip.Some? then SetLink(before, last.pip.value, Some(Link(nic, last.name))) else before
  }

  function UnlinkAll(net: Net, nic: Id, ipcs: seq<IpConfig>): Net {
    if ipcs == [] then net
    else
      var before := UnlinkAll(net, nic, ipcs[..|ipcs| - 1]);
      var p := ipcs[|ipcs| - 1].pip;
      if p.Some? && p.value in before && before[p.value].link.Some? && before[p.value].link.value.nic == nic
      then SetLink(before, p.value, None) else before
  }

  // ---------- requests ----------

  function ConfigsOf(net: Net, id: Id, configs: Option<seq<IpcArg>>): seq<IpcArg> {
    if configs.Some? then configs.value
    else
      var ipcs := OldConfigs(net, id);
      seq(|ipcs|, i requires 0 <= i < |ipcs| =>
        IpcArg(ipcs[i].name, ipcs[i].subnet, ipcs[i].pip, ipcs[i].deletePip, ipcs[i].alloc, Some(ipcs[i].ip)))
  }

  function RecordOf(net: Net, id: Id): Record {
    if id in net then net[id] else BLANK
  }

  function WriteNic(net: Net, id: Id, ipcs: seq<IpConfig>): Net {
    var mid := UnlinkAll(net, id, OldConfigs(net, id));
    LinkAll(mid[id := RecordOf(mid, id).(ipcs := ipcs)], id, ipcs)
  }

  function NicPut(net: Net, id: Id, configs: Option<seq<IpcArg>>, nsgFound: bool): (Net, Reply) {
    var args := ConfigsOf(net, id, configs);
    if args == [] then (net, Refused(NoConfigurations))
    else if !nsgFound then (net, Refused(InvalidReference))
    else
      match Build(net, id, args)
      case Err(e) => (net, Refused(e))
      case Ok(ipcs) => (WriteNic(net, id, ipcs), if id in net then Updated else Created)
  }

  function RemoveNic(net: Net, id: Id): Net
    requires id in net
  {
    UnlinkAll(net, id, net[id].ipcs) - {id}
  }

  function NicDelete(net: Net, id: Id): (Net, Reply) {
    if id !in net then (net, NothingToDelete)
    else if net[id].vm.Some? then (net, Refused(NicInUse))
    else (RemoveNic(net, id), Deleted)
  }

  function Addresses(net: Net): set<nat> {
    set p | p in net && p.PipId? && net[p].address.Some? :: net[p].address.value
  }

  function FirstUnused(candidates: seq<nat>, used: set<nat>): Option<nat> {
    if candidates == [] then None
    else if candidates[0] !in used then Some(candidates[0])
    else FirstUnused(candidates[1..], used)
  }

  function PipPut(net: Net, id: Id, accepted: bool, candidates: seq<nat>): (Net, Reply) {
    if !accepted then (net, Refused(InvalidRequest))
    else
      var cur := RecordOf(net, id);
      var pip := if cur.address.Some? then cur else cur.(address := FirstUnused(candidates, Addresses(net)));
      (net[id := pip], if id in net then Updated else Created)
  }

  function PipDelete(net: Net, id: Id): (Net, Reply) {
    if id !in net then (net, NothingToDelete)
    else if net[id].link.Some? then (net, Refused(PipInUse))
    else (net - {id}, Deleted)
  }

  /** The first reason a VM's references are refused: what is named has to be there and not
      another VM's; its kind is not asked. */
  function RefsProblem(net: Net, vm: Id, refs: seq<NicRef>): Option<Error> {
    if refs == [] then None
    else if refs[0].nic !in net then Some(InvalidReference)
    else if net[refs[0].nic].vm.Some? && net[refs[0].nic].vm.value != vm then Some(NicInUse)
    else RefsProblem(net, vm, refs[1..])
  }

  predicate Lists(refs: seq<NicRef>, nic: Id) {
    exists r :: r in refs && r.nic == nic
  }

  /** Hands each listed NIC to the VM and takes back the NICs it no longer lists. */
  function Attach(net: Net, vm: Id, refs: seq<NicRef>): Net {
    map n | n in net ::
      if !n.NicId? then net[n]
      else if Lists(refs, n) then net[n].(vm := Some(vm))
      else if net[n].vm == Some(vm) then net[n].(vm := None)
      else net[n]
  }

  function VmPut(net: Net, id: Id, patch: bool, refs: Option<seq<NicRef>>, accepted: bool): (Net, Reply) {
    var problem := RefsProblem(net, id, if refs.Some? then refs.value else []);
    if problem.Some? then (net, Refused(problem.value))
    else if !accepted then (net, Refused(InvalidRequest))
    else
      var cur := if patch then RecordOf(net, id) else BLANK;
      var stored := if refs.Some? then refs.value else cur.refs;
      (Attach(net[id := cur.(refs := stored)], id, stored), if id in net then Updated else Created)
  }

  /** The records the configurations mark for deletion, as public IPs or not. */
  function Marked(ipcs: seq<IpConfig>): set<Id> {
    set c | c in ipcs && c.pip.Some? && c.deletePip :: c.pip.value
  }

  /** What deleting a VM does to one record it references. */
  function Release(net: Net, r: NicRef): Net {
    if r.nic !in net then net
    else
      var freed := net[r.nic := net[r.nic].(vm := None)];
      if !r.deleteNic then freed else RemoveNic(freed, r.nic) - Marked(net[r.nic].ipcs)
  }

  function ReleaseAll(net: Net, refs: seq<NicRef>): Net {
    if refs == [] then net else Release(ReleaseAll(net, refs[..|refs| - 1]), refs[|refs| - 1])
  }

  function VmDelete(net: Net, id: Id): (Net, Reply) {
    if id !in net then (net, NothingToDelete)
    else (ReleaseAll(net - {id}, net[id].refs), Deleted)
  }

  /** The fields of a record's own kind stay, the rest is given. */
  function WithRest(id: Id, r: Record, rest: Record): Record {
    match id
    case NicId(_) => rest.(ipcs := r.ipcs, vm := r.vm)
    case PipId(_) => rest.(link := r.link, address := r.address)
    case VmId(_) => rest.(refs := r.refs)
    case OtherId(_) => rest
  }

  function RestPut(net: Net, id: Id, rest: Record): (Net, Reply) {
    if id !in net then (net, Refused(InvalidRequest))
    else (net[id := WithRest(id, net[id], rest)], Updated)
  }

  function OtherDelete(net: Net, id: Id): (Net, Reply) {
    if id !in net then (net, NothingToDelete) else (net - {id}, Deleted)
  }

  function Step(net: Net, r: Request): (Net, Reply) {
    match r
    case PutNic(name, configs, nsgFound) => NicPut(net, NicId(name), configs, nsgFound)
    case DeleteNic(name) => NicDelete(net, NicId(name))
    case PutPip(name, accepted, candidates) => PipPut(net, PipId(name), accepted, candidates)
    case DeletePip(name) => PipDelete(net, PipId(name))
    case PutVm(name, patch, refs, accepted) => VmPut(net, VmId(name), patch, refs, accepted)
    case DeleteVm(name) => VmDelete(net, VmId(name))
    case PutOther(name, record) => (net[OtherId(name) := record], if OtherId(name) in net then Updated else Created)
    case DeleteOther(name) => OtherDelete(net, OtherId(name))
    case PutRest(id, rest) => RestPut(net, id, rest)
  }

  function Run(net: Net, rs: seq<Request>): Net {
    if rs == [] then net else Step(Run(net, rs[..|rs| - 1]), rs[|rs| - 1]).0
  }

  // ---------- consistency ----------

  predicate References(ipcs: seq<IpConfig>, p: Id) {
    exists i :: 0 <= i < |ipcs| && ipcs[i].pip == Some(p)
  }

  predicate Names(ipcs: seq<IpConfig>, ipc: string, p: Id) {
    exists i :: 0 <= i < |ipcs| && ipcs[i].pip == Some(p) && ipcs[i].name == ipc
  }

  /** A linked public IP names a live configuration that references it. */
  ghost predicate LinksLive(net: Net) {
    forall p :: p in net && p.PipId? && net[p].link.Some? ==>
      var l := net[p].link.value; l.nic.NicId? && l.nic in net && Names(net[l.nic].ipcs, l.ipc, p)
  }

  /** A public IP that a NIC references exists and is linked to that NIC. */
  ghost predicate ReferencesOwned(net: Net) {
    forall n: Id, p: Id :: n in net && n.NicId? && p.PipId? && References(net[n].ipcs, p) ==>
      p in net && net[p].link.Some? && net[p].link.value.nic == n
  }

  /** A NIC belongs to VM v exactly when v lists it. */
  ghost predicate OwnersMatch(net: Net) {
    && (forall n :: n in net && n.NicId? && net[n].vm.Some? ==>
          var v := net[n].vm.value; v.VmId? && v in net && Lists(net[v].refs, n))
    && (forall v: Id, n: Id :: v in net && v.VmId? && n.NicId? && Lists(net[v].refs, n) ==> n in net && net[n].vm == Some(v))
  }

  predicate HasIp(nic: Record, ip: nat) {
    exists i :: 0 <= i < |nic.ipcs| && nic.ipcs[i].ip == ip
  }

  ghost predicate IpsApart(net: Net) {
    forall m, n, ip :: m in net && n in net && m.NicId? && n.NicId? && HasIp(net[m], ip) && HasIp(net[n], ip) ==> m == n
  }

  ghost predicate AddressesApart(net: Net) {
    forall p, q :: p in net && q in net && p.PipId? && q.PipId? && net[p].address.Some? && net[p].address == net[q].address ==> p == q
  }

  ghost predicate Wired(net: Net) {
    LinksLive(net) && ReferencesOwned(net) && IpsApart(net) && AddressesApart(net)
  }

  ghost predicate Consistent(net: Net) {
    Wired(net) && OwnersMatch(net)
  }

  // ---------- what linking and unlinking do ----------

  /** Nothing but links differs. */
  ghost predicate OnlyLinks(before: Net, after: Net) {
    before.Keys == after.Keys && forall p :: p in before ==> after[p] == before[p].(link := after[p].link)
  }

  /** Referenced records are linked to the NIC, other links stay. */
  ghost predicate Linked(before: Net, after: Net, nic: Id, ipcs: seq<IpConfig>) {
    && OnlyLinks(before, after)
    && forall p :: p in before ==>
         if References(ipcs, p) then after[p].link.Some? && after[p].link.value.nic == nic && Names(ipcs, after[p].link.value.ipc, p)
         else after[p].link == before[p].link
  }

  lemma {:induction false} LinkAllEffect(net: Net, nic: Id, ipcs: seq<IpConfig>)
    ensures Linked(net, LinkAll(net, nic, ipcs), nic, ipcs)
  {
    if ipcs != [] {
      var n := |ipcs| - 1;
      LinkAllEffect(net, nic, ipcs[..n]);
      LinkedSnoc(net, LinkAll(net, nic, ipcs[..n]), nic, ipcs);
    }
  }

  lemma LinkedSnoc(net: Net, mid: Net, nic: Id, ipcs: seq<IpConfig>)
    requires ipcs != [] && Linked(net, mid, nic, ipcs[..|ipcs| - 1])
    ensures var last := ipcs[|ipcs| - 1];
            Linked(net, if last.pip.Some? then SetLink(mid, last.pip.value, Some(Link(nic, last.name))) else mid, nic, ipcs)
  {
    var n := |ipcs| - 1;
    var init, last := ipcs[..n], ipcs[n];
    var r := if last.pip.Some? then SetLink(mid, last.pip.value, Some(Link(nic, last.name))) else mid;
    forall p | p in net
      ensures if References(ipcs, p) then r[p].link.Some? && r[p].link.value.nic == nic && Names(ipcs, r[p].link.value.ipc, p)
              else r[p].link == net[p].link
    {
      ReferencesInit(ipcs, p);
      if last.pip == Some(p) {
        assert Names(ipcs, last.name, p);
      } else if References(init, p) {
        var i :| 0 <= i < n && init[i].pip == Some(p) && init[i].name == r[p].link.value.ipc;
        assert ipcs[i] == init[i];
      }
    }
  }

  lemma ReferencesInit(ipcs: seq<IpConfig>, p: Id)
    requires ipcs != []
    ensures References(ipcs, p) <==> ipcs[|ipcs| - 1].pip == Some(p) || References(ipcs[..|ipcs| - 1], p)
  {
    var n := |ipcs| - 1;
    if References(ipcs[..n], p) {
      var i :| 0 <= i < n && ipcs[..n][i].pip == Some(p);
      assert ipcs[i].pip == Some(p);
    }
    if References(ipcs, p) && ipcs[n].pip != Some(p) {
      var i :| 0 <= i < |ipcs| && ipcs[i].pip == Some(p);
      assert ipcs[..n][i].pip == Some(p);
    }
  }

  /** The record's link names this NIC. */
  predicate LinkedTo(r: Record, nic: Id) {
    r.link.Some? && r.link.value.nic == nic
  }

  /** Links of referenced records to the NIC are gone, other links stay. */
  ghost predicate Unlinked(before: Net, after: Net, nic: Id, ipcs: seq<IpConfig>) {
    && OnlyLinks(before, after)
    && forall p :: p in before ==> after[p].link == if References(ipcs, p) && LinkedTo(before[p], nic) then None else before[p].link
  }

  lemma {:induction false} UnlinkAllEffect(net: Net, nic: Id, ipcs: seq<IpConfig>)
    ensures Unlinked(net, UnlinkAll(net, nic, ipcs), nic, ipcs)
  {
    if ipcs != [] {
      UnlinkAllEffect(net, nic, ipcs[..|ipcs| - 1]);
      forall p {
        ReferencesInit(ipcs, p);
      }
    }
  }

  /** In a wired graph, unlinking a NIC leaves no public IP linked to it and no other link changed. */
  lemma {:induction false} UnlinkClears(net: Net, id: Id)
    requires Wired(net) && id.NicId?
    ensures Cleared(net, UnlinkAll(net, id, OldConfigs(net, id)), id)
  {
    UnlinkAllEffect(net, id, OldConfigs(net, id));
    forall p | p in net && p.PipId? && LinkedTo(net[p], id)
      ensures References(OldConfigs(net, id), p)
    {
      var ipcs := net[id].ipcs;
      var i :| 0 <= i < |ipcs| && ipcs[i].pip == Some(p) && ipcs[i].name == net[p].link.value.ipc;
    }
  }

  ghost predicate Cleared(before: Net, after: Net, nic: Id) {
    && OnlyLinks(before, after)
    && forall p :: p in before && p.PipId? ==> after[p].link == if LinkedTo(before[p], nic) then None else before[p].link
  }

  // ---------- what building a NIC guarantees ----------

  lemma {:induction false} PreviousIsOwn(ipcs: seq<IpConfig>, name: string, subnet: SubnetId)
    ensures Previous(ipcs, name, subnet).Some? ==> exists i :: 0 <= i < |ipcs| && ipcs[i].ip == Previous(ipcs, name, subnet).value
  {
    if ipcs != [] {
      PreviousIsOwn(ipcs[..|ipcs| - 1], name, subnet);
    }
  }

  lemma UsedIpsMeaning(net: Net, exclude: Id, ip: nat)
    ensures ip in UsedIps(net, exclude) <==> exists n :: n in net && n.NicId? && n != exclude && HasIp(net[n], ip)
  {
    if n :| n in net && n.NicId? && n != exclude && HasIp(net[n], ip) {
      var i :| 0 <= i < |net[n].ipcs| && net[n].ipcs[i].ip == ip;
      assert net[n].ipcs[i].ip in UsedIps(net, exclude);
    }
  }

  predicate FreeFor(net: Net, p: Id, nic: Id) {
    p in net && (net[p].link.None? || net[p].link.value.nic == nic)
  }

  ghost predicate Sound(net: Net, id: Id, ipc: IpConfig) {
    && ipc.ip !in UsedIps(net, id)
    && (ipc.pip.None? || FreeFor(net, ipc.pip.value, id))
  }

  lemma BuildLast(net: Net, id: Id, args: seq<IpcArg>)
    requires args != [] && Build(net, id, args).Ok?
    ensures var n := |args| - 1;
            && Build(net, id, args[..n]).Ok? && Resolve(net, id, args[n], n).Ok?
            && Build(net, id, args).value == Build(net, id, args[..n]).value + [Resolve(net, id, args[n], n).value]
  {
  }

  lemma {:induction false} ResolveSound(net: Net, id: Id, arg: IpcArg, n: nat)
    requires IpsApart(net) && id.NicId? && Resolve(net, id, arg, n).Ok?
    ensures Sound(net, id, Resolve(net, id, arg, n).value)
  {
    var ip := Resolve(net, id, arg, n).value.ip;
    if arg.alloc.Dynamic? {
      var ipcs := OldConfigs(net, id);
      PreviousIsOwn(ipcs, arg.name, arg.subnet);
      AllocateIsLeast(Block(net, arg.subnet), UsedIps(net, id));
      if Previous(ipcs, arg.name, arg.subnet).Some? {
        assert HasIp(net[id], ip);
        UsedIpsMeaning(net, id, ip);
      }
    }
  }

  lemma {:induction false} BuildSound(net: Net, id: Id, args: seq<IpcArg>)
    requires IpsApart(net) && id.NicId? && Build(net, id, args).Ok?
    ensures var ipcs := Build(net, id, args).value;
            |ipcs| == |args| && forall i :: 0 <= i < |ipcs| ==> Sound(net, id, ipcs[i])
  {
    if args != [] {
      var n := |args| - 1;
      BuildLast(net, id, args);
      BuildSound(net, id, args[..n]);
      ResolveSound(net, id, args[n], n);
    }
  }
}
