/** The network ACLs of a VPC model: which ACL each subnet is associated with, the
    rule entries of each ACL, and the console's edits of both. */
module NetworkAcls {
  import opened Common
  import opened Dicts

  // ---------- entities ----------

  datatype Entry = Entry(number: int, protocol: string, allow: bool, egress: bool, cidr: string, fromPort: Option<int>, toPort: Option<int>)

  datatype Acl = Acl(vpc: string, isDefault: bool, subnets: seq<string>, entries: seq<Entry>)

  /** `pointer` is the subnet's own ACL field, which only the core model keeps. */
  datatype Subnet = Subnet(vpc: string, pointer: Option<string>)

  datatype Net = Net(core: bool, vpcs: set<string>, subnets: map<string, Subnet>, subnetOrder: seq<string>,
                     acls: map<string, Acl>, order: seq<string>)

  datatype Action =
    | Describe
    | Create(newId: string)
    | DeleteAcl(id: string)
    | AddEntry(id: string, entry: Entry)
    | DeleteEntry(id: string, number: int, egress: bool)
    | Associate(id: string, subnet: string)

  /** Console edits of one VPC, and the changes around them. `defaultId` names the
      default ACL if the request has to create it. */
  datatype Request =
    | Edit(vpc: string, action: Action, defaultId: string)
    | AddVpc(vpc: string)
    | AddSubnet(subnet: string, vpc: string)
    | RemoveSubnet(subnet: string)

  datatype Reply = Done | NotFound | Refused

  function Empty(core: bool): Net {
    Net(core, {}, map[], [], map[], [])
  }

  // ---------- the default ACL ----------

  function SubnetsOf(net: Net, order: seq<string>, vpc: string): seq<string> {
    if order == [] then []
    else
      var s := order[|order| - 1];
      SubnetsOf(net, order[..|order| - 1], vpc) + if s in net.subnets && net.subnets[s].vpc == vpc then [s] else []
  }

  function FindDefault(acls: map<string, Acl>, order: seq<string>, vpc: string): Option<string> {
    if order == [] then None
    else if order[0] in acls && acls[order[0]].vpc == vpc && acls[order[0]].isDefault then Some(order[0])
    else FindDefault(acls, order[1..], vpc)
  }

  function AllowAll(egress: bool): Entry {
    Entry(100, "-1", true, egress, "0.0.0.0/0", None, None)
  }

  /** The subnets some ACL other than `d` lists. */
  function Claimed(acls: map<string, Acl>, d: string): set<string> {
    set a, i | a in acls && a != d && 0 <= i < |acls[a].subnets| :: acls[a].subnets[i]
  }

  function Keep(ids: seq<string>, claimed: set<string>): seq<string> {
    if ids == [] then []
    else Keep(ids[..|ids| - 1], claimed) + if ids[|ids| - 1] in claimed then [] else [ids[|ids| - 1]]
  }

  function WithDefault(net: Net, vpc: string, newId: string): (Net, string) {
    match FindDefault(net.acls, net.order, vpc)
    case Some(d) => (net, d)
    case None =>
      (net.(acls := net.acls[newId := Acl(vpc, true, [], [AllowAll(false), AllowAll(true)])], order := net.order + [newId]), newId)
  }

  /** Makes sure the VPC has a default ACL and gives it every subnet no other ACL lists. */
  function EnsureDefault(net: Net, vpc: string, newId: string): Net {
    var (n, d) := WithDefault(net, vpc, newId);
    if d !in n.acls then n
    else n.(acls := n.acls[d := n.acls[d].(subnets := Keep(SubnetsOf(n, n.subnetOrder, vpc), Claimed(n.acls, d)))])
  }

  // ---------- the edits ----------

  predicate SameRule(e: Entry, number: int, egress: bool) {
    e.number == number && e.egress == egress
  }

  predicate HasRule(es: seq<Entry>, number: int, egress: bool) {
    exists i :: 0 <= i < |es| && SameRule(es[i], number, egress)
  }

  function WithoutRule(es: seq<Entry>, number: int, egress: bool): seq<Entry> {
    if es == [] then []
    else
      var e := es[|es| - 1];
      WithoutRule(es[..|es| - 1], number, egress) + if SameRule(e, number, egress) then [] else [e]
  }

  function Protocol(p: string): string {
    if p == "6" then "tcp" else if p == "17" then "udp" else if p == "1" then "icmp" else p
  }

  /** An entry as it is stored: a protocol number becomes its name, "all traffic" has no ports,
      and an upper port that is missing or zero is the lower one. */
  function Normal(e: Entry): Entry {
    var p := Protocol(e.protocol);
    if p == "-1" || e.fromPort.None? then e.(protocol := p, fromPort := None, toPort := None)
    else e.(protocol := p, toPort := if e.toPort.None? || e.toPort == Some(0) then e.fromPort else e.toPort)
  }

  function Detach(acls: map<string, Acl>, subnet: string): map<string, Acl> {
    map a | a in acls :: acls[a].(subnets := Drop(acls[a].subnets, subnet))
  }

  function Attach(net: Net, id: string, subnet: string): Net
    requires id in net.acls && subnet in net.subnets
  {
    var acls := Detach(net.acls, subnet);
    net.(acls := acls[id := acls[id].(subnets := acls[id].subnets + [subnet])],
         subnets := if net.core then net.subnets[subnet := net.subnets[subnet].(pointer := Some(id))] else net.subnets)
  }

  /** The edit itself, between the two passes that renew the default ACL. */
  function Act(net: Net, vpc: string, action: Action): (Net, Reply) {
    match action
    case Describe => (net, Done)
    case Create(newId) => (net.(acls := net.acls[newId := Acl(vpc, false, [], [])], order := Touch(net.order, newId)), Done)
    case DeleteAcl(id) =>
      if id !in net.acls || net.acls[id].vpc != vpc then (net, NotFound)
      else if net.acls[id].isDefault || net.acls[id].subnets != [] then (net, Refused)
      else (net.(acls := net.acls - {id}, order := Drop(net.order, id)), Done)
    case AddEntry(id, e) =>
      if id !in net.acls || net.acls[id].vpc != vpc then (net, NotFound)
      else if !(1 <= e.number <= 32766) || HasRule(net.acls[id].entries, e.number, e.egress) then (net, Refused)
      else (net.(acls := net.acls[id := net.acls[id].(entries := net.acls[id].entries + [Normal(e)])]), Done)
    case DeleteEntry(id, number, egress) =>
      if id !in net.acls || net.acls[id].vpc != vpc then (net, NotFound)
      else
        var left := WithoutRule(net.acls[id].entries, number, egress);
        (net.(acls := net.acls[id := net.acls[id].(entries := left)]), if |left| == |net.acls[id].entries| then NotFound else Done)
    case Associate(id, subnet) =>
      if id !in net.acls || net.acls[id].vpc != vpc then (net, NotFound)
      else if subnet !in net.subnets || net.subnets[subnet].vpc != vpc then (net, NotFound)
      else (Attach(net, id, subnet), Done)
  }

  function Step(net: Net, r: Request): (Net, Reply) {
    match r
    case Edit(vpc, action, defaultId) =>
      if vpc !in net.vpcs then (net, NotFound)
      else
        var (n, reply) := Act(EnsureDefault(net, vpc, defaultId), vpc, action);
        (if reply.Done? then EnsureDefault(n, vpc, defaultId) else n, reply)
    case AddVpc(vpc) => (net.(vpcs := net.vpcs + {vpc}), Done)
    case AddSubnet(subnet, vpc) =>
      (net.(subnets := net.subnets[subnet := Subnet(vpc, None)], subnetOrder := Touch(net.subnetOrder, subnet)), Done)
    case RemoveSubnet(subnet) =>
      (net.(subnets := net.subnets - {subnet}, subnetOrder := Drop(net.subnetOrder, subnet)), Done)
  }

  function Run(net: Net, rs: seq<Request>): Net {
    if rs == [] then net else Step(Run(net, rs[..|rs| - 1]), rs[|rs| - 1]).0
  }

  // ---------- invariants ----------

  /** No subnet is listed twice, within an ACL or across two. */
  ghost predicate ListedOnce(acls: map<string, Acl>) {
    && (forall a :: a in acls ==> NoDup(acls[a].subnets))
    && (forall a, b, s :: a in acls && b in acls && s in acls[a].subnets && s in acls[b].subnets ==> a == b)
  }

  /** Listed subnets that still exist belong to the ACL's VPC. */
  ghost predicate ListsOwnVpc(net: Net) {
    forall a, s :: a in net.acls && s in net.acls[a].subnets && s in net.subnets ==> net.subnets[s].vpc == net.acls[a].vpc
  }

  ghost predicate OneDefault(acls: map<string, Acl>) {
    forall a, b :: a in acls && b in acls && acls[a].isDefault && acls[b].isDefault && acls[a].vpc == acls[b].vpc ==> a == b
  }

  ghost predicate RulesDistinct(es: seq<Entry>) {
    forall i, j :: 0 <= i < j < |es| ==> !SameRule(es[i], es[j].number, es[j].egress)
  }

  /** A subnet's own pointer names the ACL that lists it. */
  ghost predicate PointersAgree(net: Net) {
    forall s :: s in net.subnets && net.subnets[s].pointer.Some? ==>
      net.subnets[s].pointer.value in net.acls && s in net.acls[net.subnets[s].pointer.value].subnets
  }

  ghost predicate Inv(net: Net) {
    && Lists(net.order, net.acls.Keys)
    && Lists(net.subnetOrder, net.subnets.Keys)
    && ListedOnce(net.acls)
    && ListsOwnVpc(net)
    && OneDefault(net.acls)
    && (forall a :: a in net.acls ==> RulesDistinct(net.acls[a].entries))
    && PointersAgree(net)
  }

  /** Every subnet of the VPC is in exactly one ACL's list, and in it once. */
  ghost predicate Partitioned(net: Net, vpc: string) {
    && ListedOnce(net.acls)
    && forall s :: s in net.subnets && net.subnets[s].vpc == vpc ==> exists a :: a in net.acls && s in net.acls[a].subnets
  }

  /** New ids are new. */
  predicate Fresh(net: Net, r: Request) {
    match r
    case Edit(_, action, defaultId) =>
      defaultId !in net.acls && (action.Create? ==> action.newId !in net.acls && action.newId != defaultId)
    case AddVpc(_) => true
    case AddSubnet(subnet, _) => subnet !in net.subnets && forall a :: a in net.acls ==> subnet !in net.acls[a].subnets
    case RemoveSubnet(_) => true
  }

  // ---------- the default ACL renewed ----------

  lemma {:induction false} SubnetsOfMeaning(net: Net, order: seq<string>, vpc: string)
    requires NoDup(order)
    ensures var r := SubnetsOf(net, order, vpc);
            NoDup(r) && forall s :: s in r <==> s in order && s in net.subnets && net.subnets[s].vpc == vpc
  {
    if order != [] {
      var k := |order| - 1;
      SubnetsOfMeaning(net, order[..k], vpc);
      SnocMeaning(order);
      SnocNoDup(SubnetsOf(net, order[..k], vpc), order[k]);
    }
  }

  lemma SnocMeaning(order: seq<string>)
    requires order != [] && NoDup(order)
    ensures forall s :: s in order <==> s in order[..|order| - 1] || s == order[|order| - 1]
    ensures order[|order| - 1] !in order[..|order| - 1] && NoDup(order[..|order| - 1])
  {
    assert order == order[..|order| - 1] + [order[|order| - 1]];
  }

  lemma SnocNoDup(ids: seq<string>, s: string)
    requires NoDup(ids)
    ensures s !in ids ==> NoDup(ids + [s])
  {
  }

  lemma {:induction false} KeepMeaning(ids: seq<string>, claimed: set<string>)
    requires NoDup(ids)
    ensures var r := Keep(ids, claimed);
            NoDup(r) && forall s :: s in r <==> s in ids && s !in claimed
  {
    if ids != [] {
      var k := |ids| - 1;
      KeepMeaning(ids[..k], claimed);
      SnocMeaning(ids);
      SnocNoDup(Keep(ids[..k], claimed), ids[k]);
    }
  }

  lemma ClaimedMeaning(acls: map<string, Acl>, d: string, s: string)
    ensures s in Claimed(acls, d) <==> exists a :: a in acls && a != d && s in acls[a].subnets
  {
    if a :| a in acls && a != d && s in acls[a].subnets {
      var i :| 0 <= i < |acls[a].subnets| && acls[a].subnets[i] == s;
    }
  }

  lemma {:induction false} FindDefaultMeaning(acls: map<string, Acl>, order: seq<string>, vpc: string)
    ensures match FindDefault(acls, order, vpc)
            case Some(d) => d in order && d in acls && acls[d].vpc == vpc && acls[d].isDefault
            case None => forall a :: a in order && a in acls ==> !(acls[a].vpc == vpc && acls[a].isDefault)
  {
    if order != [] {
      FindDefaultMeaning(acls, order[1..], vpc);
      assert order == [order[0]] + order[1..];
    }
  }

  lemma WithDefaultInv(net: Net, vpc: string, newId: string)
    requires Inv(net) && (newId in net.acls ==> FindDefault(net.acls, net.order, vpc).Some?)
    ensures var (n, d) := WithDefault(net, vpc, newId);
            Inv(n) && d in n.acls && n.acls[d].vpc == vpc && n.acls[d].isDefault && n.subnets == net.subnets && n.subnetOrder == net.subnetOrder
  {
    FindDefaultMeaning(net.acls, net.order, vpc);
    if FindDefault(net.acls, net.order, vpc).None? {
      TouchLists(net.order, net.acls.Keys, newId);
      var (n, d) := WithDefault(net, vpc, newId);
      assert n.acls.Keys == net.acls.Keys + {newId};
    }
  }

  /** Listing `subnets` in ACL `d`, whose rest no other ACL lists, keeps every invariant as
      long as no subnet pointing at `d` is dropped. */
  lemma RelistInv(net: Net, d: string, subnets: seq<string>)
    requires Inv(net) && d in net.acls && NoDup(subnets)
    requires forall s :: s in subnets ==> s in net.subnets && net.subnets[s].vpc == net.acls[d].vpc && s !in Claimed(net.acls, d)
    requires forall s :: s in net.subnets && net.subnets[s].pointer == Some(d) ==> s in subnets
    ensures Inv(net.(acls := net.acls[d := net.acls[d].(subnets := subnets)]))
  {
    var acls := net.acls[d := net.acls[d].(subnets := subnets)];
    assert acls.Keys == net.acls.Keys;
    forall a, b, s | a in acls && b in acls && s in acls[a].subnets && s in acls[b].subnets
      ensures a == b
    {
      ClaimedMeaning(net.acls, d, s);
    }
  }

  lemma EnsureDefaultInv(net: Net, vpc: string, newId: string)
    requires Inv(net) && (newId in net.acls ==> FindDefault(net.acls, net.order, vpc).Some?)
    ensures Inv(EnsureDefault(net, vpc, newId)) && Partitioned(EnsureDefault(net, vpc, newId), vpc)
    ensures EnsureDefault(net, vpc, newId).subnets == net.subnets
  {
    WithDefaultInv(net, vpc, newId);
    var (n, d) := WithDefault(net, vpc, newId);
    KeptMeaning(n, d, vpc);
    forall s | s in n.subnets && n.subnets[s].pointer == Some(d)
      ensures s in Kept(n, d, vpc)
    {
      ClaimedMeaning(n.acls, d, s);
    }
    RelistInv(n, d, Kept(n, d, vpc));
    RelistPartitions(n, d, vpc);
  }

  /** The subnets the default ACL is left with. */
  function Kept(net: Net, d: string, vpc: string): seq<string> {
    Keep(SubnetsOf(net, net.subnetOrder, vpc), Claimed(net.acls, d))
  }

  lemma KeptMeaning(net: Net, d: string, vpc: string)
    requires Lists(net.subnetOrder, net.subnets.Keys)
    ensures NoDup(Kept(net, d, vpc))
    ensures forall s :: s in Kept(net, d, vpc) <==> s in net.subnets && net.subnets[s].vpc == vpc && s !in Claimed(net.acls, d)
  {
    SubnetsOfMeaning(net, net.subnetOrder, vpc);
    KeepMeaning(SubnetsOf(net, net.subnetOrder, vpc), Claimed(net.acls, d));
  }

  lemma RelistPartitions(net: Net, d: string, vpc: string)
    requires Lists(net.subnetOrder, net.subnets.Keys) && d in net.acls
    requires ListedOnce(net.acls[d := net.acls[d].(subnets := Kept(net, d, vpc))])
    ensures Partitioned(net.(acls := net.acls[d := net.acls[d].(subnets := Kept(net, d, vpc))]), vpc)
  {
    KeptMeaning(net, d, vpc);
    var acls := net.acls[d := net.acls[d].(subnets := Kept(net, d, vpc))];
    forall s | s in net.subnets && net.subnets[s].vpc == vpc
      ensures exists a :: a in acls && s in acls[a].subnets
    {
      ClaimedMeaning(net.acls, d, s);
      if s in Claimed(net.acls, d) {
        var a :| a in net.acls && a != d && s in net.acls[a].subnets;
        assert s in acls[a].subnets;
      } else {
        assert s in acls[d].subnets;
      }
    }
  }

  predicate IsDefault(net: Net, vpc: string, d: string) {
    d in net.acls && net.acls[d].vpc == vpc && net.acls[d].isDefault
  }

  lemma EnsureDefaultHas(net: Net, vpc: string, newId: string)
    ensures IsDefault(EnsureDefault(net, vpc, newId), vpc, WithDefault(net, vpc, newId).1)
  {
    FindDefaultMeaning(net.acls, net.order, vpc);
  }

  /** No edit removes or demotes the default ACL. */
  lemma ActKeepsDefault(net: Net, vpc: string, d: string, action: Action)
    requires IsDefault(net, vpc, d) && (action.Create? ==> action.newId != d)
    ensures IsDefault(Act(net, vpc, action).0, vpc, d)
  {
    match action
    case Describe =>
    case Create(_) =>
    case DeleteAcl(_) =>
    case AddEntry(_, _) =>
    case DeleteEntry(_, _, _) =>
    case Associate(_, _) =>
  }

  /** The default ACL, once there, is found again whatever the edit did. */
  lemma DefaultStays(net: Net, vpc: string, newId: string, action: Action)
    requires action.Create? ==> action.newId !in net.acls && action.newId != newId
    requires Lists(Act(EnsureDefault(net, vpc, newId), vpc, action).0.order, Act(EnsureDefault(net, vpc, newId), vpc, action).0.acls.Keys)
    ensures var m := Act(EnsureDefault(net, vpc, newId), vpc, action).0; FindDefault(m.acls, m.order, vpc).Some?
  {
    EnsureDefaultHas(net, vpc, newId);
    FindDefaultMeaning(net.acls, net.order, vpc);
    ActKeepsDefault(EnsureDefault(net, vpc, newId), vpc, WithDefault(net, vpc, newId).1, action);
    var m := Act(EnsureDefault(net, vpc, newId), vpc, action).0;
    FindDefaultMeaning(m.acls, m.order, vpc);
  }

  // ---------- the edits keep the invariants ----------

  lemma {:induction false} WithoutRuleMembers(es: seq<Entry>, number: int, egress: bool)
    ensures forall e :: e in WithoutRule(es, number, egress) <==> e in es && !SameRule(e, number, egress)
    ensures |WithoutRule(es, number, egress)| <= |es|
    ensures |WithoutRule(es, number, egress)| == |es| <==> !HasRule(es, number, egress)
  {
    if es != [] {
      var k := |es| - 1;
      WithoutRuleMembers(es[..k], number, egress);
      assert es == es[..k] + [es[k]];
      HasRuleSnoc(es[..k], es[k], number, egress);
    }
  }

  lemma HasRuleSnoc(init: seq<Entry>, last: Entry, number: int, egress: bool)
    ensures HasRule(init + [last], number, egress) <==> HasRule(init, number, egress) || SameRule(last, number, egress)
  {
    var es := init + [last];
    assert es[|init|] == last && forall i :: 0 <= i < |init| ==> es[i] == init[i];
    if i :| 0 <= i < |init| && SameRule(init[i], number, egress) {
      assert SameRule(es[i], number, egress);
    }
  }

  /** Deleting a rule removes exactly the entries of its number and direction. */
  lemma {:induction false} WithoutRuleMeaning(es: seq<Entry>, number: int, egress: bool)
    requires RulesDistinct(es)
    ensures RulesDistinct(WithoutRule(es, number, egress)) && !HasRule(WithoutRule(es, number, egress), number, egress)
  {
    if es != [] {
      var k := |es| - 1;
      assert es == es[..k] + [es[k]];
      RulesDistinctInit(es, es[..k], es[k]);
      WithoutRuleMeaning(es[..k], number, egress);
      WithoutRuleMembers(es[..k], number, egress);
      if !SameRule(es[k], number, egress) {
        RulesDistinctSnoc(WithoutRule(es[..k], number, egress), es[k], number, egress);
      }
    }
  }

  lemma RulesDistinctInit(es: seq<Entry>, init: seq<Entry>, last: Entry)
    requires es == init + [last] && RulesDistinct(es)
    ensures RulesDistinct(init)
    ensures forall e :: e in init ==> !SameRule(e, last.number, last.egress)
  {
    assert forall j :: 0 <= j < |init| ==> init[j] == es[j];
    assert es[|init|] == last;
  }

  lemma RulesDistinctSnoc(before: seq<Entry>, e: Entry, number: int, egress: bool)
    requires RulesDistinct(before) && !HasRule(before, number, egress) && !SameRule(e, number, egress)
    requires forall b :: b in before ==> !SameRule(b, e.number, e.egress)
    ensures RulesDistinct(before + [e]) && !HasRule(before + [e], number, egress)
  {
    forall i | 0 <= i < |before|
      ensures !SameRule(before[i], e.number, e.egress)
    {
      assert before[i] in before;
    }
  }

  lemma AddEntryDistinct(es: seq<Entry>, e: Entry)
    requires RulesDistinct(es) && !HasRule(es, e.number, e.egress)
    ensures RulesDistinct(es + [Normal(e)])
  {
  }

  lemma EntriesInv(net: Net, id: string, entries: seq<Entry>)
    requires Inv(net) && id in net.acls && RulesDistinct(entries)
    ensures Inv(net.(acls := net.acls[id := net.acls[id].(entries := entries)]))
  {
    assert net.acls[id := net.acls[id].(entries := entries)].Keys == net.acls.Keys;
  }

  lemma CreateInv(net: Net, vpc: string, newId: string)
    requires Inv(net) && newId !in net.acls
    ensures Inv(net.(acls := net.acls[newId := Acl(vpc, false, [], [])], order := Touch(net.order, newId)))
  {
    TouchLists(net.order, net.acls.Keys, newId);
    assert net.acls[newId := Acl(vpc, false, [], [])].Keys == net.acls.Keys + {newId};
  }

  lemma DeleteAclInv(net: Net, id: string)
    requires Inv(net) && id in net.acls && net.acls[id].subnets == []
    ensures Inv(net.(acls := net.acls - {id}, order := Drop(net.order, id)))
  {
    DropLists(net.order, net.acls.Keys, id);
    assert (net.acls - {id}).Keys == net.acls.Keys - {id};
  }

  lemma DropMeaning(ids: seq<string>, s: string)
    requires NoDup(ids)
    ensures NoDup(Drop(ids, s)) && forall x :: x in Drop(ids, s) <==> x in ids && x != s
  {
    DropLists(ids, (set x | x in ids), s);
  }

  /** After an association every list is as before, except that the subnet is in the chosen one only. */
  lemma AttachMeaning(net: Net, id: string, subnet: string)
    requires ListedOnce(net.acls) && id in net.acls && subnet in net.subnets
    ensures var t := Attach(net, id, subnet);
            && t.acls.Keys == net.acls.Keys && t.subnets.Keys == net.subnets.Keys
            && (forall a :: a in net.acls ==> NoDup(t.acls[a].subnets) && t.acls[a] == net.acls[a].(subnets := t.acls[a].subnets))
            && (forall a, s :: a in net.acls ==> (s in t.acls[a].subnets <==> if s == subnet then a == id else s in net.acls[a].subnets))
  {
    forall a | a in net.acls {
      DropMeaning(net.acls[a].subnets, subnet);
    }
    SnocNoDup(Detach(net.acls, subnet)[id].subnets, subnet);
  }

  lemma {:induction false} AttachInv(net: Net, id: string, subnet: string)
    requires Inv(net) && id in net.acls && subnet in net.subnets && net.subnets[subnet].vpc == net.acls[id].vpc
    requires !net.core ==> net.subnets[subnet].pointer.None?
    ensures Inv(Attach(net, id, subnet))
  {
    var t := Attach(net, id, subnet);
    AttachMeaning(net, id, subnet);
    AttachLists(net, id, subnet);
    assert OneDefault(t.acls);
    assert forall a :: a in t.acls ==> t.acls[a].entries == net.acls[a].entries;
  }

  lemma AttachLists(net: Net, id: string, subnet: string)
    requires ListedOnce(net.acls) && ListsOwnVpc(net) && PointersAgree(net)
    requires id in net.acls && subnet in net.subnets && net.subnets[subnet].vpc == net.acls[id].vpc
    requires !net.core ==> net.subnets[subnet].pointer.None?
    ensures var t := Attach(net, id, subnet); ListedOnce(t.acls) && ListsOwnVpc(t) && PointersAgree(t)
  {
    AttachMeaning(net, id, subnet);
  }

  lemma {:induction false} ActInv(net: Net, vpc: string, action: Action)
    requires Inv(net) && (action.Create? ==> action.newId !in net.acls)
    requires !net.core ==> forall s :: s in net.subnets ==> net.subnets[s].pointer.None?
    ensures Inv(Act(net, vpc, action).0)
  {
    match action
    case Describe =>
    case Create(newId) => CreateInv(net, vpc, newId);
    case DeleteAcl(id) =>
      if Act(net, vpc, action).1.Done? {
        DeleteAclInv(net, id);
      }
    case AddEntry(id, e) =>
      if Act(net, vpc, action).1.Done? {
        AddEntryDistinct(net.acls[id].entries, e);
        EntriesInv(net, id, net.acls[id].entries + [Normal(e)]);
      }
    case DeleteEntry(id, number, egress) =>
      if id in net.acls {
        WithoutRuleMeaning(net.acls[id].entries, number, egress);
        EntriesInv(net, id, WithoutRule(net.acls[id].entries, number, egress));
      }
    case Associate(id, subnet) =>
      if Act(net, vpc, action).1.Done? {
        AttachInv(net, id, subnet);
      }
  }

  ghost predicate Sound(net: Net) {
    Inv(net) && (!net.core ==> forall s :: s in net.subnets ==> net.subnets[s].pointer.None?)
  }

  lemma PartitionKept(net: Net, vpc: string, action: Action)
    requires Partitioned(net, vpc) && !Act(net, vpc, action).1.Done?
    ensures Partitioned(Act(net, vpc, action).0, vpc)
  {
    var t := Act(net, vpc, action).0;
    assert t.subnets == net.subnets && forall a :: a in net.acls ==> a in t.acls && t.acls[a].subnets == net.acls[a].subnets;
    forall s | s in t.subnets && t.subnets[s].vpc == vpc
      ensures exists a :: a in t.acls && s in t.acls[a].subnets
    {
      var a :| a in net.acls && s in net.acls[a].subnets;
      assert s in t.acls[a].subnets;
    }
  }

  lemma EnsureDefaultKeys(net: Net, vpc: string, newId: string)
    ensures EnsureDefault(net, vpc, newId).acls.Keys <= net.acls.Keys + {newId}
    ensures EnsureDefault(net, vpc, newId).subnets == net.subnets && EnsureDefault(net, vpc, newId).core == net.core
    ensures newId in EnsureDefault(net, vpc, newId).acls && newId !in net.acls ==> FindDefault(net.acls, net.order, vpc).None?
  {
  }

  lemma {:induction false} DoneRenews(net: Net, r: Request)
    requires Sound(net) && r.Edit? && Fresh(net, r)
    ensures var m := Act(EnsureDefault(net, r.vpc, r.defaultId), r.vpc, r.action).0;
            Inv(m) && FindDefault(m.acls, m.order, r.vpc).Some?
  {
    EnsureDefaultInv(net, r.vpc, r.defaultId);
    EnsureDefaultKeys(net, r.vpc, r.defaultId);
    ActInv(EnsureDefault(net, r.vpc, r.defaultId), r.vpc, r.action);
    DefaultStays(net, r.vpc, r.defaultId, r.action);
  }

  lemma ActKeepsModel(net: Net, vpc: string, action: Action)
    ensures var t := Act(net, vpc, action).0;
            && t.core == net.core && t.subnets.Keys == net.subnets.Keys
            && (!net.core ==> t.subnets == net.subnets)
  {
    match action
    case Describe =>
    case Create(_) =>
    case DeleteAcl(_) =>
    case AddEntry(_, _) =>
    case DeleteEntry(_, _, _) =>
    case Associate(id, subnet) =>
      assert subnet in net.subnets ==> net.subnets[subnet := net.subnets[subnet].(pointer := Some(id))].Keys == net.subnets.Keys;
  }

  /** Every edit of a VPC, accepted or refused, leaves each of its subnets in exactly one
      ACL, each ACL without duplicate rules, and every pointer at the ACL that lists it. */
  lemma {:induction false} EditPartitions(net: Net, r: Request)
    requires Sound(net) && r.Edit? && r.vpc in net.vpcs && Fresh(net, r)
    ensures Sound(Step(net, r).0) && Partitioned(Step(net, r).0, r.vpc)
  {
    var n := EnsureDefault(net, r.vpc, r.defaultId);
    var (m, reply) := Act(n, r.vpc, r.action);
    EnsureDefaultKeys(net, r.vpc, r.defaultId);
    ActKeepsModel(n, r.vpc, r.action);
    DoneRenews(net, r);
    if reply.Done? {
      EnsureDefaultInv(m, r.vpc, r.defaultId);
      EnsureDefaultKeys(m, r.vpc, r.defaultId);
    } else {
      EnsureDefaultInv(net, r.vpc, r.defaultId);
      PartitionKept(n, r.vpc, r.action);
    }
  }

  lemma {:induction false} StepSound(net: Net, r: Request)
    requires Sound(net) && Fresh(net, r)
    ensures Sound(Step(net, r).0)
  {
    match r
    case Edit(vpc, _, _) =>
      if vpc in net.vpcs {
        EditPartitions(net, r);
      }
    case AddVpc(_) =>
    case AddSubnet(subnet, _) =>
      TouchLists(net.subnetOrder, net.subnets.Keys, subnet);
      assert Step(net, r).0.subnets.Keys == net.subnets.Keys + {subnet};
    case RemoveSubnet(subnet) =>
      DropLists(net.subnetOrder, net.subnets.Keys, subnet);
      assert Step(net, r).0.subnets.Keys == net.subnets.Keys - {subnet};
  }

  ghost predicate FreshRun(core: bool, rs: seq<Request>) {
    forall i :: 0 <= i < |rs| ==> Fresh(Run(Empty(core), rs[..i]), rs[i])
  }

  /** The invariants hold in every reachable state of either model. */
  lemma {:induction false} AlwaysSound(core: bool, rs: seq<Request>)
    requires FreshRun(core, rs)
    ensures Sound(Run(Empty(core), rs))
  {
    if rs != [] {
      var k := |rs| - 1;
      forall i | 0 <= i < k
        ensures Fresh(Run(Empty(core), rs[..k][..i]), rs[..k][i])
      {
        assert rs[..k][..i] == rs[..i];
      }
      AlwaysSound(core, rs[..k]);
      StepSound(Run(Empty(core), rs[..k]), rs[k]);
    }
  }

  // ---------- the partition lasts ----------

  ghost predicate ListedIn(net: Net, s: string) {
    exists a :: a in net.acls && s in net.acls[a].subnets
  }

  /** Renewing any VPC's default ACL leaves a listed subnet listed. */
  lemma EnsureKeepsListed(net: Net, vpc: string, newId: string, s: string)
    requires Inv(net) && (newId in net.acls ==> FindDefault(net.acls, net.order, vpc).Some?)
    requires s in net.subnets && ListedIn(net, s)
    ensures ListedIn(EnsureDefault(net, vpc, newId), s)
  {
    var a :| a in net.acls && s in net.acls[a].subnets;
    var n := EnsureDefault(net, vpc, newId);
    FindDefaultMeaning(net.acls, net.order, vpc);
    if FindDefault(net.acls, net.order, vpc) == Some(a) {
      RenewKeeps(net, vpc, newId, a, s);
    }
    assert a in n.acls && s in n.acls[a].subnets;
  }

  lemma AttachKeepsListed(net: Net, id: string, subnet: string, s: string)
    requires ListedOnce(net.acls) && id in net.acls && subnet in net.subnets && ListedIn(net, s)
    ensures ListedIn(Attach(net, id, subnet), s)
  {
    var t := Attach(net, id, subnet);
    AttachMeaning(net, id, subnet);
    var a :| a in net.acls && s in net.acls[a].subnets;
    assert s in t.acls[if s == subnet then id else a].subnets;
  }

  lemma ActKeepsListed(net: Net, vpc: string, action: Action, s: string)
    requires Inv(net) && s in net.subnets && ListedIn(net, s) && (action.Create? ==> action.newId !in net.acls)
    ensures ListedIn(Act(net, vpc, action).0, s)
  {
    var t := Act(net, vpc, action).0;
    if action.Associate? {
      if t != net {
        AttachKeepsListed(net, action.id, action.subnet, s);
      }
    } else {
      var a :| a in net.acls && s in net.acls[a].subnets;
      assert a in t.acls && s in t.acls[a].subnets;
    }
  }

  lemma StepKeepsListed(net: Net, r: Request, s: string)
    requires Sound(net) && Fresh(net, r) && s in net.subnets && ListedIn(net, s)
    ensures ListedIn(Step(net, r).0, s)
  {
    if r.Edit? && r.vpc in net.vpcs {
      var n := EnsureDefault(net, r.vpc, r.defaultId);
      EnsureKeepsListed(net, r.vpc, r.defaultId, s);
      EnsureDefaultInv(net, r.vpc, r.defaultId);
      EnsureDefaultKeys(net, r.vpc, r.defaultId);
      ActKeepsListed(n, r.vpc, r.action, s);
      DoneRenews(net, r);
      var m := Act(n, r.vpc, r.action).0;
      ActKeepsModel(n, r.vpc, r.action);
      if Act(n, r.vpc, r.action).1.Done? {
        EnsureKeepsListed(m, r.vpc, r.defaultId, s);
      }
    } else {
      var a :| a in net.acls && s in net.acls[a].subnets;
      assert Step(net, r).0.acls == net.acls;
    }
  }

  /** No request but the adding of a subnet to the VPC leaves one of its subnets unlisted. */
  lemma PartitionLasts(net: Net, r: Request, vpc: string)
    requires Sound(net) && Fresh(net, r) && Partitioned(net, vpc)
    requires !(r.AddSubnet? && r.vpc == vpc)
    ensures Partitioned(Step(net, r).0, vpc)
  {
    StepSound(net, r);
    var t := Step(net, r).0;
    forall s | s in t.subnets && t.subnets[s].vpc == vpc
      ensures exists a :: a in t.acls && s in t.acls[a].subnets
    {
      SubnetKeepsVpc(net, r, s);
      StepKeepsListed(net, r, s);
    }
  }

  lemma ActKeepsVpcs(net: Net, vpc: string, action: Action, s: string)
    requires s in net.subnets
    ensures s in Act(net, vpc, action).0.subnets && Act(net, vpc, action).0.subnets[s].vpc == net.subnets[s].vpc
  {
    match action
    case Describe =>
    case Create(_) =>
    case DeleteAcl(_) =>
    case AddEntry(_, _) =>
    case DeleteEntry(_, _, _) =>
    case Associate(_, _) =>
  }

  lemma EditKeepsVpcs(net: Net, r: Request, s: string)
    requires r.Edit? && r.vpc in net.vpcs && s in Step(net, r).0.subnets
    ensures s in net.subnets && net.subnets[s].vpc == Step(net, r).0.subnets[s].vpc
  {
    var n := EnsureDefault(net, r.vpc, r.defaultId);
    var m := Act(n, r.vpc, r.action).0;
    EnsureDefaultKeys(net, r.vpc, r.defaultId);
    EnsureDefaultKeys(m, r.vpc, r.defaultId);
    ActKeepsModel(n, r.vpc, r.action);
    assert s in m.subnets;
    ActKeepsVpcs(n, r.vpc, r.action, s);
  }

  lemma SubnetKeepsVpc(net: Net, r: Request, s: string)
    requires s in Step(net, r).0.subnets && !(r.AddSubnet? && r.subnet == s)
    ensures s in net.subnets && net.subnets[s].vpc == Step(net, r).0.subnets[s].vpc
  {
    match r
    case Edit(vpc, _, _) =>
      if vpc in net.vpcs {
        EditKeepsVpcs(net, r, s);
      }
    case AddVpc(_) =>
    case AddSubnet(_, _) =>
    case RemoveSubnet(_) =>
  }

  /** Over any run: once a VPC was edited, every subnet of it is in exactly one ACL, until a
      subnet is added to it and from the next edit on again. */
  lemma {:induction false} PartitionedSinceEdit(core: bool, rs: seq<Request>, edit: Request, qs: seq<Request>)
    requires FreshRun(core, rs + [edit] + qs) && edit.Edit? && edit.vpc in Run(Empty(core), rs).vpcs
    requires forall i :: 0 <= i < |qs| ==> !(qs[i].AddSubnet? && qs[i].vpc == edit.vpc)
    ensures Partitioned(Run(Empty(core), rs + [edit] + qs), edit.vpc)
  {
    if qs == [] {
      assert rs + [edit] + qs == rs + [edit];
      FreshSnoc(core, rs, edit);
      EditPartitions(Run(Empty(core), rs), edit);
    } else {
      var k := |qs| - 1;
      var init := rs + [edit] + qs[..k];
      assert rs + [edit] + qs == init + [qs[k]];
      FreshSnoc(core, init, qs[k]);
      PartitionedSinceEdit(core, rs, edit, qs[..k]);
      PartitionLasts(Run(Empty(core), init), qs[k], edit.vpc);
    }
  }

  lemma FreshSnoc(core: bool, rs: seq<Request>, r: Request)
    requires FreshRun(core, rs + [r])
    ensures FreshRun(core, rs) && Sound(Run(Empty(core), rs)) && Fresh(Run(Empty(core), rs), r)
    ensures Run(Empty(core), rs + [r]) == Step(Run(Empty(core), rs), r).0
  {
    FreshPrefix(core, rs + [r], |rs|);
    assert (rs + [r])[..|rs|] == rs && (rs + [r])[|rs|] == r;
    AlwaysSound(core, rs);
  }

  lemma FreshPrefix(core: bool, rs: seq<Request>, k: nat)
    requires k <= |rs| && FreshRun(core, rs)
    ensures FreshRun(core, rs[..k])
    ensures k < |rs| ==> Fresh(Run(Empty(core), rs[..k]), rs[k])
  {
    forall i | 0 <= i < k
      ensures Fresh(Run(Empty(core), rs[..k][..i]), rs[..k][i])
    {
      assert rs[..k][..i] == rs[..i];
    }
  }

  // ---------- what edits do ----------

  /** What an accepted association does: the subnet is listed by the chosen ACL and, in the
      core model, points at it. */
  lemma AssociateMoves(net: Net, r: Request)
    requires Sound(net) && r.Edit? && r.action.Associate? && Fresh(net, r) && Step(net, r).1.Done?
    ensures var t, id, subnet := Step(net, r).0, r.action.id, r.action.subnet;
            && id in t.acls && subnet in t.acls[id].subnets
            && (net.core ==> subnet in t.subnets && t.subnets[subnet].pointer == Some(id))
  {
    var n := EnsureDefault(net, r.vpc, r.defaultId);
    var m := Act(n, r.vpc, r.action).0;
    DoneRenews(net, r);
    EnsureDefaultInv(net, r.vpc, r.defaultId);
    EnsureDefaultKeys(net, r.vpc, r.defaultId);
    AssociateDone(n, r);
    EnsureDefaultKeys(m, r.vpc, r.defaultId);
    RenewKeeps(m, r.vpc, r.defaultId, r.action.id, r.action.subnet);
  }

  lemma AssociateDone(net: Net, r: Request)
    requires Inv(net) && r.Edit? && r.action.Associate? && Act(net, r.vpc, r.action).1.Done?
    ensures var t, id, subnet := Act(net, r.vpc, r.action).0, r.action.id, r.action.subnet;
            && id in t.acls && subnet in t.acls[id].subnets && subnet in t.subnets && t.subnets[subnet].vpc == r.vpc
            && (net.core ==> t.subnets[subnet].pointer == Some(id))
  {
    AttachMeaning(net, r.action.id, r.action.subnet);
  }

  /** Every other subnet of the VPC stays in the ACL that listed it. */
  lemma {:induction false} AssociateKeepsOthers(net: Net, r: Request, a: string, s: string)
    requires Sound(net) && r.Edit? && r.action.Associate? && Fresh(net, r) && Step(net, r).1.Done?
    requires a in net.acls && s in net.acls[a].subnets && s != r.action.subnet && s in net.subnets && net.subnets[s].vpc == r.vpc
    ensures a in Step(net, r).0.acls && s in Step(net, r).0.acls[a].subnets
  {
    var n := EnsureDefault(net, r.vpc, r.defaultId);
    var m := Act(n, r.vpc, r.action).0;
    EnsureKeepsListing(net, r.vpc, r.defaultId, a, s);
    EnsureDefaultInv(net, r.vpc, r.defaultId);
    AssociatedOthers(n, r, a, s);
    DoneRenews(net, r);
    RenewKeeps(m, r.vpc, r.defaultId, a, s);
  }

  lemma AssociatedOthers(net: Net, r: Request, a: string, s: string)
    requires Inv(net) && r.Edit? && r.action.Associate? && Act(net, r.vpc, r.action).1.Done?
    requires a in net.acls && s in net.acls[a].subnets && s != r.action.subnet && s in net.subnets && net.subnets[s].vpc == r.vpc
    ensures var m := Act(net, r.vpc, r.action).0;
            a in m.acls && s in m.acls[a].subnets && s in m.subnets && m.subnets[s].vpc == r.vpc
  {
    AttachMeaning(net, r.action.id, r.action.subnet);
  }

  lemma {:induction false} EnsureKeepsListing(net: Net, vpc: string, newId: string, a: string, s: string)
    requires Inv(net) && newId !in net.acls
    requires a in net.acls && s in net.acls[a].subnets && s in net.subnets && net.subnets[s].vpc == vpc
    ensures a in EnsureDefault(net, vpc, newId).acls && s in EnsureDefault(net, vpc, newId).acls[a].subnets
  {
    if FindDefault(net.acls, net.order, vpc).Some? {
      RenewKeeps(net, vpc, newId, a, s);
    }
  }

  /** What an accepted rule edit does to its ACL, which the request may have had to create:
      one entry more at the end, of a number and direction that was not there, or exactly the
      entries of one number and direction fewer. */
  lemma RuleEdits(net: Net, r: Request)
    requires Sound(net) && r.Edit? && Fresh(net, r) && Step(net, r).1.Done? && (r.action.AddEntry? || r.action.DeleteEntry?)
    ensures var n, id, after := EnsureDefault(net, r.vpc, r.defaultId), r.action.id, Step(net, r).0.acls;
            && id in n.acls && id in after && (id in net.acls ==> n.acls[id].entries == net.acls[id].entries)
            && var before := n.acls[id].entries;
               && (r.action.AddEntry? ==> !HasRule(before, r.action.entry.number, r.action.entry.egress)
                                          && after[id].entries == before + [Normal(r.action.entry)])
               && (r.action.DeleteEntry? ==> HasRule(before, r.action.number, r.action.egress)
                                             && forall e :: e in after[id].entries <==> e in before && !SameRule(e, r.action.number, r.action.egress))
  {
    var n, id := EnsureDefault(net, r.vpc, r.defaultId), r.action.id;
    if id in net.acls {
      EnsureKeepsEntries(net, r.vpc, r.defaultId, id);
    }
    var m := Act(n, r.vpc, r.action).0;
    DoneRenews(net, r);
    EnsureKeepsEntries(m, r.vpc, r.defaultId, id);
    if r.action.DeleteEntry? {
      WithoutRuleMembers(n.acls[id].entries, r.action.number, r.action.egress);
    }
  }

  lemma EnsureKeepsEntries(net: Net, vpc: string, newId: string, id: string)
    requires id in net.acls && (newId in net.acls ==> FindDefault(net.acls, net.order, vpc).Some?)
    ensures id in EnsureDefault(net, vpc, newId).acls && EnsureDefault(net, vpc, newId).acls[id].entries == net.acls[id].entries
  {
  }

  /** Renewing the default ACL keeps a subnet of the VPC in the ACL that lists it. */
  lemma RenewKeeps(net: Net, vpc: string, newId: string, id: string, subnet: string)
    requires Inv(net) && FindDefault(net.acls, net.order, vpc).Some?
    requires id in net.acls && subnet in net.acls[id].subnets && subnet in net.subnets && net.subnets[subnet].vpc == vpc
    ensures id in EnsureDefault(net, vpc, newId).acls && subnet in EnsureDefault(net, vpc, newId).acls[id].subnets
  {
    var d := FindDefault(net.acls, net.order, vpc).value;
    FindDefaultMeaning(net.acls, net.order, vpc);
    if id == d {
      KeptMeaning(net, d, vpc);
      ClaimedMeaning(net.acls, d, subnet);
    }
  }

  // ---------- the model as the program keeps it ----------

  class VpcModel {
    const core: bool
    var vpcs: set<string>
    var subnets: map<string, Subnet>
    var subnetOrder: seq<string>
    var acls: map<string, Acl>
    var order: seq<string>

    ghost function Model(): Net
      reads this
    {
      Net(core, vpcs, subnets, subnetOrder, acls, order)
    }

    constructor (core: bool)
      ensures Model() == Empty(core)
    {
      this.core, vpcs, subnets, subnetOrder, acls, order := core, {}, map[], [], map[], [];
    }

    method FindDefaultAcl(vpc: string) returns (d: Option<string>)
      ensures d == FindDefault(acls, order, vpc)
    {
      var i := 0;
      while i < |order|
        invariant 0 <= i <= |order|
        invariant FindDefault(acls, order, vpc) == FindDefault(acls, order[i..], vpc)
      {
        assert order[i..][1..] == order[i + 1..];
        if order[i] in acls && acls[order[i]].vpc == vpc && acls[order[i]].isDefault {
          return Some(order[i]);
        }
        i := i + 1;
      }
      d := None;
    }

    method EnsureDefaultAcl(vpc: string, newId: string)
      modifies this`acls, this`order
      ensures Model() == EnsureDefault(old(Model()), vpc, newId)
    {
      var found := FindDefaultAcl(vpc);
      var d := newId;
      if found.Some? {
        d := found.value;
      } else {
        acls := acls[d := Acl(vpc, true, [], [AllowAll(false), AllowAll(true)])];
        order := order + [d];
      }
      if d !in acls {
        return;
      }
      var own := UnclaimedSubnets(vpc, Claimed(acls, d));
      acls := acls[d := acls[d].(subnets := own)];
    }

    method UnclaimedSubnets(vpc: string, claimed: set<string>) returns (own: seq<string>)
      ensures own == Keep(SubnetsOf(Model(), subnetOrder, vpc), claimed)
    {
      own := [];
      var i := 0;
      while i < |subnetOrder|
        invariant 0 <= i <= |subnetOrder|
        invariant own == Keep(SubnetsOf(Model(), subnetOrder[..i], vpc), claimed)
      {
        assert subnetOrder[..i + 1][..i] == subnetOrder[..i];
        var s := subnetOrder[i];
        ghost var before := SubnetsOf(Model(), subnetOrder[..i], vpc);
        if s in subnets && subnets[s].vpc == vpc {
          assert SubnetsOf(Model(), subnetOrder[..i + 1], vpc) == before + [s];
          KeepSnoc(before, s, claimed);
          if s !in claimed {
            own := own + [s];
          }
        } else {
          assert SubnetsOf(Model(), subnetOrder[..i + 1], vpc) == before;
        }
        i := i + 1;
      }
      assert subnetOrder[..i] == subnetOrder;
    }

    static lemma KeepSnoc(ids: seq<string>, s: string, claimed: set<string>)
      ensures Keep(ids + [s], claimed) == Keep(ids, claimed) + if s in claimed then [] else [s]
    {
      assert (ids + [s])[..|ids|] == ids;
    }

    /** Takes the subnet out of every ACL that lists it, then lists it once more. */
    method AssociateSubnet(id: string, subnet: string)
      requires id in acls && subnet in subnets
      modifies this`acls, this`subnets
      ensures Model() == Attach(old(Model()), id, subnet)
    {
      var rest := acls.Keys;
      while rest != {}
        invariant rest <= acls.Keys == old(acls).Keys && subnets == old(subnets)
        invariant forall a :: a in acls ==> acls[a] == if a in rest then old(acls)[a] else Detach(old(acls), subnet)[a]
        decreases rest
      {
        var a :| a in rest;
        rest := rest - {a};
        if subnet in acls[a].subnets {
          acls := acls[a := acls[a].(subnets := Drop(acls[a].subnets, subnet))];
        } else {
          DropAbsent(acls[a].subnets, subnet);
        }
      }
      assert acls == Detach(old(acls), subnet);
      acls := acls[id := acls[id].(subnets := acls[id].subnets + [subnet])];
      if core {
        subnets := subnets[subnet := subnets[subnet].(pointer := Some(id))];
      }
    }

    static lemma DropAbsent(ids: seq<string>, s: string)
      requires s !in ids
      ensures Drop(ids, s) == ids
    {
      if ids != [] {
        assert ids[0] in ids && forall x :: x in ids[1..] ==> x in ids;
        DropAbsent(ids[1..], s);
      }
    }

    method RemoveRule(es: seq<Entry>, number: int, egress: bool) returns (left: seq<Entry>)
      ensures left == WithoutRule(es, number, egress)
    {
      left := [];
      var i := 0;
      while i < |es|
        invariant 0 <= i <= |es|
        invariant left == WithoutRule(es[..i], number, egress)
      {
        assert es[..i + 1][..i] == es[..i];
        if !SameRule(es[i], number, egress) {
          left := left + [es[i]];
        }
        i := i + 1;
      }
      assert es[..i] == es;
    }

    method ActOn(vpc: string, action: Action) returns (reply: Reply)
      modifies this`acls, this`order, this`subnets
      ensures (Model(), reply) == Act(old(Model()), vpc, action)
    {
      match action
      case Describe =>
        reply := Done;
      case Create(newId) =>
        acls, order := acls[newId := Acl(vpc, false, [], [])], Touch(order, newId);
        reply := Done;
      case DeleteAcl(id) =>
        if id !in acls || acls[id].vpc != vpc {
          return NotFound;
        }
        if acls[id].isDefault || acls[id].subnets != [] {
          return Refused;
        }
        acls, order := acls - {id}, Drop(order, id);
        reply := Done;
      case AddEntry(id, e) =>
        if id !in acls || acls[id].vpc != vpc {
          return NotFound;
        }
        if !(1 <= e.number <= 32766) || HasRule(acls[id].entries, e.number, e.egress) {
          return Refused;
        }
        acls := acls[id := acls[id].(entries := acls[id].entries + [Normal(e)])];
        reply := Done;
      case DeleteEntry(id, number, egress) =>
        if id !in acls || acls[id].vpc != vpc {
          return NotFound;
        }
        var before := |acls[id].entries|;
        var left := RemoveRule(acls[id].entries, number, egress);
        acls := acls[id := acls[id].(entries := left)];
        reply := if |left| == before then NotFound else Done;
      case Associate(id, subnet) =>
        if id !in acls || acls[id].vpc != vpc || subnet !in subnets || subnets[subnet].vpc != vpc {
          return NotFound;
        }
        AssociateSubnet(id, subnet);
        reply := Done;
    }

    /** One console edit: renews the default ACL, acts, and renews it again. */
    method UpdateSection(vpc: string, action: Action, defaultId: string) returns (reply: Reply)
      requires Sound(Model()) && vpc in vpcs && Fresh(Model(), Edit(vpc, action, defaultId))
      modifies this
      ensures Sound(Model()) && Partitioned(Model(), vpc)
      ensures (Model(), reply) == Step(old(Model()), Edit(vpc, action, defaultId))
    {
      EditPartitions(Model(), Edit(vpc, action, defaultId));
      EnsureDefaultAcl(vpc, defaultId);
      reply := ActOn(vpc, action);
      if reply.Done? {
        EnsureDefaultAcl(vpc, defaultId);
      }
    }
  }
}
