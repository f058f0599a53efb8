/** What each console edit of a VPC's network ACLs answers and stores, told from the model once
    its default ACL is renewed, and what that renewal does. */
module AclEdits {
  import opened Common
  import opened Dicts
  import opened NetworkAcls

  // ---------- renewing the default ACL ----------

  predicate DefaultOf(acls: map<string, Acl>, vpc: string, d: string) {
    d in acls && acls[d].vpc == vpc && acls[d].isDefault
  }

  /** The entry allows all traffic in its direction, as rule 100. */
  predicate AllowsAll(e: Entry) {
    e.number == 100 && e.allow && e.protocol == "-1" && e.cidr == "0.0.0.0/0" && e.fromPort.None? && e.toPort.None?
  }

  /** A default ACL just made: rule 100 in, then rule 100 out. */
  predicate Open(es: seq<Entry>) {
    |es| == 2 && AllowsAll(es[0]) && AllowsAll(es[1]) && !es[0].egress && es[1].egress
  }

  /** `n` is `net` with the default ACL `d` of the VPC renewed: made if there was none, open to all
      traffic; it lists the subnets of the VPC that no other ACL lists, and all else is as it was. */
  ghost predicate Renewed(net: Net, vpc: string, d: string, n: Net) {
    && DefaultOf(n.acls, vpc, d) && n.acls.Keys == net.acls.Keys + {d}
    && n.subnets == net.subnets && n.subnetOrder == net.subnetOrder && n.core == net.core && n.vpcs == net.vpcs
    && (forall a :: a in net.acls && a != d ==> n.acls[a] == net.acls[a])
    && (if d in net.acls then n.acls[d].entries == net.acls[d].entries && n.order == net.order
        else Open(n.acls[d].entries) && n.order == net.order + [d] && forall a :: !DefaultOf(net.acls, vpc, a))
    && (forall s :: s in n.acls[d].subnets <==>
          s in net.subnets && net.subnets[s].vpc == vpc && forall a :: a in net.acls && a != d ==> s !in net.acls[a].subnets)
  }

  /** The VPC's default ACL, made if there was none. */
  ghost predicate Made(net: Net, vpc: string, d: string, m: Net) {
    && DefaultOf(m.acls, vpc, d) && m.acls.Keys == net.acls.Keys + {d} && m == net.(acls := m.acls, order := m.order)
    && (forall a :: a in net.acls ==> m.acls[a] == net.acls[a])
    && if d in net.acls then m.order == net.order
       else Open(m.acls[d].entries) && m.order == net.order + [d] && forall a :: !DefaultOf(net.acls, vpc, a)
  }

  lemma DefaultMade(net: Net, vpc: string, newId: string)
    requires Inv(net) && newId !in net.acls
    ensures var (m, d) := WithDefault(net, vpc, newId); (d in net.acls || d == newId) && Made(net, vpc, d, m)
  {
    FindDefaultMeaning(net.acls, net.order, vpc);
  }

  lemma ClaimedByOthers(net: Net, d: string, m: Net, s: string)
    requires forall a :: a != d ==> (a in m.acls <==> a in net.acls) && (a in net.acls ==> m.acls[a] == net.acls[a])
    ensures s in Claimed(m.acls, d) <==> exists a :: a in net.acls && a != d && s in net.acls[a].subnets
  {
    ClaimedMeaning(m.acls, d, s);
    if a :| a in net.acls && a != d && s in net.acls[a].subnets {
      assert a in m.acls && m.acls[a] == net.acls[a];
    }
  }

  lemma KeptExactly(net: Net, vpc: string, d: string, m: Net, s: string)
    requires Inv(net) && Made(net, vpc, d, m)
    ensures s in Keep(SubnetsOf(m, m.subnetOrder, vpc), Claimed(m.acls, d)) <==>
            s in net.subnets && net.subnets[s].vpc == vpc && forall a :: a in net.acls && a != d ==> s !in net.acls[a].subnets
  {
    SubnetsOfMeaning(m, m.subnetOrder, vpc);
    KeepMeaning(SubnetsOf(m, m.subnetOrder, vpc), Claimed(m.acls, d));
    ClaimedByOthers(net, d, m, s);
  }

  lemma {:induction false} RenewalExactly(net: Net, vpc: string, newId: string)
    requires Inv(net) && newId !in net.acls
    ensures exists d :: (d in net.acls || d == newId) && Renewed(net, vpc, d, EnsureDefault(net, vpc, newId))
  {
    var (m, d) := WithDefault(net, vpc, newId);
    DefaultMade(net, vpc, newId);
    RelistedIsRenewed(net, vpc, d, m, Keep(SubnetsOf(m, m.subnetOrder, vpc), Claimed(m.acls, d)));
  }

  lemma RelistedIsRenewed(net: Net, vpc: string, d: string, m: Net, kept: seq<string>)
    requires Inv(net) && Made(net, vpc, d, m) && kept == Keep(SubnetsOf(m, m.subnetOrder, vpc), Claimed(m.acls, d))
    ensures Renewed(net, vpc, d, m.(acls := m.acls[d := m.acls[d].(subnets := kept)]))
  {
    forall s
      ensures s in kept <==> s in net.subnets && net.subnets[s].vpc == vpc && forall a :: a in net.acls && a != d ==> s !in net.acls[a].subnets
    {
      KeptExactly(net, vpc, d, m, s);
    }
  }

  // ---------- what edits answer ----------

  predicate OwnAcl(n: Net, vpc: string, id: string) {
    id in n.acls && n.acls[id].vpc == vpc
  }

  /** Some rule has this number in this direction. */
  predicate Taken(es: seq<Entry>, number: int, egress: bool) {
    exists i :: 0 <= i < |es| && es[i].number == number && es[i].egress == egress
  }

  lemma TakenIsHas(es: seq<Entry>, number: int, egress: bool)
    ensures Taken(es, number, egress) <==> HasRule(es, number, egress)
  {
    if i :| 0 <= i < |es| && es[i].number == number && es[i].egress == egress {
      assert SameRule(es[i], number, egress);
    }
  }

  /** What the edit needs is not there: its ACL, the rule to delete, the subnet to associate. */
  predicate Missing(n: Net, vpc: string, action: Action) {
    match action
    case Describe => false
    case Create(_) => false
    case DeleteAcl(id) => !OwnAcl(n, vpc, id)
    case AddEntry(id, _) => !OwnAcl(n, vpc, id)
    case DeleteEntry(id, number, egress) => !OwnAcl(n, vpc, id) || !Taken(n.acls[id].entries, number, egress)
    case Associate(id, subnet) => !OwnAcl(n, vpc, id) || subnet !in n.subnets || n.subnets[subnet].vpc != vpc
  }

  /** The edit is not allowed: deleting a default ACL or one with subnets, a rule number out of
      range or taken in its direction. */
  predicate Forbidden(n: Net, vpc: string, action: Action)
    requires !Missing(n, vpc, action)
  {
    match action
    case DeleteAcl(id) => n.acls[id].isDefault || |n.acls[id].subnets| > 0
    case AddEntry(id, e) => e.number <= 0 || e.number > 32766 || Taken(n.acls[id].entries, e.number, e.egress)
    case _ => false
  }

  lemma {:induction false} ShorterExactly(es: seq<Entry>, number: int, egress: bool)
    ensures |WithoutRule(es, number, egress)| <= |es|
    ensures |WithoutRule(es, number, egress)| < |es| <==> HasRule(es, number, egress)
    ensures !HasRule(es, number, egress) ==> WithoutRule(es, number, egress) == es
  {
    if es != [] {
      var n := |es| - 1;
      ShorterExactly(es[..n], number, egress);
      HasRuleSnoc(es[..n], es[n], number, egress);
      assert es == es[..n] + [es[n]];
    }
  }

  lemma ActAnswers(n: Net, vpc: string, action: Action)
    ensures var (m, reply) := Act(n, vpc, action);
            && (reply == NotFound <==> Missing(n, vpc, action))
            && (reply == Refused <==> !Missing(n, vpc, action) && Forbidden(n, vpc, action))
            && (!reply.Done? ==> m == n)
  {
    if action.DeleteEntry? && OwnAcl(n, vpc, action.id) {
      var acl := n.acls[action.id];
      ShorterExactly(acl.entries, action.number, action.egress);
      if !HasRule(acl.entries, action.number, action.egress) {
        assert acl.(entries := WithoutRule(acl.entries, action.number, action.egress)) == acl;
        assert n.acls[action.id := acl] == n.acls;
      }
    }
  }

  /** An edit of an unknown VPC is not found and changes nothing. Any other is answered for what
      is missing, then for what is forbidden, in the model with its default ACL renewed; one not
      accepted leaves just that renewal. */
  lemma {:induction false} EditAnswersExactly(net: Net, r: Request)
    requires r.Edit?
    ensures r.vpc !in net.vpcs ==> Step(net, r) == (net, NotFound)
    ensures r.vpc in net.vpcs ==>
              var n := EnsureDefault(net, r.vpc, r.defaultId);
              && (Step(net, r).1 == NotFound <==> Missing(n, r.vpc, r.action))
              && (Step(net, r).1 == Refused <==> !Missing(n, r.vpc, r.action) && Forbidden(n, r.vpc, r.action))
              && (!Step(net, r).1.Done? ==> Step(net, r).0 == n)
  {
    if r.vpc in net.vpcs {
      ActAnswers(EnsureDefault(net, r.vpc, r.defaultId), r.vpc, r.action);
    }
  }

  // ---------- what edits store ----------

  /** A rule as it is stored: as asked but for the protocol, whose number becomes its name, and the
      ports, of which there are none for all traffic or without a lower one, and of which the
      upper one is the lower one if it is missing or zero. */
  predicate StoredAs(e: Entry, x: Entry) {
    && x.number == e.number && x.allow == e.allow && x.egress == e.egress && x.cidr == e.cidr
    && (e.protocol == "6" ==> x.protocol == "tcp")
    && (e.protocol == "17" ==> x.protocol == "udp")
    && (e.protocol == "1" ==> x.protocol == "icmp")
    && (e.protocol !in {"6", "17", "1"} ==> x.protocol == e.protocol)
    && (e.protocol == "-1" || e.fromPort.None? ==> x.fromPort.None? && x.toPort.None?)
    && (e.protocol != "-1" && e.fromPort.Some? ==>
          x.fromPort == e.fromPort && x.toPort == if e.toPort in {None, Some(0)} then e.fromPort else e.toPort)
  }

  lemma NormalStores(e: Entry)
    ensures StoredAs(e, Normal(e))
  {
    assert "tcp" != "-1" && "udp" != "-1" && "icmp" != "-1" by {
      assert |"tcp"| == 3 && |"udp"| == 3 && |"icmp"| == 4 && |"-1"| == 2;
    }
  }

  /** An accepted new rule stands last in its ACL, stored as asked, after the rules there were. */
  lemma {:induction false} AddedRule(net: Net, r: Request)
    requires Sound(net) && r.Edit? && Fresh(net, r) && r.action.AddEntry? && Step(net, r).1.Done?
    ensures var id, after := r.action.id, Step(net, r).0.acls;
            && id in after && after[id].entries != []
            && var n := |after[id].entries| - 1;
               StoredAs(r.action.entry, after[id].entries[n]) && (id in net.acls ==> after[id].entries[..n] == net.acls[id].entries)
  {
    RuleEdits(net, r);
    NormalStores(r.action.entry);
  }

  lemma {:induction false} WithoutRuleInOrder(es: seq<Entry>, number: int, egress: bool, i: nat, j: nat) returns (p: nat, q: nat)
    requires i < j < |es| && !SameRule(es[i], number, egress) && !SameRule(es[j], number, egress)
    ensures var left := WithoutRule(es, number, egress); p < q < |left| && left[p] == es[i] && left[q] == es[j]
  {
    var k := |es| - 1;
    if j == k {
      p := WithoutRulePlace(es[..k], number, egress, i);
      q := |WithoutRule(es[..k], number, egress)|;
    } else {
      p, q := WithoutRuleInOrder(es[..k], number, egress, i, j);
    }
  }

  lemma {:induction false} WithoutRulePlace(es: seq<Entry>, number: int, egress: bool, i: nat) returns (p: nat)
    requires i < |es| && !SameRule(es[i], number, egress)
    ensures p < |WithoutRule(es, number, egress)| && WithoutRule(es, number, egress)[p] == es[i]
  {
    var k := |es| - 1;
    if i == k {
      p := |WithoutRule(es[..k], number, egress)|;
    } else {
      p := WithoutRulePlace(es[..k], number, egress, i);
    }
  }

  /** A renewal changes of an ACL there is no more than its list of subnets, and that only of the default one. */
  lemma RenewalLeaves(net: Net, vpc: string, newId: string, a: string)
    requires a in net.acls && (newId in net.acls ==> FindDefault(net.acls, net.order, vpc).Some?)
    ensures var t := EnsureDefault(net, vpc, newId).acls;
            && a in t && t[a] == net.acls[a].(subnets := t[a].subnets)
            && (!net.acls[a].isDefault ==> t[a] == net.acls[a])
  {
    FindDefaultMeaning(net.acls, net.order, vpc);
  }

  lemma CreateRenewed(net: Net, r: Request, a: string)
    requires Sound(net) && r.Edit? && r.vpc in net.vpcs && Fresh(net, r) && r.action.Create? && a in net.acls
    ensures a in Step(net, r).0.acls && Step(net, r).0.acls[a] == net.acls[a].(subnets := Step(net, r).0.acls[a].subnets)
  {
    var n := EnsureDefault(net, r.vpc, r.defaultId);
    RenewalLeaves(net, r.vpc, r.defaultId, a);
    DoneRenews(net, r);
    RenewalLeaves(Act(n, r.vpc, r.action).0, r.vpc, r.defaultId, a);
  }

  /** An ACL just created belongs to the VPC, is no default one, and has neither subnets nor rules;
      of the others only the lists of subnets may change. */
  lemma {:induction false} CreatedAcl(net: Net, r: Request)
    requires Sound(net) && r.Edit? && r.vpc in net.vpcs && Fresh(net, r) && r.action.Create?
    ensures Step(net, r).1.Done? && r.action.newId in Step(net, r).0.acls
    ensures Step(net, r).0.acls[r.action.newId] == Acl(r.vpc, false, [], [])
    ensures forall a :: a in net.acls ==> a in Step(net, r).0.acls && Step(net, r).0.acls[a] == net.acls[a].(subnets := Step(net, r).0.acls[a].subnets)
  {
    var n := EnsureDefault(net, r.vpc, r.defaultId);
    var m := Act(n, r.vpc, r.action).0;
    DoneRenews(net, r);
    RenewalLeaves(m, r.vpc, r.defaultId, r.action.newId);
    forall a | a in net.acls
      ensures a in Step(net, r).0.acls && Step(net, r).0.acls[a] == net.acls[a].(subnets := Step(net, r).0.acls[a].subnets)
    {
      CreateRenewed(net, r, a);
    }
  }

  lemma DeletedOther(net: Net, r: Request, a: string)
    requires Sound(net) && r.Edit? && Fresh(net, r) && r.action.DeleteAcl? && Step(net, r).1.Done?
    requires a in net.acls && a != r.action.id
    ensures a in Step(net, r).0.acls && Step(net, r).0.acls[a].entries == net.acls[a].entries
  {
    var n := EnsureDefault(net, r.vpc, r.defaultId);
    RenewalLeaves(net, r.vpc, r.defaultId, a);
    DoneRenews(net, r);
    RenewalLeaves(Act(n, r.vpc, r.action).0, r.vpc, r.defaultId, a);
  }

  /** An ACL that is deleted goes, and every other one of the model stays with its rules. */
  lemma {:induction false} DeletedAcl(net: Net, r: Request)
    requires Sound(net) && r.Edit? && Fresh(net, r) && r.action.DeleteAcl? && Step(net, r).1.Done?
    ensures r.action.id !in Step(net, r).0.acls
    ensures forall a :: a in net.acls && a != r.action.id ==> a in Step(net, r).0.acls && Step(net, r).0.acls[a].entries == net.acls[a].entries
  {
    DoneRenews(net, r);
    DeletedStaysAway(Act(EnsureDefault(net, r.vpc, r.defaultId), r.vpc, r.action).0, r.vpc, r.defaultId, r.action.id);
    forall a | a in net.acls && a != r.action.id
      ensures a in Step(net, r).0.acls && Step(net, r).0.acls[a].entries == net.acls[a].entries
    {
      DeletedOther(net, r, a);
    }
  }

  lemma DeletedStaysAway(net: Net, vpc: string, newId: string, id: string)
    requires id !in net.acls && FindDefault(net.acls, net.order, vpc).Some?
    ensures id !in EnsureDefault(net, vpc, newId).acls
  {
    FindDefaultMeaning(net.acls, net.order, vpc);
  }

  /** A rule deleted takes every rule of its number in its direction from its ACL, and no other. */
  lemma {:induction false} DeletedRules(net: Net, r: Request, e: Entry)
    requires Sound(net) && r.Edit? && Fresh(net, r) && r.action.DeleteEntry? && Step(net, r).1.Done?
    ensures var id, after := r.action.id, Step(net, r).0.acls;
            && id in after && !Taken(after[id].entries, r.action.number, r.action.egress)
            && (id in net.acls ==>
                  && Taken(net.acls[id].entries, r.action.number, r.action.egress)
                  && (e in after[id].entries <==> e in net.acls[id].entries && !(e.number == r.action.number && e.egress == r.action.egress)))
  {
    RuleEdits(net, r);
    var left := Step(net, r).0.acls[r.action.id].entries;
    forall i | 0 <= i < |left|
      ensures !(left[i].number == r.action.number && left[i].egress == r.action.egress)
    {
      assert left[i] in left;
    }
  }

  /** VPCs and subnets come and go as asked, a new subnet without a pointer and last unless its name
      was there; the ACLs and all else stay. */
  lemma CoreExactly(net: Net, r: Request)
    requires !r.Edit?
    ensures var (t, reply) := Step(net, r);
            && reply == Done && t.acls == net.acls && t.order == net.order && t.core == net.core
            && t.vpcs == (if r.AddVpc? then net.vpcs + {r.vpc} else net.vpcs)
            && (r.AddVpc? ==> t.subnets == net.subnets && t.subnetOrder == net.subnetOrder)
            && (r.AddSubnet? ==>
                  && t.subnets.Keys == net.subnets.Keys + {r.subnet} && t.subnets[r.subnet] == Subnet(r.vpc, None)
                  && (forall s :: s in net.subnets && s != r.subnet ==> t.subnets[s] == net.subnets[s])
                  && t.subnetOrder == if r.subnet in net.subnetOrder then net.subnetOrder else net.subnetOrder + [r.subnet])
            && (r.RemoveSubnet? ==>
                  && t.subnets.Keys == net.subnets.Keys - {r.subnet}
                  && forall s :: s in t.subnets ==> t.subnets[s] == net.subnets[s])
  {
  }
}
