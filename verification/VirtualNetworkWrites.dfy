/** What an accepted write of a virtual network stores and when one is refused, told from the
    payload, the record before and the addresses in the blocks. */
module VirtualNetworkWrites {
  import opened Common
  import opened Ipv4
  import opened VirtualNetworks

  // ---------- what is stored ----------

  /** The same prefixes, as text. */
  ghost predicate Spells(texts: seq<PrefixText>, ps: seq<Prefix>) {
    |texts| == |ps| && forall i :: 0 <= i < |ps| ==> texts[i] == Some(ps[i])
  }

  /** The same names and prefixes. */
  ghost predicate Describes(args: seq<SubnetArg>, subnets: seq<Subnet>) {
    |args| == |subnets| && forall i :: 0 <= i < |subnets| ==> args[i].name == subnets[i].name && args[i].prefix == Some(subnets[i].prefix)
  }

  /** The record a write starts from: a PATCH of an existing network from that, any other write
      from one without subnets whose space is 10.0.0.0/16. */
  ghost predicate StartsFrom(s: State, patch: bool, v: VNet) {
    if patch && s.vnet.Some? then s.vnet == Some(v)
    else |v.space| == 1 && v.subnets == [] && forall ip: nat :: Holds(v.space[0], ip) <==> 0x0A00_0000 <= ip <= 0x0A00_FFFF
  }

  /** An accepted write stores the blocks and the subnets it lists, one for one, no blocks if its
      address space is null, and for what it leaves out what it starts from; which subnets are
      in use it does not change. */
  lemma {:induction false} WriteStores(s: State, r: Request)
    requires r.Write? && Step(s, r).1.None?
    ensures var t := Step(s, r).0;
            && t.vnet.Some? && t.attached == s.attached
            && (r.space.Given? ==> Spells(r.space.prefixes, t.vnet.value.space))
            && (r.space.Null? ==> t.vnet.value.space == [])
            && (r.subnets.Some? ==> Describes(r.subnets.value, t.vnet.value.subnets))
            && exists v ::
                 && StartsFrom(s, r.patch, v)
                 && (r.space.Missing? || r.space.Bare? ==> t.vnet.value.space == v.space)
                 && (r.subnets.None? ==> t.vnet.value.subnets == v.subnets)
  {
    var v := if r.patch && s.vnet.Some? then s.vnet.value else VNet([DEFAULT_SPACE], []);
    DefaultBlock();
    assert StartsFrom(s, r.patch, v);
    if r.space.Given? {
      AllValid(r.space.prefixes);
    }
    if r.subnets.Some? {
      ParsedDescribes(CheckedSpace(s, r.space), r.subnets.value);
    }
  }

  lemma DefaultBlock()
    ensures forall ip: nat :: Holds(DEFAULT_SPACE, ip) <==> 0x0A00_0000 <= ip <= 0x0A00_FFFF
  {
    Powers();
    BlockExactly(DEFAULT_SPACE, 0x0A00, 0x1_0000);
  }

  lemma ParsedDescribes(space: seq<PrefixText>, args: seq<SubnetArg>)
    requires SubnetProblem(space, args).None?
    ensures Describes(args, ParsedSubnets(space, args))
  {
    AllSubnetsValid(space, args);
    assert forall i :: 0 <= i < |args| ==> Texts(args)[i] == args[i].prefix;
  }

  // ---------- when a write is refused ----------

  ghost predicate Share(a: Prefix, b: Prefix) {
    exists ip: nat :: Holds(a, ip) && Holds(b, ip)
  }

  ghost predicate Covers(b: Prefix, a: Prefix) {
    forall ip: nat :: Holds(a, ip) ==> Holds(b, ip)
  }

  lemma CoversIsSubnetOf(a: Prefix, b: Prefix)
    ensures SubnetOf(a, b) <==> Covers(b, a)
  {
    assert Holds(a, Base(a)) && Holds(a, Broadcast(a));
  }

  /** Block `i` is no CIDR block, or shares an address with one before it. */
  ghost predicate BadBlock(texts: seq<PrefixText>, i: nat, e: Error) {
    && i < |texts|
    && match e
       case InvalidFormat => texts[i].None?
       case InvalidSpace => texts[i].Some? && exists j :: 0 <= j < i && texts[j].Some? && Share(texts[i].value, texts[j].value)
       case _ => false
  }

  /** Subnet `i` is no CIDR block, or is in none of the blocks though there are some, or shares an
      address with a subnet before it. */
  ghost predicate BadSubnet(space: seq<PrefixText>, args: seq<SubnetArg>, i: nat, e: Error) {
    && i < |args|
    && var text := args[i].prefix;
       if text.None? then e == InvalidFormat
       else if space != [] && forall j :: 0 <= j < |space| && space[j].Some? ==> !Covers(space[j].value, text.value) then e == OutsideVnet
       else e == SubnetsOverlap && exists j :: 0 <= j < i && args[j].prefix.Some? && Share(text.value, args[j].prefix.value)
  }

  ghost predicate FirstBadBlock(texts: seq<PrefixText>, i: nat, e: Error) {
    BadBlock(texts, i, e) && forall j: nat, f :: j < i ==> !BadBlock(texts, j, f)
  }

  ghost predicate FirstBadSubnet(space: seq<PrefixText>, args: seq<SubnetArg>, i: nat, e: Error) {
    BadSubnet(space, args, i, e) && forall j: nat, f :: j < i ==> !BadSubnet(space, args, j, f)
  }

  lemma MeetsIsShare(p: Prefix, texts: seq<PrefixText>)
    ensures Meets(p, texts) <==> exists j :: 0 <= j < |texts| && texts[j].Some? && Share(p, texts[j].value)
  {
    forall j | 0 <= j < |texts| && texts[j].Some?
      ensures Overlaps(p, texts[j].value) <==> Share(p, texts[j].value)
    {
      NestedOrDisjoint(p, texts[j].value);
    }
  }

  lemma ContainedIsCovered(p: Prefix, space: seq<PrefixText>)
    ensures Contained(p, space) <==> exists j :: 0 <= j < |space| && space[j].Some? && Covers(space[j].value, p)
  {
    forall j | 0 <= j < |space| && space[j].Some?
      ensures SubnetOf(p, space[j].value) <==> Covers(space[j].value, p)
    {
      CoversIsSubnetOf(p, space[j].value);
    }
  }

  lemma BadBlockInit(texts: seq<PrefixText>, n: nat, i: nat, e: Error)
    requires i < n <= |texts|
    ensures BadBlock(texts[..n], i, e) <==> BadBlock(texts, i, e)
  {
    assert forall j :: 0 <= j <= i ==> texts[..n][j] == texts[j];
  }

  lemma {:induction false} SpaceProblemIsFirst(texts: seq<PrefixText>)
    ensures SpaceProblem(texts).Some? ==> exists i: nat :: FirstBadBlock(texts, i, SpaceProblem(texts).value)
    ensures SpaceProblem(texts).None? ==> forall i: nat, e :: !BadBlock(texts, i, e)
  {
    if texts != [] {
      var n := |texts| - 1;
      SpaceProblemIsFirst(texts[..n]);
      forall i: nat, e | i < n
        ensures BadBlock(texts[..n], i, e) <==> BadBlock(texts, i, e)
      {
        BadBlockInit(texts, n, i, e);
      }
      if SpaceProblem(texts[..n]).Some? {
        var e := SpaceProblem(texts[..n]).value;
        var i: nat :| FirstBadBlock(texts[..n], i, e);
        assert FirstBadBlock(texts, i, e);
      } else {
        LastBlock(texts, n);
        if SpaceProblem(texts).Some? {
          assert FirstBadBlock(texts, n, SpaceProblem(texts).value);
        }
      }
    }
  }

  lemma LastBlock(texts: seq<PrefixText>, n: nat)
    requires |texts| == n + 1 && SpaceProblem(texts[..n]).None?
    ensures SpaceProblem(texts).Some? ==> BadBlock(texts, n, SpaceProblem(texts).value)
    ensures SpaceProblem(texts).None? ==> forall e :: !BadBlock(texts, n, e)
  {
    if texts[n].Some? {
      MeetsIsShare(texts[n].value, texts[..n]);
      assert forall j :: 0 <= j < n ==> texts[..n][j] == texts[j];
    }
  }

  lemma BadSubnetInit(space: seq<PrefixText>, args: seq<SubnetArg>, n: nat, i: nat, e: Error)
    requires i < n <= |args|
    ensures BadSubnet(space, args[..n], i, e) <==> BadSubnet(space, args, i, e)
  {
    assert forall j :: 0 <= j <= i ==> args[..n][j] == args[j];
  }

  lemma LastSubnet(space: seq<PrefixText>, args: seq<SubnetArg>, n: nat)
    requires |args| == n + 1 && SubnetProblem(space, args[..n]).None?
    ensures SubnetProblem(space, args).Some? ==> BadSubnet(space, args, n, SubnetProblem(space, args).value)
    ensures SubnetProblem(space, args).None? ==> forall e :: !BadSubnet(space, args, n, e)
  {
    if args[n].prefix.Some? {
      var p := args[n].prefix.value;
      ContainedIsCovered(p, space);
      MeetsIsShare(p, Texts(args[..n]));
      assert forall j :: 0 <= j < n ==> Texts(args[..n])[j] == args[j].prefix;
    }
  }

  lemma {:induction false} SubnetProblemIsFirst(space: seq<PrefixText>, args: seq<SubnetArg>)
    ensures SubnetProblem(space, args).Some? ==> exists i: nat :: FirstBadSubnet(space, args, i, SubnetProblem(space, args).value)
    ensures SubnetProblem(space, args).None? ==> forall i: nat, e :: !BadSubnet(space, args, i, e)
  {
    if args != [] {
      var n := |args| - 1;
      SubnetProblemIsFirst(space, args[..n]);
      forall i: nat, e | i < n
        ensures BadSubnet(space, args[..n], i, e) <==> BadSubnet(space, args, i, e)
      {
        BadSubnetInit(space, args, n, i, e);
      }
      if SubnetProblem(space, args[..n]).Some? {
        var e := SubnetProblem(space, args[..n]).value;
        var i: nat :| FirstBadSubnet(space, args[..n], i, e);
        assert FirstBadSubnet(space, args, i, e);
      } else {
        LastSubnet(space, args, n);
        if SubnetProblem(space, args).Some? {
          assert FirstBadSubnet(space, args, n, SubnetProblem(space, args).value);
        }
      }
    }
  }

  /** The blocks a write is checked against: those it lists, none if it has an address space
      without a list, and else those of the record before. */
  ghost predicate CheckedAgainst(s: State, space: SpaceArg, blocks: seq<PrefixText>) {
    && (space.Given? ==> blocks == space.prefixes)
    && (space.Bare? ==> blocks == [])
    && (space.Missing? || space.Null? ==> Spells(blocks, if s.vnet.Some? then s.vnet.value.space else []))
  }

  /** The subnets that are checked: those a write lists, or else those of the record before. */
  ghost predicate ChecksSubnets(s: State, subnets: Option<seq<SubnetArg>>, args: seq<SubnetArg>) {
    if subnets.Some? then args == subnets.value else Describes(args, if s.vnet.Some? then s.vnet.value.subnets else [])
  }

  /** A listed write leaves out a subnet some NIC is in. */
  ghost predicate LeavesOut(s: State, subnets: Option<seq<SubnetArg>>) {
    && subnets.Some? && s.vnet.Some?
    && exists x :: x in s.vnet.value.subnets && x.name in s.attached && forall i :: 0 <= i < |subnets.value| ==> subnets.value[i].name != x.name
  }

  /** What is wrong with a write, in the order in which it is looked for: the first bad block, the
      first bad subnet, a subnet in use left out, another field. */
  ghost predicate Wrong(s: State, blocks: seq<PrefixText>, args: seq<SubnetArg>, subnets: Option<seq<SubnetArg>>, restValid: bool, e: Error) {
    if exists i: nat, f :: BadBlock(blocks, i, f) then exists i: nat :: FirstBadBlock(blocks, i, e)
    else if exists i: nat, f :: BadSubnet(blocks, args, i, f) then exists i: nat :: FirstBadSubnet(blocks, args, i, e)
    else if LeavesOut(s, subnets) then e == SubnetInUse
    else !restValid && e == InvalidRequest
  }

  lemma DropsIsLeavesOut(s: State, args: seq<SubnetArg>)
    ensures DropsAttached(s, args) <==> LeavesOut(s, Some(args))
  {
    if DropsAttached(s, args) {
      var i :| 0 <= i < |OldSubnets(s)| && !Named(args, OldSubnets(s)[i].name) && OldSubnets(s)[i].name in s.attached;
      assert OldSubnets(s)[i] in s.vnet.value.subnets;
    }
    if LeavesOut(s, Some(args)) {
      var x :| x in s.vnet.value.subnets && x.name in s.attached && forall i :: 0 <= i < |args| ==> args[i].name != x.name;
      var i :| 0 <= i < |OldSubnets(s)| && OldSubnets(s)[i] == x;
    }
  }

  lemma {:induction false} ValidateExactly(s: State, space: SpaceArg, subnets: Option<seq<SubnetArg>>, restValid: bool)
    returns (blocks: seq<PrefixText>, args: seq<SubnetArg>)
    ensures CheckedAgainst(s, space, blocks) && ChecksSubnets(s, subnets, args)
    ensures match Validate(s, space, subnets, restValid)
            case Some(e) => Wrong(s, blocks, args, subnets, restValid, e)
            case None => forall e :: !Wrong(s, blocks, args, subnets, restValid, e)
  {
    blocks, args := CheckedSpace(s, space), if subnets.Some? then subnets.value else AsArgs(OldSubnets(s));
    SpaceProblemIsFirst(blocks);
    SubnetProblemIsFirst(blocks, args);
    if subnets.Some? {
      DropsIsLeavesOut(s, args);
    }
  }

  /** A write is refused for what is wrong with it, and otherwise accepted; refused, it changes nothing. */
  lemma {:induction false} WriteRefusedExactly(s: State, r: Request)
    requires r.Write?
    ensures exists blocks, args ::
              && CheckedAgainst(s, r.space, blocks) && ChecksSubnets(s, r.subnets, args)
              && match Step(s, r).1
                 case Some(e) => Wrong(s, blocks, args, r.subnets, r.restValid, e)
                 case None => forall e :: !Wrong(s, blocks, args, r.subnets, r.restValid, e)
    ensures Step(s, r).1.Some? ==> Step(s, r).0 == s
  {
    var blocks, args := ValidateExactly(s, r.space, r.subnets, r.restValid);
  }

  // ---------- single subnets ----------

  /** Place `k` is the first of this name. */
  ghost predicate FirstNamed(subnets: seq<Subnet>, name: string, k: nat) {
    k < |subnets| && subnets[k].name == name && forall j :: 0 <= j < k ==> subnets[j].name != name
  }

  /** The list without its first subnet of a name, if it has one. */
  ghost predicate WithoutFirst(before: seq<Subnet>, name: string, after: seq<Subnet>) {
    if forall j :: 0 <= j < |before| ==> before[j].name != name then after == before
    else exists k: nat :: FirstNamed(before, name, k) && after == before[..k] + before[k + 1..]
  }

  lemma WithoutCons(first: Subnet, tail: seq<Subnet>, name: string, left: seq<Subnet>)
    requires first.name != name && WithoutFirst(tail, name, left)
    ensures WithoutFirst([first] + tail, name, [first] + left)
  {
    var all := [first] + tail;
    assert forall j :: 1 <= j < |all| ==> all[j] == tail[j - 1];
    if k: nat :| FirstNamed(tail, name, k) && left == tail[..k] + tail[k + 1..] {
      assert FirstNamed(all, name, k + 1);
      CutCons(first, tail, k);
    }
  }

  lemma CutCons(first: Subnet, tail: seq<Subnet>, k: nat)
    requires k < |tail|
    ensures var all := [first] + tail; [first] + (tail[..k] + tail[k + 1..]) == all[..k + 1] + all[k + 2..]
  {
    var all := [first] + tail;
    assert all[..k + 1] == [first] + tail[..k] && all[k + 2..] == tail[k + 1..];
  }

  lemma {:induction false} WithoutExactly(subnets: seq<Subnet>, name: string)
    ensures WithoutFirst(subnets, name, Without(subnets, name))
  {
    if subnets != [] {
      if subnets[0].name == name {
        assert FirstNamed(subnets, name, 0) && subnets[1..] == subnets[..0] + subnets[1..];
      } else {
        assert [subnets[0]] + subnets[1..] == subnets;
        WithoutExactly(subnets[1..], name);
        WithoutCons(subnets[0], subnets[1..], name, Without(subnets[1..], name));
      }
    }
  }

  lemma {:induction false} LookupExactly(subnets: seq<Subnet>, name: string)
    ensures match Lookup(subnets, name)
            case Some(x) => exists k: nat :: FirstNamed(subnets, name, k) && subnets[k] == x
            case None => forall j :: 0 <= j < |subnets| ==> subnets[j].name != name
  {
    if subnets != [] {
      if subnets[0].name == name {
        assert FirstNamed(subnets, name, 0);
      } else {
        LookupExactly(subnets[1..], name);
        assert forall j :: 1 <= j < |subnets| ==> subnets[j] == subnets[1..][j - 1];
        if Lookup(subnets, name).Some? {
          var k: nat :| FirstNamed(subnets[1..], name, k) && subnets[1..][k] == Lookup(subnets, name).value;
          assert FirstNamed(subnets, name, k + 1);
        }
      }
    }
  }

  /** Deleting a subnet asks for the network, then for the subnet, then whether some NIC is in it;
      only the first subnet of the name goes, and nothing else changes. */
  lemma {:induction false} SubnetDeleteExactly(s: State, name: string)
    ensures var (t, bad) := Step(s, DeleteSubnet(name));
            && (bad == Some(NotFound) <==> s.vnet.None?)
            && (bad == Some(SubnetInUse) <==> s.vnet.Some? && HasSubnet(s.vnet.value.subnets, name) && name in s.attached)
            && (bad.Some? ==> bad.value in {NotFound, SubnetInUse} && t == s)
            && (bad.None? ==>
                  && t.vnet.Some? && t.vnet.value.space == s.vnet.value.space && t.attached == s.attached
                  && WithoutFirst(s.vnet.value.subnets, name, t.vnet.value.subnets))
  {
    if s.vnet.Some? {
      LookupExactly(s.vnet.value.subnets, name);
      WithoutExactly(s.vnet.value.subnets, name);
      if Lookup(s.vnet.value.subnets, name).Some? {
        assert HasSubnet(s.vnet.value.subnets, name);
      }
    }
  }

  /** The prefix a subnet write asks for: the one it gives, and a PATCH of an existing subnet
      without one keeps that subnet's. */
  ghost predicate AsksFor(before: seq<Subnet>, r: Request, text: PrefixText)
    requires r.PutSubnet?
  {
    if r.prefix.Some? then text == r.prefix.value
    else if r.patch && HasSubnet(before, r.name) then exists k: nat :: FirstNamed(before, r.name, k) && text == Some(before[k].prefix)
    else text.None?
  }

  lemma PrefixAsked(s: State, r: Request) returns (text: PrefixText)
    requires r.PutSubnet? && s.vnet.Some?
    ensures AsksFor(s.vnet.value.subnets, r, text)
    ensures SubnetPut(s, r.name, r.patch, r.prefix) == SubnetPut(s, r.name, false, Some(text))
  {
    var before := s.vnet.value.subnets;
    var cur := Lookup(before, r.name);
    LookupExactly(before, r.name);
    text := if r.prefix.Some? then r.prefix.value else if r.patch && cur.Some? then Some(cur.value.prefix) else None;
    if cur.Some? {
      assert HasSubnet(before, r.name);
    }
  }

  lemma PutWithPrefix(s: State, name: string, text: PrefixText, others: seq<Subnet>, args: seq<SubnetArg>)
    requires s.vnet.Some? && others == Without(s.vnet.value.subnets, name) && args == AsArgs(others) + [SubnetArg(name, text)]
    ensures SubnetPut(s, name, false, Some(text)).1 == Validate(s, Missing, Some(args), true)
    ensures SubnetPut(s, name, false, Some(text)).1.None? ==>
              text.Some? && SubnetPut(s, name, false, Some(text)).0 == s.(vnet := Some(s.vnet.value.(subnets := others + [Subnet(name, text.value)])))
  {
    if Validate(s, Missing, Some(args), true).None? {
      var stored := ParsedSubnets(CheckedSpace(s, Missing), args);
      ParsedDescribes(CheckedSpace(s, Missing), args);
      assert args[|others|] == SubnetArg(name, text);
      assert stored == others + [Subnet(name, text.value)];
    }
  }

  /** A subnet write puts the subnet last, in place of the first of its name, if the list so made
      would do for the network as it is, and is refused for what is wrong with that list. */
  lemma {:induction false} SubnetPutExactly(s: State, r: Request)
    returns (text: PrefixText, others: seq<Subnet>, blocks: seq<PrefixText>, args: seq<SubnetArg>)
    requires r.PutSubnet? && s.vnet.Some?
    ensures AsksFor(s.vnet.value.subnets, r, text) && WithoutFirst(s.vnet.value.subnets, r.name, others)
    ensures Spells(blocks, s.vnet.value.space)
    ensures |args| == |others| + 1 && Describes(args[..|others|], others) && args[|others|] == SubnetArg(r.name, text)
    ensures match Step(s, r).1
            case Some(e) => Wrong(s, blocks, args, Some(args), true, e) && Step(s, r).0 == s
            case None =>
              && (forall e :: !Wrong(s, blocks, args, Some(args), true, e))
              && text.Some? && Step(s, r).0 == s.(vnet := Some(s.vnet.value.(subnets := others + [Subnet(r.name, text.value)])))
  {
    text := PrefixAsked(s, r);
    others := Without(s.vnet.value.subnets, r.name);
    WithoutExactly(s.vnet.value.subnets, r.name);
    args := AsArgs(others) + [SubnetArg(r.name, text)];
    var checked: seq<SubnetArg>;
    blocks, checked := ValidateExactly(s, Missing, Some(args), true);
    assert args[..|others|] == AsArgs(others);
    PutWithPrefix(s, r.name, text, others, args);
  }

  /** Without a network a subnet is neither written nor deleted, and deleting the network leaves none. */
  lemma NoNetworkNoSubnets(s: State, r: Request)
    ensures s.vnet.None? && (r.PutSubnet? || r.DeleteSubnet?) ==> Step(s, r) == (s, Some(NotFound))
    ensures r.Delete? ==> Step(s, r).1.None? && Step(s, r).0.vnet.None? && Step(s, r).0.attached == s.attached
  {
  }
}
