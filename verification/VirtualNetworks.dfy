/** One virtual network: its address space, its inline subnets, and the writes to
    both. Subnet names are taken lower-cased. */
module VirtualNetworks {
  import opened Common
  import opened Ipv4

  datatype Subnet = Subnet(name: string, prefix: Prefix)

  datatype VNet = VNet(space: seq<Prefix>, subnets: seq<Subnet>)

  /** A prefix in a payload; `None` is text that is not a CIDR block. */
  type PrefixText = Option<Prefix>

  datatype SubnetArg = SubnetArg(name: string, prefix: PrefixText)

  /** The `addressSpace` of a payload: missing or empty, null, without `addressPrefixes`, or with them. */
  datatype SpaceArg = Missing | Null | Bare | Given(prefixes: seq<PrefixText>)

  datatype Error = InvalidFormat | InvalidSpace | OutsideVnet | SubnetsOverlap | SubnetInUse | InvalidRequest | NotFound

  /** `attached` names the subnets some NIC is in. */
  datatype State = State(vnet: Option<VNet>, attached: set<string>)

  datatype Request =
    | Write(patch: bool, space: SpaceArg, subnets: Option<seq<SubnetArg>>, restValid: bool)
    | PutSubnet(name: string, patch: bool, prefix: Option<PrefixText>)
    | DeleteSubnet(name: string)
    | Delete
    | Attach(attached: set<string>)

  /** The catalogue's default space, 10.0.0.0/16. */
  const DEFAULT_SPACE: Prefix := Cidr(10 * 0x1000000, 16)

  // ---------- validation ----------

  predicate Meets(p: Prefix, texts: seq<PrefixText>) {
    exists i :: 0 <= i < |texts| && texts[i].Some? && Overlaps(p, texts[i].value)
  }

  function SpaceProblem(space: seq<PrefixText>): Option<Error> {
    if space == [] then None
    else
      var n := |space| - 1;
      match SpaceProblem(space[..n])
      case Some(e) => Some(e)
      case None =>
        if space[n].None? then Some(InvalidFormat)
        else if Meets(space[n].value, space[..n]) then Some(InvalidSpace)
        else None
  }

  predicate Contained(p: Prefix, space: seq<PrefixText>) {
    exists i :: 0 <= i < |space| && space[i].Some? && SubnetOf(p, space[i].value)
  }

  function Texts(args: seq<SubnetArg>): seq<PrefixText> {
    seq(|args|, i requires 0 <= i < |args| => args[i].prefix)
  }

  function SubnetProblem(space: seq<PrefixText>, args: seq<SubnetArg>): Option<Error> {
    if args == [] then None
    else
      var n := |args| - 1;
      match SubnetProblem(space, args[..n])
      case Some(e) => Some(e)
      case None =>
        if args[n].prefix.None? then Some(InvalidFormat)
        else if space != [] && !Contained(args[n].prefix.value, space) then Some(OutsideVnet)
        else if Meets(args[n].prefix.value, Texts(args[..n])) then Some(SubnetsOverlap)
        else None
  }

  function AsTexts(ps: seq<Prefix>): seq<PrefixText> {
    seq(|ps|, i requires 0 <= i < |ps| => Some(ps[i]))
  }

  function AsArgs(subnets: seq<Subnet>): seq<SubnetArg> {
    seq(|subnets|, i requires 0 <= i < |subnets| => SubnetArg(subnets[i].name, Some(subnets[i].prefix)))
  }

  function OldSpace(s: State): seq<Prefix> {
    if s.vnet.Some? then s.vnet.value.space else []
  }

  function OldSubnets(s: State): seq<Subnet> {
    if s.vnet.Some? then s.vnet.value.subnets else []
  }

  /** The space a write is checked against: its own, or the one of the old record. */
  function CheckedSpace(s: State, space: SpaceArg): seq<PrefixText> {
    match space
    case Missing => AsTexts(OldSpace(s))
    case Null => AsTexts(OldSpace(s))
    case Bare => []
    case Given(ps) => ps
  }

  predicate Named(args: seq<SubnetArg>, name: string) {
    exists i :: 0 <= i < |args| && args[i].name == name
  }

  /** A listed write drops a subnet that some NIC is in. */
  predicate DropsAttached(s: State, args: seq<SubnetArg>) {
    exists i :: 0 <= i < |OldSubnets(s)| && !Named(args, OldSubnets(s)[i].name) && OldSubnets(s)[i].name in s.attached
  }

  function Validate(s: State, space: SpaceArg, subnets: Option<seq<SubnetArg>>, restValid: bool): Option<Error> {
    var nets := CheckedSpace(s, space);
    var args := if subnets.Some? then subnets.value else AsArgs(OldSubnets(s));
    if SpaceProblem(nets).Some? then SpaceProblem(nets)
    else if SubnetProblem(nets, args).Some? then SubnetProblem(nets, args)
    else if subnets.Some? && DropsAttached(s, args) then Some(SubnetInUse)
    else if !restValid then Some(InvalidRequest)
    else None
  }

  // ---------- requests ----------

  function Parsed(texts: seq<PrefixText>): seq<Prefix>
    requires SpaceProblem(texts).None?
  {
    AllValid(texts);
    seq(|texts|, i requires 0 <= i < |texts| => texts[i].value)
  }

  function ParsedSubnets(space: seq<PrefixText>, args: seq<SubnetArg>): seq<Subnet>
    requires SubnetProblem(space, args).None?
  {
    AllSubnetsValid(space, args);
    assert forall i :: 0 <= i < |args| ==> Texts(args)[i] == args[i].prefix;
    seq(|args|, i requires 0 <= i < |args| => Subnet(args[i].name, args[i].prefix.value))
  }

  /** What an accepted write leaves: a PUT starts from the catalogue's defaults, a PATCH from
      the old record; a space of null is stored, so that the network has none. */
  function Stored(s: State, patch: bool, space: SpaceArg, subnets: Option<seq<SubnetArg>>): VNet
    requires Validate(s, space, subnets, true).None?
  {
    var from := if patch && s.vnet.Some? then s.vnet.value else VNet([DEFAULT_SPACE], []);
    VNet(if space.Given? then Parsed(space.prefixes) else if space.Null? then [] else from.space,
         if subnets.Some? then ParsedSubnets(CheckedSpace(s, space), subnets.value) else from.subnets)
  }

  /** The subnet list without the first entry of this name. */
  function Without(subnets: seq<Subnet>, name: string): seq<Subnet> {
    if subnets == [] then []
    else if subnets[0].name == name then subnets[1..]
    else [subnets[0]] + Without(subnets[1..], name)
  }

  function Lookup(subnets: seq<Subnet>, name: string): Option<Subnet> {
    if subnets == [] then None
    else if subnets[0].name == name then Some(subnets[0])
    else Lookup(subnets[1..], name)
  }

  function SubnetPut(s: State, name: string, patch: bool, prefix: Option<PrefixText>): (State, Option<Error>) {
    if s.vnet.None? then (s, Some(NotFound))
    else
      var cur := Lookup(s.vnet.value.subnets, name);
      var text := if prefix.Some? then prefix.value
                  else if patch && cur.Some? then Some(cur.value.prefix) else None;
      var args := AsArgs(Without(s.vnet.value.subnets, name)) + [SubnetArg(name, text)];
      var bad := Validate(s, Missing, Some(args), true);
      if bad.Some? then (s, bad)
      else (s.(vnet := Some(s.vnet.value.(subnets := ParsedSubnets(CheckedSpace(s, Missing), args)))), None)
  }

  function SubnetDelete(s: State, name: string): (State, Option<Error>) {
    if s.vnet.None? then (s, Some(NotFound))
    else if Lookup(s.vnet.value.subnets, name).None? then (s, None)
    else if name in s.attached then (s, Some(SubnetInUse))
    else (s.(vnet := Some(s.vnet.value.(subnets := Without(s.vnet.value.subnets, name)))), None)
  }

  /** The new state, and why the request was refused if it was. */
  function Step(s: State, r: Request): (State, Option<Error>) {
    match r
    case Write(patch, space, subnets, restValid) =>
      var bad := Validate(s, space, subnets, restValid);
      if bad.Some? then (s, bad) else (s.(vnet := Some(Stored(s, patch, space, subnets))), None)
    case PutSubnet(name, patch, prefix) => SubnetPut(s, name, patch, prefix)
    case DeleteSubnet(name) => SubnetDelete(s, name)
    case Delete => (s.(vnet := None), None)
    case Attach(attached) => (s.(attached := attached), None)
  }

  function Run(s: State, rs: seq<Request>): State {
    if rs == [] then s else Step(Run(s, rs[..|rs| - 1]), rs[|rs| - 1]).0
  }

  const START := State(None, {})

  // ---------- what validation means ----------

  ghost predicate TextsApart(texts: seq<PrefixText>) {
    && (forall i :: 0 <= i < |texts| ==> texts[i].Some?)
    && (forall i, j :: 0 <= i < j < |texts| ==> !Overlaps(texts[j].value, texts[i].value))
  }

  lemma {:induction false} AllValid(texts: seq<PrefixText>)
    ensures SpaceProblem(texts).None? <==> TextsApart(texts)
  {
    if texts != [] {
      var n := |texts| - 1;
      AllValid(texts[..n]);
      TextsApartSnoc(texts[..n], texts[n]);
      assert texts == texts[..n] + [texts[n]];
    }
  }

  lemma TextsApartSnoc(init: seq<PrefixText>, last: PrefixText)
    ensures TextsApart(init + [last]) <==> TextsApart(init) && last.Some? && !Meets(last.value, init)
  {
    var texts, n := init + [last], |init|;
    assert forall i :: 0 <= i < n ==> texts[i] == init[i];
    assert texts[n] == last;
  }

  /** A subnet of the payload lies in one block of the space. */
  predicate Fits(arg: SubnetArg, space: seq<PrefixText>) {
    arg.prefix.Some? && Contained(arg.prefix.value, space)
  }

  lemma {:induction false} AllSubnetsValid(space: seq<PrefixText>, args: seq<SubnetArg>)
    ensures SubnetProblem(space, args).None? <==>
            TextsApart(Texts(args)) && (space != [] ==> forall i :: 0 <= i < |args| ==> Fits(args[i], space))
  {
    if args != [] {
      var n := |args| - 1;
      AllSubnetsValid(space, args[..n]);
      assert Texts(args)[..n] == Texts(args[..n]);
      AllValid(Texts(args));
      AllValid(Texts(args[..n]));
      assert Texts(args)[n] == args[n].prefix;
    }
  }

  // ---------- invariants ----------

  ghost predicate Apart(ps: seq<Prefix>) {
    forall i, j :: 0 <= i < j < |ps| ==> !Overlaps(ps[j], ps[i])
  }

  ghost predicate SubnetsApart(subnets: seq<Subnet>) {
    forall i, j :: 0 <= i < j < |subnets| ==> !Overlaps(subnets[j].prefix, subnets[i].prefix)
  }

  /** No two subnets and no two address spaces share an address. */
  ghost predicate Disjoint(s: State) {
    s.vnet.Some? ==> Apart(s.vnet.value.space) && SubnetsApart(s.vnet.value.subnets)
  }

  predicate InSpace(p: Prefix, space: seq<Prefix>) {
    exists i :: 0 <= i < |space| && SubnetOf(p, space[i])
  }

  /** Every subnet lies in one of the address spaces, if there are any. */
  ghost predicate Inside(s: State) {
    s.vnet.Some? && s.vnet.value.space != [] ==>
      forall i :: 0 <= i < |s.vnet.value.subnets| ==> InSpace(s.vnet.value.subnets[i].prefix, s.vnet.value.space)
  }

  lemma {:induction false} WithoutIsPart(subnets: seq<Subnet>, name: string)
    requires SubnetsApart(subnets)
    ensures SubnetsApart(Without(subnets, name))
  {
    if subnets != [] && subnets[0].name != name {
      var tail := subnets[1..];
      WithoutIsPart(tail, name);
      WithoutSubset(tail, name);
      var w := Without(tail, name);
      forall j | 0 <= j < |w|
        ensures !Overlaps(w[j].prefix, subnets[0].prefix)
      {
        assert w[j] in tail;
        var k :| 0 <= k < |tail| && tail[k] == w[j];
        assert subnets[k + 1] == w[j];
      }
    }
  }

  lemma {:induction false} WithoutSubset(subnets: seq<Subnet>, name: string)
    ensures forall x :: x in Without(subnets, name) ==> x in subnets
  {
    if subnets != [] {
      WithoutSubset(subnets[1..], name);
    }
  }

  lemma ParsedApart(space: seq<PrefixText>, args: seq<SubnetArg>)
    requires SubnetProblem(space, args).None?
    ensures SubnetsApart(ParsedSubnets(space, args))
  {
    AllSubnetsValid(space, args);
    var t := ParsedSubnets(space, args);
    forall i, j | 0 <= i < j < |t|
      ensures !Overlaps(t[j].prefix, t[i].prefix)
    {
      assert Texts(args)[i] == Some(t[i].prefix) && Texts(args)[j] == Some(t[j].prefix);
    }
  }

  lemma StepDisjoint(s: State, r: Request)
    requires Disjoint(s)
    ensures Disjoint(Step(s, r).0)
  {
    match r
    case Write(patch, space, subnets, restValid) =>
      if Validate(s, space, subnets, restValid).None? {
        var t := Stored(s, patch, space, subnets);
        if space.Given? {
          AllValid(space.prefixes);
        }
        if subnets.Some? {
          ParsedApart(CheckedSpace(s, space), subnets.value);
        }
        assert Apart(t.space) && SubnetsApart(t.subnets);
      }
    case PutSubnet(name, patch, prefix) =>
      if Step(s, r).1.None? {
        var cur := Lookup(s.vnet.value.subnets, name);
        var text := if prefix.Some? then prefix.value
                    else if patch && cur.Some? then Some(cur.value.prefix) else None;
        ParsedApart(CheckedSpace(s, Missing), AsArgs(Without(s.vnet.value.subnets, name)) + [SubnetArg(name, text)]);
      }
    case DeleteSubnet(name) =>
      if s.vnet.Some? {
        WithoutIsPart(s.vnet.value.subnets, name);
      }
    case Delete =>
    case Attach(_) =>
  }

  /** In every reachable state the subnets are pairwise disjoint, and so are the spaces. */
  lemma {:induction false} SubnetsAlwaysDisjoint(rs: seq<Request>)
    ensures Disjoint(Run(START, rs))
  {
    if rs != [] {
      SubnetsAlwaysDisjoint(rs[..|rs| - 1]);
      StepDisjoint(Run(START, rs[..|rs| - 1]), rs[|rs| - 1]);
    }
  }

  /** No address belongs to two subnets. */
  lemma OneSubnetPerAddress(rs: seq<Request>, i: nat, j: nat, ip: nat)
    requires Run(START, rs).vnet.Some?
    requires i < |Run(START, rs).vnet.value.subnets| && j < |Run(START, rs).vnet.value.subnets|
    requires Holds(Run(START, rs).vnet.value.subnets[i].prefix, ip) && Holds(Run(START, rs).vnet.value.subnets[j].prefix, ip)
    ensures i == j
  {
    SubnetsAlwaysDisjoint(rs);
    var subnets := Run(START, rs).vnet.value.subnets;
    if i < j {
      NestedOrDisjoint(subnets[j].prefix, subnets[i].prefix);
    } else if j < i {
      NestedOrDisjoint(subnets[i].prefix, subnets[j].prefix);
    }
  }

  // ---------- containment ----------

  lemma ContainedParsed(p: Prefix, texts: seq<PrefixText>)
    requires SpaceProblem(texts).None?
    ensures Contained(p, texts) <==> InSpace(p, Parsed(texts))
  {
    AllValid(texts);
    if i :| 0 <= i < |texts| && SubnetOf(p, texts[i].value) {
      assert SubnetOf(p, Parsed(texts)[i]);
    }
  }

  lemma ContainedAsTexts(p: Prefix, space: seq<Prefix>)
    ensures Contained(p, AsTexts(space)) <==> InSpace(p, space)
  {
    if i :| 0 <= i < |space| && SubnetOf(p, space[i]) {
      assert AsTexts(space)[i] == Some(space[i]);
    }
  }

  /** A write that carries address prefixes, or patches an existing network without
      mentioning its space, keeps every subnet inside. */
  lemma WriteKeepsInside(s: State, patch: bool, space: SpaceArg, subnets: Option<seq<SubnetArg>>)
    requires Inside(s) && Validate(s, space, subnets, true).None?
    requires space.Given? || (patch && s.vnet.Some? && space.Missing?)
    ensures Inside(State(Some(Stored(s, patch, space, subnets)), s.attached))
  {
    if space.Given? {
      GivenKeepsInside(s, patch, space, subnets);
    } else {
      var t := Stored(s, patch, space, subnets);
      var nets := CheckedSpace(s, space);
      var args := if subnets.Some? then subnets.value else AsArgs(OldSubnets(s));
      AllSubnetsValid(nets, args);
      forall i | 0 <= i < |t.subnets| && t.space != []
        ensures InSpace(t.subnets[i].prefix, t.space)
      {
        ContainedAsTexts(t.subnets[i].prefix, t.space);
        assert |nets| == |t.space|;
        assert Fits(args[i], nets) && args[i].prefix == Some(t.subnets[i].prefix);
      }
    }
  }

  lemma {:induction false} GivenKeepsInside(s: State, patch: bool, space: SpaceArg, subnets: Option<seq<SubnetArg>>)
    requires Validate(s, space, subnets, true).None? && space.Given?
    ensures Inside(State(Some(Stored(s, patch, space, subnets)), s.attached))
  {
    var t := Stored(s, patch, space, subnets);
    var args := if subnets.Some? then subnets.value else AsArgs(OldSubnets(s));
    AllSubnetsValid(space.prefixes, args);
    if subnets.Some? || (patch && s.vnet.Some?) {
      forall i | 0 <= i < |t.subnets| && t.space != []
        ensures InSpace(t.subnets[i].prefix, t.space)
      {
        assert Fits(args[i], space.prefixes) && args[i].prefix == Some(t.subnets[i].prefix);
        ContainedParsed(t.subnets[i].prefix, space.prefixes);
      }
    } else {
      assert t.subnets == [];
    }
  }

  predicate LiesIn(arg: SubnetArg, space: seq<Prefix>) {
    arg.prefix.Some? && InSpace(arg.prefix.value, space)
  }

  /** The space a write leaves the network with when it gives no prefixes. */
  function InheritedSpace(s: State, r: Request): seq<Prefix>
    requires r.Write?
  {
    if r.space.Null? then [] else if r.patch && s.vnet.Some? then s.vnet.value.space else [DEFAULT_SPACE]
  }

  /** What a write's caller can check in the state before: it gives prefixes, or lists no
      subnets, or lists only subnets of the space the network will have. */
  ghost predicate KeepsContainment(s: State, r: Request)
    requires r.Write?
  {
    || r.space.Given?
    || r.subnets.None?
    || InheritedSpace(s, r) == []
    || forall i :: 0 <= i < |r.subnets.value| ==> LiesIn(r.subnets.value[i], InheritedSpace(s, r))
  }

  /** An accepted write leaves every subnet inside the stored address space exactly when it
      keeps containment: a write without prefixes is checked against the old space, or none,
      but a PUT is stored with the default one. */
  lemma ContainmentExactly(s: State, r: Request)
    requires r.Write? && Inside(s) && Step(s, r).1.None?
    ensures Inside(Step(s, r).0) <==> KeepsContainment(s, r)
  {
    var t := Step(s, r).0.vnet.value;
    if r.space.Given? {
      WriteKeepsInside(s, r.patch, r.space, r.subnets);
    } else if r.subnets.Some? {
      var args := r.subnets.value;
      AllSubnetsValid(CheckedSpace(s, r.space), args);
      assert t.space == InheritedSpace(s, r);
      forall i | 0 <= i < |args|
        ensures InSpace(t.subnets[i].prefix, t.space) <==> LiesIn(args[i], t.space)
      {
        assert Texts(args)[i] == args[i].prefix == Some(t.subnets[i].prefix);
      }
    }
  }

  /** A PATCH that does not mention the space of an existing network is checked against the
      space it keeps, so it keeps containment whenever it is accepted. */
  lemma PatchKeepsContainment(s: State, r: Request)
    requires r.Write? && r.patch && r.space.Missing? && s.vnet.Some? && Inside(s) && Step(s, r).1.None?
    ensures KeepsContainment(s, r)
  {
    WriteKeepsInside(s, r.patch, r.space, r.subnets);
    ContainmentExactly(s, r);
  }

  /** Subnets that pass validation against a space lie in it. */
  lemma ParsedInside(space: seq<Prefix>, args: seq<SubnetArg>)
    requires SubnetProblem(AsTexts(space), args).None? && space != []
    ensures var subnets := ParsedSubnets(AsTexts(space), args);
            forall i :: 0 <= i < |subnets| ==> InSpace(subnets[i].prefix, space)
  {
    AllSubnetsValid(AsTexts(space), args);
    var subnets := ParsedSubnets(AsTexts(space), args);
    forall i | 0 <= i < |subnets|
      ensures InSpace(subnets[i].prefix, space)
    {
      FitsInside(space, args, i);
    }
  }

  lemma FitsInside(space: seq<Prefix>, args: seq<SubnetArg>, i: nat)
    requires i < |args| && Fits(args[i], AsTexts(space))
    ensures InSpace(args[i].prefix.value, space)
  {
    ContainedAsTexts(args[i].prefix.value, space);
  }

  lemma SubnetPutInside(s: State, r: Request)
    requires r.PutSubnet? && Inside(s)
    ensures Inside(Step(s, r).0)
  {
    if Step(s, r).1.None? && s.vnet.value.space != [] {
      var cur := Lookup(s.vnet.value.subnets, r.name);
      var text := if r.prefix.Some? then r.prefix.value
                  else if r.patch && cur.Some? then Some(cur.value.prefix) else None;
      var args := AsArgs(Without(s.vnet.value.subnets, r.name)) + [SubnetArg(r.name, text)];
      ParsedInside(s.vnet.value.space, args);
    }
  }

  /** Every request but a network write keeps subnets inside. */
  lemma OthersKeepInside(s: State, r: Request)
    requires Inside(s) && (!r.Write? || Step(s, r).1.Some?)
    ensures Inside(Step(s, r).0)
  {
    match r
    case Write(_, _, _, _) =>
    case PutSubnet(_, _, _) => SubnetPutInside(s, r);
    case DeleteSubnet(name) =>
      if s.vnet.Some? {
        SubnetDeleteInside(s, name);
      }
    case Delete =>
    case Attach(_) =>
  }

  ghost predicate AcceptedKeeps(s: State, r: Request) {
    r.Write? && Step(s, r).1.None? ==> KeepsContainment(s, r)
  }

  /** Every state of the run, from the first one on, has its subnets inside. */
  ghost predicate AllInside(rs: seq<Request>) {
    Inside(Run(START, rs)) && (rs != [] ==> AllInside(rs[..|rs| - 1]))
  }

  /** Every network write the run accepts keeps containment in the state it meets. */
  ghost predicate AllKeep(rs: seq<Request>) {
    rs != [] ==> AllKeep(rs[..|rs| - 1]) && AcceptedKeeps(Run(START, rs[..|rs| - 1]), rs[|rs| - 1])
  }

  /** Throughout a run every subnet lies in one of its network's address spaces, exactly when
      every accepted network write keeps containment in the state it meets. */
  lemma {:induction false} InsideThroughoutExactly(rs: seq<Request>)
    ensures AllInside(rs) <==> AllKeep(rs)
  {
    if rs != [] {
      var n := |rs| - 1;
      InsideThroughoutExactly(rs[..n]);
      if Inside(Run(START, rs[..n])) {
        InsideStep(Run(START, rs[..n]), rs[n]);
      }
    }
  }

  lemma InsideStep(s: State, r: Request)
    requires Inside(s)
    ensures Inside(Step(s, r).0) <==> AcceptedKeeps(s, r)
  {
    if r.Write? && Step(s, r).1.None? {
      ContainmentExactly(s, r);
    } else {
      OthersKeepInside(s, r);
    }
  }

  /** Over a run whose every network write gives prefixes, or patches an existing network
      without mentioning its space, or keeps containment in the state it meets, every subnet
      always lies in one of its network's address spaces. */
  lemma {:induction false} AlwaysInside(rs: seq<Request>)
    requires forall i :: 0 <= i < |rs| && rs[i].Write? ==>
               || rs[i].space.Given?
               || (rs[i].patch && rs[i].space.Missing? && Run(START, rs[..i]).vnet.Some?)
               || KeepsContainment(Run(START, rs[..i]), rs[i])
    ensures Inside(Run(START, rs))
  {
    if rs != [] {
      var n := |rs| - 1;
      assert forall i :: 0 <= i < n ==> rs[..n][..i] == rs[..i];
      AlwaysInside(rs[..n]);
      var s, r := Run(START, rs[..n]), rs[n];
      if r.Write? && Step(s, r).1.None? && r.patch && r.space.Missing? && s.vnet.Some? {
        PatchKeepsContainment(s, r);
      }
      InsideStep(s, r);
    }
  }

  lemma DefaultIsAboveZero()
    ensures Base(DEFAULT_SPACE) > 0
  {
    Pow2Splits(8, 16);
    assert Pow2(8) == 256 by {
      Pow2Splits(4, 8);
      assert Pow2(4) == 16;
    }
  }

  /** Two PUTs, the second without a space: it is checked against the first one's space and
      stored with the default one, which does not hold the subnet. */
  lemma PutCanLeaveSpace()
    ensures exists rs :: |rs| == 2 && Step(START, rs[0]).1.None? && Step(Run(START, rs[..1]), rs[1]).1.None? && !Inside(Run(START, rs))
  {
    var p: Prefix := Cidr(0, 32);
    assert Pow2(0) == 1;
    var first := Write(false, Given([Some(p)]), None, true);
    var second := Write(false, Missing, Some([SubnetArg("a", Some(p))]), true);
    FirstAccepted(p);
    SecondAccepted(p);
    DefaultIsAboveZero();
    var rs := [first, second];
    assert rs[..1] == [first] && [first][..0] == [] && rs[..1][..0] == [];
    assert Run(START, rs[..1]) == Step(START, first).0;
    assert !LiesIn(second.subnets.value[0], [DEFAULT_SPACE]);
    ContainmentExactly(Run(START, rs[..1]), second);
  }

  lemma FirstAccepted(p: Prefix)
    ensures var r := Write(false, Given([Some(p)]), None, true);
            Step(START, r).1.None? && Step(START, r).0 == State(Some(VNet([p], [])), {})
  {
    var texts: seq<PrefixText> := [Some(p)];
    AllValid(texts);
    AllSubnetsValid(texts, AsArgs([]));
    assert Parsed(texts) == [p];
  }

  lemma SecondAccepted(p: Prefix)
    ensures Step(State(Some(VNet([p], [])), {}), Write(false, Missing, Some([SubnetArg("a", Some(p))]), true)).1.None?
  {
    var args := [SubnetArg("a", Some(p))];
    assert AsTexts([p]) == [Some(p)];
    AllValid(AsTexts([p]));
    assert Contained(p, AsTexts([p])) by {
      assert SubnetOf(p, AsTexts([p])[0].value);
    }
    AllSubnetsValid(AsTexts([p]), args);
  }

  lemma SubnetDeleteInside(s: State, name: string)
    requires Inside(s) && s.vnet.Some?
    ensures Inside(SubnetDelete(s, name).0)
  {
    var before, w := s.vnet.value.subnets, Without(s.vnet.value.subnets, name);
    WithoutSubset(before, name);
    forall i | 0 <= i < |w| && s.vnet.value.space != []
      ensures InSpace(w[i].prefix, s.vnet.value.space)
    {
      assert w[i] in before;
    }
  }

  // ---------- subnets in use ----------

  lemma {:induction false} LookupAppended(subnets: seq<Subnet>, last: Subnet, name: string)
    ensures Lookup(subnets + [last], name) ==
            if Lookup(subnets, name).Some? then Lookup(subnets, name) else if last.name == name then Some(last) else None
  {
    if subnets == [] {
      assert subnets + [last] == [last];
    } else {
      assert (subnets + [last])[1..] == subnets[1..] + [last];
      LookupAppended(subnets[1..], last, name);
    }
  }

  lemma {:induction false} LookupWithout(subnets: seq<Subnet>, name: string, other: string)
    requires other != name
    ensures Lookup(Without(subnets, name), other) == Lookup(subnets, other)
  {
    if subnets != [] && subnets[0].name != name {
      LookupWithout(subnets[1..], name, other);
    }
  }

  /** An accepted subnet write is what a lookup of its name finds, unless the network listed
      that name twice: then a lookup finds the old second entry. Other names keep theirs. */
  lemma SubnetPutThenRead(s: State, r: Request, other: string)
    requires r.PutSubnet? && r.prefix.Some? && Step(s, r).1.None?
    ensures s.vnet.Some? && r.prefix.value.Some?
    ensures var before, after := s.vnet.value.subnets, OldSubnets(Step(s, r).0);
            && (Lookup(after, r.name) == Some(Subnet(r.name, r.prefix.value.value)) <==>
                Lookup(Without(before, r.name), r.name) in {None, Some(Subnet(r.name, r.prefix.value.value))})
            && (other != r.name ==> Lookup(after, other) == Lookup(before, other))
  {
    var before := s.vnet.value.subnets;
    var args := AsArgs(Without(before, r.name)) + [SubnetArg(r.name, r.prefix.value)];
    AllSubnetsValid(CheckedSpace(s, Missing), args);
    assert args[|args| - 1].prefix == Texts(args)[|args| - 1];
    var added := Subnet(r.name, r.prefix.value.value);
    assert OldSubnets(Step(s, r).0) == Without(before, r.name) + [added];
    LookupAppended(Without(before, r.name), added, r.name);
    if other != r.name {
      LookupAppended(Without(before, r.name), added, other);
      LookupWithout(before, r.name, other);
    }
  }

  ghost predicate HasSubnet(subnets: seq<Subnet>, name: string) {
    exists i :: 0 <= i < |subnets| && subnets[i].name == name
  }

  /** An accepted write keeps every subnet some NIC is in, except that a write which
      starts from the defaults and lists no subnets drops them all unchecked. */
  lemma AttachedSubnetsKept(s: State, r: Request)
    requires r.Write? && Step(s, r).1.None?
    ensures (forall i :: 0 <= i < |OldSubnets(s)| && OldSubnets(s)[i].name in s.attached ==>
               HasSubnet(OldSubnets(Step(s, r).0), OldSubnets(s)[i].name))
            <==> r.subnets.Some? || (r.patch && s.vnet.Some?)
                 || forall i :: 0 <= i < |OldSubnets(s)| ==> OldSubnets(s)[i].name !in s.attached
  {
    var t := OldSubnets(Step(s, r).0);
    if r.subnets.Some? {
      AllSubnetsValid(CheckedSpace(s, r.space), r.subnets.value);
      forall i | 0 <= i < |OldSubnets(s)| && OldSubnets(s)[i].name in s.attached
        ensures HasSubnet(t, OldSubnets(s)[i].name)
      {
        assert Named(r.subnets.value, OldSubnets(s)[i].name);
        var k :| 0 <= k < |r.subnets.value| && r.subnets.value[k].name == OldSubnets(s)[i].name;
        assert t[k].name == OldSubnets(s)[i].name;
      }
    } else if r.patch && s.vnet.Some? {
      assert t == OldSubnets(s);
    } else {
      assert t == [];
      assert forall name :: !HasSubnet(t, name);
    }
  }

  /** An accepted write keeps the subnets in use with their prefixes exactly when it lists each
      with the prefix it has, or lists none and patches, or none was in use: listing a subnet
      in use with another prefix moves it unchecked. */
  lemma AttachedPrefixesKept(s: State, r: Request)
    requires r.Write? && Step(s, r).1.None?
    ensures (forall x :: x in OldSubnets(s) && x.name in s.attached ==> x in OldSubnets(Step(s, r).0)) <==>
            if r.subnets.Some? then forall x :: x in OldSubnets(s) && x.name in s.attached ==> SubnetArg(x.name, Some(x.prefix)) in r.subnets.value
            else (r.patch && s.vnet.Some?) || forall x :: x in OldSubnets(s) ==> x.name !in s.attached
  {
    var t := OldSubnets(Step(s, r).0);
    if r.subnets.Some? {
      forall x
        ensures x in t <==> SubnetArg(x.name, Some(x.prefix)) in r.subnets.value
      {
        ParsedMembers(CheckedSpace(s, r.space), r.subnets.value, x);
      }
    } else if r.patch && s.vnet.Some? {
      assert t == OldSubnets(s);
    } else {
      assert t == [];
    }
  }

  lemma ParsedMembers(space: seq<PrefixText>, args: seq<SubnetArg>, x: Subnet)
    requires SubnetProblem(space, args).None?
    ensures x in ParsedSubnets(space, args) <==> SubnetArg(x.name, Some(x.prefix)) in args
  {
    AllSubnetsValid(space, args);
    var t := ParsedSubnets(space, args);
    assert forall i :: 0 <= i < |args| ==> Texts(args)[i] == args[i].prefix;
    if x in t {
      var i :| 0 <= i < |t| && t[i] == x;
      assert args[i] == SubnetArg(x.name, Some(x.prefix));
    }
    if SubnetArg(x.name, Some(x.prefix)) in args {
      var i :| 0 <= i < |args| && args[i] == SubnetArg(x.name, Some(x.prefix));
      assert t[i] == x;
    }
  }

  /** Deleting the network asks nobody: its subnets go while NICs are still in them. */
  lemma DeleteDropsSubnetsInUse(s: State, x: Subnet)
    requires x in OldSubnets(s) && x.name in s.attached
    ensures Step(s, Delete).1.None? && x.name in Step(s, Delete).0.attached && !HasSubnet(OldSubnets(Step(s, Delete).0), x.name)
  {
  }

  // ---------- the network as the program keeps it ----------

  class VirtualNetwork {
    var vnet: Option<VNet>
    var attached: set<string>

    ghost function Model(): State
      reads this
    {
      State(vnet, attached)
    }

    constructor ()
      ensures Model() == START
    {
      vnet, attached := None, {};
    }

    /** The two nested loops of the validator, over spaces and then over subnets. */
    method CheckSpace(space: seq<PrefixText>) returns (bad: Option<Error>)
      ensures bad == SpaceProblem(space)
    {
      var i := 0;
      while i < |space|
        invariant 0 <= i <= |space|
        invariant SpaceProblem(space[..i]).None?
      {
        assert space[..i + 1][..i] == space[..i] && space[..i + 1][i] == space[i];
        if space[i].None? {
          SpaceStops(space, i + 1);
          return Some(InvalidFormat);
        }
        var clash := AnyOverlap(space[i].value, space[..i]);
        if clash {
          SpaceStops(space, i + 1);
          return Some(InvalidSpace);
        }
        i := i + 1;
      }
      assert space[..i] == space;
      bad := None;
    }

    static lemma SpaceStops(space: seq<PrefixText>, n: nat)
      requires n <= |space| && SpaceProblem(space[..n]).Some?
      ensures SpaceProblem(space) == SpaceProblem(space[..n])
      decreases |space| - n
    {
      if n == |space| {
        assert space[..n] == space;
      } else {
        assert space[..n + 1][..n] == space[..n];
        SpaceStops(space, n + 1);
      }
    }

    method AnyOverlap(p: Prefix, texts: seq<PrefixText>) returns (hit: bool)
      ensures hit <==> Meets(p, texts)
    {
      var i := 0;
      while i < |texts|
        invariant 0 <= i <= |texts|
        invariant forall k :: 0 <= k < i ==> !(texts[k].Some? && Overlaps(p, texts[k].value))
      {
        if texts[i].Some? && Overlaps(p, texts[i].value) {
          return true;
        }
        i := i + 1;
      }
      hit := false;
    }

    method CheckSubnets(space: seq<PrefixText>, args: seq<SubnetArg>) returns (bad: Option<Error>)
      ensures bad == SubnetProblem(space, args)
    {
      var seen: seq<PrefixText>, i := [], 0;
      while i < |args|
        invariant 0 <= i <= |args|
        invariant seen == Texts(args[..i])
        invariant SubnetProblem(space, args[..i]).None?
      {
        assert args[..i + 1][..i] == args[..i] && args[..i + 1][i] == args[i];
        var p := args[i].prefix;
        if p.None? {
          SubnetsStop(space, args, i + 1);
          return Some(InvalidFormat);
        }
        if space != [] && !Contained(p.value, space) {
          SubnetsStop(space, args, i + 1);
          return Some(OutsideVnet);
        }
        var clash := AnyOverlap(p.value, seen);
        if clash {
          SubnetsStop(space, args, i + 1);
          return Some(SubnetsOverlap);
        }
        seen := seen + [p];
        i := i + 1;
        assert seen == Texts(args[..i]);
      }
      assert args[..i] == args;
      bad := None;
    }

    static lemma SubnetsStop(space: seq<PrefixText>, args: seq<SubnetArg>, n: nat)
      requires n <= |args| && SubnetProblem(space, args[..n]).Some?
      ensures SubnetProblem(space, args) == SubnetProblem(space, args[..n])
      decreases |args| - n
    {
      if n == |args| {
        assert args[..n] == args;
      } else {
        assert args[..n + 1][..n] == args[..n];
        SubnetsStop(space, args, n + 1);
      }
    }

    method Check(space: SpaceArg, subnets: Option<seq<SubnetArg>>, restValid: bool) returns (bad: Option<Error>)
      ensures bad == Validate(Model(), space, subnets, restValid)
    {
      var s := State(vnet, attached);
      var nets := CheckedSpace(s, space);
      bad := CheckSpace(nets);
      if bad.Some? {
        return;
      }
      var args := if subnets.Some? then subnets.value else AsArgs(OldSubnets(s));
      bad := CheckSubnets(nets, args);
      if bad.Some? {
        return;
      }
      if subnets.Some? && DropsAttached(s, args) {
        return Some(SubnetInUse);
      }
      bad := if restValid then None else Some(InvalidRequest);
    }

    /** Every request keeps subnets and spaces disjoint. */
    method Handle(r: Request) returns (bad: Option<Error>)
      requires Disjoint(Model())
      modifies this
      ensures Disjoint(Model())
      ensures (Model(), bad) == Step(old(Model()), r)
    {
      StepDisjoint(Model(), r);
      match r
      case Write(patch, space, subnets, restValid) =>
        bad := Check(space, subnets, restValid);
        if bad.None? {
          vnet := Some(Stored(State(vnet, attached), patch, space, subnets));
        }
      case PutSubnet(name, patch, prefix) =>
        if vnet.None? {
          return Some(NotFound);
        }
        var subs := vnet.value.subnets;
        var cur := Lookup(subs, name);
        var text := if prefix.Some? then prefix.value
                    else if patch && cur.Some? then Some(cur.value.prefix) else None;
        var args := AsArgs(Without(subs, name)) + [SubnetArg(name, text)];
        bad := Check(Missing, Some(args), true);
        if bad.None? {
          vnet := Some(vnet.value.(subnets := ParsedSubnets(CheckedSpace(State(vnet, attached), Missing), args)));
        }
      case DeleteSubnet(name) =>
        if vnet.None? {
          return Some(NotFound);
        }
        if Lookup(vnet.value.subnets, name).None? {
          return None;
        }
        if name in attached {
          return Some(SubnetInUse);
        }
        vnet := Some(vnet.value.(subnets := Without(vnet.value.subnets, name)));
        bad := None;
      case Delete =>
        vnet := None;
        bad := None;
      case Attach(a) =>
        attached := a;
        bad := None;
    }
  }
}
