/** Space-scoped dictionaries: one global tree of spaces behind proxies that must
    look like an independent dictionary per tenant, provider and service. Tenant and
    provider names are taken stripped and lower-cased. */
module SpaceScope {
  import opened Common

  // ---------- entities ----------

  datatype Value = Leaf(text: string) | Node(entries: map<string, Value>)

  type Dict = map<string, Value>

  /** `Junk` is a record that is no dictionary, `Blank` an empty one; empty strings are missing fields. */
  datatype Space = Junk | Blank | Space(tenant: string, provider: string, auto: bool, services: map<string, Dict>)

  datatype Tree = Tree(spaces: map<string, Space>, order: seq<string>, active: string, legacy: map<string, Dict>)

  /** Who asks: the active tenant and the provider of the request. */
  datatype Context = Context(tenant: string, provider: string)

  /** A service-wide dictionary, or the dictionary nested in it under one key. */
  datatype Proxy = Proxy(service: string, factory: Dict, nested: Option<string>)

  const DEFAULT_TENANT := "default"
  const DEFAULT_PROVIDER := "aws"

  datatype Op = Read(key: string) | Assign(key: string, value: Value) | SetDefault(key: string, value: Value)
              | Remove(key: string) | Update(with: Dict) | Clear

  /** One proxy call; `newId` is the id an automatic space gets if one is created. */
  datatype Call = Call(ctx: Context, proxy: Proxy, op: Op, newId: string)

  // ---------- finding the space ----------

  predicate Matches(s: Space, ctx: Context) {
    && s.Space?
    && (if s.tenant == "" then DEFAULT_TENANT else s.tenant) == ctx.tenant
    && (if s.provider == "" then DEFAULT_PROVIDER else s.provider) == ctx.provider
  }

  function FirstMatch(spaces: map<string, Space>, order: seq<string>, ctx: Context): Option<string> {
    if order == [] then None
    else if order[0] in spaces && Matches(spaces[order[0]], ctx) then Some(order[0])
    else FirstMatch(spaces, order[1..], ctx)
  }

  datatype Place = Legacy | At(id: string) | Nowhere

  predicate HasActive(t: Tree) {
    t.active != "" && t.active in t.spaces && t.spaces[t.active].Space?
  }

  /** Where a context's resources live at the moment. */
  function Locate(t: Tree, ctx: Context): Place {
    if !HasActive(t) then Legacy
    else if Matches(t.spaces[t.active], ctx) then At(t.active)
    else
      match FirstMatch(t.spaces, t.order, ctx)
      case Some(id) => At(id)
      case None => Nowhere
  }

  function AutoSpace(ctx: Context): Space {
    Space(ctx.tenant, ctx.provider, true, map[])
  }

  /** The tree after the pivot, with the place to use. */
  function Settle(t: Tree, ctx: Context, newId: string): (Tree, Place) {
    match Locate(t, ctx)
    case Nowhere => (t.(spaces := t.spaces[newId := AutoSpace(ctx)], order := t.order + [newId]), At(newId))
    case place => (t, place)
  }

  // ---------- the dictionary inside it ----------

  function ServiceKey(ctx: Context, p: Proxy, place: Place): string {
    if place.Legacy? || ctx.provider == DEFAULT_PROVIDER then p.service else ctx.provider + "_" + p.service
  }

  function Services(t: Tree, place: Place): map<string, Dict> {
    match place
    case Legacy => t.legacy
    case At(id) => if id in t.spaces && t.spaces[id].Space? then t.spaces[id].services else map[]
    case Nowhere => map[]
  }

  function SetServices(t: Tree, place: Place, services: map<string, Dict>): Tree {
    match place
    case Legacy => t.(legacy := services)
    case At(id) => if id in t.spaces && t.spaces[id].Space? then t.(spaces := t.spaces[id := t.spaces[id].(services := services)]) else t
    case Nowhere => t
  }

  function Target(state: Dict, p: Proxy): Dict {
    if p.nested.None? then state
    else if p.nested.value in state && state[p.nested.value].Node? then state[p.nested.value].entries
    else map[]
  }

  function WithTarget(state: Dict, p: Proxy, d: Dict): Dict {
    if p.nested.None? then d else state[p.nested.value := Node(d)]
  }

  function Effect(op: Op, d: Dict): Dict {
    match op
    case Read(_) => d
    case Assign(k, v) => d[k := v]
    case SetDefault(k, v) => if k in d then d else d[k := v]
    case Remove(k) => d - {k}
    case Update(with) => d + with
    case Clear => map[]
  }

  function StateOf(t: Tree, ctx: Context, p: Proxy, place: Place): Dict {
    var key := ServiceKey(ctx, p, place);
    if key in Services(t, place) then Services(t, place)[key] else p.factory
  }

  /** One proxy call: settle on a space, create what is missing, apply the operation. */
  function Step(t: Tree, c: Call): Tree {
    var (u, place) := Settle(t, c.ctx, c.newId);
    var state := StateOf(u, c.ctx, c.proxy, place);
    var state' := WithTarget(state, c.proxy, Effect(c.op, Target(state, c.proxy)));
    SetServices(u, place, Services(u, place)[ServiceKey(c.ctx, c.proxy, place) := state'])
  }

  /** What a context sees through a proxy, without touching the tree. */
  function View(t: Tree, ctx: Context, p: Proxy): Dict {
    Target(StateOf(t, ctx, p, Locate(t, ctx)), p)
  }

  function Run(t: Tree, cs: seq<Call>): Tree {
    if cs == [] then t else Step(Run(t, cs[..|cs| - 1]), cs[|cs| - 1])
  }

  // ---------- contexts that find their own space ----------

  predicate Named(ctx: Context) {
    ctx.tenant != "" && ctx.provider != ""
  }

  /** An automatic space belongs to the context it was created for, except when a name is empty. */
  lemma AutoSpaceIsFound(ctx: Context)
    ensures Matches(AutoSpace(ctx), ctx) <==> Named(ctx)
  {
  }

  /** The provider of a request, told from its path. */
  datatype Provider = Aws | Gcp | Azure

  function ProviderName(p: Provider): string {
    match p
    case Aws => "aws"
    case Gcp => "gcp"
    case Azure => "azure"
  }

  /** The context of a request: the tenant of its header, or else the active one, or else the default. */
  function RequestContext(header: string, active: string, p: Provider): Context {
    Context(if header != "" then header else if active != "" then active else DEFAULT_TENANT, ProviderName(p))
  }

  /** Every context the program builds is named. */
  lemma RequestsAreNamed(header: string, active: string, p: Provider)
    ensures Named(RequestContext(header, active, p))
    ensures RequestContext(header, active, p).tenant == DEFAULT_TENANT || RequestContext(header, active, p).tenant in {header, active}
  {
  }

  // ---------- places are stable ----------

  lemma {:induction false} FirstMatchFinds(spaces: map<string, Space>, order: seq<string>, ctx: Context)
    ensures match FirstMatch(spaces, order, ctx)
            case Some(id) => id in order && id in spaces && Matches(spaces[id], ctx)
            case None => forall id :: id in order && id in spaces ==> !Matches(spaces[id], ctx)
  {
    if order != [] {
      FirstMatchFinds(spaces, order[1..], ctx);
      assert order == [order[0]] + order[1..];
    }
  }

  lemma {:induction false} FirstMatchAppend(spaces: map<string, Space>, order: seq<string>, newId: string, s: Space, ctx: Context)
    requires newId !in order && newId !in spaces
    ensures FirstMatch(spaces[newId := s], order + [newId], ctx) ==
            if FirstMatch(spaces, order, ctx).Some? then FirstMatch(spaces, order, ctx)
            else if Matches(s, ctx) then Some(newId) else None
  {
    if order == [] {
      assert order + [newId] == [newId];
      assert [newId][1..] == [];
    } else {
      assert (order + [newId])[1..] == order[1..] + [newId];
      FirstMatchAppend(spaces, order[1..], newId, s, ctx);
    }
  }

  /** Two trees that differ only in what their spaces hold. */
  ghost predicate SameSpaces(t: Tree, u: Tree) {
    && t.order == u.order && t.active == u.active && t.spaces.Keys == u.spaces.Keys
    && forall id :: id in t.spaces ==>
         t.spaces[id].Space? == u.spaces[id].Space?
         && forall ctx :: Matches(t.spaces[id], ctx) == Matches(u.spaces[id], ctx)
  }

  lemma {:induction false} SameFirstMatch(t: Tree, u: Tree, order: seq<string>, ctx: Context)
    requires SameSpaces(t, u)
    ensures FirstMatch(t.spaces, order, ctx) == FirstMatch(u.spaces, order, ctx)
  {
    if order != [] {
      SameFirstMatch(t, u, order[1..], ctx);
    }
  }

  lemma SetServicesKeepsPlaces(t: Tree, place: Place, services: map<string, Dict>, ctx: Context)
    ensures Locate(SetServices(t, place, services), ctx) == Locate(t, ctx)
  {
    SameFirstMatch(t, SetServices(t, place, services), t.order, ctx);
  }

  predicate Fresh(t: Tree, id: string) {
    id !in t.spaces && id !in t.order && id != ""
  }

  lemma SettleKeepsPlaces(t: Tree, ctx: Context, newId: string, other: Context)
    requires Fresh(t, newId)
    ensures var u := Settle(t, ctx, newId).0;
            && (Locate(t, other) != Nowhere ==> Locate(u, other) == Locate(t, other))
            && (Locate(t, other) == Nowhere && Locate(u, other) != Nowhere ==> Matches(AutoSpace(ctx), other) && Locate(u, other) == At(newId))
  {
    if Locate(t, ctx) == Nowhere {
      FirstMatchAppend(t.spaces, t.order, newId, AutoSpace(ctx), other);
    }
  }

  // ---------- refinement ----------

  /** A place is never shared by two named contexts. */
  lemma PlacesApart(t: Tree, c: Context, d: Context)
    requires HasActive(t) && Locate(t, c).At? && Locate(t, d).At? && Locate(t, c).id == Locate(t, d).id
    ensures c == d
  {
    FirstMatchFinds(t.spaces, t.order, c);
    FirstMatchFinds(t.spaces, t.order, d);
  }

  lemma PlaceIsReal(t: Tree, ctx: Context, newId: string)
    requires HasActive(t) && Fresh(t, newId)
    ensures var (u, place) := Settle(t, ctx, newId);
            HasActive(u) && place.At? && place.id in u.spaces && Matches(u.spaces[place.id], ctx) == (Locate(t, ctx) != Nowhere || Named(ctx))
            && (place == Locate(t, ctx) || (Locate(t, ctx) == Nowhere && place.id == newId)) && u.spaces[place.id].Space?
  {
    FirstMatchFinds(t.spaces, t.order, ctx);
    AutoSpaceIsFound(ctx);
  }

  lemma PrefixInjective(prefix: string, a: string, b: string)
    ensures prefix + "_" + a == prefix + "_" + b ==> a == b
  {
    if prefix + "_" + a == prefix + "_" + b {
      var n := |prefix| + 1;
      assert (prefix + "_" + a)[n..] == a && (prefix + "_" + b)[n..] == b;
    }
  }

  /** A call acts on its own dictionary exactly as the operation acts on a plain one. */
  lemma CallActsOnItsView(t: Tree, c: Call)
    requires HasActive(t) && Named(c.ctx) && Fresh(t, c.newId)
    ensures View(Step(t, c), c.ctx, c.proxy) == Effect(c.op, View(t, c.ctx, c.proxy))
    ensures HasActive(Step(t, c))
  {
    var (u, place) := Settle(t, c.ctx, c.newId);
    PlaceIsReal(t, c.ctx, c.newId);
    SettleKeepsPlaces(t, c.ctx, c.newId, c.ctx);
    AutoSpaceIsFound(c.ctx);
    if Locate(t, c.ctx) == Nowhere {
      FirstMatchAppend(t.spaces, t.order, c.newId, AutoSpace(c.ctx), c.ctx);
    }
    assert Locate(u, c.ctx) == place;
    var state := StateOf(u, c.ctx, c.proxy, place);
    var services := Services(u, place)[ServiceKey(c.ctx, c.proxy, place) := WithTarget(state, c.proxy, Effect(c.op, Target(state, c.proxy)))];
    SetServicesKeepsPlaces(u, place, services, c.ctx);
  }

  /** Dictionaries that must not influence each other: another tenant or provider,
      another service, or another key of the same service (whose proxies share one factory). */
  predicate Independent(c: Context, p: Proxy, d: Context, q: Proxy) {
    || c != d
    || p.service != q.service
    || (p.nested.Some? && q.nested.Some? && p.nested != q.nested && p.factory == q.factory)
  }

  /** Two contexts that settle on one space are one. */
  lemma SettledTogether(t: Tree, c: Call, d: Context)
    requires HasActive(t) && Named(c.ctx) && Named(d) && Fresh(t, c.newId)
    ensures var (u, place) := Settle(t, c.ctx, c.newId); Locate(u, d) == place ==> c.ctx == d
  {
    var (u, place) := Settle(t, c.ctx, c.newId);
    PlaceIsReal(t, c.ctx, c.newId);
    SettleKeepsPlaces(t, c.ctx, c.newId, d);
    FirstMatchFinds(u.spaces, u.order, d);
    AutoSpaceIsFound(c.ctx);
  }

  lemma CallLeavesOthers(t: Tree, c: Call, d: Context, q: Proxy)
    requires HasActive(t) && Named(c.ctx) && Named(d) && Fresh(t, c.newId)
    requires Independent(c.ctx, c.proxy, d, q)
    ensures View(Step(t, c), d, q) == View(t, d, q)
  {
    var (u, place) := Settle(t, c.ctx, c.newId);
    PlaceIsReal(t, c.ctx, c.newId);
    SettleKeepsPlaces(t, c.ctx, c.newId, d);
    SettleKeepsView(t, c.ctx, c.newId, d, q);
    var state := StateOf(u, c.ctx, c.proxy, place);
    var services := Services(u, place)[ServiceKey(c.ctx, c.proxy, place) := WithTarget(state, c.proxy, Effect(c.op, Target(state, c.proxy)))];
    SetServicesKeepsPlaces(u, place, services, d);
    SettledTogether(t, c, d);
    if Locate(u, d) == place {
      PrefixInjective(d.provider, c.proxy.service, q.service);
    }
  }

  /** The pivot itself changes nobody's view: a new space is empty. */
  lemma SettleKeepsView(t: Tree, ctx: Context, newId: string, d: Context, q: Proxy)
    requires HasActive(t) && Fresh(t, newId)
    ensures View(Settle(t, ctx, newId).0, d, q) == View(t, d, q)
  {
    SettleKeepsPlaces(t, ctx, newId, d);
    FirstMatchFinds(t.spaces, t.order, d);
  }

  // ---------- runs ----------

  predicate FreshIds(t: Tree, cs: seq<Call>) {
    && (forall i :: 0 <= i < |cs| ==> Fresh(t, cs[i].newId) && Named(cs[i].ctx))
    && forall i, j :: 0 <= i < j < |cs| ==> cs[i].newId != cs[j].newId
  }

  lemma StepUsesOnlyFresh(t: Tree, c: Call, id: string)
    requires Fresh(t, id) && id != c.newId
    ensures Fresh(Step(t, c), id)
  {
  }

  lemma {:induction false} RunStaysFresh(t: Tree, cs: seq<Call>, id: string)
    requires HasActive(t) && FreshIds(t, cs) && Fresh(t, id)
    requires forall i :: 0 <= i < |cs| ==> cs[i].newId != id
    ensures Fresh(Run(t, cs), id) && HasActive(Run(t, cs))
  {
    if cs != [] {
      var n := |cs| - 1;
      RunStaysFresh(t, cs[..n], id);
      RunStaysFresh(t, cs[..n], cs[n].newId);
      StepUsesOnlyFresh(Run(t, cs[..n]), cs[n], id);
      CallActsOnItsView(Run(t, cs[..n]), cs[n]);
    }
  }

  /** The operations a run made on one dictionary, replayed on a plain dictionary. */
  function Replay(d: Dict, cs: seq<Call>, ctx: Context, p: Proxy): Dict {
    if cs == [] then d
    else
      var before := Replay(d, cs[..|cs| - 1], ctx, p);
      var c := cs[|cs| - 1];
      if c.ctx == ctx && c.proxy == p then Effect(c.op, before) else before
  }

  /** The proxies refine one independent dictionary per context and proxy: after any run
      over other dictionaries and this one, this one holds what its own operations left. */
  lemma {:induction false} Refinement(t: Tree, cs: seq<Call>, ctx: Context, p: Proxy)
    requires HasActive(t) && FreshIds(t, cs) && Named(ctx)
    requires forall i :: 0 <= i < |cs| ==> (cs[i].ctx == ctx && cs[i].proxy == p) || Independent(cs[i].ctx, cs[i].proxy, ctx, p)
    ensures View(Run(t, cs), ctx, p) == Replay(View(t, ctx, p), cs, ctx, p)
  {
    if cs != [] {
      var n := |cs| - 1;
      Refinement(t, cs[..n], ctx, p);
      RunStaysFresh(t, cs[..n], cs[n].newId);
      var u := Run(t, cs[..n]);
      if cs[n].ctx == ctx && cs[n].proxy == p {
        CallActsOnItsView(u, cs[n]);
      } else {
        CallLeavesOthers(u, cs[n], ctx, p);
      }
    }
  }

  /** A read right after any run of unrelated calls returns the last value assigned. */
  lemma {:induction false} ReadsLastWrite(t: Tree, c: Call, cs: seq<Call>)
    requires HasActive(t) && c.op.Assign? && FreshIds(t, [c] + cs)
    requires forall i :: 0 <= i < |cs| ==> (cs[i].ctx == c.ctx && cs[i].proxy == c.proxy && cs[i].op.Read?)
                                           || Independent(cs[i].ctx, cs[i].proxy, c.ctx, c.proxy)
    ensures var d := View(Run(Step(t, c), cs), c.ctx, c.proxy);
            c.op.key in d && d[c.op.key] == c.op.value
  {
    assert ([c] + cs)[0] == c;
    CallActsOnItsView(t, c);
    FreshTail(t, c, cs);
    RefinementOfReads(Step(t, c), cs, c.ctx, c.proxy);
  }

  lemma FreshTail(t: Tree, c: Call, cs: seq<Call>)
    requires FreshIds(t, [c] + cs)
    ensures FreshIds(Step(t, c), cs)
  {
    var all := [c] + cs;
    assert all[0] == c && forall i :: 0 <= i < |cs| ==> all[i + 1] == cs[i];
    forall i | 0 <= i < |cs|
      ensures Fresh(Step(t, c), cs[i].newId) && Named(cs[i].ctx)
    {
      assert all[i + 1].newId != all[0].newId;
      StepUsesOnlyFresh(t, c, cs[i].newId);
    }
    forall i, j | 0 <= i < j < |cs|
      ensures cs[i].newId != cs[j].newId
    {
      assert all[i + 1].newId != all[j + 1].newId;
    }
  }

  lemma {:induction false} RefinementOfReads(t: Tree, cs: seq<Call>, ctx: Context, p: Proxy)
    requires HasActive(t) && FreshIds(t, cs) && Named(ctx)
    requires forall i :: 0 <= i < |cs| ==> (cs[i].ctx == ctx && cs[i].proxy == p && cs[i].op.Read?)
                                           || Independent(cs[i].ctx, cs[i].proxy, ctx, p)
    ensures View(Run(t, cs), ctx, p) == View(t, ctx, p)
  {
    Refinement(t, cs, ctx, p);
    ReplayOfReads(View(t, ctx, p), cs, ctx, p);
  }

  lemma {:induction false} ReplayOfReads(d: Dict, cs: seq<Call>, ctx: Context, p: Proxy)
    requires forall i :: 0 <= i < |cs| && cs[i].ctx == ctx && cs[i].proxy == p ==> cs[i].op.Read?
    ensures Replay(d, cs, ctx, p) == d
  {
    if cs != [] {
      ReplayOfReads(d, cs[..|cs| - 1], ctx, p);
    }
  }

  // ---------- automatic spaces ----------

  predicate AutoFor(s: Space, ctx: Context) {
    s.Space? && s.auto && s.tenant == ctx.tenant && s.provider == ctx.provider
  }

  /** At most one automatic space exists per tenant and provider. */
  ghost predicate OneAutoEach(t: Tree) {
    && (forall id :: id in t.spaces ==> id in t.order)
    && forall a, b, ctx :: a in t.spaces && b in t.spaces && Named(ctx) && AutoFor(t.spaces[a], ctx) && AutoFor(t.spaces[b], ctx) ==> a == b
  }

  lemma StepKeepsOneAuto(t: Tree, c: Call)
    requires HasActive(t) && OneAutoEach(t) && Named(c.ctx) && Fresh(t, c.newId)
    ensures OneAutoEach(Step(t, c))
  {
    var (u, place) := Settle(t, c.ctx, c.newId);
    FirstMatchFinds(t.spaces, t.order, c.ctx);
    assert OneAutoEach(u) by {
      forall a, b, ctx | a in u.spaces && b in u.spaces && Named(ctx) && AutoFor(u.spaces[a], ctx) && AutoFor(u.spaces[b], ctx)
        ensures a == b
      {
        if u != t && (a == c.newId) != (b == c.newId) {
          var older := if a == c.newId then b else a;
          assert ctx == c.ctx;
          assert Matches(t.spaces[older], c.ctx);
        }
      }
    }
    SetServicesKeepsAuto(u, place, Services(Step(t, c), place));
    PlaceIsReal(t, c.ctx, c.newId);
  }

  lemma SetServicesKeepsAuto(t: Tree, place: Place, services: map<string, Dict>)
    requires OneAutoEach(t)
    ensures OneAutoEach(SetServices(t, place, services))
  {
    var u := SetServices(t, place, services);
    assert forall id, ctx :: id in u.spaces && AutoFor(u.spaces[id], ctx) ==> AutoFor(t.spaces[id], ctx);
  }

  lemma {:induction false} OneAutoSpacePerPair(t: Tree, cs: seq<Call>)
    requires HasActive(t) && OneAutoEach(t) && FreshIds(t, cs)
    ensures OneAutoEach(Run(t, cs))
  {
    if cs != [] {
      var n := |cs| - 1;
      OneAutoSpacePerPair(t, cs[..n]);
      RunStaysFresh(t, cs[..n], cs[n].newId);
      StepKeepsOneAuto(Run(t, cs[..n]), cs[n]);
    }
  }

  /** A context with an empty name, which the program never builds, would not find a space, not
      even one made for it: each of its calls creates another one and does not see the last write. */
  lemma UnnamedPivotsEachTime(t: Tree, c: Call)
    requires HasActive(t) && !Named(c.ctx) && Fresh(t, c.newId)
    ensures Locate(t, c.ctx) == Nowhere && Locate(Step(t, c), c.ctx) == Nowhere
    ensures c.newId in Step(t, c).spaces && AutoFor(Step(t, c).spaces[c.newId], c.ctx) && Step(t, c).spaces.Keys == t.spaces.Keys + {c.newId}
    ensures forall p :: View(Step(t, c), c.ctx, p) == Target(p.factory, p)
  {
    FirstMatchFinds(t.spaces, t.order, c.ctx);
    PlaceIsReal(t, c.ctx, c.newId);
    FirstMatchFinds(Step(t, c).spaces, Step(t, c).order, c.ctx);
  }

  /** The write of a context without a tenant shows up in the default tenant's dictionary if
      that had no space. */
  lemma UnnamedWritesToDefault(t: Tree, c: Call)
    requires HasActive(t) && c.ctx.tenant == "" && c.ctx.provider != "" && Fresh(t, c.newId)
    requires Locate(t, c.ctx.(tenant := DEFAULT_TENANT)) == Nowhere
    ensures View(Step(t, c), c.ctx.(tenant := DEFAULT_TENANT), c.proxy) == Effect(c.op, Target(c.proxy.factory, c.proxy))
  {
    var filled := c.ctx.(tenant := DEFAULT_TENANT);
    var u := Step(t, c);
    UnnamedPivotsEachTime(t, c);
    FirstMatchFinds(u.spaces, u.order, filled);
    FirstMatchFinds(t.spaces, t.order, filled);
    assert Matches(u.spaces[c.newId], filled) && c.newId in u.order;
    assert Locate(u, filled) == At(c.newId);
  }

  // ---------- switching the active space ----------

  /** A proxy call, or a change of the active space; an id that names no dictionary changes nothing. */
  datatype Event = Do(call: Call) | Switch(id: string)

  predicate IsDict(spaces: map<string, Space>, id: string) {
    id in spaces && !spaces[id].Junk?
  }

  /** A record once it was selected: the time noted in it is content. */
  function Selected(s: Space): Space {
    if s.Blank? then Space("", "", false, map[]) else s
  }

  function StepEvent(t: Tree, e: Event): Tree {
    match e
    case Do(c) => Step(t, c)
    case Switch(id) => if IsDict(t.spaces, id) then t.(active := id, spaces := t.spaces[id := Selected(t.spaces[id])]) else t
  }

  function RunEvents(t: Tree, es: seq<Event>): Tree {
    if es == [] then t else StepEvent(RunEvents(t, es[..|es| - 1]), es[|es| - 1])
  }

  function ReplayEvents(d: Dict, es: seq<Event>, ctx: Context, p: Proxy): Dict {
    if es == [] then d
    else
      EventEffect(ReplayEvents(d, es[..|es| - 1], ctx, p), es[|es| - 1], ctx, p)
  }

  /** What an event does to the dictionary of one context and proxy. */
  function EventEffect(d: Dict, e: Event, ctx: Context, p: Proxy): Dict {
    if e.Do? && e.call.ctx == ctx && e.call.proxy == p then Effect(e.call.op, d) else d
  }

  /** The event is this dictionary's own, or independent of it. */
  predicate OwnOrIndependent(e: Event, ctx: Context, p: Proxy) {
    e.Do? ==> (e.call.ctx == ctx && e.call.proxy == p) || Independent(e.call.ctx, e.call.proxy, ctx, p)
  }

  /** A call comes from a named context with a new id; a switch does not name an empty record. */
  predicate GoodEvent(t: Tree, e: Event) {
    match e
    case Do(c) => Fresh(t, c.newId) && Named(c.ctx)
    case Switch(id) => id != "" && (id in t.spaces ==> !t.spaces[id].Blank?)
  }

  /** Each tenant and provider has at most one space, and every space is in the order. */
  ghost predicate OneSpaceEach(t: Tree) {
    && (forall id :: id in t.spaces ==> id in t.order)
    && forall a, b, ctx :: a in t.spaces && b in t.spaces && Matches(t.spaces[a], ctx) && Matches(t.spaces[b], ctx) ==> a == b
  }

  /** With one space each, where a context's resources live does not depend on the active space. */
  lemma LocateIsTheOne(t: Tree, ctx: Context)
    requires HasActive(t) && OneSpaceEach(t)
    ensures match Locate(t, ctx)
            case At(id) => id in t.spaces && Matches(t.spaces[id], ctx)
            case Nowhere => forall id :: id in t.spaces ==> !Matches(t.spaces[id], ctx)
            case Legacy => false
  {
    FirstMatchFinds(t.spaces, t.order, ctx);
  }

  lemma SwitchKeepsView(t: Tree, id: string, ctx: Context, p: Proxy)
    requires HasActive(t) && OneSpaceEach(t) && (id in t.spaces ==> !t.spaces[id].Blank?) && id != ""
    ensures HasActive(StepEvent(t, Switch(id))) && OneSpaceEach(StepEvent(t, Switch(id)))
    ensures View(StepEvent(t, Switch(id)), ctx, p) == View(t, ctx, p)
  {
    var u := StepEvent(t, Switch(id));
    LocateIsTheOne(t, ctx);
    LocateIsTheOne(u, ctx);
    if id in t.spaces {
      assert t.spaces[id := t.spaces[id]] == t.spaces;
    }
    assert Locate(u, ctx) == Locate(t, ctx);
  }

  lemma StepKeepsOneSpace(t: Tree, c: Call)
    requires HasActive(t) && OneSpaceEach(t) && Named(c.ctx) && Fresh(t, c.newId)
    ensures HasActive(Step(t, c)) && OneSpaceEach(Step(t, c))
  {
    var (u, place) := Settle(t, c.ctx, c.newId);
    LocateIsTheOne(t, c.ctx);
    assert OneSpaceEach(u) by {
      forall a, b, ctx | a in u.spaces && b in u.spaces && Matches(u.spaces[a], ctx) && Matches(u.spaces[b], ctx)
        ensures a == b
      {
        if u != t && (a == c.newId || b == c.newId) {
          assert ctx == c.ctx;
        }
      }
    }
    SetServicesKeepsOneSpace(u, place, Services(Step(t, c), place));
    PlaceIsReal(t, c.ctx, c.newId);
    CallActsOnItsView(t, c);
  }

  lemma SetServicesKeepsOneSpace(t: Tree, place: Place, services: map<string, Dict>)
    requires OneSpaceEach(t)
    ensures OneSpaceEach(SetServices(t, place, services))
  {
    var u := SetServices(t, place, services);
    assert forall id, ctx :: id in u.spaces && Matches(u.spaces[id], ctx) ==> Matches(t.spaces[id], ctx);
  }

  /** Calls come from named contexts with new ids of their own; a switch does not name an empty record. */
  predicate GoodEvents(t: Tree, es: seq<Event>) {
    && (forall i :: 0 <= i < |es| ==>
          match es[i]
          case Do(c) => Fresh(t, c.newId) && Named(c.ctx)
          case Switch(id) => id != "" && (id in RunEvents(t, es[..i]).spaces ==> !RunEvents(t, es[..i]).spaces[id].Blank?))
    && forall i, j :: 0 <= i < j < |es| && es[i].Do? && es[j].Do? ==> es[i].call.newId != es[j].call.newId
  }

  lemma GoodInit(t: Tree, es: seq<Event>)
    requires es != [] && GoodEvents(t, es)
    ensures GoodEvents(t, es[..|es| - 1])
  {
    assert forall i :: 0 <= i < |es| - 1 ==> es[..|es| - 1][i] == es[i] && es[..|es| - 1][..i] == es[..i];
  }

  lemma {:induction false} RunEventsGood(t: Tree, es: seq<Event>)
    requires HasActive(t) && OneSpaceEach(t) && GoodEvents(t, es)
    ensures HasActive(RunEvents(t, es)) && OneSpaceEach(RunEvents(t, es))
    ensures forall id :: Fresh(t, id) && (forall i :: 0 <= i < |es| && es[i].Do? ==> es[i].call.newId != id) ==> Fresh(RunEvents(t, es), id)
  {
    if es != [] {
      var n := |es| - 1;
      GoodInit(t, es);
      RunEventsGood(t, es[..n]);
      var u := RunEvents(t, es[..n]);
      assert forall i :: 0 <= i < n ==> es[..n][i] == es[i];
      match es[n] {
        case Do(c) =>
          assert Fresh(u, c.newId);
          StepKeepsOneSpace(u, c);
          forall id | Fresh(t, id) && forall i :: 0 <= i < |es| && es[i].Do? ==> es[i].call.newId != id
            ensures Fresh(RunEvents(t, es), id)
          {
            assert es[n].Do?;
            StepUsesOnlyFresh(u, c, id);
          }
        case Switch(id) => SwitchKeepsView(u, id, Context("", ""), Proxy("", map[], None));
      }
    }
  }

  lemma LastEventGood(t: Tree, es: seq<Event>)
    requires es != [] && HasActive(t) && OneSpaceEach(t) && GoodEvents(t, es)
    ensures var n := |es| - 1;
            GoodEvents(t, es[..n]) && HasActive(RunEvents(t, es[..n])) && OneSpaceEach(RunEvents(t, es[..n]))
            && GoodEvent(RunEvents(t, es[..n]), es[n])
  {
    var n := |es| - 1;
    GoodInit(t, es);
    RunEventsGood(t, es[..n]);
    assert forall i :: 0 <= i < n ==> es[..n][i] == es[i];
  }

  lemma EventActsOnView(t: Tree, e: Event, ctx: Context, p: Proxy)
    requires HasActive(t) && OneSpaceEach(t) && Named(ctx) && GoodEvent(t, e) && OwnOrIndependent(e, ctx, p)
    ensures View(StepEvent(t, e), ctx, p) == EventEffect(View(t, ctx, p), e, ctx, p)
  {
    match e {
      case Do(c) =>
        if c.ctx == ctx && c.proxy == p {
          CallActsOnItsView(t, c);
        } else {
          CallLeavesOthers(t, c, ctx, p);
        }
      case Switch(id) => SwitchKeepsView(t, id, ctx, p);
    }
  }

  /** The refinement over runs that also switch the active space, when each tenant and
      provider has at most one space. */
  lemma {:induction false} RefinementAcrossSwitches(t: Tree, es: seq<Event>, ctx: Context, p: Proxy)
    requires HasActive(t) && OneSpaceEach(t) && GoodEvents(t, es) && Named(ctx)
    requires forall i :: 0 <= i < |es| ==> OwnOrIndependent(es[i], ctx, p)
    ensures View(RunEvents(t, es), ctx, p) == ReplayEvents(View(t, ctx, p), es, ctx, p)
  {
    if es != [] {
      var n := |es| - 1;
      LastEventGood(t, es);
      RefinementAcrossSwitches(t, es[..n], ctx, p);
      EventActsOnView(RunEvents(t, es[..n]), es[n], ctx, p);
    }
  }

  // ---------- without an active space ----------

  /** Without an active space every tenant and provider shares one dictionary per service. */
  lemma FallbackIsShared(t: Tree, c: Call, d: Context)
    requires !HasActive(t)
    ensures View(t, d, c.proxy) == View(t, c.ctx, c.proxy)
    ensures View(Step(t, c), d, c.proxy) == Effect(c.op, View(t, c.ctx, c.proxy))
  {
  }

  // ---------- the tree as the program keeps it ----------

  class GlobalState {
    var spaces: map<string, Space>
    var order: seq<string>
    var active: string
    var legacy: map<string, Dict>

    ghost function Model(): Tree
      reads this
    {
      Tree(spaces, order, active, legacy)
    }

    constructor (active: string, spaces: map<string, Space>, order: seq<string>)
      ensures Model() == Tree(spaces, order, active, map[])
    {
      this.active, this.spaces, this.order, legacy := active, spaces, order, map[];
    }

    /** Makes a space the active one and notes the time in it, if its record is a dictionary. */
    method SwitchSpace(id: string) returns (found: bool)
      modifies this`active, this`spaces
      ensures Model() == StepEvent(old(Model()), Switch(id)) && (found <==> IsDict(old(spaces), id))
    {
      found := id in spaces && !spaces[id].Junk?;
      if found {
        active := id;
        spaces := spaces[id := Selected(spaces[id])];
      }
    }

    /** The first existing space of the context, or a new one: the result always lives in the tree. */
    method PivotToMatchingSpace(ctx: Context, newId: string) returns (id: string)
      modifies this`spaces, this`order
      ensures match FirstMatch(old(spaces), old(order), ctx)
              case Some(found) => id == found && spaces == old(spaces) && order == old(order)
              case None => id == newId && spaces == old(spaces)[newId := AutoSpace(ctx)] && order == old(order) + [newId]
    {
      var i := 0;
      while i < |order|
        invariant 0 <= i <= |order|
        invariant FirstMatch(spaces, order, ctx) == FirstMatch(spaces, order[i..], ctx)
      {
        assert order[i..][1..] == order[i + 1..];
        if order[i] in spaces && Matches(spaces[order[i]], ctx) {
          return order[i];
        }
        i := i + 1;
      }
      spaces := spaces[newId := AutoSpace(ctx)];
      order := order + [newId];
      id := newId;
    }

    method ServiceState(ctx: Context, newId: string) returns (place: Place)
      modifies this`spaces, this`order
      ensures (Model(), place) == Settle(old(Model()), ctx, newId)
    {
      if active != "" && active in spaces && spaces[active].Space? {
        if Matches(spaces[active], ctx) {
          return At(active);
        }
        var id := PivotToMatchingSpace(ctx, newId);
        return At(id);
      }
      place := Legacy;
    }

    /** One mapping method of a proxy: `setdefault` down to the target, then the operation on it. */
    method Apply(c: Call) returns (seen: Dict)
      modifies this`spaces, this`order, this`legacy
      ensures Model() == Step(old(Model()), c)
      ensures old(HasActive(Model())) && Named(c.ctx) && old(Fresh(Model(), c.newId)) ==>
                seen == old(View(Model(), c.ctx, c.proxy))
                && View(Model(), c.ctx, c.proxy) == Effect(c.op, seen)
    {
      ghost var before := Model();
      var place := ServiceState(c.ctx, c.newId);
      var here := Tree(spaces, order, active, legacy);
      var key, services := ServiceKey(c.ctx, c.proxy, place), Services(here, place);
      var state := if key in services then services[key] else c.proxy.factory;
      seen := Target(state, c.proxy);
      services := services[key := WithTarget(state, c.proxy, Effect(c.op, seen))];
      match place {
        case Legacy => legacy := services;
        case At(id) =>
          if id in spaces && spaces[id].Space? {
            spaces := spaces[id := spaces[id].(services := services)];
          }
        case Nowhere =>
      }
      assert Model() == Step(before, c);
      if HasActive(before) && Named(c.ctx) && Fresh(before, c.newId) {
        CallActsOnItsView(before, c);
        SettleSees(before, c);
      }
    }
  }

  /** What a call reads after settling is what its context saw before. */
  lemma SettleSees(t: Tree, c: Call)
    requires HasActive(t) && Named(c.ctx) && Fresh(t, c.newId)
    ensures var (u, place) := Settle(t, c.ctx, c.newId);
            Target(StateOf(u, c.ctx, c.proxy, place), c.proxy) == View(t, c.ctx, c.proxy)
  {
    PlaceIsReal(t, c.ctx, c.newId);
  }
}
