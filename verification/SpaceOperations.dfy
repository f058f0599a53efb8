/** What each operation on a space-scoped dictionary does to what its context sees, entry by
    entry, in one call and over whole runs. */
module SpaceOperations {
  import opened Common
  import opened SpaceScope

  function Entry(d: Dict, k: string): Option<Value> {
    if k in d then Some(d[k]) else None
  }

  /** Outside the given keys the two dictionaries hold the same. */
  ghost predicate SameBut(d: Dict, e: Dict, keys: set<string>) {
    forall k :: k !in keys ==> Entry(d, k) == Entry(e, k)
  }

  /** What a context sees after its own call, told from what it saw before: an assignment stores,
      `setdefault` keeps the value of a key that is there and stores the given one else, a
      removal leaves the key absent, an update gives every key of its argument that value, a
      clear leaves nothing; in every case but the last the other keys keep what they have. */
  lemma CallByOperation(t: Tree, c: Call)
    requires HasActive(t) && Named(c.ctx) && Fresh(t, c.newId)
    ensures var d, e := View(t, c.ctx, c.proxy), View(Step(t, c), c.ctx, c.proxy);
            match c.op
            case Read(_) => SameBut(d, e, {})
            case Assign(k, v) => Entry(e, k) == Some(v) && SameBut(d, e, {k})
            case SetDefault(k, v) => Entry(e, k) == Some(if k in d then d[k] else v) && SameBut(d, e, {k})
            case Remove(k) => Entry(e, k) == None && SameBut(d, e, {k})
            case Update(with) => (forall k :: k in with ==> Entry(e, k) == Some(with[k])) && SameBut(d, e, with.Keys)
            case Clear => forall k :: Entry(e, k) == None
  {
    CallActsOnItsView(t, c);
  }

  // ---------- over runs ----------

  predicate Own(c: Call, ctx: Context, p: Proxy) {
    c.ctx == ctx && c.proxy == p
  }

  /** The calls are this dictionary's own or independent of it. */
  predicate OwnOrApart(cs: seq<Call>, ctx: Context, p: Proxy) {
    forall i :: 0 <= i < |cs| ==> Own(cs[i], ctx, p) || Independent(cs[i].ctx, cs[i].proxy, ctx, p)
  }

  /** The operation says what becomes of key `k`. */
  predicate Touches(op: Op, k: string) {
    match op
    case Read(_) => false
    case Assign(j, _) => j == k
    case SetDefault(j, _) => j == k
    case Remove(j) => j == k
    case Update(with) => k in with
    case Clear => true
  }

  lemma CallOnEntry(t: Tree, c: Call, ctx: Context, p: Proxy, k: string)
    requires HasActive(t) && Named(c.ctx) && Named(ctx) && Fresh(t, c.newId)
    requires Own(c, ctx, p) || Independent(c.ctx, c.proxy, ctx, p)
    requires Own(c, ctx, p) ==> !Touches(c.op, k)
    ensures Entry(View(Step(t, c), ctx, p), k) == Entry(View(t, ctx, p), k)
  {
    if Own(c, ctx, p) {
      CallByOperation(t, c);
    } else {
      CallLeavesOthers(t, c, ctx, p);
    }
  }

  /** What an own call leaves under a key it touches, and what it was called on decides. */
  function Left(op: Op, was: Dict, k: string): Option<Value> {
    match op
    case Assign(_, v) => Some(v)
    case Update(with) => if k in with then Some(with[k]) else None
    case SetDefault(_, v) => Some(if k in was then was[k] else v)
    case _ => None
  }

  lemma OwnTouchLeaves(t: Tree, c: Call, k: string)
    requires HasActive(t) && Named(c.ctx) && Fresh(t, c.newId) && Touches(c.op, k)
    ensures Entry(View(Step(t, c), c.ctx, c.proxy), k) == Left(c.op, View(t, c.ctx, c.proxy), k)
  {
    CallByOperation(t, c);
  }

  lemma LastCallFresh(t: Tree, cs: seq<Call>)
    requires cs != [] && HasActive(t) && FreshIds(t, cs)
    ensures var n := |cs| - 1;
            FreshIds(t, cs[..n]) && HasActive(Run(t, cs[..n])) && Fresh(Run(t, cs[..n]), cs[n].newId) && Named(cs[n].ctx)
  {
    var n := |cs| - 1;
    RunStaysFresh(t, cs[..n], cs[n].newId);
  }

  /** A key that no own call of the run touches keeps what it had. */
  lemma {:induction false} UntouchedKey(t: Tree, cs: seq<Call>, ctx: Context, p: Proxy, k: string)
    requires HasActive(t) && FreshIds(t, cs) && Named(ctx) && OwnOrApart(cs, ctx, p)
    requires forall i :: 0 <= i < |cs| && Own(cs[i], ctx, p) ==> !Touches(cs[i].op, k)
    ensures Entry(View(Run(t, cs), ctx, p), k) == Entry(View(t, ctx, p), k)
  {
    if cs != [] {
      var n := |cs| - 1;
      LastCallFresh(t, cs);
      UntouchedKey(t, cs[..n], ctx, p, k);
      CallOnEntry(Run(t, cs[..n]), cs[n], ctx, p, k);
    }
  }

  /** After any run of own and independent calls, the last own call that touches a key decides
      what it reads: the value it assigned or updated it to, nothing after a removal or a clear,
      and after a `setdefault` the value the key had then, or the given one if it had none. */
  lemma {:induction false} LastTouchDecides(t: Tree, cs: seq<Call>, i: nat, ctx: Context, p: Proxy, k: string)
    requires HasActive(t) && FreshIds(t, cs) && Named(ctx) && OwnOrApart(cs, ctx, p)
    requires i < |cs| && Own(cs[i], ctx, p) && Touches(cs[i].op, k)
    requires forall j :: i < j < |cs| && Own(cs[j], ctx, p) ==> !Touches(cs[j].op, k)
    ensures Entry(View(Run(t, cs), ctx, p), k) ==
            match cs[i].op
            case Assign(_, v) => Some(v)
            case Update(with) => if k in with then Some(with[k]) else None
            case SetDefault(_, v) =>
              var was := View(Run(t, cs[..i]), ctx, p);
              Some(if k in was then was[k] else v)
            case _ => None
  {
    LastTouchLeaves(t, cs, i, ctx, p, k);
  }

  lemma {:induction false} LastTouchLeaves(t: Tree, cs: seq<Call>, i: nat, ctx: Context, p: Proxy, k: string)
    requires HasActive(t) && FreshIds(t, cs) && Named(ctx) && OwnOrApart(cs, ctx, p)
    requires i < |cs| && Own(cs[i], ctx, p) && Touches(cs[i].op, k)
    requires forall j :: i < j < |cs| && Own(cs[j], ctx, p) ==> !Touches(cs[j].op, k)
    ensures Entry(View(Run(t, cs), ctx, p), k) == Left(cs[i].op, View(Run(t, cs[..i]), ctx, p), k)
  {
    var n := |cs| - 1;
    LastCallFresh(t, cs);
    if i == n {
      OwnTouchLeaves(Run(t, cs[..n]), cs[n], k);
    } else {
      LastTouchLeaves(t, cs[..n], i, ctx, p, k);
      CallOnEntry(Run(t, cs[..n]), cs[n], ctx, p, k);
      assert cs[..n][..i] == cs[..i];
    }
  }

  // ---------- where a call works ----------

  predicate NoActive(t: Tree) {
    t.active == "" || t.active !in t.spaces || !t.spaces[t.active].Space?
  }

  /** Place `i` of the stored order is the first space of this context. */
  ghost predicate FirstOf(t: Tree, ctx: Context, i: nat) {
    && i < |t.order| && t.order[i] in t.spaces && Matches(t.spaces[t.order[i]], ctx)
    && forall j :: 0 <= j < i && t.order[j] in t.spaces ==> !Matches(t.spaces[t.order[j]], ctx)
  }

  /** The space serves this context: it is active and the context's, or the active one is not and
      it is the first stored one that is. */
  ghost predicate Serves(t: Tree, ctx: Context, id: string) {
    && !NoActive(t)
    && if Matches(t.spaces[t.active], ctx) then id == t.active else exists i: nat :: FirstOf(t, ctx, i) && t.order[i] == id
  }

  ghost predicate NoneServes(t: Tree, ctx: Context) {
    && !NoActive(t) && !Matches(t.spaces[t.active], ctx)
    && forall i :: 0 <= i < |t.order| && t.order[i] in t.spaces ==> !Matches(t.spaces[t.order[i]], ctx)
  }

  /** The name a service's dictionary is kept under in a space. */
  function KeptUnder(ctx: Context, service: string): string {
    if ctx.provider == "aws" then service else ctx.provider + "_" + service
  }

  /** A call's trace in the dictionaries kept in one place: under `key` is what the context now
      sees, beside what stood there before or the initial content; nothing else is touched. */
  ghost predicate Leaves(before: map<string, Dict>, after: map<string, Dict>, key: string, p: Proxy, seen: Dict) {
    && after.Keys == before.Keys + {key}
    && (forall k :: k in before && k != key ==> after[k] == before[k])
    && match p.nested
       case None => after[key] == seen
       case Some(n) =>
         && n in after[key] && after[key][n] == Node(seen)
         && SameBut(if key in before then before[key] else p.factory, after[key], {n})
  }

  lemma {:induction false} FirstMatchExactly(t: Tree, order: seq<string>, ctx: Context)
    ensures match FirstMatch(t.spaces, order, ctx)
            case Some(id) => exists i: nat :: FirstOf(t.(order := order), ctx, i) && order[i] == id
            case None => forall i :: 0 <= i < |order| && order[i] in t.spaces ==> !Matches(t.spaces[order[i]], ctx)
  {
    if order != [] {
      FirstMatchExactly(t, order[1..], ctx);
      if order[0] in t.spaces && Matches(t.spaces[order[0]], ctx) {
        assert FirstOf(t.(order := order), ctx, 0);
      } else if FirstMatch(t.spaces, order, ctx).Some? {
        var i: nat :| FirstOf(t.(order := order[1..]), ctx, i) && order[1..][i] == FirstMatch(t.spaces, order, ctx).value;
        assert forall j :: 1 <= j < |order| ==> order[j] == order[1..][j - 1];
        assert FirstOf(t.(order := order), ctx, i + 1);
      } else {
        assert forall j :: 1 <= j < |order| ==> order[j] == order[1..][j - 1];
      }
    }
  }

  lemma OneFirst(t: Tree, ctx: Context, i: nat, j: nat)
    requires FirstOf(t, ctx, i) && FirstOf(t, ctx, j)
    ensures i == j
  {
  }

  lemma LocateExactly(t: Tree, ctx: Context)
    ensures NoActive(t) <==> Locate(t, ctx) == Legacy
    ensures NoneServes(t, ctx) <==> Locate(t, ctx) == Nowhere
    ensures forall id :: Serves(t, ctx, id) <==> Locate(t, ctx) == At(id)
  {
    FirstMatchExactly(t, t.order, ctx);
    assert t.(order := t.order) == t;
    forall i: nat, j: nat | FirstOf(t, ctx, i) && FirstOf(t, ctx, j)
      ensures i == j
    {
      OneFirst(t, ctx, i, j);
    }
  }

  /** A call of a context that a space serves leaves its trace in that space, under the service's
      name there; every other space, the fallback, the order and the active space are as before. */
  lemma {:induction false} StoredWhereServed(t: Tree, c: Call, id: string)
    requires Named(c.ctx) && Fresh(t, c.newId) && Serves(t, c.ctx, id)
    ensures id in t.spaces && t.spaces[id].Space? && id in Step(t, c).spaces && Step(t, c).spaces[id].Space?
    ensures var u := Step(t, c);
            && u == t.(spaces := t.spaces[id := t.spaces[id].(services := u.spaces[id].services)])
            && Leaves(t.spaces[id].services, u.spaces[id].services, KeptUnder(c.ctx, c.proxy.service), c.proxy, View(u, c.ctx, c.proxy))
  {
    LocateExactly(t, c.ctx);
    CallActsOnItsView(t, c);
    PlaceIsReal(t, c.ctx, c.newId);
  }

  /** A call of a context that no space serves creates one of its tenant and provider, marked as
      automatic and last in order, which holds the trace of the call and nothing else. */
  lemma {:induction false} StoredInNewSpace(t: Tree, c: Call)
    requires Named(c.ctx) && Fresh(t, c.newId) && NoneServes(t, c.ctx)
    ensures var u := Step(t, c);
            && u.active == t.active && u.legacy == t.legacy && u.order == t.order + [c.newId]
            && u.spaces.Keys == t.spaces.Keys + {c.newId} && (forall id :: id in t.spaces ==> u.spaces[id] == t.spaces[id])
            && u.spaces[c.newId].Space? && u.spaces[c.newId] == Space(c.ctx.tenant, c.ctx.provider, true, u.spaces[c.newId].services)
            && Leaves(map[], u.spaces[c.newId].services, KeptUnder(c.ctx, c.proxy.service), c.proxy, View(u, c.ctx, c.proxy))
  {
    LocateExactly(t, c.ctx);
    CallActsOnItsView(t, c);
    FirstMatchAppend(t.spaces, t.order, c.newId, AutoSpace(c.ctx), c.ctx);
    var (u, place) := Settle(t, c.ctx, c.newId);
    var state := StateOf(u, c.ctx, c.proxy, place);
    SetServicesKeepsPlaces(u, place, Services(u, place)[ServiceKey(c.ctx, c.proxy, place) := WithTarget(state, c.proxy, Effect(c.op, Target(state, c.proxy)))], c.ctx);
  }

  /** Without an active space the trace is in the fallback, under the service's bare name for any provider. */
  lemma {:induction false} StoredInFallback(t: Tree, c: Call)
    requires NoActive(t)
    ensures var u := Step(t, c);
            u == t.(legacy := u.legacy) && Leaves(t.legacy, u.legacy, c.proxy.service, c.proxy, View(u, c.ctx, c.proxy))
  {
    LocateExactly(t, c.ctx);
  }

  /** A switch selects the space named if its record is a dictionary, makes an empty record a
      space without a name of its own, and does nothing else. */
  lemma {:induction false} SwitchExactly(t: Tree, id: string)
    ensures var u := StepEvent(t, Switch(id));
            if id in t.spaces && !t.spaces[id].Junk? then
              && u.active == id && u.order == t.order && u.legacy == t.legacy && u.spaces.Keys == t.spaces.Keys
              && (forall x :: x in t.spaces && (x != id || t.spaces[x].Space?) ==> u.spaces[x] == t.spaces[x])
              && (t.spaces[id].Blank? ==> u.spaces[id] == Space("", "", false, map[]))
            else u == t
  {
  }

  /** The tenant of a request is that of its header, or else the active one, or else the default. */
  lemma TenantExactly(header: string, active: string, p: Provider)
    ensures RequestContext(header, active, p).tenant ==
            if header != "" then header else if active != "" then active else "default"
    ensures RequestContext(header, active, p).provider ==
            match p case Aws => "aws" case Gcp => "gcp" case Azure => "azure"
  {
  }
}
