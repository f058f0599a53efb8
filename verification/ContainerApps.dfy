/** One container app: its revisions, the traffic split over them, pruning, and the
    containers that run for them, as a state machine over values. */
module ContainerApps {
  import opened Common
  import opened Dicts

  // ---------- entities ----------

  /** `body` stands for the whole template, whose hash is taken to be injective. */
  datatype Template = Template(body: string, minReplicas: nat)

  datatype Revision = Revision(template: Template, active: bool, weight: int, replicas: nat)

  datatype Entry = Entry(latest: bool, revision: string, weight: int, labelled: bool)

  datatype Mode = Single | Multiple

  datatype Status = Running | Stopped | Failed

  /** A handle is the container the runtime answered with. */
  type Handle = nat

  datatype App = App(mode: Mode, ingress: Option<seq<Entry>>, latest: Option<string>, status: Status,
                     revs: map<string, Revision>, order: seq<string>, handles: map<string, Handle>)

  /** `started` and `stopped` count what the runtime was asked to do. */
  datatype World = World(app: Option<App>, started: multiset<Handle>, stopped: multiset<Handle>)

  const START := World(None, multiset{}, multiset{})

  datatype Outcome = Started(h: Handle) | StartError | NoHandle

  /** The attached runtime: whether it can start and stop, and how each start would go. */
  datatype Runtime = Runtime(canStart: bool, canStop: bool, outcomes: map<string, Outcome>)

  datatype IngressArg = NoIngress | DefaultTraffic | Traffic(entries: seq<Entry>)

  /** `revision` is the revision name the template's suffix asks for, `autoName` the generated one. */
  datatype PutArgs = PutArgs(mode: Mode, ingress: IngressArg, template: Template, revision: Option<string>,
                             autoName: string, keep: int, otherwiseValid: bool)

  datatype Request = Put(args: PutArgs) | Start | Stop | Activate(name: string) | Deactivate(name: string)
                   | Restart(name: string) | Delete

  datatype Reply = Accepted | Invalid | Conflict | NotFound | NoContent

  // ---------- traffic ----------

  function TrafficOf(ing: IngressArg): Option<seq<Entry>> {
    match ing
    case NoIngress => None
    case DefaultTraffic => Some([Entry(true, "", 100, false)])
    case Traffic(es) => Some(es)
  }

  function SumAll(es: seq<Entry>): int {
    if es == [] then 0 else SumAll(es[..|es| - 1]) + es[|es| - 1].weight
  }

  function TargetOf(e: Entry, latest: Option<string>): Option<string> {
    if e.latest then latest else Some(e.revision)
  }

  /** What revision `name` gets from the entries that target it. */
  function SumFor(es: seq<Entry>, latest: Option<string>, name: string): int {
    if es == [] then 0
    else
      var e := es[|es| - 1];
      SumFor(es[..|es| - 1], latest, name) + if TargetOf(e, latest) == Some(name) then e.weight else 0
  }

  /** The weight of the entries that target a stored revision. */
  function SumStored(es: seq<Entry>, latest: Option<string>, stored: set<string>): int {
    if es == [] then 0
    else
      var e := es[|es| - 1];
      var t := TargetOf(e, latest);
      SumStored(es[..|es| - 1], latest, stored) + if t.Some? && t.value in stored then e.weight else 0
  }

  function ReplicaCount(r: Revision, status: Status): nat {
    if !r.active || status.Stopped? then 0
    else if r.weight != 0 || r.template.minReplicas != 0 then (if r.template.minReplicas > 1 then r.template.minReplicas else 1)
    else 0
  }

  function Refreshed(app: App, name: string): Revision
    requires name in app.revs
  {
    var w := if app.ingress.Some? then SumFor(app.ingress.value, app.latest, name) else 0;
    var r := app.revs[name].(weight := w);
    r.(replicas := ReplicaCount(r, app.status))
  }

  function RefreshRevs(app: App): App {
    app.(revs := map n | n in app.revs :: Refreshed(app, n))
  }

  // ---------- containers ----------

  /** The part of the world that reconciliation touches. */
  datatype Pool = Pool(handles: map<string, Handle>, started: multiset<Handle>, stopped: multiset<Handle>, failed: bool)

  function SyncOne(x: Pool, name: string, want: bool, rt: Runtime): Pool {
    if want && name !in x.handles then
      match (if name in rt.outcomes then rt.outcomes[name] else NoHandle)
      case Started(h) => x.(handles := x.handles[name := h], started := x.started + multiset{h})
      case StartError => x.(failed := true)
      case NoHandle => x
    else if !want && name in x.handles && rt.canStop then
      x.(handles := x.handles - {name}, stopped := x.stopped + multiset{x.handles[name]})
    else x
  }

  function SyncAll(revs: map<string, Revision>, order: seq<string>, x: Pool, rt: Runtime): Pool {
    if order == [] then x
    else
      var name := order[|order| - 1];
      SyncOne(SyncAll(revs, order[..|order| - 1], x, rt), name, name in revs && revs[name].replicas > 0, rt)
  }

  /** Recomputes weights and replicas, then starts and stops containers to match. */
  function Refresh(app: App, started: multiset<Handle>, stopped: multiset<Handle>, rt: Runtime): World {
    var a := RefreshRevs(app);
    if !rt.canStart then World(Some(a), started, stopped)
    else
      var x := SyncAll(a.revs, a.order, Pool(a.handles, started, stopped, false), rt);
      World(Some(a.(handles := x.handles, status := if x.failed then Failed else a.status)), x.started, x.stopped)
  }

  // ---------- revisions ----------

  function CurrentRev(app: App): Option<Revision> {
    if app.latest.Some? && app.latest.value in app.revs then Some(app.revs[app.latest.value]) else None
  }

  function SetActive(revs: map<string, Revision>, only: Option<string>): map<string, Revision> {
    map n | n in revs :: revs[n].(active := Some(n) == only)
  }

  /** Picks, makes or keeps the latest revision for a template; `None` is the suffix conflict. */
  function Settle(app: App, args: PutArgs): Option<App> {
    var cur := CurrentRev(app);
    if args.revision.Some? && args.revision.value in app.revs && app.revs[args.revision.value].template == args.template then
      Some(app.(latest := args.revision))
    else if cur.None? || cur.value.template != args.template || (args.revision.Some? && args.revision != app.latest) then
      var name := if args.revision.Some? then args.revision.value else args.autoName;
      if name in app.revs then None
      else
        var revs := app.revs[name := Revision(args.template, true, 0, 0)];
        Some(app.(revs := revs, order := app.order + [name], latest := Some(name)))
    else Some(app)
  }

  function Inactive(revs: map<string, Revision>, order: seq<string>): seq<string> {
    if order == [] then []
    else
      var n := order[|order| - 1];
      Inactive(revs, order[..|order| - 1]) + if n in revs && !revs[n].active then [n] else []
  }

  function DropAll(order: seq<string>, names: seq<string>): seq<string> {
    if names == [] then order else Drop(DropAll(order, names[..|names| - 1]), names[|names| - 1])
  }

  function Elements(names: seq<string>): set<string> {
    set n | n in names
  }

  /** Drops the oldest inactive revisions beyond `keep`; their containers stay held. */
  function Prune(app: App, keep: int): App {
    var inactive := Inactive(app.revs, app.order);
    var over := |inactive| - keep;
    var doomed := inactive[..if over <= 0 then 0 else if over > |inactive| then |inactive| else over];
    app.(revs := app.revs - Elements(doomed), order := DropAll(app.order, doomed))
  }

  // ---------- requests ----------

  const BLANK := App(Single, None, None, Running, map[], [], map[])

  function PutApp(w: World, args: PutArgs, rt: Runtime): (World, Reply) {
    var traffic := TrafficOf(args.ingress);
    if !args.otherwiseValid || (traffic.Some? && SumAll(traffic.value) != 100) then (w, Invalid)
    else
      var app := (if w.app.Some? then w.app.value else BLANK).(mode := args.mode, ingress := traffic);
      match Settle(app, args)
      case None => (if w.app.Some? then w.(app := Some(app)) else w, Conflict)
      case Some(a) =>
        var b := if args.mode.Single? then a.(revs := SetActive(a.revs, a.latest)) else a;
        (Refresh(Prune(b, args.keep), w.started, w.stopped, rt), Accepted)
  }

  /** A start, stop or revision operation on an existing app. */
  function Operate(w: World, app: App, r: Request, rt: Runtime): (World, Reply)
    requires !r.Put? && !r.Delete?
  {
    match r
    case Start => (Refresh(app.(status := Running), w.started, w.stopped, rt), Accepted)
    case Stop => (Refresh(app.(status := Stopped), w.started, w.stopped, rt), Accepted)
    case Activate(n) =>
      if n !in app.revs then (w, NotFound)
      else (Refresh(app.(revs := app.revs[n := app.revs[n].(active := true)]), w.started, w.stopped, rt), Accepted)
    case Deactivate(n) =>
      if n !in app.revs then (w, NotFound)
      else if app.mode.Single? then (w, Invalid)
      else (Refresh(app.(revs := app.revs[n := app.revs[n].(active := false)]), w.started, w.stopped, rt), Accepted)
    case Restart(n) =>
      if n !in app.revs then (w, NotFound) else (Refresh(app, w.started, w.stopped, rt), Accepted)
  }

  function DeleteApp(w: World, rt: Runtime): World {
    World(None, w.started, if rt.canStop then w.stopped + multiset(Held(w).Values) else w.stopped)
  }

  function Step(w: World, r: Request, rt: Runtime): (World, Reply) {
    if r.Put? then PutApp(w, r.args, rt)
    else if w.app.None? then (w, if r.Delete? then NoContent else NotFound)
    else if r.Delete? then (DeleteApp(w, rt), Accepted)
    else Operate(w, w.app.value, r, rt)
  }

  datatype Event = Event(req: Request, rt: Runtime)

  function Run(w: World, es: seq<Event>): World {
    if es == [] then w else Step(Run(w, es[..|es| - 1]), es[|es| - 1].req, es[|es| - 1].rt).0
  }

  // ---------- conservation of containers ----------

  ghost predicate Injective(m: map<string, Handle>) {
    forall a, b :: a in m && b in m && m[a] == m[b] ==> a == b
  }

  /** Every container started once is held by one revision name or was stopped once, never both. */
  ghost predicate Balanced(handles: map<string, Handle>, started: multiset<Handle>, stopped: multiset<Handle>) {
    && Injective(handles)
    && (forall h: Handle :: started[h] <= 1)
    && (forall h: Handle :: started[h] == (if h in handles.Values then 1 else 0) + stopped[h])
  }

  function Held(w: World): map<string, Handle> {
    if w.app.Some? then w.app.value.handles else map[]
  }

  ghost predicate Conserved(w: World) {
    Balanced(Held(w), w.started, w.stopped)
  }

  /** The runtime never answers with a container it started before. */
  ghost predicate FreshOutcomes(rt: Runtime, started: multiset<Handle>) {
    && (forall n :: n in rt.outcomes && rt.outcomes[n].Started? ==> started[rt.outcomes[n].h] == 0)
    && (forall m, n :: m in rt.outcomes && n in rt.outcomes && rt.outcomes[m].Started? && rt.outcomes[m] == rt.outcomes[n] ==> m == n)
  }

  lemma SyncOneBalanced(x: Pool, name: string, want: bool, rt: Runtime)
    requires Balanced(x.handles, x.started, x.stopped)
    requires name in rt.outcomes && rt.outcomes[name].Started? ==> x.started[rt.outcomes[name].h] == 0
    ensures var y := SyncOne(x, name, want, rt); Balanced(y.handles, y.started, y.stopped)
  {
    var y := SyncOne(x, name, want, rt);
    if want && name !in x.handles && name in rt.outcomes && rt.outcomes[name].Started? {
      var h := rt.outcomes[name].h;
      assert h !in x.handles.Values;
      ValuesAdd(x.handles, name, h);
    } else if !want && name in x.handles && rt.canStop {
      ValuesRemove(x.handles, name);
    }
  }

  lemma ValuesAdd(m: map<string, Handle>, k: string, h: Handle)
    requires k !in m
    ensures m[k := h].Values == m.Values + {h}
  {
    var n := m[k := h];
    forall v | v in m.Values + {h}
      ensures v in n.Values
    {
      if v == h {
        assert n[k] == v;
      } else {
        var j :| j in m && m[j] == v;
        assert n[j] == v;
      }
    }
  }

  lemma ValuesRemove(m: map<string, Handle>, k: string)
    requires k in m && Injective(m)
    ensures (m - {k}).Values == m.Values - {m[k]}
  {
    var n := m - {k};
    forall v | v in m.Values - {m[k]}
      ensures v in n.Values
    {
      var j :| j in m && m[j] == v;
      assert n[j] == v;
    }
  }

  lemma {:induction false} SyncAllBalanced(revs: map<string, Revision>, order: seq<string>, x: Pool, rt: Runtime)
    requires Balanced(x.handles, x.started, x.stopped) && FreshOutcomes(rt, x.started) && NoDup(order)
    ensures var y := SyncAll(revs, order, x, rt);
            && Balanced(y.handles, y.started, y.stopped)
            && forall n :: n !in order && n in rt.outcomes && rt.outcomes[n].Started? ==> y.started[rt.outcomes[n].h] == 0
  {
    if order != [] {
      var k := |order| - 1;
      var init, name := order[..k], order[k];
      SyncAllBalanced(revs, init, x, rt);
      assert order == init + [name];
      assert name !in init;
      var mid := SyncAll(revs, init, x, rt);
      SyncOneBalanced(mid, name, name in revs && revs[name].replicas > 0, rt);
      var y := SyncAll(revs, order, x, rt);
      forall n | n !in order && n in rt.outcomes && rt.outcomes[n].Started?
        ensures y.started[rt.outcomes[n].h] == 0
      {
        assert n != name;
      }
    }
  }

  // ---------- the revision list ----------

  ghost predicate Listed(app: App) {
    Lists(app.order, app.revs.Keys)
  }

  lemma {:induction false} InactiveMeaning(revs: map<string, Revision>, order: seq<string>)
    requires NoDup(order)
    ensures var r := Inactive(revs, order);
            NoDup(r) && |r| <= |order| && forall n :: n in r <==> n in order && n in revs && !revs[n].active
  {
    if order != [] {
      var k := |order| - 1;
      InactiveMeaning(revs, order[..k]);
      assert order == order[..k] + [order[k]];
      var before := Inactive(revs, order[..k]);
      forall i | 0 <= i < |before|
        ensures before[i] != order[k]
      {
        assert before[i] in before;
      }
    }
  }

  lemma {:induction false} DropAllLists(order: seq<string>, keys: set<string>, names: seq<string>)
    requires Lists(order, keys)
    ensures Lists(DropAll(order, names), keys - Elements(names))
  {
    if names != [] {
      var k := |names| - 1;
      DropAllLists(order, keys, names[..k]);
      DropLists(DropAll(order, names[..k]), keys - Elements(names[..k]), names[k]);
      assert names == names[..k] + [names[k]];
      assert (keys - Elements(names[..k])) - {names[k]} == keys - Elements(names);
    } else {
      assert keys - Elements(names) == keys;
    }
  }

  lemma PruneListed(app: App, keep: int)
    requires Listed(app)
    ensures var p := Prune(app, keep);
            && Listed(p)
            && (forall n :: n in p.revs ==> n in app.revs && p.revs[n] == app.revs[n])
            && (forall n :: n in app.revs && app.revs[n].active ==> n in p.revs)
  {
    InactiveMeaning(app.revs, app.order);
    var inactive := Inactive(app.revs, app.order);
    var over := |inactive| - keep;
    var doomed := inactive[..if over <= 0 then 0 else if over > |inactive| then |inactive| else over];
    DropAllLists(app.order, app.revs.Keys, doomed);
    assert Prune(app, keep).revs.Keys == app.revs.Keys - Elements(doomed);
  }

  lemma RefreshListed(app: App)
    requires Listed(app)
    ensures Listed(RefreshRevs(app))
  {
    assert RefreshRevs(app).revs.Keys == app.revs.Keys;
  }

  // ---------- what a refresh guarantees ----------

  lemma RefreshConserves(app: App, started: multiset<Handle>, stopped: multiset<Handle>, rt: Runtime)
    requires Listed(app) && Balanced(app.handles, started, stopped) && FreshOutcomes(rt, started)
    ensures Conserved(Refresh(app, started, stopped, rt))
    ensures Refresh(app, started, stopped, rt).app.Some? && Listed(Refresh(app, started, stopped, rt).app.value)
  {
    RefreshListed(app);
    var a := RefreshRevs(app);
    SyncAllBalanced(a.revs, a.order, Pool(a.handles, started, stopped, false), rt);
  }

  /** Every start this runtime is asked for succeeds. */
  predicate Reliable(rt: Runtime, names: set<string>) {
    rt.canStart && rt.canStop && forall n :: n in names ==> n in rt.outcomes && rt.outcomes[n].Started?
  }

  lemma {:induction false} SyncAllMatches(revs: map<string, Revision>, order: seq<string>, x: Pool, rt: Runtime)
    requires NoDup(order) && (forall n :: n in order ==> n in revs) && Reliable(rt, revs.Keys)
    ensures var y := SyncAll(revs, order, x, rt);
            && (forall n :: n in order ==> (n in y.handles <==> revs[n].replicas > 0))
            && (forall n :: n !in order ==> (n in y.handles <==> n in x.handles))
            && y.failed == x.failed
  {
    if order != [] {
      var k := |order| - 1;
      SyncAllMatches(revs, order[..k], x, rt);
      assert order == order[..k] + [order[k]];
      assert order[k] !in order[..k];
    }
  }

  /** After a refresh with a runtime whose starts succeed, a stored revision holds a
      container exactly when it should have a replica. */
  lemma RefreshMatchesReplicas(app: App, started: multiset<Handle>, stopped: multiset<Handle>, rt: Runtime)
    requires Listed(app) && Reliable(rt, app.revs.Keys)
    ensures var a := Refresh(app, started, stopped, rt).app.value;
            forall n :: n in a.revs ==> (n in a.handles <==> a.revs[n].replicas > 0)
  {
    RefreshListed(app);
    var a := RefreshRevs(app);
    assert a.revs.Keys == app.revs.Keys;
    SyncAllMatches(a.revs, a.order, Pool(a.handles, started, stopped, false), rt);
  }

  // ---------- conservation over runs ----------

  ghost predicate Sane(w: World) {
    Conserved(w) && (w.app.Some? ==> Listed(w.app.value))
  }

  lemma SettleListed(app: App, args: PutArgs)
    requires Listed(app) && Settle(app, args).Some?
    ensures var a := Settle(app, args).value;
            && Listed(a) && a.handles == app.handles && a.mode == app.mode && a.ingress == app.ingress
            && a.latest.Some? && a.latest.value in a.revs
            && (forall n :: n in app.revs ==> n in a.revs && a.revs[n] == app.revs[n])
  {
    var name := if args.revision.Some? then args.revision.value else args.autoName;
    if name !in app.revs {
      NewListed(app, name, args.template);
    }
  }

  lemma NewListed(app: App, name: string, t: Template)
    requires Listed(app) && name !in app.revs
    ensures Lists(app.order + [name], app.revs[name := Revision(t, true, 0, 0)].Keys)
  {
    TouchLists(app.order, app.revs.Keys, name);
    assert app.revs[name := Revision(t, true, 0, 0)].Keys == app.revs.Keys + {name};
  }

  /** The app an accepted PUT hands to the refresh. */
  function Configured(w: World, args: PutArgs): App {
    var app := (if w.app.Some? then w.app.value else BLANK).(mode := args.mode, ingress := TrafficOf(args.ingress));
    match Settle(app, args)
    case None => app
    case Some(a) => Prune(if args.mode.Single? then a.(revs := SetActive(a.revs, a.latest)) else a, args.keep)
  }

  lemma ConfiguredListed(w: World, args: PutArgs, rt: Runtime)
    requires w.app.Some? ==> Listed(w.app.value)
    requires PutApp(w, args, rt).1.Accepted?
    ensures Listed(Configured(w, args)) && Configured(w, args).handles == Held(w)
    ensures PutApp(w, args, rt).0 == Refresh(Configured(w, args), w.started, w.stopped, rt)
    ensures args.mode.Single? ==> Configured(w, args).latest.Some? && Configured(w, args).latest.value in Configured(w, args).revs
                                  && Configured(w, args).revs[Configured(w, args).latest.value].active
    ensures Configured(w, args).ingress == TrafficOf(args.ingress) && Configured(w, args).mode == args.mode
  {
    var app := (if w.app.Some? then w.app.value else BLANK).(mode := args.mode, ingress := TrafficOf(args.ingress));
    assert Listed(app);
    SettleListed(app, args);
    var a := Settle(app, args).value;
    var b := if args.mode.Single? then a.(revs := SetActive(a.revs, a.latest)) else a;
    assert b.revs.Keys == a.revs.Keys;
    PruneListed(b, args.keep);
  }

  /** What the environment owes: new containers are new, and an app that holds
      containers is not deleted while no runtime can stop them. */
  ghost predicate Guarded(w: World, e: Event) {
    && FreshOutcomes(e.rt, w.started)
    && (e.req.Delete? ==> e.rt.canStop || Held(w) == map[])
  }

  lemma DeleteConservesExactly(w: World, rt: Runtime)
    requires Sane(w) && w.app.Some?
    ensures Conserved(Step(w, Delete, rt).0) <==> rt.canStop || Held(w) == map[]
    ensures Held(Step(w, Delete, rt).0) == map[]
  {
    var held := Held(w);
    var t := Step(w, Delete, rt).0;
    assert Held(START).Values == {};
    if held == map[] {
      assert held.Values == {};
    } else if !rt.canStop {
      var n :| n in held;
      var h := held[n];
      assert h in held.Values;
      assert t.started[h] == 1 + t.stopped[h];
    }
  }

  lemma StepSane(w: World, e: Event)
    requires Sane(w) && Guarded(w, e)
    ensures Sane(Step(w, e.req, e.rt).0)
  {
    match e.req
    case Put(args) =>
      var (t, reply) := PutApp(w, args, e.rt);
      if reply.Accepted? {
        ConfiguredListed(w, args, e.rt);
        RefreshConserves(Configured(w, args), w.started, w.stopped, e.rt);
      }
    case Delete =>
      if w.app.Some? {
        DeleteConservesExactly(w, e.rt);
      }
    case _ =>
      if w.app.Some? {
        var app := w.app.value;
        OperationSane(w, e);
      }
  }

  /** The app a start, stop or revision operation hands to the refresh. */
  function Operated(app: App, r: Request): App {
    match r
    case Start => app.(status := Running)
    case Stop => app.(status := Stopped)
    case Activate(n) => if n in app.revs then app.(revs := app.revs[n := app.revs[n].(active := true)]) else app
    case Deactivate(n) => if n in app.revs then app.(revs := app.revs[n := app.revs[n].(active := false)]) else app
    case _ => app
  }

  lemma OperatedStep(w: World, r: Request, rt: Runtime)
    requires w.app.Some? && !r.Put? && !r.Delete?
    ensures Step(w, r, rt).1.Accepted? ==> Step(w, r, rt).0 == Refresh(Operated(w.app.value, r), w.started, w.stopped, rt)
    ensures !Step(w, r, rt).1.Accepted? ==> Step(w, r, rt).0 == w
    ensures Operated(w.app.value, r).revs.Keys == w.app.value.revs.Keys
    ensures Step(w, r, rt).1.Accepted? && r.Deactivate? ==> w.app.value.mode.Multiple?
  {
  }

  lemma OperationSane(w: World, e: Event)
    requires Sane(w) && Guarded(w, e) && w.app.Some? && !e.req.Put? && !e.req.Delete?
    ensures Sane(Step(w, e.req, e.rt).0)
  {
    OperatedStep(w, e.req, e.rt);
    if Step(w, e.req, e.rt).1.Accepted? {
      RefreshConserves(Operated(w.app.value, e.req), w.started, w.stopped, e.rt);
    }
  }

  ghost predicate GuardedRun(es: seq<Event>) {
    forall i :: 0 <= i < |es| ==> Guarded(Run(START, es[..i]), es[i])
  }

  /** Over any run every container ever started is held by the app or was handed to stop
      exactly once, also across pruning, conflicts, deletion and re-creation. */
  lemma {:induction false} ContainersConserved(es: seq<Event>)
    requires GuardedRun(es)
    ensures Sane(Run(START, es))
  {
    if es != [] {
      var k := |es| - 1;
      forall i | 0 <= i < k
        ensures Guarded(Run(START, es[..k][..i]), es[..k][i])
      {
        assert es[..k][..i] == es[..i];
      }
      ContainersConserved(es[..k]);
      StepSane(Run(START, es[..k]), es[k]);
    } else {
      assert Held(START).Values == {};
    }
  }

  // ---------- when the books balance ----------

  /** The container was started, and is neither held nor handed to stop. */
  ghost predicate Lost(handles: map<string, Handle>, started: multiset<Handle>, stopped: multiset<Handle>, h: Handle) {
    started[h] >= 1 && stopped[h] == 0 && h !in handles.Values
  }

  /** The runtime does not answer with this container. */
  predicate NeverAgain(rt: Runtime, h: Handle) {
    forall n :: n in rt.outcomes && rt.outcomes[n].Started? ==> rt.outcomes[n].h != h
  }

  lemma SyncOneLost(x: Pool, name: string, want: bool, rt: Runtime, h: Handle)
    requires Lost(x.handles, x.started, x.stopped, h) && NeverAgain(rt, h)
    ensures var y := SyncOne(x, name, want, rt); Lost(y.handles, y.started, y.stopped, h)
  {
    var y := SyncOne(x, name, want, rt);
    forall n | n in y.handles
      ensures y.handles[n] != h
    {
      assert n in x.handles ==> x.handles[n] in x.handles.Values;
    }
    if name in x.handles {
      assert x.handles[name] in x.handles.Values;
    }
  }

  lemma {:induction false} SyncAllLost(revs: map<string, Revision>, order: seq<string>, x: Pool, rt: Runtime, h: Handle)
    requires Lost(x.handles, x.started, x.stopped, h) && NeverAgain(rt, h)
    ensures var y := SyncAll(revs, order, x, rt); Lost(y.handles, y.started, y.stopped, h)
  {
    if order != [] {
      var k := |order| - 1;
      SyncAllLost(revs, order[..k], x, rt, h);
      SyncOneLost(SyncAll(revs, order[..k], x, rt), order[k], order[k] in revs && revs[order[k]].replicas > 0, rt, h);
    }
  }

  ghost predicate LostIn(w: World, h: Handle) {
    Lost(Held(w), w.started, w.stopped, h)
  }

  lemma RefreshLost(app: App, started: multiset<Handle>, stopped: multiset<Handle>, rt: Runtime, h: Handle)
    requires Lost(app.handles, started, stopped, h) && NeverAgain(rt, h)
    ensures LostIn(Refresh(app, started, stopped, rt), h)
  {
    var a := RefreshRevs(app);
    SyncAllLost(a.revs, a.order, Pool(a.handles, started, stopped, false), rt, h);
  }

  lemma SettleKeepsHandles(app: App, args: PutArgs)
    ensures Settle(app, args).Some? ==> Settle(app, args).value.handles == app.handles
  {
  }

  /** A lost container stays lost, whatever is asked of the app. */
  lemma {:induction false} LostStays(w: World, e: Event, h: Handle)
    requires LostIn(w, h) && FreshOutcomes(e.rt, w.started)
    ensures LostIn(Step(w, e.req, e.rt).0, h)
  {
    assert NeverAgain(e.rt, h);
    match e.req
    case Put(args) =>
      var (t, reply) := PutApp(w, args, e.rt);
      SettleKeepsHandles((if w.app.Some? then w.app.value else BLANK).(mode := args.mode, ingress := TrafficOf(args.ingress)), args);
      if reply.Accepted? {
        RefreshLost(Configured(w, args), w.started, w.stopped, e.rt, h);
      }
    case Delete =>
      assert Held(START).Values == {};
    case _ =>
      if w.app.Some? {
        OperatedStep(w, e.req, e.rt);
        RefreshLost(Operated(w.app.value, e.req), w.started, w.stopped, e.rt, h);
      }
  }

  /** Deleting an app that holds containers, with no runtime to stop them, loses one. */
  lemma DeleteLoses(w: World, rt: Runtime) returns (h: Handle)
    requires Conserved(w) && !rt.canStop && Held(w) != map[]
    ensures LostIn(Step(w, Delete, rt).0, h)
  {
    var n :| n in Held(w);
    h := Held(w)[n];
    assert h in Held(w).Values;
    assert Held(START).Values == {};
  }

  /** Every answer of the runtime over the run is a container not started before. */
  ghost predicate FreshRun(es: seq<Event>) {
    forall i :: 0 <= i < |es| ==> FreshOutcomes(es[i].rt, Run(START, es[..i]).started)
  }

  /** Every DELETE of the run could stop what was held, or nothing was. */
  ghost predicate DeletesCovered(es: seq<Event>) {
    es != [] ==>
      var k := |es| - 1;
      DeletesCovered(es[..k]) && (es[k].req.Delete? ==> es[k].rt.canStop || Held(Run(START, es[..k])) == map[])
  }

  lemma FreshInit(es: seq<Event>)
    requires es != [] && FreshRun(es)
    ensures FreshRun(es[..|es| - 1]) && FreshOutcomes(es[|es| - 1].rt, Run(START, es[..|es| - 1]).started)
  {
    var k := |es| - 1;
    forall i | 0 <= i < k
      ensures FreshOutcomes(es[..k][i].rt, Run(START, es[..k][..i]).started)
    {
      assert es[..k][..i] == es[..i];
    }
  }

  lemma {:induction false} CoveredIsSane(es: seq<Event>)
    requires FreshRun(es) && DeletesCovered(es)
    ensures Sane(Run(START, es))
  {
    if es != [] {
      var k := |es| - 1;
      FreshInit(es);
      CoveredIsSane(es[..k]);
      StepSane(Run(START, es[..k]), es[k]);
    } else {
      assert Held(START).Values == {};
    }
  }

  lemma {:induction false} UncoveredLoses(es: seq<Event>) returns (h: Handle)
    requires FreshRun(es) && !DeletesCovered(es)
    ensures LostIn(Run(START, es), h)
  {
    var k := |es| - 1;
    FreshInit(es);
    if DeletesCovered(es[..k]) {
      CoveredIsSane(es[..k]);
      h := DeleteLoses(Run(START, es[..k]), es[k].rt);
    } else {
      h := UncoveredLoses(es[..k]);
      LostStays(Run(START, es[..k]), es[k], h);
    }
  }

  /** After a run over which the runtime never repeats a container, every container started is
      held by the app or was handed to stop exactly once, if and only if every DELETE of the
      run found a stop or held nothing: what a DELETE loses is never found again. */
  lemma {:induction false} ContainersConservedExactly(es: seq<Event>)
    requires FreshRun(es)
    ensures Conserved(Run(START, es)) <==> DeletesCovered(es)
  {
    if DeletesCovered(es) {
      CoveredIsSane(es);
    } else {
      var h := UncoveredLoses(es);
    }
  }

  // ---------- traffic ----------

  function SumOver(revs: map<string, Revision>, order: seq<string>): int {
    if order == [] then 0
    else
      var n := order[|order| - 1];
      SumOver(revs, order[..|order| - 1]) + if n in revs then revs[n].weight else 0
  }

  function SumForOver(es: seq<Entry>, latest: Option<string>, order: seq<string>): int {
    if order == [] then 0
    else SumForOver(es, latest, order[..|order| - 1]) + SumFor(es, latest, order[|order| - 1])
  }

  lemma {:induction false} OneEntryMore(es: seq<Entry>, latest: Option<string>, order: seq<string>)
    requires es != [] && NoDup(order)
    ensures var e := es[|es| - 1];
            var t := TargetOf(e, latest);
            SumForOver(es, latest, order) ==
            SumForOver(es[..|es| - 1], latest, order) + if t.Some? && t.value in order then e.weight else 0
  {
    if order != [] {
      var k := |order| - 1;
      OneEntryMore(es, latest, order[..k]);
      assert order == order[..k] + [order[k]];
      assert order[k] !in order[..k];
    }
  }

  /** Summing per revision equals summing per entry. */
  lemma {:induction false} SumsExchange(es: seq<Entry>, latest: Option<string>, order: seq<string>, keys: set<string>)
    requires Lists(order, keys)
    ensures SumForOver(es, latest, order) == SumStored(es, latest, keys)
  {
    if es == [] {
      NoEntries(latest, order);
    } else {
      OneEntryMore(es, latest, order);
      SumsExchange(es[..|es| - 1], latest, order, keys);
    }
  }

  lemma {:induction false} NoEntries(latest: Option<string>, order: seq<string>)
    ensures SumForOver([], latest, order) == 0
  {
    if order != [] {
      NoEntries(latest, order[..|order| - 1]);
    }
  }

  lemma {:induction false} SumOverIsSumForOver(revs: map<string, Revision>, es: seq<Entry>, latest: Option<string>, order: seq<string>)
    requires forall n :: n in order ==> n in revs && revs[n].weight == SumFor(es, latest, n)
    ensures SumOver(revs, order) == SumForOver(es, latest, order)
  {
    if order != [] {
      var k := |order| - 1;
      assert order == order[..k] + [order[k]];
      SumOverIsSumForOver(revs, es, latest, order[..k]);
    }
  }

  lemma {:induction false} StoredIsAll(es: seq<Entry>, latest: Option<string>, keys: set<string>)
    requires forall i :: 0 <= i < |es| ==> TargetOf(es[i], latest).Some? && TargetOf(es[i], latest).value in keys
    ensures SumStored(es, latest, keys) == SumAll(es)
  {
    if es != [] {
      StoredIsAll(es[..|es| - 1], latest, keys);
    }
  }

  function Entries(app: App): seq<Entry> {
    if app.ingress.Some? then app.ingress.value else []
  }

  /** The revision weights add up to the weight of the given entries that target stored revisions. */
  predicate AddsUp(app: App, es: seq<Entry>) {
    SumOver(app.revs, app.order) == SumStored(es, app.latest, app.revs.Keys)
  }

  lemma RefreshTraffic(app: App, started: multiset<Handle>, stopped: multiset<Handle>, rt: Runtime)
    requires Listed(app)
    ensures var a := Refresh(app, started, stopped, rt).app.value;
            a.ingress == app.ingress && a.latest == app.latest && AddsUp(a, Entries(a))
  {
    var a := RefreshRevs(app);
    RefreshListed(app);
    SumOverIsSumForOver(a.revs, Entries(app), app.latest, a.order);
    SumsExchange(Entries(app), app.latest, a.order, a.revs.Keys);
  }

  /** Traffic is conserved: after every accepted request the revision weights add up to the
      weight of the entries that target stored revisions. */
  lemma TrafficConserved(w: World, r: Request, rt: Runtime)
    requires (w.app.Some? ==> Listed(w.app.value)) && Step(w, r, rt).1.Accepted?
    requires Step(w, r, rt).0.app.Some?
    ensures var a := Step(w, r, rt).0.app.value; AddsUp(a, Entries(a))
  {
    match r
    case Put(args) =>
      ConfiguredListed(w, args, rt);
      RefreshTraffic(Configured(w, args), w.started, w.stopped, rt);
    case Delete =>
    case _ =>
      OperatedStep(w, r, rt);
      RefreshTraffic(Operated(w.app.value, r), w.started, w.stopped, rt);
  }

  /** The entries as the last accepted request of a run left them. */
  function LastAccepted(es: seq<Event>): seq<Entry> {
    if es == [] then []
    else
      var k := |es| - 1;
      var (w, reply) := Step(Run(START, es[..k]), es[k].req, es[k].rt);
      if !reply.Accepted? then LastAccepted(es[..k]) else if w.app.Some? then Entries(w.app.value) else []
  }

  /** A refused request leaves revisions, their order and the latest one alone. */
  lemma RefusedKeepsRevisions(w: World, r: Request, rt: Runtime)
    requires !Step(w, r, rt).1.Accepted?
    ensures var t := Step(w, r, rt).0;
            && (t.app.Some? <==> w.app.Some?)
            && (t.app.Some? ==> t.app.value.revs == w.app.value.revs && t.app.value.order == w.app.value.order && t.app.value.latest == w.app.value.latest)
  {
    if !r.Put? && !r.Delete? && w.app.Some? {
      OperatedStep(w, r, rt);
    }
  }

  lemma {:induction false} WeightsOfLastAccepted(es: seq<Event>)
    ensures Run(START, es).app.Some? ==> AddsUp(Run(START, es).app.value, LastAccepted(es))
  {
    if es != [] {
      var k := |es| - 1;
      var w, e := Run(START, es[..k]), es[k];
      if Step(w, e.req, e.rt).1.Accepted? {
        AlwaysListed(es[..k]);
        if Step(w, e.req, e.rt).0.app.Some? {
          TrafficConserved(w, e.req, e.rt);
        }
      } else {
        WeightsOfLastAccepted(es[..k]);
        RefusedKeepsRevisions(w, e.req, e.rt);
      }
    }
  }

  /** In every reachable state the revision weights match the stored entries exactly when
      these weigh, over stored revisions, what those of the last accepted request did: a PUT
      refused as a conflict has replaced the entries and not the weights. */
  lemma {:induction false} TrafficExactly(es: seq<Event>)
    requires Run(START, es).app.Some?
    ensures var a := Run(START, es).app.value;
            AddsUp(a, Entries(a)) <==> SumStored(Entries(a), a.latest, a.revs.Keys) == SumStored(LastAccepted(es), a.latest, a.revs.Keys)
  {
    WeightsOfLastAccepted(es);
  }

  /** The stored traffic entries always add up to 100. */
  ghost predicate Balanced100(w: World) {
    w.app.Some? && w.app.value.ingress.Some? ==> SumAll(w.app.value.ingress.value) == 100
  }

  lemma StepBalanced100(w: World, e: Event)
    requires Balanced100(w)
    ensures Balanced100(Step(w, e.req, e.rt).0)
  {
    if e.req.Put? {
      var args := e.req.args;
      assert SumAll([Entry(true, "", 100, false)][..0]) == 0;
      var app := (if w.app.Some? then w.app.value else BLANK).(mode := args.mode, ingress := TrafficOf(args.ingress));
      if Settle(app, args).Some? {
        assert Settle(app, args).value.ingress == app.ingress;
      }
    } else if w.app.Some? && !e.req.Delete? {
      OperatedStep(w, e.req, e.rt);
    }
  }

  lemma {:induction false} AlwaysBalanced100(es: seq<Event>)
    ensures Balanced100(Run(START, es))
  {
    if es != [] {
      AlwaysBalanced100(es[..|es| - 1]);
      StepBalanced100(Run(START, es[..|es| - 1]), es[|es| - 1]);
    }
  }

  lemma StepListed(w: World, r: Request, rt: Runtime)
    requires w.app.Some? ==> Listed(w.app.value)
    ensures Step(w, r, rt).0.app.Some? ==> Listed(Step(w, r, rt).0.app.value)
  {
    if r.Put? {
      if PutApp(w, r.args, rt).1.Accepted? {
        ConfiguredListed(w, r.args, rt);
        RefreshListed(Configured(w, r.args));
      }
    } else if w.app.Some? && !r.Delete? {
      OperatedStep(w, r, rt);
      RefreshListed(Operated(w.app.value, r));
    }
  }

  /** The order lists each revision once, over every run with any runtime. */
  lemma {:induction false} AlwaysListed(es: seq<Event>)
    ensures Run(START, es).app.Some? ==> Listed(Run(START, es).app.value)
  {
    if es != [] {
      var k := |es| - 1;
      AlwaysListed(es[..k]);
      StepListed(Run(START, es[..k]), es[k].req, es[k].rt);
    }
  }

  /** When every entry targets a stored revision, the weights add up to 100. */
  lemma FullTraffic(es: seq<Event>, e: Event)
    requires Step(Run(START, es), e.req, e.rt).1.Accepted?
    requires Step(Run(START, es), e.req, e.rt).0.app.Some? && Step(Run(START, es), e.req, e.rt).0.app.value.ingress.Some?
    requires var a := Step(Run(START, es), e.req, e.rt).0.app.value;
             forall i :: 0 <= i < |a.ingress.value| ==>
               TargetOf(a.ingress.value[i], a.latest).Some? && TargetOf(a.ingress.value[i], a.latest).value in a.revs
    ensures var a := Step(Run(START, es), e.req, e.rt).0.app.value; SumOver(a.revs, a.order) == 100
  {
    var w := Run(START, es);
    AlwaysListed(es);
    AlwaysBalanced100(es);
    StepBalanced100(w, e);
    TrafficConserved(w, e.req, e.rt);
    var a := Step(w, e.req, e.rt).0.app.value;
    StoredIsAll(a.ingress.value, a.latest, a.revs.Keys);
  }

  // ---------- what a PUT deploys ----------

  lemma SettleDeploys(app: App, args: PutArgs)
    requires Settle(app, args).Some?
    ensures var a := Settle(app, args).value;
            && a.latest.Some? && a.latest.value in a.revs && a.revs[a.latest.value].template == args.template
            && (args.revision.Some? ==> a.latest == args.revision)
  {
  }

  /** After an accepted PUT the latest revision, if pruning kept it, has the requested
      template and name; in Single mode it was kept and is the only active one. */
  lemma PutDeploysTemplate(w: World, args: PutArgs, rt: Runtime)
    requires (w.app.Some? ==> Listed(w.app.value)) && PutApp(w, args, rt).1.Accepted?
    ensures PutApp(w, args, rt).0.app.Some?
    ensures var a := PutApp(w, args, rt).0.app.value;
            && a.latest.Some? && (args.revision.Some? ==> a.latest == args.revision)
            && (a.latest.value in a.revs ==> a.revs[a.latest.value].template == args.template)
            && (args.mode.Single? ==> a.latest.value in a.revs && forall n :: n in a.revs ==> (a.revs[n].active <==> n == a.latest.value))
  {
    var app := (if w.app.Some? then w.app.value else BLANK).(mode := args.mode, ingress := TrafficOf(args.ingress));
    assert Listed(app);
    SettleListed(app, args);
    SettleDeploys(app, args);
    var s := Settle(app, args).value;
    var b := if args.mode.Single? then s.(revs := SetActive(s.revs, s.latest)) else s;
    assert b.revs.Keys == s.revs.Keys;
    PruneListed(b, args.keep);
    ConfiguredListed(w, args, rt);
    RefreshKeepsRevisions(Prune(b, args.keep), w.started, w.stopped, rt);
  }

  lemma RefreshKeepsRevisions(app: App, started: multiset<Handle>, stopped: multiset<Handle>, rt: Runtime)
    ensures var w := Refresh(app, started, stopped, rt);
            && w.app.Some? && w.app.value.latest == app.latest && w.app.value.revs.Keys == app.revs.Keys
            && forall n :: n in app.revs ==> w.app.value.revs[n].template == app.revs[n].template && w.app.value.revs[n].active == app.revs[n].active
  {
  }

  // ---------- replicas ----------

  /** After every accepted request, with a runtime whose starts succeed, a stored
      revision holds a container exactly when its replica count is positive. */
  lemma {:induction false} ContainersMatchReplicas(w: World, r: Request, rt: Runtime)
    requires (w.app.Some? ==> Listed(w.app.value)) && Step(w, r, rt).1.Accepted? && Step(w, r, rt).0.app.Some?
    requires Reliable(rt, Step(w, r, rt).0.app.value.revs.Keys)
    ensures var a := Step(w, r, rt).0.app.value; forall n :: n in a.revs ==> (n in a.handles <==> a.revs[n].replicas > 0)
  {
    if r.Put? {
      ConfiguredListed(w, r.args, rt);
      MatchAfter(Configured(w, r.args), w, r, rt);
    } else {
      OperatedStep(w, r, rt);
      MatchAfter(Operated(w.app.value, r), w, r, rt);
    }
  }

  lemma MatchAfter(app: App, w: World, r: Request, rt: Runtime)
    requires Listed(app) && Step(w, r, rt).0 == Refresh(app, w.started, w.stopped, rt)
    requires Reliable(rt, Step(w, r, rt).0.app.value.revs.Keys)
    ensures var a := Step(w, r, rt).0.app.value; forall n :: n in a.revs ==> (n in a.handles <==> a.revs[n].replicas > 0)
  {
    assert Refresh(app, w.started, w.stopped, rt).app.value.revs.Keys == app.revs.Keys;
    RefreshMatchesReplicas(app, w.started, w.stopped, rt);
  }

  // ---------- single mode ----------

  /** In Single mode the latest revision is stored and active. */
  predicate LatestServes(w: World) {
    w.app.Some? && w.app.value.mode.Single? ==>
      w.app.value.latest.Some? && w.app.value.latest.value in w.app.value.revs && w.app.value.revs[w.app.value.latest.value].active
  }

  lemma StepLatestServes(w: World, e: Event)
    requires (w.app.Some? ==> Listed(w.app.value)) && LatestServes(w) && !Step(w, e.req, e.rt).1.Conflict?
    ensures LatestServes(Step(w, e.req, e.rt).0)
  {
    match e.req
    case Put(args) =>
      if Step(w, e.req, e.rt).1.Accepted? {
        ConfiguredListed(w, args, e.rt);
      }
    case Delete =>
    case _ =>
      if w.app.Some? {
        OperatedStep(w, e.req, e.rt);
      }
  }

  /** Over every run without a suffix conflict, Single mode keeps its latest revision stored and active. */
  lemma {:induction false} SingleModeServesLatest(es: seq<Event>)
    requires forall i :: 0 <= i < |es| ==> !Step(Run(START, es[..i]), es[i].req, es[i].rt).1.Conflict?
    ensures LatestServes(Run(START, es))
  {
    if es != [] {
      var k := |es| - 1;
      forall i | 0 <= i < k
        ensures !Step(Run(START, es[..k][..i]), es[..k][i].req, es[..k][i].rt).1.Conflict?
      {
        assert es[..k][..i] == es[..i];
      }
      SingleModeServesLatest(es[..k]);
      AlwaysListed(es[..k]);
      StepLatestServes(Run(START, es[..k]), es[k]);
    }
  }

  /** A PUT is refused as a suffix conflict exactly when the revision it would have to
      make exists already under another template (or a generated name is taken). */
  lemma ConflictExactly(w: World, args: PutArgs, rt: Runtime)
    ensures PutApp(w, args, rt).1.Conflict? <==>
            && args.otherwiseValid && (TrafficOf(args.ingress).Some? ==> SumAll(TrafficOf(args.ingress).value) == 100)
            && w.app.Some?
            && var app := w.app.value;
               if args.revision.Some? then args.revision.value in app.revs && app.revs[args.revision.value].template != args.template
               else args.autoName in app.revs && (CurrentRev(app).None? || CurrentRev(app).value.template != args.template)
  {
  }

  const NO_RUNTIME := Runtime(false, false, map[])

  /** A PUT of template `t` whose suffix asks for revision `name`. */
  function Named(mode: Mode, t: Template, name: string): PutArgs {
    PutArgs(mode, NoIngress, t, Some(name), "x", 100, true)
  }

  /** The latest revision is `name`, made from template `t`. */
  predicate LatestIs(w: World, mode: Mode, name: string, t: Template) {
    w.app.Some? && w.app.value.mode == mode && w.app.value.latest == Some(name)
    && name in w.app.value.revs && w.app.value.revs[name].template == t
  }

  lemma NewRevision(app: App, args: PutArgs, name: string)
    requires app.revs == map[] && app.order == [] && args.revision == Some(name)
    ensures Settle(app, args) ==
            Some(app.(revs := map[name := Revision(args.template, true, 0, 0)], order := [name], latest := Some(name)))
  {
    assert app.revs[name := Revision(args.template, true, 0, 0)] == map[name := Revision(args.template, true, 0, 0)];
    assert app.order + [name] == [name];
  }

  lemma PutSettled(w: World, args: PutArgs, rt: Runtime, a: App)
    requires w.app.None? && args.otherwiseValid && args.ingress.NoIngress? && args.mode.Multiple?
    requires Settle(BLANK.(mode := args.mode, ingress := None), args) == Some(a)
    ensures PutApp(w, args, rt).0 == Refresh(Prune(a, args.keep), w.started, w.stopped, rt)
  {
  }

  lemma PruneKeepsNew(a: App, name: string, keep: int)
    requires a.order == [name] && a.revs.Keys == {name} && a.revs[name].active
    ensures var p := Prune(a, keep);
            p.mode == a.mode && p.latest == a.latest && name in p.revs && p.revs[name] == a.revs[name]
  {
    assert Listed(a);
    PruneListed(a, keep);
  }

  lemma FirstPut(args: PutArgs, name: string)
    requires args.otherwiseValid && args.ingress.NoIngress? && args.mode.Multiple? && args.revision == Some(name)
    ensures LatestIs(PutApp(START, args, NO_RUNTIME).0, Multiple, name, args.template)
  {
    var blank := BLANK.(mode := args.mode, ingress := None);
    NewRevision(blank, args, name);
    var a := blank.(revs := map[name := Revision(args.template, true, 0, 0)], order := [name], latest := Some(name));
    PutSettled(START, args, NO_RUNTIME, a);
    PruneKeepsNew(a, name, args.keep);
    RefreshKeepsLatest(Prune(a, args.keep), name, args.template);
  }

  lemma RefreshKeepsLatest(p: App, name: string, t: Template)
    requires p.mode.Multiple? && p.latest == Some(name) && name in p.revs && p.revs[name].template == t
    ensures LatestIs(Refresh(p, multiset{}, multiset{}, NO_RUNTIME), Multiple, name, t)
  {
  }

  lemma DeactivateTakes(w: World, name: string, t: Template)
    requires LatestIs(w, Multiple, name, t)
    ensures LatestIs(Step(w, Deactivate(name), NO_RUNTIME).0, Multiple, name, t)
    ensures !Step(w, Deactivate(name), NO_RUNTIME).0.app.value.revs[name].active
  {
    OperatedStep(w, Deactivate(name), NO_RUNTIME);
  }

  lemma ConflictSwitches(w: World, name: string, t: Template, u: Template)
    requires LatestIs(w, Multiple, name, t) && t != u && !w.app.value.revs[name].active
    ensures !LatestServes(PutApp(w, Named(Single, u, name), NO_RUNTIME).0)
  {
    ConflictExactly(w, Named(Single, u, name), NO_RUNTIME);
  }

  /** Three requests after which a Single-mode app's latest revision is inactive. */
  lemma {:induction false} BreakingRun(name: string, t: Template, u: Template) returns (e0: Event, e1: Event, e2: Event)
    requires t != u
    ensures !e0.req.Delete? && !e1.req.Delete? && !e2.req.Delete?
    ensures e0.rt == e1.rt == e2.rt == NO_RUNTIME
    ensures !LatestServes(Step(Step(Step(START, e0.req, e0.rt).0, e1.req, e1.rt).0, e2.req, e2.rt).0)
  {
    e0, e1, e2 := Event(Put(Named(Multiple, t, name)), NO_RUNTIME), Event(Deactivate(name), NO_RUNTIME),
                  Event(Put(Named(Single, u, name)), NO_RUNTIME);
    var v := PutApp(START, Named(Multiple, t, name), NO_RUNTIME).0;
    FirstPut(Named(Multiple, t, name), name);
    DeactivateTakes(v, name, t);
    ConflictSwitches(Step(v, Deactivate(name), NO_RUNTIME).0, name, t, u);
  }

  lemma ThreeSteps(e0: Event, e1: Event, e2: Event)
    ensures Run(START, [e0, e1, e2]) ==
            Step(Step(Step(START, e0.req, e0.rt).0, e1.req, e1.rt).0, e2.req, e2.rt).0
  {
    assert [] + [e0] == [e0] && [e0] + [e1] == [e0, e1] && [e0, e1] + [e2] == [e0, e1, e2];
    RunSnoc([], e0);
    RunSnoc([e0], e1);
    RunSnoc([e0, e1], e2);
  }

  lemma RunSnoc(es: seq<Event>, e: Event)
    ensures Run(START, es + [e]) == Step(Run(START, es), e.req, e.rt).0
  {
    assert (es + [e])[..|es|] == es;
  }

  lemma NoRuntimeIsGuarded(es: seq<Event>)
    requires forall i :: 0 <= i < |es| ==> es[i].rt == NO_RUNTIME && !es[i].req.Delete?
    ensures GuardedRun(es)
  {
  }

  /** After a conflicting PUT the latest revision serves exactly when the PUT asked for
      Multiple mode or the latest revision was stored and active before. */
  lemma ConflictKeepsLatestExactly(w: World, args: PutArgs, rt: Runtime)
    requires PutApp(w, args, rt).1.Conflict?
    ensures w.app.Some?
    ensures LatestServes(PutApp(w, args, rt).0) <==>
            || args.mode.Multiple?
            || (CurrentRev(w.app.value).Some? && CurrentRev(w.app.value).value.active)
  {
    ConflictExactly(w, args, rt);
  }

  /** A conflicting PUT has already switched the mode: it can leave a Single-mode app
      whose latest revision is inactive. */
  lemma ConflictBreaksSingleMode()
    ensures exists es :: GuardedRun(es) && !LatestServes(Run(START, es))
  {
    var e0, e1, e2 := BreakingRun("a", Template("one", 0), Template("two", 0));
    ThreeSteps(e0, e1, e2);
    NoRuntimeIsGuarded([e0, e1, e2]);
  }

  /** After a conflicting PUT the weights still match the stored entries, if they did before,
      exactly when the requested entries weigh, over stored revisions, what the former ones did. */
  lemma ConflictKeepsTrafficExactly(w: World, args: PutArgs, rt: Runtime)
    requires PutApp(w, args, rt).1.Conflict? && w.app.Some? && AddsUp(w.app.value, Entries(w.app.value))
    ensures PutApp(w, args, rt).0.app.Some?
    ensures var a, t := w.app.value, PutApp(w, args, rt).0.app.value;
            var asked := if TrafficOf(args.ingress).Some? then TrafficOf(args.ingress).value else [];
            AddsUp(t, Entries(t)) <==> SumStored(asked, a.latest, a.revs.Keys) == SumStored(Entries(a), a.latest, a.revs.Keys)
  {
    RefusedKeepsRevisions(w, Put(args), rt);
  }

  const ALL_LATEST := [Entry(true, "", 100, false)]

  /** A conflicting PUT that takes the ingress away leaves the weights of the entries it replaced. */
  lemma EmptiedSkews(w: World, args: PutArgs)
    requires PutApp(w, args, NO_RUNTIME).1.Conflict? && args.ingress.NoIngress? && w.app.Some?
    requires AddsUp(w.app.value, ALL_LATEST) && w.app.value.latest.Some? && w.app.value.latest.value in w.app.value.revs
    ensures PutApp(w, args, NO_RUNTIME).0.app.Some?
    ensures var a := PutApp(w, args, NO_RUNTIME).0.app.value; !AddsUp(a, Entries(a))
  {
    assert SumStored(ALL_LATEST[..0], w.app.value.latest, w.app.value.revs.Keys) == 0;
  }

  /** What the first PUT leaves: its revision, serving all traffic. */
  lemma FirstServesAll(args: PutArgs)
    requires args.otherwiseValid && args.mode.Single? && args.ingress.DefaultTraffic? && args.revision.Some?
    ensures PutApp(START, args, NO_RUNTIME).0.app.Some?
    ensures var a := PutApp(START, args, NO_RUNTIME).0.app.value;
            && AddsUp(a, ALL_LATEST) && a.latest == args.revision && a.latest.value in a.revs
            && a.revs[a.latest.value].template == args.template
  {
    FirstTraffic(args);
    TrafficConserved(START, Put(args), NO_RUNTIME);
    PutDeploysTemplate(START, args, NO_RUNTIME);
  }

  /** Two requests after which the weights no longer match the stored entries. */
  lemma ConflictSkewsTraffic()
    ensures exists es :: Run(START, es).app.Some? && !AddsUp(Run(START, es).app.value, Entries(Run(START, es).app.value))
  {
    var t, u := Template("one", 0), Template("two", 0);
    var a, b := Named(Single, t, "a").(ingress := DefaultTraffic), Named(Single, u, "a");
    var first, second := Event(Put(a), NO_RUNTIME), Event(Put(b), NO_RUNTIME);
    RunSnoc([], first);
    RunSnoc([] + [first], second);
    FirstServesAll(a);
    var w := PutApp(START, a, NO_RUNTIME).0;
    ConflictExactly(w, b, NO_RUNTIME);
    EmptiedSkews(w, b);
    assert Run(START, [] + [first] + [second]) == PutApp(w, b, NO_RUNTIME).0;
  }

  lemma FirstTraffic(args: PutArgs)
    requires args.otherwiseValid && args.ingress.DefaultTraffic? && args.revision.Some?
    ensures PutApp(START, args, NO_RUNTIME).1.Accepted?
    ensures PutApp(START, args, NO_RUNTIME).0.app.Some? && Entries(PutApp(START, args, NO_RUNTIME).0.app.value) == [Entry(true, "", 100, false)]
  {
    assert SumAll([Entry(true, "", 100, false)][..0]) == 0;
  }

  lemma HandOne(rest: map<string, Handle>, n: string)
    requires n in rest && Injective(rest)
    ensures multiset(rest.Values) == multiset((rest - {n}).Values) + multiset{rest[n]}
  {
    ValuesRemove(rest, n);
    assert rest[n] in rest.Values;
    assert multiset(rest.Values) == multiset(rest.Values - {rest[n]}) + multiset{rest[n]};
  }

  lemma DropNext(revs: map<string, Revision>, order: seq<string>, doomed: seq<string>, i: nat)
    requires i < |doomed|
    ensures revs - Elements(doomed[..i + 1]) == revs - Elements(doomed[..i]) - {doomed[i]}
    ensures DropAll(order, doomed[..i + 1]) == Drop(DropAll(order, doomed[..i]), doomed[i])
  {
    assert doomed[..i + 1] == doomed[..i] + [doomed[i]];
    assert doomed[..i + 1][..i] == doomed[..i];
  }

  // ---------- the app as the program keeps it ----------

  class ContainerApp {
    var app: Option<App>
    ghost var started: multiset<Handle>
    ghost var stopped: multiset<Handle>

    ghost function Model(): World
      reads this
    {
      World(app, started, stopped)
    }

    constructor ()
      ensures Model() == START && Sane(Model())
    {
      app, started, stopped := None, multiset{}, multiset{};
      new;
      assert Held(START).Values == {};
    }

    /** Adds every entry's weight to its target, then sets weights and replica counts. */
    method RefreshRevisions(a: App) returns (r: App)
      ensures r == RefreshRevs(a)
    {
      var weights := map n | n in a.revs :: 0;
      if a.ingress.Some? {
        var es, i := a.ingress.value, 0;
        while i < |es|
          invariant 0 <= i <= |es|
          invariant weights.Keys == a.revs.Keys
          invariant forall n :: n in weights ==> weights[n] == SumFor(es[..i], a.latest, n)
        {
          assert es[..i + 1][..i] == es[..i] && es[..i + 1][i] == es[i];
          var tgt := TargetOf(es[i], a.latest);
          if es[i].labelled && es[i].revision in a.revs && es[i].weight == 0 {
            i := i + 1;
            continue;
          }
          if tgt.Some? && tgt.value in weights {
            weights := weights[tgt.value := weights[tgt.value] + es[i].weight];
          }
          i := i + 1;
        }
        assert es[..i] == es;
      }
      var revs, rest := a.revs, a.revs.Keys;
      while rest != {}
        invariant rest <= a.revs.Keys == revs.Keys
        invariant forall n :: n in revs ==> revs[n] == if n in rest then a.revs[n] else Refreshed(a, n)
        decreases rest
      {
        var n :| n in rest;
        rest := rest - {n};
        var rev := revs[n].(weight := weights[n]);
        revs := revs[n := rev.(replicas := ReplicaCount(rev, a.status))];
      }
      r := a.(revs := revs);
    }

    /** Starts and stops containers, revision by revision in stored order. */
    method SyncRuntime(a: App, rt: Runtime)
      modifies this
      ensures rt.canStart ==>
                var x := SyncAll(a.revs, a.order, Pool(a.handles, old(started), old(stopped), false), rt);
                Model() == World(Some(a.(handles := x.handles, status := if x.failed then Failed else a.status)), x.started, x.stopped)
      ensures !rt.canStart ==> Model() == World(Some(a), old(started), old(stopped))
    {
      app := Some(a);
      if !rt.canStart {
        return;
      }
      var handles: map<string, Handle>, failed, i := a.handles, false, 0;
      while i < |a.order|
        invariant 0 <= i <= |a.order|
        invariant Pool(handles, started, stopped, failed) == SyncAll(a.revs, a.order[..i], Pool(a.handles, old(started), old(stopped), false), rt)
      {
        SyncAllSnoc(a.revs, a.order, i, Pool(a.handles, old(started), old(stopped), false), rt);
        ghost var before := Pool(handles, started, stopped, failed);
        var name := a.order[i];
        var want := name in a.revs && a.revs[name].replicas > 0;
        if want && name !in handles {
          match if name in rt.outcomes then rt.outcomes[name] else NoHandle {
            case Started(h) =>
              handles := handles[name := h];
              started := started + multiset{h};
            case StartError => failed := true;
            case NoHandle =>
          }
        } else if !want && name in handles && rt.canStop {
          stopped := stopped + multiset{handles[name]};
          handles := handles - {name};
        }
        assert Pool(handles, started, stopped, failed) == SyncOne(before, name, want, rt);
        i := i + 1;
      }
      assert a.order[..i] == a.order;
      app := Some(a.(handles := handles, status := if failed then Failed else a.status));
    }

    static lemma SyncAllSnoc(revs: map<string, Revision>, order: seq<string>, i: nat, x: Pool, rt: Runtime)
      requires i < |order|
      ensures SyncAll(revs, order[..i + 1], x, rt) ==
              SyncOne(SyncAll(revs, order[..i], x, rt), order[i], order[i] in revs && revs[order[i]].replicas > 0, rt)
    {
      assert order[..i + 1][..i] == order[..i];
    }

    method RefreshAndSync(a: App, rt: Runtime)
      modifies this
      ensures Model() == Refresh(a, old(started), old(stopped), rt)
    {
      var r := RefreshRevisions(a);
      SyncRuntime(r, rt);
    }

    /** Hands every held container to stop, if there is a stop. */
    method StopRuntime(handles: map<string, Handle>, rt: Runtime)
      requires Injective(handles)
      modifies this`stopped
      ensures stopped == if rt.canStop then old(stopped) + multiset(handles.Values) else old(stopped)
    {
      var rest := handles;
      while rest != map[]
        invariant rest.Keys <= handles.Keys && forall n :: n in rest ==> rest[n] == handles[n]
        invariant rt.canStop ==> stopped + multiset(rest.Values) == old(stopped) + multiset(handles.Values)
        invariant !rt.canStop ==> stopped == old(stopped)
        decreases |rest|
      {
        var n :| n in rest;
        var h := rest[n];
        if rt.canStop {
          stopped := stopped + multiset{h};
        }
        HandOne(rest, n);
        rest := rest - {n};
      }
      assert rest.Values == {};
    }

    /** Removes the oldest inactive revisions beyond `keep`, one by one. */
    method PruneRevisions(a: App, keep: int) returns (r: App)
      ensures r == Prune(a, keep)
    {
      var inactive := InactiveOf(a);
      var over := |inactive| - keep;
      var doomed := inactive[..if over <= 0 then 0 else if over > |inactive| then |inactive| else over];
      var revs, order, i := a.revs, a.order, 0;
      while i < |doomed|
        invariant 0 <= i <= |doomed|
        invariant revs == a.revs - Elements(doomed[..i]) && order == DropAll(a.order, doomed[..i])
      {
        DropNext(a.revs, a.order, doomed, i);
        revs, order := revs - {doomed[i]}, Drop(order, doomed[i]);
        i := i + 1;
      }
      assert doomed[..i] == doomed;
      r := a.(revs := revs, order := order);
    }

    method InactiveOf(a: App) returns (inactive: seq<string>)
      ensures inactive == Inactive(a.revs, a.order)
    {
      inactive := [];
      var i := 0;
      while i < |a.order|
        invariant 0 <= i <= |a.order|
        invariant inactive == Inactive(a.revs, a.order[..i])
      {
        assert a.order[..i + 1][..i] == a.order[..i];
        if a.order[i] in a.revs && !a.revs[a.order[i]].active {
          inactive := inactive + [a.order[i]];
        }
        i := i + 1;
      }
      assert a.order[..i] == a.order;
    }

    method TotalWeight(es: seq<Entry>) returns (total: int)
      ensures total == SumAll(es)
    {
      total := 0;
      var i := 0;
      while i < |es|
        invariant 0 <= i <= |es|
        invariant total == SumAll(es[..i])
      {
        assert es[..i + 1][..i] == es[..i];
        total := total + es[i].weight;
        i := i + 1;
      }
      assert es[..i] == es;
    }

    method PutRequest(args: PutArgs, rt: Runtime) returns (r: Reply)
      modifies this
      ensures (Model(), r) == PutApp(old(Model()), args, rt)
    {
      var traffic := TrafficOf(args.ingress);
      if !args.otherwiseValid {
        return Invalid;
      }
      if traffic.Some? {
        var total := TotalWeight(traffic.value);
        if total != 100 {
          return Invalid;
        }
      }
      var a := (if app.Some? then app.value else BLANK).(mode := args.mode, ingress := traffic);
      if app.Some? {
        app := Some(a);
      }
      var settled := Settle(a, args);
      if settled.None? {
        return Conflict;
      }
      var b := settled.value;
      if args.mode.Single? {
        b := b.(revs := SetActive(b.revs, b.latest));
      }
      b := PruneRevisions(b, args.keep);
      RefreshAndSync(b, rt);
      r := Accepted;
    }

    /** Every request, under its guard, keeps the books of started and stopped containers. */
    method Handle(e: Event) returns (r: Reply)
      requires Sane(Model()) && Guarded(Model(), e)
      modifies this
      ensures Sane(Model())
      ensures (Model(), r) == Step(old(Model()), e.req, e.rt)
    {
      StepSane(Model(), e);
      if e.req.Put? {
        r := PutRequest(e.req.args, e.rt);
        return;
      }
      if app.None? {
        return if e.req.Delete? then NoContent else NotFound;
      }
      var a := app.value;
      match e.req
      case Delete =>
        StopRuntime(a.handles, e.rt);
        app := None;
        r := Accepted;
      case Start =>
        RefreshAndSync(a.(status := Running), e.rt);
        r := Accepted;
      case Stop =>
        RefreshAndSync(a.(status := Stopped), e.rt);
        r := Accepted;
      case Activate(n) =>
        if n !in a.revs {
          return NotFound;
        }
        RefreshAndSync(a.(revs := a.revs[n := a.revs[n].(active := true)]), e.rt);
        r := Accepted;
      case Deactivate(n) =>
        if n !in a.revs {
          return NotFound;
        }
        if a.mode.Single? {
          return Invalid;
        }
        RefreshAndSync(a.(revs := a.revs[n := a.revs[n].(active := false)]), e.rt);
        r := Accepted;
      case Restart(n) =>
        if n !in a.revs {
          return NotFound;
        }
        RefreshAndSync(a, e.rt);
        r := Accepted;
    }
  }
}
