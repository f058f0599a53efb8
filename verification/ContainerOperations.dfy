/** What each request leaves of an app: how many replicas every revision has, which revisions
    are active, the status, which containers are held, and which revisions pruning takes. */
module ContainerOperations {
  import opened Common
  import opened Dicts
  import opened ContainerApps

  // ---------- replicas ----------

  /** The status a request asks for: only a start and a stop change it. */
  function AskedStatus(w: World, r: Request): Status {
    match r
    case Start => Running
    case Stop => Stopped
    case _ => if w.app.Some? then w.app.value.status else Running
  }

  function AtLeastOne(n: nat): nat {
    if n < 1 then 1 else n
  }

  /** The replicas a revision should have: none unless it is active and the app not stopped; else
      its minimum, at least one, if it has weight or a minimum. */
  ghost predicate RightReplicas(r: Revision, stopped: bool) {
    && (!r.active || stopped ==> r.replicas == 0)
    && (r.active && !stopped && r.weight == 0 && r.template.minReplicas == 0 ==> r.replicas == 0)
    && (r.active && !stopped && (r.weight != 0 || r.template.minReplicas > 0) ==> r.replicas == AtLeastOne(r.template.minReplicas))
  }

  /** The app a request hands to the refresh, if it is accepted. */
  function HandedOver(w: World, r: Request): App {
    if r.Put? then Configured(w, r.args) else if w.app.Some? then Operated(w.app.value, r) else BLANK
  }

  lemma AcceptedRefreshes(w: World, r: Request, rt: Runtime)
    requires (w.app.Some? ==> Listed(w.app.value)) && Step(w, r, rt).1.Accepted? && !r.Delete?
    ensures Step(w, r, rt).0 == Refresh(HandedOver(w, r), w.started, w.stopped, rt)
    ensures HandedOver(w, r).status == AskedStatus(w, r) && Listed(HandedOver(w, r)) && HandedOver(w, r).handles == Held(w)
  {
    if r.Put? {
      ConfiguredListed(w, r.args, rt);
    } else {
      OperatedStep(w, r, rt);
    }
  }

  lemma RefreshReplicas(app: App, started: multiset<Handle>, stopped: multiset<Handle>, rt: Runtime)
    ensures var a := Refresh(app, started, stopped, rt).app.value;
            forall n :: n in a.revs ==> RightReplicas(a.revs[n], app.status.Stopped?)
  {
  }

  /** After every accepted request each stored revision has the replicas it should. */
  lemma ReplicasExactly(w: World, r: Request, rt: Runtime)
    requires (w.app.Some? ==> Listed(w.app.value)) && Step(w, r, rt).1.Accepted? && !r.Delete?
    ensures Step(w, r, rt).0.app.Some?
    ensures var a := Step(w, r, rt).0.app.value;
            forall n :: n in a.revs ==> RightReplicas(a.revs[n], AskedStatus(w, r).Stopped?)
  {
    AcceptedRefreshes(w, r, rt);
    RefreshReplicas(HandedOver(w, r), w.started, w.stopped, rt);
  }

  // ---------- containers and status ----------

  function OutcomeOf(rt: Runtime, n: string): Outcome {
    if n in rt.outcomes then rt.outcomes[n] else NoHandle
  }

  /** The container a stored revision holds afterwards: one it held stays while it is wanted or
      cannot be stopped, and one is started if it is wanted and the start succeeds. */
  function HeldAfter(before: map<string, Handle>, n: string, wanted: bool, rt: Runtime): Option<Handle> {
    if n in before then (if wanted || !rt.canStop then Some(before[n]) else None)
    else if wanted && OutcomeOf(rt, n).Started? then Some(OutcomeOf(rt, n).h)
    else None
  }

  function HeldBy(handles: map<string, Handle>, n: string): Option<Handle> {
    if n in handles then Some(handles[n]) else None
  }

  /** The start of a wanted container was answered with an error. */
  predicate StartFails(before: map<string, Handle>, n: string, wanted: bool, rt: Runtime) {
    wanted && n !in before && OutcomeOf(rt, n).StartError?
  }

  predicate Wanted(revs: map<string, Revision>, n: string) {
    n in revs && revs[n].replicas > 0
  }

  lemma {:induction false} SyncAllExactly(revs: map<string, Revision>, order: seq<string>, x: Pool, rt: Runtime)
    requires NoDup(order)
    ensures var y := SyncAll(revs, order, x, rt);
            && (forall n :: HeldBy(y.handles, n) == if n in order then HeldAfter(x.handles, n, Wanted(revs, n), rt) else HeldBy(x.handles, n))
            && (y.failed <==> x.failed || exists n :: n in order && StartFails(x.handles, n, Wanted(revs, n), rt))
  {
    if order != [] {
      var k := |order| - 1;
      SyncAllExactly(revs, order[..k], x, rt);
      SyncLastExactly(revs, order, x, rt);
      assert forall n :: n in order <==> n in order[..k] || n == order[k];
    }
  }

  lemma SyncLastExactly(revs: map<string, Revision>, order: seq<string>, x: Pool, rt: Runtime)
    requires NoDup(order) && order != []
    requires var k := |order| - 1; var mid := SyncAll(revs, order[..k], x, rt);
             && HeldBy(mid.handles, order[k]) == HeldBy(x.handles, order[k])
    ensures var k := |order| - 1;
            var n, mid, y := order[k], SyncAll(revs, order[..k], x, rt), SyncAll(revs, order, x, rt);
            && n !in order[..k]
            && HeldBy(y.handles, n) == HeldAfter(x.handles, n, Wanted(revs, n), rt)
            && (forall m :: m != n ==> HeldBy(y.handles, m) == HeldBy(mid.handles, m))
            && (y.failed <==> mid.failed || StartFails(x.handles, n, Wanted(revs, n), rt))
  {
    var k := |order| - 1;
    SyncOneExactly(SyncAll(revs, order[..k], x, rt), order[k], Wanted(revs, order[k]), rt);
  }

  lemma SyncOneExactly(x: Pool, n: string, want: bool, rt: Runtime)
    ensures var y := SyncOne(x, n, want, rt);
            && HeldBy(y.handles, n) == HeldAfter(x.handles, n, want, rt)
            && (forall m :: m != n ==> HeldBy(y.handles, m) == HeldBy(x.handles, m))
            && (y.failed <==> x.failed || StartFails(x.handles, n, want, rt))
  {
  }

  /** Which containers are held after an accepted request, with any runtime that can start: told
      from those held before, the replicas, and how the starts went. What is held for a name
      that is stored no more stays held. */
  lemma {:induction false} ContainersExactly(w: World, r: Request, rt: Runtime, n: string)
    requires (w.app.Some? ==> Listed(w.app.value)) && Step(w, r, rt).1.Accepted? && !r.Delete?
    ensures Step(w, r, rt).0.app.Some?
    ensures var a := Step(w, r, rt).0.app.value;
            HeldBy(a.handles, n) == if rt.canStart && n in a.revs then HeldAfter(Held(w), n, a.revs[n].replicas > 0, rt) else HeldBy(Held(w), n)
  {
    AcceptedRefreshes(w, r, rt);
    var b := RefreshRevs(HandedOver(w, r));
    RefreshListed(HandedOver(w, r));
    if rt.canStart {
      SyncAllExactly(b.revs, b.order, Pool(b.handles, w.started, w.stopped, false), rt);
    }
  }

  /** The status after an accepted request is the one asked for, unless a start it needed was
      answered with an error; a stopped app needs none. */
  lemma {:induction false} StatusExactly(w: World, r: Request, rt: Runtime)
    requires (w.app.Some? ==> Listed(w.app.value)) && Step(w, r, rt).1.Accepted? && !r.Delete?
    ensures Step(w, r, rt).0.app.Some?
    ensures var a := Step(w, r, rt).0.app.value;
            a.status == if rt.canStart && exists n :: n in a.revs && StartFails(Held(w), n, a.revs[n].replicas > 0, rt) then Failed
                        else AskedStatus(w, r)
    ensures AskedStatus(w, r).Stopped? <==> Step(w, r, rt).0.app.value.status.Stopped?
  {
    AcceptedRefreshes(w, r, rt);
    ReplicasExactly(w, r, rt);
    var b := RefreshRevs(HandedOver(w, r));
    RefreshListed(HandedOver(w, r));
    if rt.canStart {
      var x := Pool(b.handles, w.started, w.stopped, false);
      SyncAllExactly(b.revs, b.order, x, rt);
      assert forall n :: n in b.order <==> n in b.revs;
    }
  }

  /** Stopping an app leaves every stored revision without replicas and, with a runtime attached,
      without a container. */
  lemma {:induction false} StopStopsAll(w: World, rt: Runtime)
    requires w.app.Some? && Listed(w.app.value)
    ensures var (t, reply) := Step(w, Stop, rt);
            && reply.Accepted? && t.app.Some? && t.app.value.status.Stopped?
            && forall n :: n in t.app.value.revs ==>
                 t.app.value.revs[n].replicas == 0 && (rt.canStart && rt.canStop ==> n !in t.app.value.handles)
  {
    ReplicasExactly(w, Stop, rt);
    StatusExactly(w, Stop, rt);
    forall n | n in Step(w, Stop, rt).0.app.value.revs
      ensures rt.canStart && rt.canStop ==> n !in Step(w, Stop, rt).0.app.value.handles
    {
      ContainersExactly(w, Stop, rt, n);
    }
  }

  // ---------- what the operations change ----------

  /** The two hold the same revisions but for weights and replicas, and but for `active` of the
      one named, which is as given. */
  ghost predicate OnlyActivates(a: App, b: App, name: string, active: bool) {
    && b.revs.Keys == a.revs.Keys && b.order == a.order && b.latest == a.latest && b.mode == a.mode && b.ingress == a.ingress
    && forall n :: n in a.revs ==>
         b.revs[n].template == a.revs[n].template && b.revs[n].active == if n == name then active else a.revs[n].active
  }

  /** No revision was activated or deactivated. */
  ghost predicate NoneActivates(a: App, b: App) {
    && b.revs.Keys == a.revs.Keys && b.order == a.order && b.latest == a.latest && b.mode == a.mode && b.ingress == a.ingress
    && forall n :: n in a.revs ==> b.revs[n].template == a.revs[n].template && b.revs[n].active == a.revs[n].active
  }

  /** An operation needs its app, and one on a revision that revision; a deactivation also needs
      Multiple mode. Accepted, it sets `active` of the revision it names and of no other. */
  lemma OperationsExactly(w: World, r: Request, rt: Runtime)
    requires !r.Put? && !r.Delete?
    ensures var (t, reply) := Step(w, r, rt);
            && (reply.NotFound? <==> w.app.None? || ((r.Activate? || r.Deactivate? || r.Restart?) && r.name !in w.app.value.revs))
            && (reply.Invalid? <==> w.app.Some? && r.Deactivate? && r.name in w.app.value.revs && w.app.value.mode.Single?)
            && (reply.NotFound? || reply.Invalid? ==> t == w)
            && (reply.NotFound? || reply.Invalid? || reply.Accepted?)
            && (reply.Accepted? ==>
                  && w.app.Some? && t.app.Some?
                  && if r.Activate? || r.Deactivate? then OnlyActivates(w.app.value, t.app.value, r.name, r.Activate?)
                     else NoneActivates(w.app.value, t.app.value))
  {
  }

  // ---------- the weight of one revision ----------

  /** The entries that send traffic to a revision: those that name it, and those for the latest one if it is that. */
  function Sending(es: seq<Entry>, latest: Option<string>, n: string): seq<Entry> {
    if es == [] then []
    else if (if es[0].latest then latest == Some(n) else es[0].revision == n) then [es[0]] + Sending(es[1..], latest, n)
    else Sending(es[1..], latest, n)
  }

  lemma {:induction false} SumForHead(es: seq<Entry>, latest: Option<string>, n: string)
    requires es != []
    ensures SumFor(es, latest, n) == SumFor(es[..1], latest, n) + SumFor(es[1..], latest, n)
  {
    var k := |es| - 1;
    if k == 0 {
      assert es[..1] == es && es[1..] == [];
    } else {
      SumForHead(es[..k], latest, n);
      assert es[..k][..1] == es[..1] && es[..k][1..] == es[1..][..k - 1];
    }
  }

  lemma {:induction false} SumAllHead(es: seq<Entry>)
    requires es != []
    ensures SumAll(es) == es[0].weight + SumAll(es[1..])
  {
    var k := |es| - 1;
    if k == 0 {
      assert es[..0] == [] && es[1..] == [];
    } else {
      SumAllHead(es[..k]);
      assert es[..k][1..] == es[1..][..k - 1];
    }
  }

  lemma {:induction false} SumForIsSending(es: seq<Entry>, latest: Option<string>, n: string)
    ensures SumFor(es, latest, n) == SumAll(Sending(es, latest, n))
  {
    if es != [] {
      SumForHead(es, latest, n);
      SumForIsSending(es[1..], latest, n);
      assert es[..1][..0] == [];
      assert SumFor(es[..1], latest, n) == SumFor([], latest, n) + if TargetOf(es[0], latest) == Some(n) then es[0].weight else 0;
      if TargetOf(es[0], latest) == Some(n) {
        var sent := [es[0]] + Sending(es[1..], latest, n);
        assert sent[1..] == Sending(es[1..], latest, n);
        SumAllHead(sent);
      }
    }
  }

  /** After every accepted request the weight of each stored revision is the sum over the
      entries that send traffic to it; without ingress it is nought. */
  lemma WeightsExactly(w: World, r: Request, rt: Runtime, n: string)
    requires (w.app.Some? ==> Listed(w.app.value)) && Step(w, r, rt).1.Accepted? && !r.Delete?
    ensures Step(w, r, rt).0.app.Some?
    ensures var a := Step(w, r, rt).0.app.value;
            n in a.revs ==> a.revs[n].weight == if a.ingress.Some? then SumAll(Sending(a.ingress.value, a.latest, n)) else 0
  {
    AcceptedRefreshes(w, r, rt);
    var a := HandedOver(w, r);
    if a.ingress.Some? {
      SumForIsSending(a.ingress.value, a.latest, n);
    }
  }

  // ---------- what a PUT does to the revisions ----------

  /** The revision a PUT deploys: the one its suffix asks for, else the latest one if that has
      the template already, else one of the generated name. */
  function Deployed(before: App, args: PutArgs): string {
    if args.revision.Some? then args.revision.value
    else if before.latest.Some? && before.latest.value in before.revs && before.revs[before.latest.value].template == args.template
    then before.latest.value
    else args.autoName
  }

  function Before(w: World): App {
    if w.app.Some? then w.app.value else BLANK
  }

  /** A revision as a PUT leaves it, apart from weight and replicas: a new one has the template
      asked for; in Single mode only the deployed one is active, in Multiple mode a new one is
      and the others are as they were. */
  ghost predicate LeftBy(before: App, args: PutArgs, n: string, r: Revision) {
    && r.template == (if n in before.revs then before.revs[n].template else args.template)
    && r.active == if args.mode.Single? then n == Deployed(before, args) else n in before.revs ==> before.revs[n].active
  }

  lemma SettlesOnDeployed(app: App, args: PutArgs)
    requires Settle(app, args).Some?
    ensures var a, d := Settle(app, args).value, Deployed(app, args);
            && a.latest == Some(d) && a.revs.Keys == app.revs.Keys + {d}
            && a.mode == app.mode && a.ingress == app.ingress && a.status == app.status && a.handles == app.handles
            && (forall n :: n in app.revs ==> a.revs[n] == app.revs[n])
            && (d !in app.revs ==> a.revs[d].template == args.template && a.revs[d].active)
            && a.order == if d in app.revs then app.order else app.order + [d]
  {
  }

  /** The app before pruning. */
  function Settled(before: App, args: PutArgs): App
    requires Settle(before, args).Some?
  {
    var s := Settle(before, args).value;
    if args.mode.Single? then s.(revs := SetActive(s.revs, s.latest)) else s
  }

  lemma SettledLeft(before: App, args: PutArgs)
    requires Settle(before, args).Some?
    ensures var b, d := Settled(before, args), Deployed(before, args);
            && b.latest == Some(d) && b.revs.Keys == before.revs.Keys + {d}
            && (forall n :: n in b.revs ==> LeftBy(before, args, n, b.revs[n]))
  {
    SettlesOnDeployed(before, args);
    var s, b := Settle(before, args).value, Settled(before, args);
    assert b.revs.Keys == s.revs.Keys;
  }

  lemma ConfiguredLeft(w: World, args: PutArgs)
    requires w.app.Some? ==> Listed(w.app.value)
    requires Settle(Before(w).(mode := args.mode, ingress := TrafficOf(args.ingress)), args).Some?
    ensures var a, before := Configured(w, args), Before(w);
            && a.latest == Some(Deployed(before, args)) && a.revs.Keys <= before.revs.Keys + {Deployed(before, args)}
            && (forall n :: n in a.revs ==> LeftBy(before, args, n, a.revs[n]))
  {
    var app := Before(w).(mode := args.mode, ingress := TrafficOf(args.ingress));
    SettledLeft(app, args);
    SettledListed(app, args);
    var b := Settled(app, args);
    PruneListed(b, args.keep);
    assert Configured(w, args) == Prune(b, args.keep);
    forall n | n in b.revs
      ensures LeftBy(Before(w), args, n, b.revs[n])
    {
      assert LeftBy(app, args, n, b.revs[n]);
    }
  }

  lemma SettledListed(before: App, args: PutArgs)
    requires Listed(before) && Settle(before, args).Some?
    ensures Listed(Settled(before, args))
  {
    SettleListed(before, args);
    assert Settled(before, args).revs.Keys == Settle(before, args).value.revs.Keys;
  }

  /** What an accepted PUT leaves: the mode and entries asked for, the deployed revision as the
      latest, and of the revisions there were and that one, those that pruning does not take. */
  lemma {:induction false} PutRevisionsExactly(w: World, args: PutArgs, rt: Runtime)
    requires (w.app.Some? ==> Listed(w.app.value)) && PutApp(w, args, rt).1.Accepted?
    ensures PutApp(w, args, rt).0.app.Some?
    ensures var a, before := PutApp(w, args, rt).0.app.value, Before(w);
            && a.mode == args.mode && a.ingress == TrafficOf(args.ingress) && a.latest == Some(Deployed(before, args))
            && a.revs.Keys <= before.revs.Keys + {Deployed(before, args)}
            && (forall n :: n in a.revs ==> LeftBy(before, args, n, a.revs[n]))
  {
    ConfiguredLeft(w, args);
    ConfiguredListed(w, args, rt);
    RefreshLeaves(Configured(w, args), w.started, w.stopped, rt);
  }

  lemma RefreshLeaves(app: App, started: multiset<Handle>, stopped: multiset<Handle>, rt: Runtime)
    ensures var t := Refresh(app, started, stopped, rt);
            && t.app.Some? && t.app.value.mode == app.mode && t.app.value.ingress == app.ingress && t.app.value.latest == app.latest
            && t.app.value.revs.Keys == app.revs.Keys
            && forall n :: n in app.revs ==> t.app.value.revs[n].template == app.revs[n].template && t.app.value.revs[n].active == app.revs[n].active
  {
  }

  /** An app that refuses a PUT for its fields is as it was; one refused for its suffix has taken
      the mode and the entries and nothing else. */
  lemma PutRefusedExactly(w: World, args: PutArgs, rt: Runtime)
    requires !PutApp(w, args, rt).1.Accepted?
    ensures var (t, reply) := PutApp(w, args, rt);
            && (reply == Invalid <==> !args.otherwiseValid || (args.ingress.Traffic? && SumAll(args.ingress.entries) != 100))
            && (reply == Invalid ==> t == w)
            && (reply != Invalid ==>
                  reply == Conflict && w.app.Some? && t == w.(app := Some(w.app.value.(mode := args.mode, ingress := TrafficOf(args.ingress)))))
  {
    assert SumAll([Entry(true, "", 100, false)][..0]) == 0;
  }

  // ---------- pruning ----------

  function InactiveNames(app: App): set<string> {
    set n | n in app.revs && !app.revs[n].active
  }

  lemma {:induction false} CountElements(names: seq<string>)
    requires NoDup(names)
    ensures |Elements(names)| == |names|
  {
    if names != [] {
      var k := |names| - 1;
      CountElements(names[..k]);
      assert names == names[..k] + [names[k]];
      assert Elements(names) == Elements(names[..k]) + {names[k]};
    }
  }

  /** The inactive revisions stand in the list in their stored order. */
  lemma {:induction false} InactiveInOrder(revs: map<string, Revision>, order: seq<string>, i: nat, j: nat) returns (p: nat, q: nat)
    requires i < j < |order| && order[i] in revs && order[j] in revs && !revs[order[i]].active && !revs[order[j]].active
    ensures var r := Inactive(revs, order); p < q < |r| && r[p] == order[i] && r[q] == order[j]
  {
    var k := |order| - 1;
    if j == k {
      var before := Inactive(revs, order[..k]);
      p := InactivePlace(revs, order[..k], i);
      q := |before|;
    } else {
      p, q := InactiveInOrder(revs, order[..k], i, j);
    }
  }

  lemma {:induction false} InactivePlace(revs: map<string, Revision>, order: seq<string>, i: nat) returns (p: nat)
    requires i < |order| && order[i] in revs && !revs[order[i]].active
    ensures p < |Inactive(revs, order)| && Inactive(revs, order)[p] == order[i]
  {
    var k := |order| - 1;
    if i == k {
      p := |Inactive(revs, order[..k])|;
    } else {
      p := InactivePlace(revs, order[..k], i);
    }
  }

  /** How many inactive revisions pruning leaves. */
  function Left(inactive: nat, keep: int): nat {
    if keep <= 0 then 0 else if inactive <= keep then inactive else keep
  }

  /** The names pruning takes: a first part of the inactive ones. */
  function Doomed(app: App, keep: int): nat {
    var over := |Inactive(app.revs, app.order)| - keep;
    if over <= 0 then 0 else if over > |Inactive(app.revs, app.order)| then |Inactive(app.revs, app.order)| else over
  }

  lemma PruneTakes(app: App, keep: int)
    requires Listed(app)
    ensures var inactive, n := Inactive(app.revs, app.order), Doomed(app, keep);
            && NoDup(inactive) && n <= |inactive| && Elements(inactive) == InactiveNames(app) && Elements(inactive[..n]) <= InactiveNames(app)
            && Prune(app, keep).revs == app.revs - Elements(inactive[..n])
  {
    InactiveMeaning(app.revs, app.order);
  }

  /** Pruning takes inactive revisions only, down to the number to keep and no further. */
  lemma {:induction false} PruneCounts(app: App, keep: int)
    requires Listed(app)
    ensures var p := Prune(app, keep);
            && app.revs.Keys - p.revs.Keys <= InactiveNames(app)
            && |InactiveNames(p)| == Left(|InactiveNames(app)|, keep)
  {
    var p, inactive, n := Prune(app, keep), Inactive(app.revs, app.order), Doomed(app, keep);
    PruneTakes(app, keep);
    CountElements(inactive);
    CountElements(inactive[..n]);
    assert InactiveNames(p) == InactiveNames(app) - Elements(inactive[..n]);
  }

  /** Pruning takes no inactive revision while an older one stays. */
  lemma {:induction false} PruneTakesOldest(app: App, keep: int, i: nat, j: nat)
    requires Listed(app) && i < j < |app.order| && app.order[i] in InactiveNames(app)
    requires app.order[j] in app.revs && app.order[j] !in Prune(app, keep).revs
    ensures app.order[i] !in Prune(app, keep).revs
  {
    PruneTakes(app, keep);
    var x, y := InactiveInOrder(app.revs, app.order, i, j);
    PrefixHolds(Inactive(app.revs, app.order), Doomed(app, keep), x, y);
  }

  lemma PrefixHolds(names: seq<string>, n: nat, x: nat, y: nat)
    requires NoDup(names) && n <= |names| && x < y < |names| && names[y] in Elements(names[..n])
    ensures names[x] in Elements(names[..n])
  {
    var z :| 0 <= z < n && names[..n][z] == names[y];
    assert z == y;
    assert names[..n][x] == names[x];
  }
}
