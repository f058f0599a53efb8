/** What clients of the key-value store can rely on over whole runs: conditional
    writes never lose an update, locks hold, snapshots stay frozen. */
module ConfigGuarantees {
  import opened Common
  import opened Dicts
  import opened ConfigStore

  // ---------- conditional requests ----------

  predicate Conditional(req: Request) {
    req.PutKv? || req.DeleteKv? || req.SetLock?
  }

  function Target(req: Request): string
    requires Conditional(req)
  {
    Id(req.key, req.lab)
  }

  /** Revision `n` is the newest one of slot `id`, and the index holds its content. */
  ghost predicate IsNewest(s: Store, id: string, n: nat) {
    && n < |s.log| && Slot(s.log[n]) == id && !s.log[n].deleted
    && id in s.items && s.items[id] == s.log[n].kv
    && forall m :: n < m < |s.log| ==> Slot(s.log[m]) != id
  }

  lemma EtagsUnique(log: seq<Revision>, counter: nat, m: nat, n: nat)
    requires Numbered(log, counter) && m < |log| && n < |log| && log[m].kv.etag == log[n].kv.etag
    ensures m == n
  {
  }

  /** The newest write of slot `id` is the one that issued `etag`. */
  ghost predicate NewestIssued(s: Store, id: string, etag: nat) {
    exists n: nat :: IsNewest(s, id, n) && s.log[n].kv.etag == etag
  }

  /** With an If-Match tag that the item does carry, If-None-Match asks for any other tag. */
  predicate NotExcluded(inm: Header, etag: nat) {
    inm.NoHeader? || (inm.Tag? && inm.etag != etag)
  }

  /** A request conditional on a tag gets past its conditions on a live item exactly
      when the write that issued the tag is the newest write of that item (and an
      If-None-Match header does not exclude it). */
  lemma IfMatchFindsItsVersion(s: Store, e: Event, etag: nat)
    requires Inv(s)
    requires Conditional(e.req) && e.req.ifMatch == Tag(etag)
    requires Target(e.req) in s.items
    ensures Step(s, e).1 != PreconditionFailed <==>
            NewestIssued(s, Target(e.req), etag) && NotExcluded(e.req.ifNoneMatch, etag)
  {
    var id := Target(e.req);
    var n := LiveIsNewest(s.log, id);
    assert IsNewest(s, id, n);
    PassesIff(s, e, etag);
  }

  lemma PassesIff(s: Store, e: Event, etag: nat)
    requires Conditional(e.req) && e.req.ifMatch == Tag(etag)
    requires Target(e.req) in s.items
    ensures Step(s, e).1 != PreconditionFailed <==>
            s.items[Target(e.req)].etag == etag && NotExcluded(e.req.ifNoneMatch, etag)
  {
  }

  lemma StaleFails(s: Store, e: Event, etag: nat)
    requires Conditional(e.req) && e.req.ifMatch == Tag(etag)
    requires Target(e.req) in s.items && s.items[Target(e.req)].etag != etag
    ensures Step(s, e) == (s, PreconditionFailed)
  {
  }

  lemma ChangeNeedsMatch(s: Store, e: Event, etag: nat)
    requires Conditional(e.req) && e.req.ifMatch == Tag(etag)
    requires Step(s, e).0.log != s.log
    ensures Target(e.req) in s.items && s.items[Target(e.req)].etag == etag
  {
    if Target(e.req) !in s.items {
      AbsentUnchanged(s, e, etag);
    } else if s.items[Target(e.req)].etag != etag {
      StaleFails(s, e, etag);
    }
  }

  lemma AbsentUnchanged(s: Store, e: Event, etag: nat)
    requires Conditional(e.req) && e.req.ifMatch == Tag(etag) && Target(e.req) !in s.items
    ensures Step(s, e).0 == s
  {
  }

  lemma ChangeHitsTarget(s: Store, e: Event)
    requires Inv(s) && Conditional(e.req) && Step(s, e).0.log != s.log && Target(e.req) in s.items
    ensures var t := Step(s, e).0; |t.log| == |s.log| + 1 && Slot(t.log[|s.log|]) == Target(e.req)
  {
    ReplayKeyed(s.log);
    StepFollows(s, e);
    match e.req
    case PutKv(_, _, _, _, _, _) =>
    case DeleteKv(_, _, _, _) =>
    case SetLock(_, _, _, _, _) =>
  }

  lemma ReachSnoc(es: seq<Event>, e: Event)
    ensures Reach(es + [e]) == Step(Reach(es), e).0
  {
    assert (es + [e])[..|es|] == es;
  }

  /** A tag whose revision was followed by another of its slot is on no live item. */
  lemma ReplacedTagIsDead(u: Store, n: nat, m: nat, id: string)
    requires Inv(u) && n < m < |u.log| && Slot(u.log[n]) == Slot(u.log[m]) && id in u.items
    ensures u.items[id].etag != u.log[n].kv.etag
  {
    var k := LiveIsNewest(u.log, id);
    if u.items[id].etag == u.log[n].kv.etag {
      EtagsUnique(u.log, u.counter, n, k);
    }
  }

  /** A request that changes its item under a tag leaves that tag's revision behind another of the same slot. */
  lemma ChangeReplacesTag(s: Store, e: Event, etag: nat) returns (n: nat)
    requires Inv(s) && Conditional(e.req) && e.req.ifMatch == Tag(etag) && Step(s, e).0.log != s.log
    ensures var log := Step(s, e).0.log;
            n < |s.log| < |log| && log[n].kv.etag == etag && Slot(log[n]) == Slot(log[|s.log|])
  {
    ChangeNeedsMatch(s, e, etag);
    ChangeHitsTarget(s, e);
    n := LiveIsNewest(s.log, Target(e.req));
    StepFollows(s, e);
    assert Step(s, e).0.log[..|s.log|][n] == s.log[n];
  }

  /** No lost update: once a request conditional on a tag has changed its item, every
      later request conditional on the same tag changes nothing, and is refused with
      412 if its item is there. */
  lemma NoLostUpdate(es: seq<Event>, first: Event, fs: seq<Event>, second: Event, etag: nat)
    requires Conditional(first.req) && first.req.ifMatch == Tag(etag)
    requires Step(Reach(es), first).0.log != Reach(es).log
    requires Conditional(second.req) && second.req.ifMatch == Tag(etag)
    ensures var u := Reach(es + [first] + fs);
            && Step(u, second).0 == u
            && (Target(second.req) in u.items ==> Step(u, second).1 == PreconditionFailed)
  {
    var s, t, u := Reach(es), Reach(es + [first]), Reach(es + [first] + fs);
    ReachInv(es);
    ReachInv(es + [first] + fs);
    var n := ChangeReplacesTag(s, first, etag);
    ReachSnoc(es, first);
    RunConcat(EMPTY, es + [first], fs);
    LogGrows(t, fs);
    assert u.log[..|t.log|] == t.log;
    assert u.log[n] == t.log[n] && u.log[|s.log|] == t.log[|s.log|];
    var id := Target(second.req);
    if id in u.items {
      ReplacedTagIsDead(u, n, |s.log|, id);
      StaleFails(u, second, etag);
    } else {
      AbsentUnchanged(u, second, etag);
    }
  }

  // ---------- locks ----------

  predicate Unlocks(e: Event, id: string) {
    e.req.SetLock? && !e.req.locked && Target(e.req) == id
  }

  lemma LockedStep(s: Store, e: Event, id: string)
    requires Inv(s) && id in s.items && s.items[id].locked && !Unlocks(e, id)
    ensures var t := Step(s, e).0; id in t.items && t.items[id] == s.items[id]
  {
    match e.req
    case PutKv(_, _, _, _, _, _) =>
    case DeleteKv(_, _, _, _) =>
    case SetLock(_, _, _, _, _) =>
    case ArmPutKv(_, _, _) =>
    case ArmDeleteKv(_, _) =>
    case PutSnapshot(_, _, _) =>
    case PatchSnapshot(_, _) =>
  }

  /** A locked item is untouched by every run on either plane that does not unlock it. */
  lemma {:induction false} LockedStays(s: Store, es: seq<Event>, id: string)
    requires Inv(s) && id in s.items && s.items[id].locked
    requires forall i :: 0 <= i < |es| ==> !Unlocks(es[i], id)
    ensures id in Run(s, es).items && Run(s, es).items[id] == s.items[id]
  {
    if es != [] {
      LockedStays(s, es[..|es| - 1], id);
      RunKeepsInv(s, es[..|es| - 1]);
      LockedStep(Run(s, es[..|es| - 1]), es[|es| - 1], id);
    }
  }

  // ---------- snapshots ----------

  lemma SnapshotStep(s: Store, e: Event, name: string)
    requires name in s.snapshots
    ensures var t := Step(s, e).0;
            name in t.snapshots && t.snapshots[name].items == s.snapshots[name].items
            && t.snapshots[name].composition == s.snapshots[name].composition
            && t.snapshots[name].filters == s.snapshots[name].filters
  {
    match e.req
    case PutKv(_, _, _, _, _, _) =>
    case DeleteKv(_, _, _, _) =>
    case SetLock(_, _, _, _, _) =>
    case ArmPutKv(_, _, _) =>
    case ArmDeleteKv(_, _) =>
    case PutSnapshot(_, _, _) =>
    case PatchSnapshot(_, _) =>
  }

  /** No later put, delete, lock flip or archive changes what a snapshot holds. */
  lemma {:induction false} SnapshotFrozen(s: Store, es: seq<Event>, name: string)
    requires name in s.snapshots
    ensures name in Run(s, es).snapshots && Run(s, es).snapshots[name].items == s.snapshots[name].items
    ensures Run(s, es).snapshots[name].composition == s.snapshots[name].composition
  {
    if es != [] {
      SnapshotFrozen(s, es[..|es| - 1], name);
      SnapshotStep(Run(s, es[..|es| - 1]), es[|es| - 1], name);
    }
  }

  predicate Chosen(items: map<string, KeyValue>, order: seq<string>, filters: seq<SnapshotFilter>, c: Composition, k: string, i: nat) {
    i < |order| && order[i] in items && Selected(filters, items[order[i]]) && Ident(c, items[order[i]]) == k
  }

  /** Position `i` is the last one in index order that is selected and has identity `k`. */
  ghost predicate Wins(items: map<string, KeyValue>, order: seq<string>, filters: seq<SnapshotFilter>, c: Composition, k: string, i: nat) {
    Chosen(items, order, filters, c, k, i) && forall j: nat :: i < j ==> !Chosen(items, order, filters, c, k, j)
  }

  /** A snapshot holds, for each identity among the selected items, the one whose slot
      stands last in index order, and nothing else. */
  lemma {:induction false} ComposeWinners(items: map<string, KeyValue>, order: seq<string>, filters: seq<SnapshotFilter>, c: Composition, k: string)
    ensures var frozen := Compose(items, order, filters, c);
            && (k in frozen <==> exists i: nat :: Wins(items, order, filters, c, k, i))
            && (forall i: nat :: Wins(items, order, filters, c, k, i) ==> k in frozen && frozen[k] == items[order[i]])
            && (k in frozen ==> Ident(c, frozen[k]) == k && Selected(filters, frozen[k]))
  {
    if order != [] {
      var n := |order| - 1;
      ComposeWinners(items, order[..n], filters, c, k);
      ComposeLast(items, order, filters, c, k);
      if Chosen(items, order, filters, c, k, n) {
        assert Wins(items, order, filters, c, k, n);
      } else {
        forall i: nat
          ensures Wins(items, order[..n], filters, c, k, i) <==> Wins(items, order, filters, c, k, i)
          ensures Wins(items, order, filters, c, k, i) ==> i < n && order[..n][i] == order[i]
        {
          WinsInit(items, order, filters, c, k, i);
        }
      }
    }
  }

  lemma ComposeLast(items: map<string, KeyValue>, order: seq<string>, filters: seq<SnapshotFilter>, c: Composition, k: string)
    requires order != []
    ensures var n, frozen := |order| - 1, Compose(items, order, filters, c);
            var before := Compose(items, order[..n], filters, c);
            if Chosen(items, order, filters, c, k, n) then k in frozen && frozen[k] == items[order[n]]
            else (k in frozen <==> k in before) && (k in before ==> frozen[k] == before[k])
  {
  }

  lemma WinsInit(items: map<string, KeyValue>, order: seq<string>, filters: seq<SnapshotFilter>, c: Composition, k: string, i: nat)
    requires order != [] && !Chosen(items, order, filters, c, k, |order| - 1)
    ensures Wins(items, order[..|order| - 1], filters, c, k, i) <==> Wins(items, order, filters, c, k, i)
  {
    var init := order[..|order| - 1];
    forall j: nat
      ensures Chosen(items, init, filters, c, k, j) <==> Chosen(items, order, filters, c, k, j)
    {
      if j < |init| {
        assert init[j] == order[j];
      }
    }
  }

  /** The winner of a by-key snapshot need not be the label modified last: a label put
      again keeps its place in the index. */
  lemma LastModifiedDoesNotDecide()
    ensures exists es, filters :: Clocked(es) && NewerLoses(Reach(es), filters, "a")
  {
    var es := Relabelled();
    var s := Reach(es);
    RelabelledRun();
    var filters := [SnapshotFilter(None, None, [])];
    var x, y := Id("a", Some("x")), Id("a", Some("y"));
    assert forall kv: KeyValue :: Selected(filters, kv) by {
      assert filters[0] in filters;
    }
    ComposeWinners(s.items, s.order, filters, ByKey, "a");
    assert Wins(s.items, s.order, filters, ByKey, "a", 1);
    assert NewerLoses(s, filters, "a") by {
      assert x in s.items;
    }
  }

  /** Freezing `s` by key keeps, for key `k`, an item older than another selected one. */
  ghost predicate NewerLoses(s: Store, filters: seq<SnapshotFilter>, k: string) {
    var frozen := Compose(s.items, s.order, filters, ByKey);
    k in frozen && exists id :: id in s.items && s.items[id].key == k && Selected(filters, s.items[id])
                                && s.items[id].lastModified > frozen[k].lastModified
  }

  /** Freezing `s` by key keeps, for key `k`, an item as new as any selected one. */
  ghost predicate NewestKept(s: Store, filters: seq<SnapshotFilter>, k: string) {
    var frozen := Compose(s.items, s.order, filters, ByKey);
    k in frozen && forall id :: id in s.items && s.items[id].key == k && Selected(filters, s.items[id]) ==>
                                  s.items[id].lastModified <= frozen[k].lastModified
  }

  /** No selected slot of key `k` that stands before position `w` was written after revision `n`. */
  ghost predicate NoneOvertook(s: Store, filters: seq<SnapshotFilter>, k: string, w: nat, n: nat)
    requires n < |s.log|
  {
    forall i: nat, m: nat :: i < w && Chosen(s.items, s.order, filters, ByKey, k, i) && m < |s.log| && Slot(s.log[m]) == s.order[i] ==>
      s.log[m].kv.lastModified <= s.log[n].kv.lastModified
  }

  /** For the winner's place `w` in the index and its last write `n`. */
  lemma {:induction false} NewestWinsAt(es: seq<Event>, filters: seq<SnapshotFilter>, k: string, w: nat, n: nat)
    requires Clocked(es)
    requires Wins(Reach(es).items, Reach(es).order, filters, ByKey, k, w)
    requires IsNewest(Reach(es), Reach(es).order[w], n)
    ensures NewestKept(Reach(es), filters, k) <==> NoneOvertook(Reach(es), filters, k, w, n)
  {
    var s := Reach(es);
    ReachInv(es);
    LogClocked(es);
    ComposeWinners(s.items, s.order, filters, ByKey, k);
    if NewestKept(s, filters, k) {
      forall i: nat, m: nat | i < w && Chosen(s.items, s.order, filters, ByKey, k, i) && m < |s.log| && Slot(s.log[m]) == s.order[i]
        ensures s.log[m].kv.lastModified <= s.log[n].kv.lastModified
      {
        var l := LiveIsNewest(s.log, s.order[i]);
        assert m <= l;
      }
    } else {
      var id :| id in s.items && s.items[id].key == k && Selected(filters, s.items[id])
                && s.items[id].lastModified > s.items[s.order[w]].lastModified;
      var i :| 0 <= i < |s.order| && s.order[i] == id;
      assert Chosen(s.items, s.order, filters, ByKey, k, i);
      var l := LiveIsNewest(s.log, id);
      assert i < w;
    }
  }

  lemma WinnerExists(es: seq<Event>, filters: seq<SnapshotFilter>, k: string) returns (w: nat, n: nat)
    requires k in Compose(Reach(es).items, Reach(es).order, filters, ByKey)
    ensures Wins(Reach(es).items, Reach(es).order, filters, ByKey, k, w) && IsNewest(Reach(es), Reach(es).order[w], n)
  {
    var s := Reach(es);
    ReachInv(es);
    ComposeWinners(s.items, s.order, filters, ByKey, k);
    w :| Wins(s.items, s.order, filters, ByKey, k, w);
    n := LiveIsNewest(s.log, s.order[w]);
  }

  /** No selected slot of key `k` that stands before the winner's in the index was written
      after the winner's last write. */
  ghost predicate NeverOvertaken(s: Store, filters: seq<SnapshotFilter>, k: string) {
    exists w: nat, n: nat ::
      Wins(s.items, s.order, filters, ByKey, k, w) && IsNewest(s, s.order[w], n) && NoneOvertook(s, filters, k, w, n)
  }

  /** In every reachable state under a clock, a by-key snapshot keeps the newest selected item
      of a key exactly when no selected slot of the key that stands before the winner's in the
      index was put or lock-flipped later than the winner's last write. */
  lemma {:induction false} NewestWinsExactly(es: seq<Event>, filters: seq<SnapshotFilter>, k: string)
    requires Clocked(es) && k in Compose(Reach(es).items, Reach(es).order, filters, ByKey)
    ensures NewestKept(Reach(es), filters, k) <==> NeverOvertaken(Reach(es), filters, k)
  {
    var s := Reach(es);
    if NewestKept(s, filters, k) {
      var w, n := WinnerExists(es, filters, k);
      NewestWinsAt(es, filters, k, w, n);
    } else if NeverOvertaken(s, filters, k) {
      var w: nat, n: nat :| Wins(s.items, s.order, filters, ByKey, k, w) && IsNewest(s, s.order[w], n) && NoneOvertook(s, filters, k, w, n);
      NewestWinsAt(es, filters, k, w, n);
      assert false;
    }
  }

  const BLANK := Content(None, None, map[])

  /** Labels x, y and then x again, all of key "a". */
  function Relabelled(): seq<Event> {
    [Event(1, ArmPutKv("a", Some("x"), BLANK)), Event(2, ArmPutKv("a", Some("y"), BLANK)), Event(3, ArmPutKv("a", Some("x"), BLANK))]
  }

  lemma PutEffect(s: Store, key: string, lab: Option<string>, now: nat)
    requires Id(key, lab) in s.items ==> !s.items[Id(key, lab)].locked
    ensures var t, id := Step(s, Event(now, ArmPutKv(key, lab, BLANK))).0, Id(key, lab);
            && t.items == s.items[id := KeyValue(s.counter + 1, key, lab, None, None, map[], false, now)]
            && t.order == Touch(s.order, id)
            && |t.log| == |s.log| + 1 && t.log[..|s.log|] == s.log && Slot(t.log[|s.log|]) == id
  {
  }

  lemma RelabelledRun()
    ensures var s, x, y := Reach(Relabelled()), Id("a", Some("x")), Id("a", Some("y"));
            && x != y && s.order == [x, y] && x in s.items && y in s.items
            && s.items[x].key == s.items[y].key == "a"
            && s.items[x].lastModified == 3 && s.items[y].lastModified == 2
  {
    var es := Relabelled();
    var x, y := Id("a", Some("x")), Id("a", Some("y"));
    assert x[3] == 'x' && y[3] == 'y';
    assert es[..1] == [] + [es[0]] && es[..2] == es[..1] + [es[1]] && es == es[..2] + [es[2]];
    ReachSnoc([], es[0]);
    ReachSnoc(es[..1], es[1]);
    ReachSnoc(es[..2], es[2]);
    PutEffect(EMPTY, "a", Some("x"), 1);
    PutEffect(Reach(es[..1]), "a", Some("y"), 2);
    PutEffect(Reach(es[..2]), "a", Some("x"), 3);
  }

  // ---------- evicted history ----------

  /** One put of key "a" followed by `m` puts of key "b". */
  function Busy(m: nat): seq<Event> {
    if m == 0 then [Event(0, ArmPutKv("a", None, BLANK))]
    else Busy(m - 1) + [Event(0, ArmPutKv("b", None, BLANK))]
  }

  lemma {:induction false} BusyStamps(m: nat)
    ensures |Busy(m)| == m + 1 && forall i :: 0 <= i <= m ==> Busy(m)[i].now == 0
  {
    if m > 0 {
      BusyStamps(m - 1);
    }
  }

  /** The state after one write of "a" and `m` of "b". */
  ghost predicate BusyState(s: Store, m: nat) {
    && |s.log| == m + 1 && Id("a", None) in s.items
    && (forall i :: 1 <= i <= m ==> Slot(s.log[i]) == Id("b", None))
    && (Id("b", None) in s.items ==> !s.items[Id("b", None)].locked)
  }

  lemma BusyNext(s: Store, m: nat)
    requires BusyState(s, m)
    ensures BusyState(Step(s, Event(0, ArmPutKv("b", None, BLANK))).0, m + 1)
  {
    var t := Step(s, Event(0, ArmPutKv("b", None, BLANK))).0;
    PutEffect(s, "b", None, 0);
    forall i | 1 <= i <= m + 1
      ensures Slot(t.log[i]) == Id("b", None)
    {
      if i <= m {
        assert t.log[i] == t.log[..|s.log|][i] == s.log[i];
      }
    }
  }

  lemma {:induction false} BusyLog(m: nat)
    ensures BusyState(Reach(Busy(m)), m)
  {
    if m == 0 {
      assert Id("a", None)[0] == 'a' && Id("b", None)[0] == 'b';
      assert Busy(0) == [] + [Event(0, ArmPutKv("a", None, BLANK))];
      ReachSnoc([], Event(0, ArmPutKv("a", None, BLANK)));
      PutEffect(EMPTY, "a", None, 0);
    } else {
      BusyLog(m - 1);
      ReachSnoc(Busy(m - 1), Event(0, ArmPutKv("b", None, BLANK)));
      BusyNext(Reach(Busy(m - 1)), m - 1);
    }
  }

  /** What a full history retains after the overflow: only writes of key "b". */
  lemma BusyHistory(r: Revision)
    requires r in Reach(Busy(MAX_HISTORY)).history
    ensures Slot(r) == Id("b", None)
  {
    var s := Reach(Busy(MAX_HISTORY));
    BusyLog(MAX_HISTORY);
    ReachInv(Busy(MAX_HISTORY));
    var i :| 0 <= i < |s.history| && s.history[i] == r;
    assert s.history == s.log[1..];
    assert s.history[i] == s.log[i + 1];
  }

  lemma AllElapsed(es: seq<Event>)
    requires es != [] && forall i :: 0 <= i < |es| ==> es[i].now == 0
    ensures Clocked(es) && es[..Elapsed(es, 0)] == es
  {
    ElapsedSplits(es, 0);
    assert es[|es| - 1].now == 0;
  }

  lemma BusyElapsed(m: nat)
    ensures Clocked(Busy(m)) && Busy(m)[..Elapsed(Busy(m), 0)] == Busy(m)
  {
    BusyStamps(m);
    AllElapsed(Busy(m));
  }

  /** Once the log overflows, a point-in-time read can miss a live key that was last
      written before the retained revisions. */
  lemma EvictionForgets()
    ensures exists es, when :: Clocked(es) && |Reach(es).log| == MAX_HISTORY + 1
              && Replay(Upto(Reach(es).history, when)) != Reach(es[..Elapsed(es, when)]).items
  {
    var es := Busy(MAX_HISTORY);
    BusyElapsed(MAX_HISTORY);
    BusyLog(MAX_HISTORY);
    TimeTravel(es, 0);
    var seen := Upto(Reach(es).history, 0);
    UptoSubset(Reach(es).history, 0);
    assert Id("a", None) !in Mentioned(seen) by {
      assert Id("a", None)[0] == 'a' && Id("b", None)[0] == 'b';
      forall r | r in seen
        ensures Slot(r) != Id("a", None)
      {
        BusyHistory(r);
      }
    }
  }

  lemma {:induction false} UptoSubset(revs: seq<Revision>, when: nat)
    ensures forall r :: r in Upto(revs, when) ==> r in revs
  {
    if revs != [] {
      UptoSubset(revs[..|revs| - 1], when);
    }
  }

  // ---------- slots ----------

  /** A place where the slot string could be cut into a key and a label. */
  predicate Cut(s: string, p: nat) {
    p < |s| && s[p] == SEP && (p + 1 == |s| || s[p + 1] == MARK)
  }

  /** Cut at the same place, a slot gives the same pair. */
  lemma SameCut(key: string, lab: Option<string>, key2: string, lab2: Option<string>)
    requires Id(key, lab) == Id(key2, lab2) && |key| == |key2|
    ensures key == key2 && lab == lab2
  {
    var s := Id(key, lab);
    assert key2 == s[..|key|] == key;
    if lab.Some? && lab2.Some? {
      assert s[|key| + 2..] == lab.value == Id(key2, lab2)[|key| + 2..] == lab2.value;
    }
  }

  /** Two different (key, label) pairs share a slot exactly when the slot string can be
      cut at a second place. */
  lemma SlotSharing(key: string, lab: Option<string>)
    ensures (exists key2, lab2 :: (key2 != key || lab2 != lab) && Id(key2, lab2) == Id(key, lab))
            <==> exists p: nat :: p != |key| && Cut(Id(key, lab), p)
  {
    var s := Id(key, lab);
    assert Cut(s, |key|);
    if key2, lab2 :| (key2 != key || lab2 != lab) && Id(key2, lab2) == s {
      assert Cut(s, |key2|);
      if |key2| == |key| {
        SameCut(key, lab, key2, lab2);
      }
    }
    if p: nat :| p != |key| && Cut(s, p) {
      var key2 := s[..p];
      var lab2 := if p + 1 == |s| then None else Some(s[p + 2..]);
      assert Id(key2, lab2) == s;
    }
  }

  /** Keys and labels free of the separator never share a slot. */
  lemma PlainSlotsAreDistinct(key: string, lab: Option<string>, key2: string, lab2: Option<string>)
    requires SEP !in key && (lab.Some? ==> SEP !in lab.value)
    requires Id(key2, lab2) == Id(key, lab)
    ensures key2 == key && lab2 == lab
  {
    forall p: nat | p != |key|
      ensures !Cut(Id(key, lab), p)
    {
      NoOtherCut(key, lab, p);
    }
    SlotSharing(key, lab);
  }

  lemma NoOtherCut(key: string, lab: Option<string>, p: nat)
    requires SEP !in key && (lab.Some? ==> SEP !in lab.value)
    requires p != |key|
    ensures !Cut(Id(key, lab), p)
  {
    var s := Id(key, lab);
    if p < |s| {
      assert s[p] == if p < |key| then key[p] else if p == |key| + 1 then MARK else lab.value[p - |key| - 2];
    }
  }

  // ---------- reads after writes ----------

  /** A write reaches only its own slot. */
  lemma OtherSlotsUntouched(s: Store, e: Event, id: string)
    requires match e.req
             case ArmPutKv(key, lab, _) => Id(key, lab) != id
             case ArmDeleteKv(key, lab) => Id(key, lab) != id
             case PutSnapshot(_, _, _) => true
             case PatchSnapshot(_, _) => true
             case _ => Target(e.req) != id
    ensures var t := Step(s, e).0;
            (id in t.items <==> id in s.items) && (id in s.items ==> t.items[id] == s.items[id])
  {
  }

  /** A served put is what both planes read next: unlocked, stamped now, under a tag
      above every number used before. */
  lemma PutThenRead(s: Store, e: Event)
    requires e.req.PutKv? || e.req.ArmPutKv?
    requires Step(s, e).1.Served?
    ensures var kv := Step(s, e).1.kv;
            && Lookup(Step(s, e).0, e.req.key, e.req.lab) == Some(kv)
            && kv.key == e.req.key && kv.lab == e.req.lab && !kv.locked && kv.lastModified == e.now && kv.etag > s.counter
            && Content(kv.value, kv.contentType, kv.tags) == e.req.body
  {
  }

  /** A served delete answers with the item it removed. */
  lemma DeleteThenRead(s: Store, e: Event)
    requires e.req.DeleteKv? || e.req.ArmDeleteKv?
    requires Step(s, e).1.Served?
    ensures Lookup(s, e.req.key, e.req.lab) == Some(Step(s, e).1.kv)
    ensures Lookup(Step(s, e).0, e.req.key, e.req.lab) == None
  {
  }

  /** A served lock request answers with what is read next: the same content, locked as
      asked. It changes nothing if the item was so already, and otherwise issues a new tag
      and stamps the item now. */
  lemma LockThenRead(s: Store, e: Event)
    requires e.req.SetLock? && Step(s, e).1.Served?
    ensures var t, kv := Step(s, e).0, Step(s, e).1.kv;
            && Lookup(t, e.req.key, e.req.lab) == Some(kv) && kv.locked == e.req.locked
            && Target(e.req) in s.items
            && var cur := s.items[Target(e.req)];
               && kv == cur.(locked := kv.locked, etag := kv.etag, lastModified := kv.lastModified)
               && (if cur.locked == e.req.locked then t == s && kv == cur else kv.etag > s.counter && kv.lastModified == e.now)
  {
  }

  /** A snapshot just created holds exactly the winners among the items selected from the
      index of that moment, and leaves the index and the log alone. */
  lemma SnapshotHoldsWinners(s: Store, e: Event, k: string)
    requires e.req.PutSnapshot? && Step(s, e).1.ServedSnapshot?
    ensures var t, req := Step(s, e).0, e.req;
            && t.items == s.items && t.order == s.order && t.log == s.log && req.composition.Some?
            && req.name !in s.snapshots && req.name in t.snapshots && t.snapshots[req.name] == Step(s, e).1.snapshot
            && var frozen := t.snapshots[req.name].items;
               && (k in frozen <==> exists i: nat :: Wins(s.items, s.order, req.filters, req.composition.value, k, i))
               && (forall i: nat :: Wins(s.items, s.order, req.filters, req.composition.value, k, i) ==> k in frozen && frozen[k] == s.items[s.order[i]])
  {
    ComposeWinners(s.items, s.order, e.req.filters, e.req.composition.value, k);
  }

  /** Two numbers drawn, one for the tag and one for the revision, or none and nothing recorded. */
  ghost predicate Counted(s: Store, t: Store) {
    if |t.log| == |s.log| then t.log == s.log && t.counter == s.counter
    else
      && |t.log| == |s.log| + 1 && t.counter == s.counter + 2
      && t.log[|s.log|].kv.etag == s.counter + 1 && t.log[|s.log|].n == s.counter + 2
  }

  lemma WritesCount(s: Store, key: string, lab: Option<string>, body: Content, now: nat)
    ensures Counted(s, KvPut(s, key, lab, body, now).0) && Counted(s, KvDelete(s, key, lab, now).0)
    ensures !KvPut(s, key, lab, body, now).1.ServedSnapshot? && !KvDelete(s, key, lab, now).1.ServedSnapshot?
  {
  }

  lemma LocksCount(s: Store, cur: KeyValue, id: string, locked: bool, now: nat)
    ensures Counted(s, FlipLock(s, cur, id, locked, now).0) && !FlipLock(s, cur, id, locked, now).1.ServedSnapshot?
  {
  }

  /** The counter of a store: a served write or a lock that flips draws one number for the tag and
      one for the revision, as a delete does; a served snapshot request draws one for its tag; what
      is not served, or flips nothing, draws none. */
  lemma CounterExactly(s: Store, e: Event)
    ensures var (t, reply) := Step(s, e);
            if reply.ServedSnapshot? then t.counter == s.counter + 1 && reply.snapshot.etag == t.counter && t.log == s.log
            else Counted(s, t)
  {
    match e.req
    case PutKv(key, lab, body, _, _, _) => WritesCount(s, key, lab, body, e.now);
    case ArmPutKv(key, lab, body) => WritesCount(s, key, lab, body, e.now);
    case DeleteKv(key, lab, _, _) => WritesCount(s, key, lab, Content(None, None, map[]), e.now);
    case ArmDeleteKv(key, lab) => WritesCount(s, key, lab, Content(None, None, map[]), e.now);
    case SetLock(key, lab, locked, _, _) =>
      if Lookup(s, key, lab).Some? {
        LocksCount(s, Lookup(s, key, lab).value, Id(key, lab), locked, e.now);
      }
    case _ =>
  }
}
