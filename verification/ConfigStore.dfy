/** The key-value store of one App Configuration store as a state machine over
    values: a live index, a bounded log of revisions, frozen snapshots and one
    counter that numbers revisions and etags. */
module ConfigStore {
  import opened Common
  import opened Dicts
  import opened FilterGrammar

  const MAX_HISTORY: nat := 5000
  const MAX_KEY: nat := 10240

  // ---------- entities ----------

  /** `etag` is the counter value hashed into the tag; the hash is taken to be injective. */
  datatype KeyValue = KeyValue(etag: nat, key: string, lab: Option<string>, contentType: Option<string>,
                               value: Option<string>, tags: map<string, string>, locked: bool, lastModified: nat)

  datatype Revision = Revision(kv: KeyValue, deleted: bool, n: nat)

  datatype SnapshotStatus = Ready | Archived

  datatype Composition = ByKey | ByKeyLabel

  datatype Snapshot = Snapshot(etag: nat, status: SnapshotStatus, composition: Composition,
                               filters: seq<SnapshotFilter>, items: map<string, KeyValue>)

  /** A tag condition `name=value`; no value asks for an absent tag. */
  datatype TagTest = TagTest(name: string, value: Option<string>)

  datatype SnapshotFilter = SnapshotFilter(key: Option<string>, lab: Option<string>, tags: seq<TagTest>)

  /** `log` is every revision ever recorded; the store itself keeps only `history`. */
  datatype Store = Store(items: map<string, KeyValue>, order: seq<string>, history: seq<Revision>,
                         snapshots: map<string, Snapshot>, counter: nat, log: seq<Revision>)

  const EMPTY := Store(map[], [], [], map[], 0, [])

  // ---------- requests ----------

  /** An If-Match or If-None-Match header: missing, `*`, or a quoted tag. */
  datatype Header = NoHeader | Star | Tag(etag: nat)

  datatype Content = Content(value: Option<string>, contentType: Option<string>, tags: map<string, string>)

  /** Requests of the data plane, then of the management plane, then on snapshots; an
      unknown composition or status is `None`. */
  datatype Request =
    | PutKv(key: string, lab: Option<string>, body: Content, valueIsText: bool, ifMatch: Header, ifNoneMatch: Header)
    | DeleteKv(key: string, lab: Option<string>, ifMatch: Header, ifNoneMatch: Header)
    | SetLock(key: string, lab: Option<string>, locked: bool, ifMatch: Header, ifNoneMatch: Header)
    | ArmPutKv(key: string, lab: Option<string>, body: Content)
    | ArmDeleteKv(key: string, lab: Option<string>)
    | PutSnapshot(name: string, filters: seq<SnapshotFilter>, composition: Option<Composition>)
    | PatchSnapshot(name: string, status: Option<SnapshotStatus>)

  datatype Event = Event(now: nat, req: Request)

  datatype Reply =
    | Served(kv: KeyValue)
    | NoContent
    | NotFound
    | PreconditionFailed
    | InvalidArgument
    | KeyLocked
    | AlreadyExists
    | ServedSnapshot(snapshot: Snapshot)

  // ---------- slots ----------

  const SEP: char := '\U{1F}'
  const MARK: char := '\U{1}'

  /** The index key of a (key, label) pair. */
  function Id(key: string, lab: Option<string>): string {
    key + [SEP] + if lab == None then "" else [MARK] + lab.value
  }

  // ---------- the log ----------

  function Trim(h: seq<Revision>): seq<Revision> {
    if |h| > MAX_HISTORY then h[|h| - MAX_HISTORY..] else h
  }

  function Slot(r: Revision): string {
    Id(r.kv.key, r.kv.lab)
  }

  function Record(s: Store, kv: KeyValue, deleted: bool): Store {
    var r := Revision(kv, deleted, s.counter + 1);
    s.(counter := s.counter + 1, history := Trim(s.history + [r]), log := s.log + [r])
  }

  function Apply(items: map<string, KeyValue>, r: Revision): map<string, KeyValue> {
    if r.deleted then items - {Slot(r)} else items[Slot(r) := r.kv]
  }

  function Replay(revs: seq<Revision>): map<string, KeyValue> {
    if revs == [] then map[] else Apply(Replay(revs[..|revs| - 1]), revs[|revs| - 1])
  }

  /** The revisions stamped at or before `when`, in log order. */
  function Upto(revs: seq<Revision>, when: nat): seq<Revision> {
    if revs == [] then []
    else
      var last := revs[|revs| - 1];
      Upto(revs[..|revs| - 1], when) + if last.kv.lastModified <= when then [last] else []
  }

  function Mentioned(revs: seq<Revision>): set<string> {
    set r | r in revs :: Slot(r)
  }

  function Restrict(items: map<string, KeyValue>, slots: set<string>): map<string, KeyValue> {
    map id | id in items && id in slots :: items[id]
  }

  // ---------- writes shared by both planes ----------

  function Lookup(s: Store, key: string, lab: Option<string>): Option<KeyValue> {
    var id := Id(key, lab);
    if id in s.items then Some(s.items[id]) else None
  }

  function KvPut(s: Store, key: string, lab: Option<string>, body: Content, now: nat): (Store, Reply) {
    var cur := Lookup(s, key, lab);
    if cur.Some? && cur.value.locked then (s, KeyLocked)
    else
      var id := Id(key, lab);
      var kv := KeyValue(s.counter + 1, key, lab, body.contentType, body.value, body.tags, false, now);
      var s1 := s.(counter := s.counter + 1, items := s.items[id := kv], order := Touch(s.order, id));
      (Record(s1, kv, false), Served(kv))
  }

  function KvDelete(s: Store, key: string, lab: Option<string>, now: nat): (Store, Reply) {
    var cur := Lookup(s, key, lab);
    if cur == None then (s, NoContent)
    else if cur.value.locked then (s, KeyLocked)
    else
      var id := Id(key, lab);
      var gone := cur.value.(lastModified := now, etag := s.counter + 1);
      var s1 := s.(counter := s.counter + 1, items := s.items - {id}, order := Drop(s.order, id));
      (Record(s1, gone, true), Served(cur.value))
  }

  function FlipLock(s: Store, cur: KeyValue, id: string, locked: bool, now: nat): (Store, Reply) {
    if cur.locked == locked then (s, Served(cur))
    else
      var kv := cur.(locked := locked, etag := s.counter + 1, lastModified := now);
      (Record(s.(counter := s.counter + 1, items := s.items[id := kv]), kv, false), Served(kv))
  }

  /** Whether the conditional headers let the request through. */
  predicate Allowed(ifMatch: Header, ifNoneMatch: Header, cur: Option<KeyValue>) {
    && (match ifMatch
        case NoHeader => true
        case Star => cur.Some?
        case Tag(e) => cur.Some? && cur.value.etag == e)
    && (match ifNoneMatch
        case NoHeader => true
        case Star => cur.None?
        case Tag(e) => cur.None? || cur.value.etag != e)
  }

  // ---------- snapshots ----------

  predicate TagsMatch(tests: seq<TagTest>, kv: KeyValue) {
    forall t :: t in tests ==>
      (if t.value.None? then t.name !in kv.tags else t.name in kv.tags && kv.tags[t.name] == t.value.value)
  }

  predicate Selected(filters: seq<SnapshotFilter>, kv: KeyValue) {
    exists f :: f in filters && FilterMatch(f.key, Some(kv.key)) && FilterMatch(f.lab, kv.lab) && TagsMatch(f.tags, kv)
  }

  function Ident(c: Composition, kv: KeyValue): string {
    if c.ByKey? then kv.key else Id(kv.key, kv.lab)
  }

  /** What a snapshot freezes: going through the slots in index order, the last selected item of each identity. */
  function Compose(items: map<string, KeyValue>, order: seq<string>, filters: seq<SnapshotFilter>, c: Composition): map<string, KeyValue>
  {
    if order == [] then map[]
    else
      var frozen := Compose(items, order[..|order| - 1], filters, c);
      var id := order[|order| - 1];
      if id in items && Selected(filters, items[id]) then frozen[Ident(c, items[id]) := items[id]] else frozen
  }

  function CreateSnapshot(s: Store, name: string, filters: seq<SnapshotFilter>, composition: Option<Composition>): (Store, Reply)
  {
    if name in s.snapshots then (s, AlreadyExists)
    else if |filters| == 0 || |filters| > 3 || composition == None then (s, InvalidArgument)
    else
      var snap := Snapshot(s.counter + 1, Ready, composition.value, filters, Compose(s.items, s.order, filters, composition.value));
      (s.(counter := s.counter + 1, snapshots := s.snapshots[name := snap]), ServedSnapshot(snap))
  }

  function UpdateSnapshot(s: Store, name: string, status: Option<SnapshotStatus>): (Store, Reply) {
    if name !in s.snapshots then (s, NotFound)
    else if status == None then (s, InvalidArgument)
    else
      var snap := s.snapshots[name].(status := status.value, etag := s.counter + 1);
      (s.(counter := s.counter + 1, snapshots := s.snapshots[name := snap]), ServedSnapshot(snap))
  }

  // ---------- one request ----------

  function Step(s: Store, e: Event): (Store, Reply)
  {
    match e.req
    case PutKv(key, lab, body, valueIsText, im, inm) =>
      if !Allowed(im, inm, Lookup(s, key, lab)) then (s, PreconditionFailed)
      else if !valueIsText || |key| > MAX_KEY then (s, InvalidArgument)
      else KvPut(s, key, lab, body, e.now)
    case DeleteKv(key, lab, im, inm) =>
      var cur := Lookup(s, key, lab);
      if cur == None then (s, NoContent)
      else if !Allowed(im, inm, cur) then (s, PreconditionFailed)
      else KvDelete(s, key, lab, e.now)
    case SetLock(key, lab, locked, im, inm) =>
      var cur := Lookup(s, key, lab);
      if cur == None then (s, NotFound)
      else if !Allowed(im, inm, cur) then (s, PreconditionFailed)
      else FlipLock(s, cur.value, Id(key, lab), locked, e.now)
    case ArmPutKv(key, lab, body) => KvPut(s, key, lab, body, e.now)
    case ArmDeleteKv(key, lab) => KvDelete(s, key, lab, e.now)
    case PutSnapshot(name, filters, composition) => CreateSnapshot(s, name, filters, composition)
    case PatchSnapshot(name, status) => UpdateSnapshot(s, name, status)
  }

  // ---------- what every request keeps ----------

  /** Revision numbers and etags interleave upwards, so none is ever issued twice. */
  ghost predicate Numbered(log: seq<Revision>, counter: nat) {
    && (forall i :: 0 <= i < |log| ==> log[i].kv.etag < log[i].n <= counter)
    && (forall i, j :: 0 <= i < j < |log| ==> log[i].n < log[j].kv.etag)
  }

  ghost predicate Inv(s: Store) {
    && Lists(s.order, s.items.Keys)
    && s.history == Trim(s.log)
    && s.items == Replay(s.log)
    && Numbered(s.log, s.counter)
  }

  lemma TrimStep(log: seq<Revision>, r: Revision)
    ensures Trim(Trim(log) + [r]) == Trim(log + [r])
  {
    if |log| > MAX_HISTORY {
      assert log[|log| - MAX_HISTORY..] + [r] == (log + [r])[|log| - MAX_HISTORY..];
    }
  }

  lemma ReplaySnoc(log: seq<Revision>, r: Revision)
    ensures Replay(log + [r]) == Apply(Replay(log), r)
  {
    assert (log + [r])[..|log|] == log;
  }

  lemma NumberedSnoc(log: seq<Revision>, counter: nat, r: Revision)
    requires Numbered(log, counter) && r.kv.etag == counter + 1 && r.n == counter + 2
    ensures Numbered(log + [r], counter + 2)
  {
  }

  /** Every item sits in the slot of its own key and label. */
  lemma {:induction false} ReplayKeyed(revs: seq<Revision>)
    ensures forall id :: id in Replay(revs) ==> Id(Replay(revs)[id].key, Replay(revs)[id].lab) == id
  {
    if revs != [] {
      ReplayKeyed(revs[..|revs| - 1]);
    }
  }

  lemma RecordKeeps(s: Store, kv: KeyValue, deleted: bool, before: Store)
    requires Inv(before)
    requires s.history == before.history && s.log == before.log && s.counter == before.counter + 1 == kv.etag
    requires Lists(s.order, s.items.Keys)
    requires s.items == Apply(before.items, Revision(kv, deleted, s.counter + 1))
    ensures Inv(Record(s, kv, deleted))
  {
    var r := Revision(kv, deleted, s.counter + 1);
    TrimStep(s.log, r);
    ReplaySnoc(s.log, r);
    NumberedSnoc(before.log, before.counter, r);
  }

  /** What a request does to the store when nothing stops it. */
  function Effect(s: Store, e: Event): Store {
    match e.req
    case PutKv(key, lab, body, _, _, _) => KvPut(s, key, lab, body, e.now).0
    case ArmPutKv(key, lab, body) => KvPut(s, key, lab, body, e.now).0
    case DeleteKv(key, lab, _, _) => KvDelete(s, key, lab, e.now).0
    case ArmDeleteKv(key, lab) => KvDelete(s, key, lab, e.now).0
    case SetLock(key, lab, locked, _, _) =>
      var id := Id(key, lab);
      if id in s.items then FlipLock(s, s.items[id], id, locked, e.now).0 else s
    case PutSnapshot(name, filters, composition) => CreateSnapshot(s, name, filters, composition).0
    case PatchSnapshot(name, status) => UpdateSnapshot(s, name, status).0
  }

  lemma StepIsEffect(s: Store, e: Event)
    ensures Step(s, e).0 == s || Step(s, e).0 == Effect(s, e)
  {
  }

  lemma PutEffectKeepsInv(s: Store, e: Event)
    requires Inv(s) && (e.req.PutKv? || e.req.ArmPutKv?)
    ensures Inv(Effect(s, e))
  {
    PutKeepsInv(s, e.req.key, e.req.lab, e.req.body, e.now);
  }

  lemma {:induction false} DeleteEffectKeepsInv(s: Store, e: Event)
    requires Inv(s) && (e.req.DeleteKv? || e.req.ArmDeleteKv?)
    ensures Inv(Effect(s, e))
  {
    DeleteKeepsInv(s, e.req.key, e.req.lab, e.now);
  }

  lemma LockEffectKeepsInv(s: Store, e: Event)
    requires Inv(s) && e.req.SetLock?
    ensures Inv(Effect(s, e))
  {
    if Id(e.req.key, e.req.lab) in s.items {
      LockKeepsInv(s, Id(e.req.key, e.req.lab), e.req.locked, e.now);
    }
  }

  lemma SnapshotEffectKeepsInv(s: Store, e: Event)
    requires Inv(s) && (e.req.PutSnapshot? || e.req.PatchSnapshot?)
    ensures Inv(Effect(s, e))
  {
    if e.req.PutSnapshot? {
      CreateKeepsInv(s, e.req.name, e.req.filters, e.req.composition);
    } else {
      UpdateKeepsInv(s, e.req.name, e.req.status);
    }
  }

  lemma {:induction false} EffectKeepsInv(s: Store, e: Event)
    requires Inv(s)
    ensures Inv(Effect(s, e))
  {
    if e.req.PutKv? || e.req.ArmPutKv? {
      PutEffectKeepsInv(s, e);
    } else if e.req.DeleteKv? || e.req.ArmDeleteKv? {
      DeleteEffectKeepsInv(s, e);
    } else if e.req.SetLock? {
      LockEffectKeepsInv(s, e);
    } else {
      SnapshotEffectKeepsInv(s, e);
    }
  }

  lemma {:induction false} StepKeepsInv(s: Store, e: Event)
    requires Inv(s)
    ensures Inv(Step(s, e).0)
  {
    StepIsEffect(s, e);
    EffectKeepsInv(s, e);
  }

  lemma CreateKeepsInv(s: Store, name: string, filters: seq<SnapshotFilter>, composition: Option<Composition>)
    requires Inv(s)
    ensures Inv(CreateSnapshot(s, name, filters, composition).0)
  {
  }

  lemma UpdateKeepsInv(s: Store, name: string, status: Option<SnapshotStatus>)
    requires Inv(s)
    ensures Inv(UpdateSnapshot(s, name, status).0)
  {
  }

  lemma LockKeepsInv(s: Store, id: string, locked: bool, now: nat)
    requires Inv(s) && id in s.items
    ensures Inv(FlipLock(s, s.items[id], id, locked, now).0)
  {
    if s.items[id].locked != locked {
      var kv := s.items[id].(locked := locked, etag := s.counter + 1, lastModified := now);
      KeyedLog(s, id);
      ReplaceKeepsInv(s, id, kv);
    }
  }

  lemma KeyedLog(s: Store, id: string)
    requires Inv(s) && id in s.items
    ensures Id(s.items[id].key, s.items[id].lab) == id
  {
    ReplayKeyed(s.log);
  }

  lemma ReplaceKeepsInv(s: Store, id: string, kv: KeyValue)
    requires Inv(s) && id in s.items && kv.etag == s.counter + 1 && Id(kv.key, kv.lab) == id
    ensures Inv(Record(s.(counter := s.counter + 1, items := s.items[id := kv]), kv, false))
  {
    var s1 := s.(counter := s.counter + 1, items := s.items[id := kv]);
    assert s1.items.Keys == s.items.Keys;
    RecordKeeps(s1, kv, false, s);
  }

  lemma PutKeepsInv(s: Store, key: string, lab: Option<string>, body: Content, now: nat)
    requires Inv(s)
    ensures Inv(KvPut(s, key, lab, body, now).0)
  {
    var id := Id(key, lab);
    if !(id in s.items && s.items[id].locked) {
      var kv := KeyValue(s.counter + 1, key, lab, body.contentType, body.value, body.tags, false, now);
      var s1 := s.(counter := s.counter + 1, items := s.items[id := kv], order := Touch(s.order, id));
      TouchLists(s.order, s.items.Keys, id);
      assert s1.items.Keys == s.items.Keys + {id};
      assert s1.items == Apply(s.items, Revision(kv, false, s1.counter + 1));
      RecordKeeps(s1, kv, false, s);
      assert KvPut(s, key, lab, body, now).0 == Record(s1, kv, false);
    }
  }

  lemma DeleteKeepsInv(s: Store, key: string, lab: Option<string>, now: nat)
    requires Inv(s)
    ensures Inv(KvDelete(s, key, lab, now).0)
  {
    var id := Id(key, lab);
    if id in s.items && !s.items[id].locked {
      var gone := s.items[id].(lastModified := now, etag := s.counter + 1);
      var s1 := s.(counter := s.counter + 1, items := s.items - {id}, order := Drop(s.order, id));
      DropLists(s.order, s.items.Keys, id);
      ReplayKeyed(s.log);
      assert s1.items.Keys == s.items.Keys - {id};
      assert s1.items == Apply(s.items, Revision(gone, true, s1.counter + 1));
      RecordKeeps(s1, gone, true, s);
      assert KvDelete(s, key, lab, now).0 == Record(s1, gone, true);
    }
  }

  // ---------- runs ----------

  function Run(s: Store, es: seq<Event>): Store {
    if es == [] then s else Step(Run(s, es[..|es| - 1]), es[|es| - 1]).0
  }

  function Reach(es: seq<Event>): Store {
    Run(EMPTY, es)
  }

  lemma {:induction false} RunKeepsInv(s: Store, es: seq<Event>)
    requires Inv(s)
    ensures Inv(Run(s, es))
  {
    if es != [] {
      RunKeepsInv(s, es[..|es| - 1]);
      StepKeepsInv(Run(s, es[..|es| - 1]), es[|es| - 1]);
    }
  }

  lemma ReachInv(es: seq<Event>)
    ensures Inv(Reach(es))
  {
    RunKeepsInv(EMPTY, es);
  }

  lemma {:induction false} RunConcat(s: Store, es: seq<Event>, fs: seq<Event>)
    ensures Run(s, es + fs) == Run(Run(s, es), fs)
  {
    if fs == [] {
      assert es + fs == es;
    } else {
      var n := |fs| - 1;
      assert (es + fs)[..|es + fs| - 1] == es + fs[..n];
      RunConcat(s, es, fs[..n]);
    }
  }

  lemma {:induction false} LogGrows(s: Store, es: seq<Event>)
    ensures s.log <= Run(s, es).log
  {
    if es != [] {
      LogGrows(s, es[..|es| - 1]);
      StepFollows(Run(s, es[..|es| - 1]), es[|es| - 1]);
    }
  }

  // ---------- the log and the index ----------

  lemma RestrictApply(items: map<string, KeyValue>, slots: set<string>, r: Revision)
    ensures Apply(Restrict(items, slots), r) == Restrict(Apply(items, r), slots + {Slot(r)})
  {
  }

  lemma MentionedSnoc(revs: seq<Revision>, r: Revision)
    ensures Mentioned(revs + [r]) == Mentioned(revs) + {Slot(r)}
  {
    forall x | x in Mentioned(revs) + {Slot(r)}
      ensures x in Mentioned(revs + [r])
    {
      assert r in revs + [r];
      assert forall q :: q in revs ==> q in revs + [r];
    }
  }

  /** Replaying a tail of the log rebuilds exactly the part of the index the tail mentions. */
  lemma {:induction false} ReplayTail(log: seq<Revision>, from: nat)
    requires from <= |log|
    ensures Replay(log[from..]) == Restrict(Replay(log), Mentioned(log[from..]))
  {
    if from == |log| {
      assert log[from..] == [];
    } else {
      var n := |log| - 1;
      var init, r := log[..n], log[n];
      ReplayTail(init, from);
      assert log[from..] == init[from..] + [r];
      ReplaySnoc(init[from..], r);
      MentionedSnoc(init[from..], r);
      RestrictApply(Replay(init), Mentioned(init[from..]), r);
    }
  }

  /** In every reachable state the retained log replays to the live index, cut
      down to the slots it still mentions; its numbers rise and it stays bounded. */
  lemma BoundedLogAgrees(es: seq<Event>)
    ensures var s := Reach(es);
            && Replay(s.history) == Restrict(s.items, Mentioned(s.history))
            && |s.history| <= MAX_HISTORY
            && (forall i, j :: 0 <= i < j < |s.history| ==> s.history[i].n < s.history[j].n)
            && (|s.log| <= MAX_HISTORY ==> Replay(s.history) == s.items)
  {
    var s := Reach(es);
    ReachInv(es);
    var from := if |s.log| > MAX_HISTORY then |s.log| - MAX_HISTORY else 0;
    assert s.history == s.log[from..];
    ReplayTail(s.log, from);
  }

  // ---------- time travel ----------

  ghost predicate Clocked(es: seq<Event>) {
    forall i, j :: 0 <= i <= j < |es| ==> es[i].now <= es[j].now
  }

  /** How many events are stamped at or before `when`. */
  function Elapsed(es: seq<Event>, when: nat): (k: nat)
    ensures k <= |es|
  {
    if es == [] then 0
    else Elapsed(es[..|es| - 1], when) + if es[|es| - 1].now <= when then 1 else 0
  }

  /** `t` follows `s` with at most one more revision, stamped `now` and freshly
      tagged; without one the index stays too. */
  ghost predicate Follows(s: Store, t: Store, now: nat) {
    || (t.log == s.log && t.items == s.items && t.history == s.history)
    || (|t.log| == |s.log| + 1 && t.log[..|s.log|] == s.log
        && t.log[|s.log|].kv.lastModified == now && t.log[|s.log|].kv.etag == s.counter + 1)
  }

  lemma PutFollows(s: Store, key: string, lab: Option<string>, body: Content, now: nat)
    ensures Follows(s, KvPut(s, key, lab, body, now).0, now)
  {
  }

  lemma DeleteFollows(s: Store, key: string, lab: Option<string>, now: nat)
    ensures Follows(s, KvDelete(s, key, lab, now).0, now)
  {
  }

  lemma LockFollows(s: Store, cur: KeyValue, id: string, locked: bool, now: nat)
    ensures Follows(s, FlipLock(s, cur, id, locked, now).0, now)
  {
  }

  lemma StepFollows(s: Store, e: Event)
    ensures Follows(s, Step(s, e).0, e.now)
  {
    match e.req
    case PutKv(key, lab, body, _, _, _) => PutFollows(s, key, lab, body, e.now);
    case ArmPutKv(key, lab, body) => PutFollows(s, key, lab, body, e.now);
    case DeleteKv(key, lab, _, _) => DeleteFollows(s, key, lab, e.now);
    case ArmDeleteKv(key, lab) => DeleteFollows(s, key, lab, e.now);
    case SetLock(key, lab, locked, _, _) =>
      if Id(key, lab) in s.items {
        LockFollows(s, s.items[Id(key, lab)], Id(key, lab), locked, e.now);
      }
    case PutSnapshot(_, _, _) =>
    case PatchSnapshot(_, _) =>
  }

  lemma {:induction false} ElapsedSplits(es: seq<Event>, when: nat)
    requires Clocked(es)
    ensures forall i :: 0 <= i < |es| ==> (es[i].now <= when <==> i < Elapsed(es, when))
  {
    if es != [] {
      ElapsedSplits(es[..|es| - 1], when);
    }
  }

  lemma {:induction false} LogUpto(es: seq<Event>, when: nat)
    requires Clocked(es)
    ensures Upto(Reach(es).log, when) == Reach(es[..Elapsed(es, when)]).log
  {
    ElapsedSplits(es, when);
    if es != [] {
      var n := |es| - 1;
      var init, last := es[..n], es[n];
      LogUpto(init, when);
      ElapsedSplits(init, when);
      StepFollows(Reach(init), last);
      if Reach(es).log != Reach(init).log {
        UptoStep(Reach(init).log, Reach(es).log, when);
      }
      if last.now <= when {
        EarlierElapsed(init, last, when);
        assert init[..n] == init && es[..n + 1] == es;
      } else {
        assert es[..Elapsed(es, when)] == init[..Elapsed(es, when)];
      }
    }
  }

  lemma EarlierElapsed(init: seq<Event>, last: Event, when: nat)
    requires forall i :: 0 <= i < |init| ==> init[i].now <= last.now
    requires last.now <= when
    requires forall i :: 0 <= i < |init| ==> (init[i].now <= when <==> i < Elapsed(init, when))
    ensures Elapsed(init, when) == |init|
  {
    if init != [] {
      assert init[|init| - 1].now <= last.now;
    }
  }

  lemma UptoSnoc(init: seq<Revision>, r: Revision, when: nat)
    ensures Upto(init + [r], when) == Upto(init, when) + if r.kv.lastModified <= when then [r] else []
  {
    assert (init + [r])[..|init|] == init;
  }

  /** One more revision is seen or not, by its stamp. */
  lemma UptoStep(init: seq<Revision>, log: seq<Revision>, when: nat)
    requires |log| == |init| + 1 && log[..|init|] == init
    ensures Upto(log, when) == Upto(init, when) + if log[|init|].kv.lastModified <= when then [log[|init|]] else []
    ensures log == init + [log[|init|]]
  {
    assert log == init + [log[|init|]];
    UptoSnoc(init, log[|init|], when);
  }

  /** Stamps never fall along the log. */
  ghost predicate StampsRise(log: seq<Revision>) {
    forall a, b :: 0 <= a <= b < |log| ==> log[a].kv.lastModified <= log[b].kv.lastModified
  }

  lemma {:induction false} LogClocked(es: seq<Event>)
    requires Clocked(es)
    ensures StampsRise(Reach(es).log)
    ensures es == [] ==> Reach(es).log == []
    ensures es != [] ==> forall i :: 0 <= i < |Reach(es).log| ==> Reach(es).log[i].kv.lastModified <= es[|es| - 1].now
  {
    if es != [] {
      var n := |es| - 1;
      LogClocked(es[..n]);
      StepFollows(Reach(es[..n]), es[n]);
      var before, log := Reach(es[..n]).log, Reach(es).log;
      if log != before {
        assert forall i :: 0 <= i < |before| ==> log[i] == before[i];
      }
      assert n > 0 ==> es[n - 1].now <= es[n].now;
    }
  }

  /** Along rising stamps, the revisions stamped by a time are a prefix. */
  /** A prefix found so far, with one more revision looked at. */
  ghost predicate CutAt(log: seq<Revision>, when: nat, q: nat) {
    && q <= |log| && Upto(log, when) == log[..q]
    && forall i :: 0 <= i < |log| ==> (log[i].kv.lastModified <= when <==> i < q)
  }

  lemma CutMoves(init: seq<Revision>, r: Revision, when: nat, q: nat)
    requires CutAt(init, when, q) && (r.kv.lastModified <= when ==> q == |init|)
    ensures CutAt(init + [r], when, if r.kv.lastModified <= when then q + 1 else q)
  {
    UptoSnoc(init, r, when);
    var log := init + [r];
    if r.kv.lastModified <= when {
      assert log[..q + 1] == log;
    } else {
      assert log[..q] == init[..q];
      assert init[..q] + [] == init[..q];
    }
  }

  lemma {:induction false} UptoIsPrefix(log: seq<Revision>, when: nat) returns (q: nat)
    requires StampsRise(log)
    ensures CutAt(log, when, q)
  {
    if log == [] {
      q := 0;
    } else {
      var n := |log| - 1;
      q := UptoIsPrefix(log[..n], when);
      assert forall i :: 0 <= i < n ==> log[..n][i] == log[i] && log[i].kv.lastModified <= log[n].kv.lastModified;
      assert log[..n] + [log[n]] == log;
      CutMoves(log[..n], log[n], when, q);
      if log[n].kv.lastModified <= when {
        q := q + 1;
      }
    }
  }

  lemma {:induction false} LiveIsNewest(log: seq<Revision>, id: string) returns (n: nat)
    requires id in Replay(log)
    ensures n < |log| && Slot(log[n]) == id && !log[n].deleted && log[n].kv == Replay(log)[id]
    ensures forall m :: n < m < |log| ==> Slot(log[m]) != id
  {
    var last := |log| - 1;
    if Slot(log[last]) == id {
      n := last;
    } else {
      n := LiveIsNewest(log[..last], id);
      assert forall m :: n < m < last ==> log[..last][m] == log[m];
    }
  }

  /** The newest revision of a slot, if it is no deletion, is live. */
  lemma {:induction false} NewestIsLive(log: seq<Revision>, n: nat)
    requires n < |log| && !log[n].deleted
    requires forall m :: n < m < |log| ==> Slot(log[m]) != Slot(log[n])
    ensures Slot(log[n]) in Replay(log)
  {
    var last := |log| - 1;
    if n < last {
      NewestIsLive(log[..last], n);
    }
  }

  /** Revision `i` is the newest of its slot among those stamped by `when`. */
  ghost predicate NewestBy(log: seq<Revision>, when: nat, i: nat)
    requires i < |log|
  {
    forall j :: i < j < |log| && Slot(log[j]) == Slot(log[i]) ==> log[j].kv.lastModified > when
  }

  /** An item live at `when` was last written, by then, in one of the first `from` revisions. */
  ghost predicate Forgotten(log: seq<Revision>, from: nat, when: nat) {
    exists i :: 0 <= i < from && i < |log| && log[i].kv.lastModified <= when && !log[i].deleted && NewestBy(log, when, i)
  }

  /** How many revisions the history has lost. */
  function Evicted(s: Store): nat {
    if |s.log| > MAX_HISTORY then |s.log| - MAX_HISTORY else 0
  }

  /** One of the first `k` revisions is the last write of a live item. */
  ghost predicate LastWriteBefore(log: seq<Revision>, k: nat)
    requires k <= |log|
  {
    exists i :: 0 <= i < k && !log[i].deleted && forall j :: i < j < |log| ==> Slot(log[j]) != Slot(log[i])
  }

  /** Cutting `k` revisions off a log loses a live item exactly when one of them is the last write of one. */
  lemma CutLoses(log: seq<Revision>, k: nat)
    requires k <= |log|
    ensures Replay(log[k..]) == Replay(log) <==> !LastWriteBefore(log, k)
  {
    ReplayTail(log, k);
    WholeIfMentioned(Replay(log), Mentioned(log[k..]));
    if i :| 0 <= i < k && !log[i].deleted && forall j :: i < j < |log| ==> Slot(log[j]) != Slot(log[i]) {
      CutForgets(log, k, i);
    } else {
      CutKeeps(log, k);
    }
  }

  lemma WholeIfMentioned(items: map<string, KeyValue>, slots: set<string>)
    ensures Restrict(items, slots) == items <==> items.Keys <= slots
  {
    if items.Keys <= slots {
      assert Restrict(items, slots) == items;
    }
    assert Restrict(items, slots).Keys <= slots;
  }

  lemma CutForgets(log: seq<Revision>, k: nat, i: nat)
    requires i < k <= |log| && !log[i].deleted && forall j :: i < j < |log| ==> Slot(log[j]) != Slot(log[i])
    ensures Slot(log[i]) in Replay(log) && Slot(log[i]) !in Mentioned(log[k..])
  {
    NewestIsLive(log, i);
    forall r | r in log[k..]
      ensures Slot(r) != Slot(log[i])
    {
      var j :| k <= j < |log| && log[j] == r;
    }
  }

  lemma CutKeeps(log: seq<Revision>, k: nat)
    requires k <= |log| && !LastWriteBefore(log, k)
    ensures Replay(log).Keys <= Mentioned(log[k..])
  {
    forall id | id in Replay(log)
      ensures id in Mentioned(log[k..])
    {
      var n := LiveIsNewest(log, id);
      assert n >= k;
      assert log[k..][n - k] == log[n];
    }
  }

  /** A point-in-time read answers with the index as it stood after the last
      request stamped by then, cut down to the slots it saw. It is exact if and only if no
      evicted revision is the last write, by then, of an item live then. */
  lemma {:induction false} TimeTravel(es: seq<Event>, when: nat)
    requires Clocked(es)
    ensures var s, past := Reach(es), Reach(es[..Elapsed(es, when)]);
            var seen := Upto(s.history, when);
            && Replay(seen) == Restrict(past.items, Mentioned(seen))
            && (Replay(seen) == past.items <==> !Forgotten(s.log, Evicted(s), when))
  {
    HistoryIsTail(es);
    HistoryIsTail(es[..Elapsed(es, when)]);
    LogClocked(es);
    LogUpto(es, when);
    LogTravel(Reach(es).log, Evicted(Reach(es)), when);
  }

  lemma HistoryIsTail(es: seq<Event>)
    ensures var s := Reach(es); Evicted(s) <= |s.log| && s.history == s.log[Evicted(s)..] && s.items == Replay(s.log)
  {
    ReachInv(es);
  }

  /** The same about a log of which the first `from` revisions are cut off. */
  lemma {:induction false} LogTravel(log: seq<Revision>, from: nat, when: nat)
    requires StampsRise(log) && from <= |log|
    ensures var seen, past := Upto(log[from..], when), Upto(log, when);
            && Replay(seen) == Restrict(Replay(past), Mentioned(seen))
            && (Replay(seen) == Replay(past) <==> !Forgotten(log, from, when))
  {
    var q := UptoIsPrefix(log, when);
    var k := if from <= q then from else q;
    TailUpto(log, from, when, q);
    assert log[..q][k..] == log[k..q];
    ReplayTail(log[..q], k);
    CutLoses(log[..q], k);
    ForgottenIsCut(log, from, when, q);
  }

  lemma {:induction false} TailUpto(log: seq<Revision>, from: nat, when: nat, q: nat)
    requires StampsRise(log) && from <= |log| && q <= |log|
    requires forall i :: 0 <= i < |log| ==> (log[i].kv.lastModified <= when <==> i < q)
    ensures Upto(log[from..], when) == log[if from <= q then from else q..q]
  {
    var tail := log[from..];
    assert forall i :: 0 <= i < |tail| ==> tail[i] == log[from + i];
    var p := UptoIsPrefix(tail, when);
    assert p < |tail| ==> !(tail[p].kv.lastModified <= when);
    assert p > 0 ==> tail[p - 1].kv.lastModified <= when;
    assert tail[..p] == log[from..from + p];
  }

  lemma ForgottenIsCut(log: seq<Revision>, from: nat, when: nat, q: nat)
    requires from <= |log| && q <= |log|
    requires forall i :: 0 <= i < |log| ==> (log[i].kv.lastModified <= when <==> i < q)
    ensures Forgotten(log, from, when) <==> LastWriteBefore(log[..q], if from <= q then from else q)
  {
    var past, k := log[..q], if from <= q then from else q;
    assert forall j :: 0 <= j < q ==> past[j] == log[j];
    if i :| 0 <= i < from && i < |log| && log[i].kv.lastModified <= when && !log[i].deleted && NewestBy(log, when, i) {
      assert i < k && forall j :: i < j < q ==> Slot(past[j]) != Slot(past[i]);
    }
    if i :| 0 <= i < k && !past[i].deleted && forall j :: i < j < |past| ==> Slot(past[j]) != Slot(past[i]) {
      assert NewestBy(log, when, i);
    }
  }

  /** While nothing has been evicted, point-in-time reads are exact. */
  lemma TimeTravelExact(es: seq<Event>, when: nat)
    requires Clocked(es) && |Reach(es).log| <= MAX_HISTORY
    ensures Replay(Upto(Reach(es).history, when)) == Reach(es[..Elapsed(es, when)]).items
  {
    LogUpto(es, when);
    ReachInv(es);
    ReachInv(es[..Elapsed(es, when)]);
  }
}
