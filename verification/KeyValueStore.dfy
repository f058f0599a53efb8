/** The key-value store as the program keeps it: items are objects whose lock, tag
    and date are changed in place, while the log and the snapshots hold copies. */
module KeyValueStore {
  import opened Common
  import opened Dicts
  import opened ConfigStore

  class Item {
    const key: string
    const lab: Option<string>
    const contentType: Option<string>
    const value: Option<string>
    const tags: map<string, string>
    var etag: nat
    var locked: bool
    var lastModified: nat

    constructor (etag: nat, key: string, lab: Option<string>, body: Content, now: nat)
      ensures View() == KeyValue(etag, key, lab, body.contentType, body.value, body.tags, false, now)
    {
      this.etag, this.key, this.lab, this.locked, this.lastModified := etag, key, lab, false, now;
      contentType, value, tags := body.contentType, body.value, body.tags;
    }

    /** The copy that `dict(kv)` takes. */
    function View(): KeyValue
      reads this
    {
      KeyValue(etag, key, lab, contentType, value, tags, locked, lastModified)
    }
  }

  class Kvs {
    var items: map<string, Item>
    var order: seq<string>
    var history: seq<Revision>
    var snapshots: map<string, Snapshot>
    var counter: nat
    ghost var log: seq<Revision>

    ghost function Model(): Store
      reads this, items.Values
    {
      Store(Views(), order, history, snapshots, counter, log)
    }

    ghost function Views(): map<string, KeyValue>
      reads this, items.Values
    {
      map id | id in items :: items[id].View()
    }

    ghost predicate Unshared()
      reads this
    {
      forall a, b :: a in items && b in items && a != b ==> items[a] != items[b]
    }

    ghost predicate Valid()
      reads this, items.Values
    {
      Unshared() && Inv(Model())
    }

    constructor ()
      ensures Valid() && Model() == EMPTY && items == map[]
    {
      items, order, history, snapshots, counter, log := map[], [], [], map[], 0, [];
    }

    method NextEtag() returns (etag: nat)
      modifies this`counter
      ensures counter == etag == old(counter) + 1 && Views() == old(Views())
    {
      counter := counter + 1;
      etag := counter;
    }

    method Append(kv: KeyValue, deleted: bool)
      modifies this`counter, this`history, this`log
      ensures Model() == Record(old(Model()), kv, deleted) && Views() == old(Views())
    {
      counter := counter + 1;
      var r := Revision(kv, deleted, counter);
      history := history + [r];
      log := log + [r];
      if |history| > MAX_HISTORY {
        history := history[|history| - MAX_HISTORY..];
      }
      assert history == Trim(old(history) + [r]);
      assert Views() == old(Views());
    }

    /** Stores a fresh item under `id`. */
    method Place(id: string, kv: Item)
      requires Unshared() && kv !in items.Values
      modifies this`items, this`order
      ensures Unshared() && items == old(items)[id := kv] && order == Touch(old(order), id)
      ensures Views() == old(Views())[id := kv.View()]
    {
      assert forall a :: a in items ==> items[a] in items.Values;
      items := items[id := kv];
      order := Touch(order, id);
    }

    /** Removes the item under `id`. */
    method Pop(id: string)
      requires Unshared() && id in items
      modifies this`items, this`order
      ensures Unshared() && items == old(items) - {id} && order == Drop(old(order), id)
      ensures Views() == old(Views()) - {id}
    {
      items := items - {id};
      order := Drop(order, id);
    }

    /** Changes one item in place; the other items are other objects. */
    method Mark(id: string, locked: bool, etag: nat, now: nat)
      requires Unshared() && id in items
      modifies items[id]
      ensures Unshared()
      ensures Views() == old(Views())[id := old(items[id].View()).(locked := locked, etag := etag, lastModified := now)]
    {
      var cur := items[id];
      cur.locked := locked;
      cur.etag := etag;
      cur.lastModified := now;
      assert forall a :: a in items && a != id ==> items[a] != cur;
    }

    method Put(key: string, lab: Option<string>, body: Content, now: nat) returns (r: Reply)
      requires Unshared()
      modifies this
      ensures Unshared() && fresh(items.Values - old(items.Values))
      ensures (Model(), r) == KvPut(old(Model()), key, lab, body, now)
    {
      var id := Id(key, lab);
      if id in items && items[id].locked {
        return KeyLocked;
      }
      var kv := Replace(id, key, lab, body, now);
      Append(kv.View(), false);
      r := Served(kv.View());
    }

    /** Puts a new item with a new tag into the slot. */
    method Replace(id: string, key: string, lab: Option<string>, body: Content, now: nat) returns (kv: Item)
      requires Unshared()
      modifies this`items, this`order, this`counter
      ensures Unshared() && fresh(kv) && items == old(items)[id := kv] && order == Touch(old(order), id) && counter == old(counter) + 1
      ensures kv.View() == KeyValue(counter, key, lab, body.contentType, body.value, body.tags, false, now)
      ensures Views() == old(Views())[id := kv.View()]
    {
      var etag := NextEtag();
      kv := new Item(etag, key, lab, body, now);
      Place(id, kv);
    }

    method Delete(key: string, lab: Option<string>, now: nat) returns (r: Reply)
      requires Unshared()
      modifies this
      ensures Unshared() && items.Values <= old(items.Values)
      ensures (Model(), r) == KvDelete(old(Model()), key, lab, now)
    {
      var id := Id(key, lab);
      if id !in items {
        return NoContent;
      }
      if items[id].locked {
        return KeyLocked;
      }
      var gone := items[id].View();
      Pop(id);
      var etag := NextEtag();
      Append(gone.(lastModified := now, etag := etag), true);
      r := Served(gone);
    }

    /** Flips the lock of a live item in place; the other items are other objects. */
    method Lock(id: string, locked: bool, now: nat) returns (r: Reply)
      requires Unshared() && id in items
      modifies this`counter, this`history, this`log, items[id]
      ensures Unshared() && items == old(items)
      ensures (Model(), r) == FlipLock(old(Model()), old(items[id].View()), id, locked, now)
    {
      if items[id].locked != locked {
        var etag := NextEtag();
        Mark(id, locked, etag, now);
        assert items[id].View() == Views()[id];
        Append(items[id].View(), false);
      }
      r := Served(items[id].View());
    }

    /** The items as they were at `when`: replays the retained log, skipping what came later. */
    method AtTime(when: nat) returns (cur: map<string, KeyValue>)
      ensures cur == Replay(Upto(history, when))
    {
      cur := map[];
      var i := 0;
      while i < |history|
        invariant 0 <= i <= |history|
        invariant cur == Replay(Upto(history[..i], when))
      {
        var rev := history[i];
        assert history[..i + 1][..i] == history[..i];
        assert Upto(history[..i + 1], when) ==
               Upto(history[..i], when) + if rev.kv.lastModified <= when then [rev] else [];
        i := i + 1;
        if rev.kv.lastModified > when {
          assert Upto(history[..i], when) == Upto(history[..i - 1], when);
          continue;
        }
        ReplaySnoc(Upto(history[..i - 1], when), rev);
        if rev.deleted {
          cur := cur - {Slot(rev)};
        } else {
          cur := cur[Slot(rev) := rev.kv];
        }
      }
      assert history[..i] == history;
    }

    method Freeze(filters: seq<SnapshotFilter>, c: Composition) returns (frozen: map<string, KeyValue>)
      requires forall id :: id in order ==> id in items
      ensures frozen == Compose(Views(), order, filters, c)
    {
      frozen := map[];
      var i := 0;
      while i < |order|
        invariant 0 <= i <= |order|
        invariant frozen == Compose(Views(), order[..i], filters, c)
        invariant c.ByKey? ==> forall k :: k in frozen ==> frozen[k].key == k
      {
        assert order[..i + 1][..i] == order[..i];
        var kv := items[order[i]].View();
        if Selected(filters, kv) {
          frozen := frozen[Ident(c, kv) := kv];
        }
        i := i + 1;
      }
      assert order[..i] == order;
      if c == ByKey {
        frozen := OnePerKey(frozen);
      }
    }

    /** The second pass of a by-key snapshot, in whatever order the dates put the items. */
    static method OnePerKey(picked: map<string, KeyValue>) returns (seen: map<string, KeyValue>)
      requires forall k :: k in picked ==> picked[k].key == k
      ensures seen == picked
    {
      seen := map[];
      var rest := picked.Keys;
      while rest != {}
        invariant rest <= picked.Keys
        invariant seen == map k | k in picked && k !in rest :: picked[k]
        decreases rest
      {
        var k :| k in rest;
        var kv := picked[k];
        seen := seen[kv.key := kv];
        rest := rest - {k};
      }
    }

    method SnapshotPut(name: string, filters: seq<SnapshotFilter>, composition: Option<Composition>) returns (r: Reply)
      requires forall id :: id in order ==> id in items
      modifies this`counter, this`snapshots
      ensures (Model(), r) == CreateSnapshot(old(Model()), name, filters, composition)
    {
      if name in snapshots {
        return AlreadyExists;
      }
      if |filters| == 0 || |filters| > 3 || composition == None {
        return InvalidArgument;
      }
      var frozen := Freeze(filters, composition.value);
      var etag := NextEtag();
      var snap := Snapshot(etag, Ready, composition.value, filters, frozen);
      snapshots := snapshots[name := snap];
      assert Views() == old(Views());
      r := ServedSnapshot(snap);
    }

    method SnapshotPatch(name: string, status: Option<SnapshotStatus>) returns (r: Reply)
      requires forall id :: id in order ==> id in items
      modifies this`counter, this`snapshots
      ensures (Model(), r) == UpdateSnapshot(old(Model()), name, status)
    {
      if name !in snapshots {
        return NotFound;
      }
      if status == None {
        return InvalidArgument;
      }
      var etag := NextEtag();
      var snap := snapshots[name].(status := status.value, etag := etag);
      snapshots := snapshots[name := snap];
      assert Views() == old(Views());
      r := ServedSnapshot(snap);
    }

    method HandlePut(key: string, lab: Option<string>, body: Content, valueIsText: bool, im: Header, inm: Header, now: nat) returns (r: Reply)
      requires Unshared()
      modifies this
      ensures Unshared() && fresh(items.Values - old(items.Values))
      ensures (Model(), r) == Step(old(Model()), Event(now, PutKv(key, lab, body, valueIsText, im, inm)))
    {
      var cur := Find(key, lab);
      if !Allowed(im, inm, cur) {
        r := PreconditionFailed;
      } else if !valueIsText || |key| > MAX_KEY {
        r := InvalidArgument;
      } else {
        r := Put(key, lab, body, now);
      }
    }

    method HandleDelete(key: string, lab: Option<string>, im: Header, inm: Header, now: nat) returns (r: Reply)
      requires Unshared()
      modifies this
      ensures Unshared() && items.Values <= old(items.Values)
      ensures (Model(), r) == Step(old(Model()), Event(now, DeleteKv(key, lab, im, inm)))
    {
      var cur := Find(key, lab);
      if cur == None {
        r := NoContent;
      } else if !Allowed(im, inm, cur) {
        r := PreconditionFailed;
      } else {
        r := Delete(key, lab, now);
      }
    }

    method HandleLock(key: string, lab: Option<string>, locked: bool, im: Header, inm: Header, now: nat) returns (r: Reply)
      requires Unshared()
      modifies this, items.Values
      ensures Unshared() && items == old(items)
      ensures (Model(), r) == Step(old(Model()), Event(now, SetLock(key, lab, locked, im, inm)))
    {
      var cur := Find(key, lab);
      if cur == None {
        r := NotFound;
      } else if !Allowed(im, inm, cur) {
        r := PreconditionFailed;
      } else {
        r := Lock(Id(key, lab), locked, now);
      }
    }

    /** One request on either plane. */
    method Dispatch(e: Event) returns (r: Reply)
      requires Unshared() && forall id :: id in order ==> id in items
      modifies this, items.Values
      ensures Unshared() && fresh(items.Values - old(items.Values))
      ensures (Model(), r) == Step(old(Model()), e)
    {
      match e.req
      case PutKv(key, lab, body, valueIsText, im, inm) => r := HandlePut(key, lab, body, valueIsText, im, inm, e.now);
      case DeleteKv(key, lab, im, inm) => r := HandleDelete(key, lab, im, inm, e.now);
      case SetLock(key, lab, locked, im, inm) => r := HandleLock(key, lab, locked, im, inm, e.now);
      case ArmPutKv(key, lab, body) => r := Put(key, lab, body, e.now);
      case ArmDeleteKv(key, lab) => r := Delete(key, lab, e.now);
      case PutSnapshot(name, filters, composition) => r := SnapshotPut(name, filters, composition);
      case PatchSnapshot(name, status) => r := SnapshotPatch(name, status);
    }

    /** Every request keeps index, log and counter in agreement. */
    method Handle(e: Event) returns (r: Reply)
      requires Valid()
      modifies this, items.Values
      ensures Valid() && fresh(items.Values - old(items.Values))
      ensures (Model(), r) == Step(old(Model()), e)
    {
      StepKeepsInv(Model(), e);
      assert Model().items.Keys == items.Keys;
      r := Dispatch(e);
    }

    method Find(key: string, lab: Option<string>) returns (r: Option<KeyValue>)
      ensures r == Lookup(Model(), key, lab)
    {
      var id := Id(key, lab);
      r := if id in items then Some(items[id].View()) else None;
    }
  }
}
