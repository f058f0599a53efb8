/** Which items a snapshot freezes when its filters are made from escaped literals, and what
    each snapshot request answers. */
module SnapshotSelection {
  import opened Common
  import opened Dicts
  import opened FilterGrammar
  import opened ConfigStore
  import opened ConfigGuarantees

  // ---------- filters made from literals ----------

  /** The item has the tag with that value, or lacks the tag if no value is named. */
  predicate Carries(kv: KeyValue, t: TagTest) {
    match t.value
    case Some(v) => (t.name, v) in kv.tags.Items
    case None => t.name !in kv.tags.Keys
  }

  /** What a client asks for: some keys or any, some labels or any, and tags; a null marker
      among the labels asks for the absent one. */
  datatype Wish = Wish(keys: Option<seq<string>>, labels: Option<seq<string>>, tags: seq<TagTest>)

  predicate LabelListed(labels: seq<string>, lab: Option<string>) {
    match lab
    case Some(l) => l in labels && !IsNullMarker(l)
    case None => "\0" in labels || "%00" in labels
  }

  /** The item is one the client asks for. */
  predicate Wanted(w: Wish, kv: KeyValue) {
    && (w.keys.Some? ==> kv.key in w.keys.value)
    && (w.labels.Some? ==> LabelListed(w.labels.value, kv.lab))
    && (forall i :: 0 <= i < |w.tags| ==> Carries(kv, w.tags[i]))
  }

  /** The lists are not empty or one empty literal, and no key is a null marker. */
  predicate Proper(w: Wish) {
    && (w.keys.Some? ==> w.keys.value != [] && w.keys.value != [""] && forall k :: k in w.keys.value ==> !IsNullMarker(k))
    && (w.labels.Some? ==> w.labels.value != [] && w.labels.value != [""])
  }

  /** The filter the client sends: each list escaped and joined. */
  function Filter(w: Wish): SnapshotFilter {
    SnapshotFilter(if w.keys.Some? then Some(JoinEscaped(w.keys.value)) else None,
                   if w.labels.Some? then Some(JoinEscaped(w.labels.value)) else None, w.tags)
  }

  function Filters(ws: seq<Wish>): seq<SnapshotFilter> {
    seq(|ws|, i requires 0 <= i < |ws| => Filter(ws[i]))
  }

  lemma KeysAccept(keys: seq<string>, key: string)
    requires keys != [] && keys != [""] && forall k :: k in keys ==> !IsNullMarker(k)
    ensures FilterMatch(Some(JoinEscaped(keys)), Some(key)) <==> key in keys
  {
    JoinedAccepts(keys, Some(key));
  }

  lemma LabelsAccept(labels: seq<string>, lab: Option<string>)
    requires labels != [] && labels != [""]
    ensures FilterMatch(Some(JoinEscaped(labels)), lab) <==> LabelListed(labels, lab)
  {
    JoinedAccepts(labels, lab);
  }

  lemma TagsAccept(tests: seq<TagTest>, kv: KeyValue)
    ensures TagsMatch(tests, kv) <==> forall i :: 0 <= i < |tests| ==> Carries(kv, tests[i])
  {
    if TagsMatch(tests, kv) {
      forall i | 0 <= i < |tests|
        ensures Carries(kv, tests[i])
      {
        assert tests[i] in tests;
      }
    }
  }

  /** The store selects exactly what the client asked for with one of its filters. */
  lemma {:induction false} SelectedExactly(ws: seq<Wish>, kv: KeyValue)
    requires forall i :: 0 <= i < |ws| ==> Proper(ws[i])
    ensures Selected(Filters(ws), kv) <==> exists i :: 0 <= i < |ws| && Wanted(ws[i], kv)
  {
    var fs := Filters(ws);
    forall i | 0 <= i < |ws|
      ensures FilterMatch(fs[i].key, Some(kv.key)) && FilterMatch(fs[i].lab, kv.lab) && TagsMatch(fs[i].tags, kv) <==> Wanted(ws[i], kv)
    {
      WishAccepts(ws[i], kv);
    }
    if i :| 0 <= i < |ws| && Wanted(ws[i], kv) {
      assert fs[i] in fs;
    }
  }

  lemma WishAccepts(w: Wish, kv: KeyValue)
    requires Proper(w)
    ensures var f := Filter(w);
            FilterMatch(f.key, Some(kv.key)) && FilterMatch(f.lab, kv.lab) && TagsMatch(f.tags, kv) <==> Wanted(w, kv)
  {
    if w.keys.Some? {
      KeysAccept(w.keys.value, kv.key);
    }
    if w.labels.Some? {
      LabelsAccept(w.labels.value, kv.lab);
    }
    TagsAccept(w.tags, kv);
  }

  // ---------- what is frozen ----------

  /** The items of the index that some wish asks for. */
  function AskedFor(s: Store, ws: seq<Wish>): map<string, KeyValue> {
    map id | id in s.items && exists i :: 0 <= i < |ws| && Wanted(ws[i], s.items[id]) :: s.items[id]
  }

  /** A request for a snapshot by the filters of some wishes, which is served. */
  ghost predicate Snapshots(s: Store, e: Event, ws: seq<Wish>, c: Composition) {
    && e.req.PutSnapshot? && e.req.filters == Filters(ws) && e.req.composition == Some(c)
    && (forall i :: 0 <= i < |ws| ==> Proper(ws[i]))
    && Step(s, e).1.ServedSnapshot?
  }

  lemma AskedExactly(s: Store, ws: seq<Wish>, id: string)
    requires forall i :: 0 <= i < |ws| ==> Proper(ws[i])
    ensures id in AskedFor(s, ws) <==> id in s.items && Selected(Filters(ws), s.items[id])
  {
    if id in s.items {
      SelectedExactly(ws, s.items[id]);
    }
  }

  /** A snapshot by key and label freezes exactly the items asked for, each in its own slot. */
  lemma {:induction false} KeyLabelSnapshotExactly(s: Store, e: Event, ws: seq<Wish>)
    requires Inv(s) && Snapshots(s, e, ws, ByKeyLabel)
    ensures Step(s, e).1.snapshot.items == AskedFor(s, ws)
  {
    ReplayKeyed(s.log);
    forall k
      ensures k in Step(s, e).1.snapshot.items <==> k in AskedFor(s, ws)
      ensures k in AskedFor(s, ws) ==> Step(s, e).1.snapshot.items[k] == s.items[k]
    {
      AskedExactly(s, ws, k);
      SlotWins(s, e, k);
    }
  }

  /** With one identity to a slot, a slot wins exactly if it is selected. */
  lemma SlotWins(s: Store, e: Event, k: string)
    requires Inv(s) && e.req.PutSnapshot? && e.req.composition == Some(ByKeyLabel) && Step(s, e).1.ServedSnapshot?
    requires forall id :: id in s.items ==> Id(s.items[id].key, s.items[id].lab) == id
    ensures var frozen := Step(s, e).1.snapshot.items;
            && (k in frozen <==> k in s.items && Selected(e.req.filters, s.items[k]))
            && (k in frozen ==> frozen[k] == s.items[k])
  {
    SnapshotHoldsWinners(s, e, k);
    if k in s.items && Selected(e.req.filters, s.items[k]) {
      assert k in s.order;
      var i: nat :| i < |s.order| && s.order[i] == k;
      assert Wins(s.items, s.order, e.req.filters, ByKeyLabel, k, i);
    }
  }

  /** Place `n` of the index is the last one of an item asked for with this key. */
  ghost predicate LastAsked(asked: map<string, KeyValue>, order: seq<string>, k: string, n: nat) {
    && n < |order| && order[n] in asked && asked[order[n]].key == k
    && forall j :: n < j < |order| && order[j] in asked ==> asked[order[j]].key != k
  }

  ghost predicate HasKey(asked: map<string, KeyValue>, k: string) {
    exists id :: id in asked && asked[id].key == k
  }

  /** A snapshot by key freezes something of exactly the keys of the items asked for, and of
      each key the item asked for that stands last in the index. */
  lemma {:induction false} KeySnapshotExactly(s: Store, e: Event, ws: seq<Wish>, k: string)
    requires Inv(s) && Snapshots(s, e, ws, ByKey)
    ensures var asked, frozen := AskedFor(s, ws), Step(s, e).1.snapshot.items;
            && (k in frozen <==> HasKey(asked, k))
            && (forall n: nat :: LastAsked(asked, s.order, k, n) ==> k in frozen && frozen[k] == asked[s.order[n]])
  {
    LastAskedWins(s, e, ws, k);
    AskedKeys(s, ws, k);
  }

  lemma AskedKeys(s: Store, ws: seq<Wish>, k: string)
    requires Inv(s)
    ensures HasKey(AskedFor(s, ws), k) <==> exists n: nat :: LastAsked(AskedFor(s, ws), s.order, k, n)
  {
    AskedListed(s, ws);
    AskedHasLast(AskedFor(s, ws), s.order, k);
  }

  lemma AskedListed(s: Store, ws: seq<Wish>)
    requires Inv(s)
    ensures forall id :: id in AskedFor(s, ws) ==> id in s.order
  {
  }

  lemma LastAskedWins(s: Store, e: Event, ws: seq<Wish>, k: string)
    requires Inv(s) && Snapshots(s, e, ws, ByKey)
    ensures var asked, frozen := AskedFor(s, ws), Step(s, e).1.snapshot.items;
            && (k in frozen <==> exists n: nat :: LastAsked(asked, s.order, k, n))
            && (forall n: nat :: LastAsked(asked, s.order, k, n) ==> k in frozen && frozen[k] == asked[s.order[n]])
  {
    SnapshotHoldsWinners(s, e, k);
    AskedAll(s, ws);
    WinsIsLast(s, AskedFor(s, ws), Filters(ws), k);
  }

  lemma AskedAll(s: Store, ws: seq<Wish>)
    requires forall i :: 0 <= i < |ws| ==> Proper(ws[i])
    ensures forall id :: id in AskedFor(s, ws) <==> id in s.items && Selected(Filters(ws), s.items[id])
  {
    forall id
      ensures id in AskedFor(s, ws) <==> id in s.items && Selected(Filters(ws), s.items[id])
    {
      AskedExactly(s, ws, id);
    }
  }

  lemma WinsIsLast(s: Store, asked: map<string, KeyValue>, filters: seq<SnapshotFilter>, k: string)
    requires forall id :: id in asked <==> id in s.items && Selected(filters, s.items[id])
    requires forall id :: id in asked ==> asked[id] == s.items[id]
    ensures forall n: nat :: Wins(s.items, s.order, filters, ByKey, k, n) <==> LastAsked(asked, s.order, k, n)
  {
    forall n: nat
      ensures Wins(s.items, s.order, filters, ByKey, k, n) <==> LastAsked(asked, s.order, k, n)
    {
      forall i: nat
        ensures Chosen(s.items, s.order, filters, ByKey, k, i) <==> i < |s.order| && s.order[i] in asked && asked[s.order[i]].key == k
      {
      }
    }
  }

  /** A last item asked for is there exactly if one is. */
  lemma AskedHasLast(asked: map<string, KeyValue>, order: seq<string>, k: string)
    requires forall id :: id in asked ==> id in order
    ensures (exists id :: id in asked && asked[id].key == k) <==> exists n: nat :: LastAsked(asked, order, k, n)
  {
    if id :| id in asked && asked[id].key == k {
      var i: nat :| i < |order| && order[i] == id;
      var n := LaterAsked(asked, order, k, i);
    }
  }

  lemma LaterAsked(asked: map<string, KeyValue>, order: seq<string>, k: string, i: nat) returns (n: nat)
    requires i < |order| && order[i] in asked && asked[order[i]].key == k
    ensures LastAsked(asked, order, k, n)
    decreases |order| - i
  {
    n := i;
    if j: nat :| i < j < |order| && order[j] in asked && asked[order[j]].key == k {
      n := LaterAsked(asked, order, k, j);
    }
  }

  // ---------- what snapshot requests answer ----------

  /** A snapshot is made, ready and under a new tag, if its name is free, it has one to three
      filters and a known composition; the taken name is reported first. Other snapshots stay. */
  lemma SnapshotPutAnswers(s: Store, e: Event)
    requires e.req.PutSnapshot?
    ensures var (t, reply), req := Step(s, e), e.req;
            && (reply == AlreadyExists <==> req.name in s.snapshots)
            && (reply == InvalidArgument <==> req.name !in s.snapshots && !(1 <= |req.filters| <= 3 && req.composition.Some?))
            && (reply.ServedSnapshot? || (reply in {AlreadyExists, InvalidArgument} && t == s))
            && (reply.ServedSnapshot? ==>
                  && t.snapshots == s.snapshots[req.name := reply.snapshot]
                  && reply.snapshot.status == Ready && reply.snapshot.etag > s.counter
                  && Some(reply.snapshot.composition) == req.composition && reply.snapshot.filters == req.filters)
  {
  }

  /** A snapshot gets the status asked for, and a new tag even if it had that status; what it
      holds stays, and so does every other snapshot. */
  lemma SnapshotPatchAnswers(s: Store, e: Event)
    requires e.req.PatchSnapshot?
    ensures var (t, reply), req := Step(s, e), e.req;
            && (reply == NotFound <==> req.name !in s.snapshots)
            && (reply == InvalidArgument <==> req.name in s.snapshots && req.status == None)
            && (reply.ServedSnapshot? || (reply in {NotFound, InvalidArgument} && t == s))
            && (reply.ServedSnapshot? ==>
                  && req.name in s.snapshots && t.snapshots == s.snapshots[req.name := reply.snapshot]
                  && Some(reply.snapshot.status) == req.status && reply.snapshot.etag > s.counter
                  && reply.snapshot == s.snapshots[req.name].(status := reply.snapshot.status, etag := reply.snapshot.etag)
                  && t.items == s.items && t.order == s.order && t.log == s.log)
  {
  }
}
