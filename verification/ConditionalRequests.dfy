/** The answer to every write of a key-value, told from the state before: which headers
    refuse it, what a lock and a bad body do, and what a create-only write is good for. */
module ConditionalRequests {
  import opened Common
  import opened ConfigStore
  import opened ConfigGuarantees

  // ---------- the headers ----------

  /** If-Match asks for an item where there is none, or for another version of it. */
  predicate MatchFails(ifMatch: Header, items: map<string, KeyValue>, id: string) {
    if id in items then ifMatch.Tag? && ifMatch.etag != items[id].etag else ifMatch != NoHeader
  }

  /** If-None-Match forbids every item and there is one, or forbids the version that is there. */
  predicate NoneMatchFails(ifNoneMatch: Header, items: map<string, KeyValue>, id: string) {
    id in items && ifNoneMatch in {Star, Tag(items[id].etag)}
  }

  /** The write reaches its headers, which a deletion or a lock of an absent item does not, and one of them fails. */
  predicate HeadersRefuse(s: Store, req: Request)
    requires Conditional(req)
  {
    && (req.PutKv? || Target(req) in s.items)
    && (MatchFails(req.ifMatch, s.items, Target(req)) || NoneMatchFails(req.ifNoneMatch, s.items, Target(req)))
  }

  /** A write is refused with 412 exactly when the condition of one of its headers fails,
      whichever pair of headers it carries; a deletion of an absent item is answered 204 and a
      lock of one 404 before the headers are read. None of the three changes anything. */
  lemma ConditionsExactly(s: Store, e: Event)
    requires Conditional(e.req)
    ensures Step(s, e).1 == PreconditionFailed <==> HeadersRefuse(s, e.req)
    ensures Step(s, e).1 == NoContent <==> e.req.DeleteKv? && Target(e.req) !in s.items
    ensures Step(s, e).1 == NotFound <==> e.req.SetLock? && Target(e.req) !in s.items
    ensures Step(s, e).1 in {PreconditionFailed, NoContent, NotFound} ==> Step(s, e).0 == s
  {
  }

  /** The body of a PUT is not acceptable. */
  predicate BadBody(req: Request) {
    req.PutKv? && (!req.valueIsText || |req.key| > MAX_KEY)
  }

  /** A write that gets past its headers is refused for a bad body, then for a lock, and is
      served otherwise; a lock does not stop a lock request. */
  lemma AnswersExactly(s: Store, e: Event)
    requires Conditional(e.req) && !HeadersRefuse(s, e.req)
    requires e.req.PutKv? || Target(e.req) in s.items
    ensures Step(s, e).1 == InvalidArgument <==> BadBody(e.req)
    ensures Step(s, e).1 == KeyLocked <==>
              !BadBody(e.req) && !e.req.SetLock? && Target(e.req) in s.items && s.items[Target(e.req)].locked
    ensures Step(s, e).1.Served? || Step(s, e) in {(s, InvalidArgument), (s, KeyLocked)}
  {
  }

  /** The management plane knows no headers: only a lock refuses it. */
  lemma ArmAnswersExactly(s: Store, e: Event)
    requires e.req.ArmPutKv? || e.req.ArmDeleteKv?
    ensures var id := Id(e.req.key, e.req.lab);
            if id in s.items && s.items[id].locked then Step(s, e) == (s, KeyLocked)
            else if e.req.ArmDeleteKv? && id !in s.items then Step(s, e) == (s, NoContent)
            else Step(s, e).1.Served?
  {
  }

  // ---------- create-only writes ----------

  /** A PUT that asks for an empty slot and no more. */
  predicate CreateOnly(req: Request) {
    req.PutKv? && req.ifMatch == NoHeader && req.ifNoneMatch == Star
  }

  /** A create-only PUT never changes an existing item, and an accepted one found its slot empty. */
  lemma CreateOnlyNeedsEmptySlot(s: Store, e: Event)
    requires CreateOnly(e.req)
    ensures Target(e.req) in s.items ==> Step(s, e) == (s, PreconditionFailed)
    ensures Step(s, e).1.Served? <==> Target(e.req) !in s.items && !BadBody(e.req)
    ensures Step(s, e).1.Served? ==> Step(s, e).0.items.Keys == s.items.Keys + {Target(e.req)}
  {
    ConditionsExactly(s, e);
    if !HeadersRefuse(s, e.req) {
      AnswersExactly(s, e);
    }
  }

  /** The request deletes the item in a slot, on either plane. */
  predicate Deletes(req: Request, id: string) {
    (req.DeleteKv? || req.ArmDeleteKv?) && Id(req.key, req.lab) == id
  }

  lemma StaysWithoutDelete(s: Store, e: Event, id: string)
    requires id in s.items && !Deletes(e.req, id)
    requires Inv(s)
    ensures id in Step(s, e).0.items
  {
    ReplayKeyed(s.log);
  }

  lemma {:induction false} RunStaysWithoutDelete(s: Store, es: seq<Event>, id: string)
    requires Inv(s) && id in s.items && forall i :: 0 <= i < |es| ==> !Deletes(es[i].req, id)
    ensures id in Run(s, es).items
  {
    if es != [] {
      var n := |es| - 1;
      RunStaysWithoutDelete(s, es[..n], id);
      RunKeepsInv(s, es[..n]);
      StaysWithoutDelete(Run(s, es[..n]), es[n], id);
    }
  }

  /** Of two create-only writes of one slot, with anything in between but a deletion of it,
      at most one is served. */
  lemma {:induction false} CreatedOnce(es: seq<Event>, first: Event, fs: seq<Event>, second: Event)
    requires CreateOnly(first.req) && CreateOnly(second.req) && Target(first.req) == Target(second.req)
    requires forall i :: 0 <= i < |fs| ==> !Deletes(fs[i].req, Target(first.req))
    requires Step(Reach(es), first).1.Served?
    ensures var u := Reach(es + [first] + fs); Step(u, second) == (u, PreconditionFailed)
  {
    var t := Reach(es + [first]);
    ReachSnoc(es, first);
    ReachInv(es + [first]);
    CreateOnlyNeedsEmptySlot(Reach(es), first);
    RunStaysWithoutDelete(t, fs, Target(first.req));
    RunConcat(EMPTY, es + [first], fs);
    CreateOnlyNeedsEmptySlot(Run(t, fs), second);
  }
}
