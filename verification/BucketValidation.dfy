/** What the validators of S3 lifecycle and CORS rules make of a request, field by field, and
    what comes back from the document written for it. */
module BucketValidation {
  import opened Common
  import opened XmlText
  import opened XmlTree
  import opened RuleFields
  import opened BucketLifecycle
  import opened BucketCors

  // ---------- numbers ----------

  /** A number of days is taken over if it is given and positive, and missing if it is. */
  predicate TakenOver(v: Num, n: Option<int>) {
    match v
    case Absent => n == None
    case NotInt => false
    case Int(d) => d > 0 && n == Some(d)
  }

  lemma OptionalIntExactly(v: Num, n: Option<int>)
    ensures (OptionalInt(v).Ok? && OptionalInt(v).value == n) <==> TakenOver(v, n)
    ensures OptionalInt(v).Err? <==> v.NotInt? || (v.Int? && v.n <= 0)
    ensures OptionalInt(v).Err? ==> OptionalInt(v).error == InvalidArgument
  {
  }

  // ---------- lifecycle rules ----------

  /** A storage class a transition may name, after at least so many days. */
  predicate Allows(storageClass: string, days: int) {
    || (storageClass in {"STANDARD_IA", "ONEZONE_IA"} && days >= 30)
    || (storageClass in {"INTELLIGENT_TIERING", "GLACIER_IR", "GLACIER", "DEEP_ARCHIVE"} && days >= 1)
  }

  predicate TransitionTaken(raw: RawTransition, t: Transition) {
    raw.days == Int(t.days) && t.storageClass == raw.storageClass && Allows(t.storageClass, t.days)
  }

  ghost predicate TransitionsTaken(raw: seq<RawTransition>, ts: seq<Transition>) {
    |ts| == |raw| && forall i :: 0 <= i < |raw| ==> TransitionTaken(raw[i], ts[i])
  }

  lemma OneTransition(raw: RawTransition)
    ensures var ok := raw.storageClass in STORAGE_CLASSES && PositiveInt(raw.days).Ok? && PositiveInt(raw.days).value >= STORAGE_CLASSES[raw.storageClass];
            && (ok ==> TransitionTaken(raw, Transition(PositiveInt(raw.days).value, raw.storageClass)))
            && (!ok ==> forall t :: !TransitionTaken(raw, t))
  {
  }

  lemma {:induction false} TransitionsExactly(raw: seq<RawTransition>, ts: seq<Transition>)
    ensures Transitions(raw) == Ok(ts) <==> TransitionsTaken(raw, ts)
    ensures Transitions(raw).Err? ==> Transitions(raw).error == InvalidArgument
  {
    if raw != [] {
      var n := |raw| - 1;
      OneTransition(raw[n]);
      if |ts| == |raw| {
        TransitionsExactly(raw[..n], ts[..n]);
        assert ts == ts[..n] + [ts[n]];
        assert TransitionsTaken(raw, ts) <==> TransitionsTaken(raw[..n], ts[..n]) && TransitionTaken(raw[n], ts[n]);
      } else {
        TransitionsLength(raw);
      }
      TransitionsError(raw);
    }
  }

  lemma {:induction false} TransitionsLength(raw: seq<RawTransition>)
    ensures Transitions(raw).Ok? ==> |Transitions(raw).value| == |raw|
  {
    if raw != [] {
      TransitionsLength(raw[..|raw| - 1]);
    }
  }

  lemma {:induction false} TransitionsError(raw: seq<RawTransition>)
    ensures Transitions(raw).Err? ==> Transitions(raw).error == InvalidArgument
  {
    if raw != [] {
      TransitionsError(raw[..|raw| - 1]);
    }
  }

  /** The id a rule gets: the stripped one, or its number if that is empty. */
  function GivenId(raw: RawRule, i: nat): string {
    if Strip(raw.id) != "" then Strip(raw.id) else "rule-" + Decimal(i + 1)
  }

  function GivenStatus(raw: RawRule): string {
    if raw.status != "" then raw.status else "Enabled"
  }

  predicate SomeAction(r: Rule) {
    r.expiration.Some? || r.noncurrent.Some? || r.abort.Some? || r.transitions != []
  }

  /** The rule is the request's: its own id or number, status and prefix, each kind of days as
      given, the transitions as given, one for one, and at least one action. */
  ghost predicate Honours(raw: RawRule, i: nat, r: Rule) {
    && r.id == GivenId(raw, i) && |r.id| <= 255
    && r.status == GivenStatus(raw) && r.status in {"Enabled", "Disabled"}
    && r.prefix == raw.prefix
    && TakenOver(raw.expiration, r.expiration) && TakenOver(raw.noncurrent, r.noncurrent) && TakenOver(raw.abort, r.abort)
    && TransitionsTaken(raw.transitions, r.transitions)
    && SomeAction(r)
  }

  /** A lifecycle rule of a request is accepted exactly as the rule that honours it, and refused if none does. */
  lemma {:induction false} LifecycleRuleExactly(raw: RawRule, i: nat, r: Rule)
    ensures LifecycleRule(raw, i) == Ok(r) <==> Honours(raw, i, r)
  {
    OptionalIntExactly(raw.expiration, r.expiration);
    OptionalIntExactly(raw.noncurrent, r.noncurrent);
    OptionalIntExactly(raw.abort, r.abort);
    TransitionsExactly(raw.transitions, r.transitions);
  }

  /** A bad number, a storage class that is unknown or comes too early. */
  ghost predicate BadField(raw: RawRule) {
    || (forall n :: !TakenOver(raw.expiration, n)) || (forall n :: !TakenOver(raw.noncurrent, n)) || (forall n :: !TakenOver(raw.abort, n))
    || (forall ts :: !TransitionsTaken(raw.transitions, ts))
  }

  /** A rule is refused for its id, then its status, then a field, and last for having no action. */
  lemma {:induction false} LifecycleRuleRefused(raw: RawRule, i: nat)
    requires LifecycleRule(raw, i).Err?
    ensures LifecycleRule(raw, i).error ==
            if |GivenId(raw, i)| > 255 then InvalidArgument
            else if GivenStatus(raw) !in {"Enabled", "Disabled"} then MalformedXML
            else if BadField(raw) then InvalidArgument
            else InvalidRequest
  {
    NumRefused(raw.expiration);
    NumRefused(raw.noncurrent);
    NumRefused(raw.abort);
    TransitionsRefused(raw.transitions);
  }

  lemma NumRefused(v: Num)
    ensures OptionalInt(v).Err? <==> forall n :: !TakenOver(v, n)
    ensures OptionalInt(v).Err? ==> OptionalInt(v).error == InvalidArgument
  {
    if OptionalInt(v).Ok? {
      assert TakenOver(v, OptionalInt(v).value);
    }
  }

  lemma TransitionsRefused(raw: seq<RawTransition>)
    ensures Transitions(raw).Err? <==> forall ts :: !TransitionsTaken(raw, ts)
    ensures Transitions(raw).Err? ==> Transitions(raw).error == InvalidArgument
  {
    TransitionsError(raw);
    if Transitions(raw).Ok? {
      TransitionsExactly(raw, Transitions(raw).value);
    }
    forall ts
      ensures Transitions(raw) == Ok(ts) <==> TransitionsTaken(raw, ts)
    {
      TransitionsExactly(raw, ts);
    }
  }

  ghost predicate AllHonoured(raw: seq<RawRule>, rs: seq<Rule>) {
    |rs| == |raw| && forall i :: 0 <= i < |raw| ==> Honours(raw[i], i, rs[i])
  }

  lemma AllHonouredSnoc(raw: seq<RawRule>, rs: seq<Rule>)
    requires raw != [] && |rs| == |raw|
    ensures var n := |raw| - 1; AllHonoured(raw, rs) <==> AllHonoured(raw[..n], rs[..n]) && Honours(raw[n], n, rs[n])
  {
    var n := |raw| - 1;
    if AllHonoured(raw[..n], rs[..n]) && Honours(raw[n], n, rs[n]) {
      forall i | 0 <= i < |raw|
        ensures Honours(raw[i], i, rs[i])
      {
        assert i < n ==> Honours(raw[..n][i], i, rs[..n][i]);
      }
    }
  }

  lemma LifecycleSnoc(raw: seq<RawRule>, init: seq<Rule>, last: Rule)
    requires |raw| == |init| + 1
    ensures var n := |init|; LifecycleRules(raw) == Ok(init + [last]) <==> LifecycleRules(raw[..n]) == Ok(init) && LifecycleRule(raw[n], n) == Ok(last)
  {
    var front := LifecycleRules(raw[..|init|]);
    LifecycleLength(raw[..|init|]);
    if front.Ok? {
      SnocEquals(front.value, init, last);
    }
  }

  lemma SnocEquals(front: seq<Rule>, init: seq<Rule>, last: Rule)
    requires |front| == |init|
    ensures forall x :: front + [x] == init + [last] <==> front == init && x == last
  {
    forall x
      ensures front + [x] == init + [last] <==> front == init && x == last
    {
      if front + [x] == init + [last] {
        assert (front + [x])[..|init|] == front && (init + [last])[..|init|] == init;
        assert (front + [x])[|init|] == x && (init + [last])[|init|] == last;
      }
    }
  }

  /** A lifecycle request is accepted as the list of rules that honour its rules, one for one. */
  lemma {:induction false} LifecycleExactly(raw: seq<RawRule>, rs: seq<Rule>)
    ensures LifecycleRules(raw) == Ok(rs) <==> AllHonoured(raw, rs)
  {
    if raw != [] {
      var n := |raw| - 1;
      if |rs| == |raw| {
        LifecycleExactly(raw[..n], rs[..n]);
        LifecycleRuleExactly(raw[n], n, rs[n]);
        AllHonouredSnoc(raw, rs);
        LifecycleSnoc(raw, rs[..n], rs[n]);
        assert rs == rs[..n] + [rs[n]];
      } else {
        LifecycleLength(raw);
      }
    }
  }

  lemma {:induction false} LifecycleLength(raw: seq<RawRule>)
    ensures LifecycleRules(raw).Ok? ==> |LifecycleRules(raw).value| == |raw|
  {
    if raw != [] {
      LifecycleLength(raw[..|raw| - 1]);
    }
  }

  /** A refused request is refused for its first rule that is. */
  lemma {:induction false} LifecycleRefused(raw: seq<RawRule>)
    requires LifecycleRules(raw).Err?
    ensures exists i :: 0 <= i < |raw| && LifecycleRule(raw[i], i) == Err(LifecycleRules(raw).error)
                        && forall j :: 0 <= j < i ==> LifecycleRule(raw[j], j).Ok?
  {
    var n := |raw| - 1;
    if LifecycleRules(raw[..n]).Err? {
      LifecycleRefused(raw[..n]);
      var i :| 0 <= i < n && LifecycleRule(raw[..n][i], i) == Err(LifecycleRules(raw).error)
               && forall j :: 0 <= j < i ==> LifecycleRule(raw[..n][j], j).Ok?;
      assert forall j :: 0 <= j < i ==> raw[..n][j] == raw[j];
    } else {
      LifecycleExactly(raw[..n], LifecycleRules(raw[..n]).value);
      forall j | 0 <= j < n
        ensures LifecycleRule(raw[j], j).Ok?
      {
        LifecycleRuleExactly(raw[j], j, LifecycleRules(raw[..n]).value[j]);
      }
    }
  }

  /** From a request to what the document written for it reads as: rules that honour the request,
      if the ids and prefixes survive the trip. */
  lemma LifecycleEndToEnd(raw: seq<RawRule>, rs: seq<Rule>)
    requires AllHonoured(raw, rs) && forall i :: 0 <= i < |raw| ==> Survives(GivenId(raw[i], i)) && Survives(raw[i].prefix)
    ensures LifecycleFromXml(LifecycleXml(rs)) == Some(rs)
  {
    LifecycleExactly(raw, rs);
    LifecycleRoundTrip(raw);
  }

  // ---------- CORS rules ----------

  /** Cleaning a list strips each entry and leaves out those that are blank, in their order. */
  lemma {:induction false} CleanedExactly(xs: seq<string>, ys: seq<string>, x: string)
    ensures Cleaned([]) == [] && Cleaned([x]) == if Strip(x) == "" then [] else [Strip(x)]
    ensures Cleaned(xs + ys) == Cleaned(xs) + Cleaned(ys)
  {
    assert [x][1..] == [];
    if xs == [] {
      assert xs + ys == ys;
    } else {
      assert (xs + ys)[0] == xs[0] && (xs + ys)[1..] == xs[1..] + ys;
      CleanedExactly(xs[1..], ys, x);
    }
  }

  /** The rule is the request's: id as it is, lists cleaned, the age as given; there are a method
      and an origin, and every method is one of the five. */
  ghost predicate CorsHonours(raw: RawCors, r: CorsRule) {
    && r.id == raw.id
    && r.methods == Cleaned(raw.methods) && r.origins == Cleaned(raw.origins)
    && r.headers == Cleaned(raw.headers) && r.expose == Cleaned(raw.expose)
    && TakenOver(raw.maxAge, r.maxAge)
    && |r.methods| > 0 && |r.origins| > 0
    && forall m :: m in r.methods ==> m in {"GET", "PUT", "POST", "DELETE", "HEAD"}
  }

  /** A CORS rule of a request is accepted exactly as the rule that honours it. */
  lemma {:induction false} CorsRuleExactly(raw: RawCors, r: CorsRule)
    ensures CorsRuleOf(raw) == Ok(r) <==> CorsHonours(raw, r)
  {
    OptionalIntExactly(raw.maxAge, r.maxAge);
    UnknownMethod(Cleaned(raw.methods));
  }

  lemma UnknownMethod(methods: seq<string>)
    ensures (exists i :: 0 <= i < |methods| && methods[i] !in CORS_METHODS) <==>
            exists m :: m in methods && m !in {"GET", "PUT", "POST", "DELETE", "HEAD"}
  {
    assert CORS_METHODS == {"GET", "PUT", "POST", "DELETE", "HEAD"};
    if i :| 0 <= i < |methods| && methods[i] !in CORS_METHODS {
      assert methods[i] in methods;
    }
    if m :| m in methods && m !in {"GET", "PUT", "POST", "DELETE", "HEAD"} {
      var i :| 0 <= i < |methods| && methods[i] == m;
    }
  }

  /** It is refused for a missing method or origin, then for an unknown method, then for its age. */
  lemma {:induction false} CorsRuleRefused(raw: RawCors)
    requires CorsRuleOf(raw).Err?
    ensures CorsRuleOf(raw).error ==
            if Cleaned(raw.methods) == [] || Cleaned(raw.origins) == [] then MalformedXML
            else if exists m :: m in Cleaned(raw.methods) && m !in {"GET", "PUT", "POST", "DELETE", "HEAD"} then InvalidRequest
            else InvalidArgument
  {
    UnknownMethod(Cleaned(raw.methods));
  }

  ghost predicate AllCorsHonoured(raw: seq<RawCors>, rs: seq<CorsRule>) {
    |rs| == |raw| && forall i :: 0 <= i < |raw| ==> CorsHonours(raw[i], rs[i])
  }

  /** A CORS request is accepted as the list of rules that honour its rules, one for one. */
  lemma {:induction false} CorsExactly(raw: seq<RawCors>, rs: seq<CorsRule>)
    ensures CorsRules(raw) == Ok(rs) <==> AllCorsHonoured(raw, rs)
  {
    if raw != [] {
      if |rs| == |raw| {
        CorsExactly(raw[1..], rs[1..]);
        CorsRuleExactly(raw[0], rs[0]);
        assert rs == [rs[0]] + rs[1..];
        CorsHonouredCons(raw, rs);
      } else {
        CorsLength(raw);
      }
    }
  }

  lemma CorsHonouredCons(raw: seq<RawCors>, rs: seq<CorsRule>)
    requires |raw| == |rs| > 0
    ensures AllCorsHonoured(raw, rs) <==> CorsHonours(raw[0], rs[0]) && AllCorsHonoured(raw[1..], rs[1..])
  {
    assert forall i :: 0 < i < |raw| ==> raw[i] == raw[1..][i - 1] && rs[i] == rs[1..][i - 1];
  }

  lemma {:induction false} CorsLength(raw: seq<RawCors>)
    ensures CorsRules(raw).Ok? ==> |CorsRules(raw).value| == |raw|
  {
    if raw != [] {
      CorsLength(raw[1..]);
    }
  }

  /** A refused request is refused for its first rule that is. */
  lemma {:induction false} CorsRefused(raw: seq<RawCors>)
    requires CorsRules(raw).Err?
    ensures exists i :: 0 <= i < |raw| && CorsRuleOf(raw[i]) == Err(CorsRules(raw).error)
                        && forall j :: 0 <= j < i ==> CorsRuleOf(raw[j]).Ok?
  {
    if CorsRuleOf(raw[0]).Ok? {
      CorsRefused(raw[1..]);
      var i :| 0 <= i < |raw[1..]| && CorsRuleOf(raw[1..][i]) == Err(CorsRules(raw).error)
               && forall j :: 0 <= j < i ==> CorsRuleOf(raw[1..][j]).Ok?;
      assert raw[i + 1] == raw[1..][i] && forall j :: 0 < j < i + 1 ==> raw[j] == raw[1..][j - 1];
    }
  }

  /** The same from a CORS request to what its document reads as. */
  lemma CorsEndToEnd(raw: seq<RawCors>, rs: seq<CorsRule>)
    requires AllCorsHonoured(raw, rs) && forall i :: 0 <= i < |rs| ==> CorsSurvives(rs[i])
    ensures CorsFromXml(CorsXml(rs)) == Some(rs)
  {
    CorsExactly(raw, rs);
    CorsRoundTrip(raw);
  }
}
