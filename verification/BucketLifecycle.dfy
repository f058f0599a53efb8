/** S3 lifecycle rules: validation, the XML document printed for them, and the reader
    that turns such a document back into rules. */
module BucketLifecycle {
  import opened Common
  import opened XmlText
  import opened XmlTree
  import opened RuleFields

  // ---------- rules and their document ----------

  datatype Transition = Transition(days: int, storageClass: string)

  datatype Rule = Rule(id: string, status: string, prefix: string, expiration: Option<int>, noncurrent: Option<int>,
                       abort: Option<int>, transitions: seq<Transition>)

  datatype RawTransition = RawTransition(days: Num, storageClass: string)

  datatype RawRule = RawRule(id: string, status: string, prefix: string, expiration: Num, noncurrent: Num, abort: Num,
                             transitions: seq<RawTransition>)

  /** The least number of days of each storage class a transition may name. */
  const STORAGE_CLASSES: map<string, nat> := map["STANDARD_IA" := 30, "ONEZONE_IA" := 30, "INTELLIGENT_TIERING" := 0,
                                                 "GLACIER_IR" := 0, "GLACIER" := 0, "DEEP_ARCHIVE" := 0]

  function Transitions(ts: seq<RawTransition>): Result<seq<Transition>> {
    if ts == [] then Ok([])
    else
      match Transitions(ts[..|ts| - 1])
      case Err(e) => Err(e)
      case Ok(before) =>
        var t := ts[|ts| - 1];
        if t.storageClass !in STORAGE_CLASSES then Err(InvalidArgument)
        else
          match PositiveInt(t.days)
          case Err(e) => Err(e)
          case Ok(n) =>
            if n < STORAGE_CLASSES[t.storageClass] then Err(InvalidArgument)
            else Ok(before + [Transition(n, t.storageClass)])
  }

  function LifecycleRule(r: RawRule, i: nat): Result<Rule> {
    var id := if Strip(r.id) == "" then "rule-" + Decimal(i + 1) else Strip(r.id);
    var status := if r.status == "" then "Enabled" else r.status;
    if |id| > 255 then Err(InvalidArgument)
    else if status != "Enabled" && status != "Disabled" then Err(MalformedXML)
    else
      match (OptionalInt(r.expiration), OptionalInt(r.noncurrent), OptionalInt(r.abort), Transitions(r.transitions))
      case (Ok(e), Ok(n), Ok(a), Ok(ts)) =>
        if e.None? && n.None? && a.None? && ts == [] then Err(InvalidRequest)
        else Ok(Rule(id, status, r.prefix, e, n, a, ts))
      case _ => Err(InvalidArgument)
  }

  /** A rule list of an accepted request. */
  function LifecycleRules(rs: seq<RawRule>): Result<seq<Rule>> {
    if rs == [] then Ok([])
    else
      match LifecycleRules(rs[..|rs| - 1])
      case Err(e) => Err(e)
      case Ok(before) =>
        match LifecycleRule(rs[|rs| - 1], |rs| - 1)
        case Err(e) => Err(e)
        case Ok(r) => Ok(before + [r])
  }

  function TransitionXml(t: Transition): Xml {
    Elem("Transition", "", [Leaf("Days", IntText(t.days)), Leaf("StorageClass", t.storageClass)])
  }

  function TransitionsXml(ts: seq<Transition>): seq<Xml> {
    if ts == [] then [] else TransitionsXml(ts[..|ts| - 1]) + [TransitionXml(ts[|ts| - 1])]
  }

  function ActionXml(tag: string, inner: string, n: Option<int>): seq<Xml> {
    if n.None? then [] else [Elem(tag, "", [Leaf(inner, IntText(n.value))])]
  }

  /** The three children every rule element starts with. */
  function Head(id: string, prefix: string, status: string): seq<Xml> {
    [Leaf("ID", id)] + ([Elem("Filter", "", [Leaf("Prefix", prefix)])] + [Leaf("Status", status)])
  }

  /** The actions of a rule, in the order they are printed. */
  function Actions(r: Rule): seq<Xml> {
    TransitionsXml(r.transitions)
    + (ActionXml("Expiration", "Days", r.expiration)
       + (ActionXml("NoncurrentVersionExpiration", "NoncurrentDays", r.noncurrent)
          + ActionXml("AbortIncompleteMultipartUpload", "DaysAfterInitiation", r.abort)))
  }

  /** The element of a rule, given its id and prefix as they stand in the document. */
  function RuleElem(r: Rule, id: string, prefix: string): Xml {
    Elem("Rule", "", Head(id, prefix, r.status) + Actions(r))
  }

  function RulesXml(rs: seq<Rule>): seq<Xml> {
    if rs == [] then [] else [RuleElem(rs[0], Escaped(rs[0].id), Escaped(rs[0].prefix))] + RulesXml(rs[1..])
  }

  function LifecycleXml(rs: seq<Rule>): Xml {
    Elem("LifecycleConfiguration", "", RulesXml(rs))
  }

  // ---------- reading a document ----------

  /** What one child element contributes to the rule read so far; `None` is a number that does not read. */
  function ReadChild(c: Xml, o: Rule): Option<Rule> {
    if c.tag == "Expiration" && TextOf(c, "Days") != "" then
      var n := ReadInt(TextOf(c, "Days"));
      if n.None? then None else Some(o.(expiration := n))
    else if c.tag == "NoncurrentVersionExpiration" && TextOf(c, "NoncurrentDays") != "" then
      var n := ReadInt(TextOf(c, "NoncurrentDays"));
      if n.None? then None else Some(o.(noncurrent := n))
    else if c.tag == "AbortIncompleteMultipartUpload" && TextOf(c, "DaysAfterInitiation") != "" then
      var n := ReadInt(TextOf(c, "DaysAfterInitiation"));
      if n.None? then None else Some(o.(abort := n))
    else if c.tag == "Transition" && TextOf(c, "Days") != "" then
      var n := ReadInt(TextOf(c, "Days"));
      if n.None? then None else Some(o.(transitions := o.transitions + [Transition(n.value, TextOf(c, "StorageClass"))]))
    else Some(o)
  }

  function ReadChildren(cs: seq<Xml>, o: Rule): Option<Rule> {
    if cs == [] then Some(o)
    else
      match ReadChild(cs[0], o)
      case None => None
      case Some(p) => ReadChildren(cs[1..], p)
  }

  function ReadRule(x: Xml): Option<Rule> {
    var status := TextOf(x, "Status");
    ReadChildren(x.children, Rule(TextOf(x, "ID"), if status == "" then "Enabled" else status, TextOf(x, "Prefix"), None, None, None, []))
  }

  function ReadRules(xs: seq<Xml>): Option<seq<Rule>> {
    if xs == [] then Some([])
    else if xs[0].tag != "Rule" then ReadRules(xs[1..])
    else
      match (ReadRule(xs[0]), ReadRules(xs[1..]))
      case (Some(r), Some(rest)) => Some([r] + rest)
      case _ => None
  }

  /** The rules of a document; one that does not parse has none. */
  function LifecycleFromXml(doc: Xml): Option<seq<Rule>> {
    match Decode(doc)
    case None => Some([])
    case Some(root) => ReadRules(root.children)
  }

  // ---------- decoding what was printed ----------

  lemma DecodeAction(tag: string, inner: string, n: Option<int>)
    ensures DecodeAll(ActionXml(tag, inner, n)) == Some(ActionXml(tag, inner, n))
  {
    if n.Some? {
      IntReads(n.value);
      DecodeWrapped(tag, inner, IntText(n.value));
    }
  }

  predicate ValidTransition(t: Transition) {
    t.storageClass in STORAGE_CLASSES
  }

  lemma StorageClassesPlain(s: string)
    requires s in STORAGE_CLASSES
    ensures Plain(s) && s != ""
  {
  }

  lemma DecodeTransition(t: Transition)
    requires ValidTransition(t)
    ensures Decode(TransitionXml(t)) == Some(TransitionXml(t))
  {
    IntReads(t.days);
    StorageClassesPlain(t.storageClass);
    var a, b := [Leaf("Days", IntText(t.days))], [Leaf("StorageClass", t.storageClass)];
    DecodePlainLeaf("Days", IntText(t.days));
    DecodePlainLeaf("StorageClass", t.storageClass);
    DecodeConcat(a, b);
    assert a + b == TransitionXml(t).children;
  }

  lemma {:induction false} DecodeTransitions(ts: seq<Transition>)
    requires forall i :: 0 <= i < |ts| ==> ValidTransition(ts[i])
    ensures DecodeAll(TransitionsXml(ts)) == Some(TransitionsXml(ts))
  {
    if ts != [] {
      var n := |ts| - 1;
      DecodeTransitions(ts[..n]);
      DecodeTransition(ts[n]);
      DecodeOne(TransitionXml(ts[n]));
      DecodeConcat(TransitionsXml(ts[..n]), [TransitionXml(ts[n])]);
    }
  }

  lemma DecodeActions(r: Rule)
    requires forall i :: 0 <= i < |r.transitions| ==> ValidTransition(r.transitions[i])
    ensures DecodeAll(Actions(r)) == Some(Actions(r))
  {
    var e := ActionXml("Expiration", "Days", r.expiration);
    var n := ActionXml("NoncurrentVersionExpiration", "NoncurrentDays", r.noncurrent);
    var a := ActionXml("AbortIncompleteMultipartUpload", "DaysAfterInitiation", r.abort);
    DecodeTransitions(r.transitions);
    DecodeAction("Expiration", "Days", r.expiration);
    DecodeAction("NoncurrentVersionExpiration", "NoncurrentDays", r.noncurrent);
    DecodeAction("AbortIncompleteMultipartUpload", "DaysAfterInitiation", r.abort);
    DecodeConcat(n, a);
    DecodeConcat(e, n + a);
    DecodeConcat(TransitionsXml(r.transitions), e + (n + a));
  }

  /** A rule as validation leaves it. */
  predicate Accepted(r: Rule) {
    && r.id != "" && Trimmed(r.id) && (r.status == "Enabled" || r.status == "Disabled")
    && forall i :: 0 <= i < |r.transitions| ==> ValidTransition(r.transitions[i])
  }

  lemma DecodeFilter(prefix: string)
    ensures DecodeAll([Elem("Filter", "", [Leaf("Prefix", Escaped(prefix))])])
            == if Legal(prefix) then Some([Elem("Filter", "", [Leaf("Prefix", Normalise(prefix))])]) else None
  {
    var leaf := Leaf("Prefix", Escaped(prefix));
    DecodeEscaped("Prefix", prefix);
    DecodeOne(leaf);
    DecodeOne(Elem("Filter", "", [leaf]));
  }

  lemma StatusPlain(status: string)
    requires status == "Enabled" || status == "Disabled"
    ensures Plain(status) && status != ""
  {
  }

  lemma DecodeHead(id: string, prefix: string, status: string)
    requires Plain(status)
    ensures DecodeAll(Head(Escaped(id), Escaped(prefix), status))
            == if Legal(id) && Legal(prefix) then Some(Head(Normalise(id), Normalise(prefix), status)) else None
  {
    DecodeId(id);
    DecodeFilter(prefix);
    DecodePlainLeaf("Status", status);
    DecodeThree([Leaf("ID", Escaped(id))], [Elem("Filter", "", [Leaf("Prefix", Escaped(prefix))])], [Leaf("Status", status)]);
  }

  lemma DecodeRule(r: Rule)
    requires Accepted(r)
    ensures Decode(RuleElem(r, Escaped(r.id), Escaped(r.prefix))) ==
            if Legal(r.id) && Legal(r.prefix) then Some(RuleElem(r, Normalise(r.id), Normalise(r.prefix))) else None
  {
    StatusPlain(r.status);
    DecodeHead(r.id, r.prefix, r.status);
    DecodeActions(r);
    DecodeConcat(Head(Escaped(r.id), Escaped(r.prefix), r.status), Actions(r));
  }

  // ---------- reading what was decoded ----------

  lemma ReadTransition(t: Transition, o: Rule)
    requires ValidTransition(t)
    ensures ReadChild(TransitionXml(t), o) == Some(o.(transitions := o.transitions + [t]))
  {
    IntReads(t.days);
    StorageClassesPlain(t.storageClass);
    PlainParses(IntText(t.days));
    PlainParses(t.storageClass);
    var days, storage := Leaf("Days", IntText(t.days)), Leaf("StorageClass", t.storageClass);
    assert TransitionXml(t).children == [days] + [storage];
    FindInLeaf("Days", days.text, "Days");
    FindInLeaf("Days", days.text, "StorageClass");
    FindInLeaf("StorageClass", storage.text, "StorageClass");
    FindInConcat([days], [storage], "Days");
    FindInConcat([days], [storage], "StorageClass");
  }

  lemma {:induction false} ReadChildrenConcat(xs: seq<Xml>, ys: seq<Xml>, o: Rule)
    ensures ReadChildren(xs + ys, o) ==
            match ReadChildren(xs, o) case None => None case Some(p) => ReadChildren(ys, p)
  {
    if xs == [] {
      assert xs + ys == ys;
    } else {
      assert (xs + ys)[1..] == xs[1..] + ys;
      if ReadChild(xs[0], o).Some? {
        ReadChildrenConcat(xs[1..], ys, ReadChild(xs[0], o).value);
      }
    }
  }

  lemma ReadChildrenOne(x: Xml, o: Rule)
    ensures ReadChildren([x], o) == ReadChild(x, o)
  {
    assert [x][1..] == [];
  }

  lemma ReadTransitionSnoc(before: seq<Transition>, t: Transition, o: Rule)
    requires ValidTransition(t) && ReadChildren(TransitionsXml(before), o) == Some(o.(transitions := o.transitions + before))
    ensures ReadChildren(TransitionsXml(before) + [TransitionXml(t)], o) == Some(o.(transitions := o.transitions + (before + [t])))
  {
    var p := o.(transitions := o.transitions + before);
    ReadTransition(t, p);
    ReadChildrenOne(TransitionXml(t), p);
    ReadChildrenConcat(TransitionsXml(before), [TransitionXml(t)], o);
    assert p.transitions + [t] == o.transitions + (before + [t]);
  }

  lemma {:induction false} ReadTransitions(ts: seq<Transition>, o: Rule)
    requires forall i :: 0 <= i < |ts| ==> ValidTransition(ts[i])
    ensures ReadChildren(TransitionsXml(ts), o) == Some(o.(transitions := o.transitions + ts))
  {
    if ts == [] {
      assert o.transitions + [] == o.transitions;
    } else {
      var n := |ts| - 1;
      ReadTransitions(ts[..n], o);
      assert ts[..n] + [ts[n]] == ts;
      ReadTransitionSnoc(ts[..n], ts[n], o);
    }
  }

  lemma ReadExpiration(n: Option<int>, o: Rule)
    requires o.expiration.None?
    ensures ReadChildren(ActionXml("Expiration", "Days", n), o) == Some(o.(expiration := n))
  {
    if n.Some? {
      IntReads(n.value);
      TextOfWrapped("Expiration", "Days", IntText(n.value));
      ReadChildrenOne(ActionXml("Expiration", "Days", n)[0], o);
    }
  }

  lemma {:induction false} ReadNoncurrent(n: Option<int>, o: Rule)
    requires o.noncurrent.None?
    ensures ReadChildren(ActionXml("NoncurrentVersionExpiration", "NoncurrentDays", n), o) == Some(o.(noncurrent := n))
  {
    if n.Some? {
      IntReads(n.value);
      TextOfWrapped("NoncurrentVersionExpiration", "NoncurrentDays", IntText(n.value));
      ReadChildrenOne(ActionXml("NoncurrentVersionExpiration", "NoncurrentDays", n)[0], o);
    }
  }

  lemma ReadAbort(n: Option<int>, o: Rule)
    requires o.abort.None?
    ensures ReadChildren(ActionXml("AbortIncompleteMultipartUpload", "DaysAfterInitiation", n), o) == Some(o.(abort := n))
  {
    if n.Some? {
      IntReads(n.value);
      TextOfWrapped("AbortIncompleteMultipartUpload", "DaysAfterInitiation", IntText(n.value));
      ReadChildrenOne(ActionXml("AbortIncompleteMultipartUpload", "DaysAfterInitiation", n)[0], o);
    }
  }

  lemma ReadActions(r: Rule, o: Rule)
    requires forall i :: 0 <= i < |r.transitions| ==> ValidTransition(r.transitions[i])
    requires o.expiration.None? && o.noncurrent.None? && o.abort.None? && o.transitions == []
    ensures ReadChildren(Actions(r), o) ==
            Some(o.(transitions := r.transitions, expiration := r.expiration, noncurrent := r.noncurrent, abort := r.abort))
  {
    var e := ActionXml("Expiration", "Days", r.expiration);
    var n := ActionXml("NoncurrentVersionExpiration", "NoncurrentDays", r.noncurrent);
    var a := ActionXml("AbortIncompleteMultipartUpload", "DaysAfterInitiation", r.abort);
    ReadTransitions(r.transitions, o);
    assert o.transitions + r.transitions == r.transitions;
    var p := o.(transitions := r.transitions);
    ReadChildrenConcat(TransitionsXml(r.transitions), e + (n + a), o);
    ReadExpiration(r.expiration, p);
    ReadChildrenConcat(e, n + a, p);
    ReadNoncurrent(r.noncurrent, p.(expiration := r.expiration));
    ReadChildrenConcat(n, a, p.(expiration := r.expiration));
    ReadAbort(r.abort, p.(expiration := r.expiration, noncurrent := r.noncurrent));
  }

  lemma FindInFilter(prefix: string, want: string)
    ensures FindIn([Elem("Filter", "", [Leaf("Prefix", prefix)])], want)
            == if want == "Filter" then Some(Elem("Filter", "", [Leaf("Prefix", prefix)]))
               else if want == "Prefix" then Some(Leaf("Prefix", prefix)) else None
  {
    FindInLeaf("Prefix", prefix, want);
    assert [Elem("Filter", "", [Leaf("Prefix", prefix)])][1..] == [];
  }

  /** What is looked up in a rule element is found among its three leading children, whatever follows them. */
  lemma FindInHeadOf(id: string, prefix: string, status: string, rest: seq<Xml>)
    ensures FindIn(Head(id, prefix, status) + rest, "ID") == Some(Leaf("ID", id))
    ensures FindIn(Head(id, prefix, status) + rest, "Prefix") == Some(Leaf("Prefix", prefix))
    ensures FindIn(Head(id, prefix, status) + rest, "Status") == Some(Leaf("Status", status))
  {
    FindFirst(id, prefix, status, "ID");
    FindFirst(id, prefix, status, "Prefix");
    FindFirst(id, prefix, status, "Status");
    FindInConcat(Head(id, prefix, status), rest, "ID");
    FindInConcat(Head(id, prefix, status), rest, "Prefix");
    FindInConcat(Head(id, prefix, status), rest, "Status");
  }

  lemma FindFirst(id: string, prefix: string, status: string, want: string)
    ensures FindIn(Head(id, prefix, status), want)
            == if want == "ID" then Some(Leaf("ID", id))
               else if want == "Filter" then Some(Elem("Filter", "", [Leaf("Prefix", prefix)]))
               else if want == "Prefix" then Some(Leaf("Prefix", prefix))
               else if want == "Status" then Some(Leaf("Status", status)) else None
  {
    var i, f, s := [Leaf("ID", id)], [Elem("Filter", "", [Leaf("Prefix", prefix)])], [Leaf("Status", status)];
    FindInLeaf("ID", id, want);
    FindInFilter(prefix, want);
    FindInLeaf("Status", status, want);
    FindInConcat(f, s, want);
    FindInConcat(i, f + s, want);
  }

  /** The three leading children contribute no action. */
  lemma ReadHead(id: string, prefix: string, status: string, rest: seq<Xml>, o: Rule)
    ensures ReadChildren(Head(id, prefix, status) + rest, o) == ReadChildren(rest, o)
  {
    var i, f, s := Leaf("ID", id), Elem("Filter", "", [Leaf("Prefix", prefix)]), Leaf("Status", status);
    ReadChildrenOne(i, o);
    ReadChildrenOne(f, o);
    ReadChildrenOne(s, o);
    ReadChildrenConcat([f], [s], o);
    ReadChildrenConcat([i], [f] + [s], o);
    ReadChildrenConcat(Head(id, prefix, status), rest, o);
  }

  /** One rule read back: the same, with id and prefix normalised and stripped. */
  lemma ReadBackRule(r: Rule, id: string, prefix: string)
    requires Accepted(r)
    ensures ReadRule(RuleElem(r, id, prefix)) == Some(r.(id := Strip(id), prefix := Strip(prefix)))
  {
    var o := Rule(Strip(id), r.status, Strip(prefix), None, None, None, []);
    FindInHeadOf(id, prefix, r.status, Actions(r));
    PlainParses(r.status);
    ReadHead(id, prefix, r.status, Actions(r), o);
    ReadActions(r, o);
  }

  // ---------- the round trip ----------

  predicate RuleLegal(r: Rule) {
    Legal(r.id) && Legal(r.prefix)
  }

  predicate RuleSurvives(r: Rule) {
    Survives(r.id) && Survives(r.prefix)
  }

  function ReadBack(r: Rule): Rule {
    r.(id := Strip(Normalise(r.id)), prefix := Strip(Normalise(r.prefix)))
  }

  function ReadBackAll(rs: seq<Rule>): seq<Rule> {
    if rs == [] then [] else [ReadBack(rs[0])] + ReadBackAll(rs[1..])
  }

  /** A document of rules made of XML characters parses, and reads as the rules normalised and stripped. */
  lemma {:induction false} DecodeRules(rs: seq<Rule>)
    requires forall i :: 0 <= i < |rs| ==> Accepted(rs[i]) && RuleLegal(rs[i])
    ensures DecodeAll(RulesXml(rs)).Some? && ReadRules(DecodeAll(RulesXml(rs)).value) == Some(ReadBackAll(rs))
  {
    if rs != [] {
      var r, tail := rs[0], rs[1..];
      DecodeRules(tail);
      DecodeRule(r);
      DecodeCons(RuleElem(r, Escaped(r.id), Escaped(r.prefix)), RulesXml(tail));
      ReadBackRule(r, Normalise(r.id), Normalise(r.prefix));
      var y, ys := RuleElem(r, Normalise(r.id), Normalise(r.prefix)), DecodeAll(RulesXml(tail)).value;
      assert ([y] + ys)[1..] == ys && y.tag == "Rule";
    }
  }

  /** One character no document may hold spoils the whole document. */
  lemma {:induction false} IllegalSpoils(rs: seq<Rule>, i: nat)
    requires i < |rs| && Accepted(rs[i]) && !RuleLegal(rs[i])
    ensures DecodeAll(RulesXml(rs)).None?
  {
    var r, tail := rs[0], rs[1..];
    DecodeCons(RuleElem(r, Escaped(r.id), Escaped(r.prefix)), RulesXml(tail));
    if i == 0 {
      DecodeRule(r);
    } else {
      IllegalSpoils(tail, i - 1);
    }
  }

  lemma {:induction false} ReadBackAllSame(rs: seq<Rule>)
    requires forall i :: 0 <= i < |rs| ==> RuleLegal(rs[i])
    ensures ReadBackAll(rs) == rs <==> forall i :: 0 <= i < |rs| ==> RuleSurvives(rs[i])
  {
    if rs != [] {
      var tail := rs[1..];
      assert forall i :: 0 <= i < |tail| ==> tail[i] == rs[i + 1];
      ReadBackAllSame(tail);
      TripExactly(rs[0].id);
      TripExactly(rs[0].prefix);
      assert ReadBackAll(rs)[0] == ReadBack(rs[0]) && ReadBackAll(rs)[1..] == ReadBackAll(tail);
      if forall i :: 0 <= i < |tail| ==> RuleSurvives(tail[i]) {
        if RuleSurvives(rs[0]) {
          assert rs == [rs[0]] + tail;
          forall i | 0 <= i < |rs|
            ensures RuleSurvives(rs[i])
          {
            if i > 0 {
              assert tail[i - 1] == rs[i];
            }
          }
        }
      } else {
        var i :| 0 <= i < |tail| && !RuleSurvives(tail[i]);
        assert !RuleSurvives(rs[i + 1]);
      }
    }
  }

  lemma {:induction false} LifecycleRulesAccepted(raw: seq<RawRule>)
    requires LifecycleRules(raw).Ok?
    ensures forall i :: 0 <= i < |LifecycleRules(raw).value| ==> Accepted(LifecycleRules(raw).value[i])
  {
    if raw != [] {
      var n := |raw| - 1;
      LifecycleRulesAccepted(raw[..n]);
      LifecycleRuleAccepted(raw[n], n);
    }
  }

  lemma {:induction false} TransitionsValid(ts: seq<RawTransition>)
    requires Transitions(ts).Ok?
    ensures forall i :: 0 <= i < |Transitions(ts).value| ==> ValidTransition(Transitions(ts).value[i])
  {
    if ts != [] {
      TransitionsValid(ts[..|ts| - 1]);
    }
  }

  lemma LifecycleRuleAccepted(raw: RawRule, i: nat)
    requires LifecycleRule(raw, i).Ok?
    ensures Accepted(LifecycleRule(raw, i).value)
  {
    StripMeaning(raw.id);
    TransitionsValid(raw.transitions);
    GivenIdTrimmed(i);
  }

  lemma GivenIdTrimmed(i: nat)
    ensures Trimmed("rule-" + Decimal(i + 1))
  {
    DecimalReads(i + 1);
    var d := Decimal(i + 1);
    var id := "rule-" + d;
    assert id[0] == 'r' && id[|id| - 1] == d[|d| - 1] && PlainChar(d[|d| - 1]);
  }

  lemma LifecycleListTrip(rs: seq<Rule>)
    requires forall i :: 0 <= i < |rs| ==> Accepted(rs[i])
    ensures LifecycleFromXml(LifecycleXml(rs)) == Some(rs) <==> forall i :: 0 <= i < |rs| ==> RuleSurvives(rs[i])
  {
    if i :| 0 <= i < |rs| && !RuleLegal(rs[i]) {
      IllegalSpoils(rs, i);
      assert !RuleSurvives(rs[i]);
    } else {
      DecodeRules(rs);
      ReadBackAllSame(rs);
    }
  }

  /** Every accepted lifecycle rule list comes back from its document as it was, exactly
      when each id and prefix is made of XML characters without carriage returns and
      without white space at its ends. */
  lemma {:induction false} LifecycleRoundTrip(raw: seq<RawRule>)
    requires LifecycleRules(raw).Ok?
    ensures var rs := LifecycleRules(raw).value;
            LifecycleFromXml(LifecycleXml(rs)) == Some(rs) <==> forall i :: 0 <= i < |rs| ==> RuleSurvives(rs[i])
  {
    LifecycleRulesAccepted(raw);
    LifecycleListTrip(LifecycleRules(raw).value);
  }

  // ---------- the loops ----------

  /** Validating a rule's transitions, one after another. */
  method CheckTransitions(ts: seq<RawTransition>) returns (r: Result<seq<Transition>>)
    ensures r == Transitions(ts)
  {
    var checked: seq<Transition> := [];
    var i := 0;
    while i < |ts|
      invariant 0 <= i <= |ts|
      invariant Transitions(ts[..i]) == Ok(checked)
    {
      var t := ts[i];
      assert ts[..i + 1][..i] == ts[..i];
      var days := PositiveInt(t.days);
      if t.storageClass !in STORAGE_CLASSES || days.Err? || days.value < STORAGE_CLASSES[t.storageClass] {
        TransitionsFail(ts, i + 1);
        return Err(InvalidArgument);
      }
      checked := checked + [Transition(days.value, t.storageClass)];
      i := i + 1;
    }
    assert ts[..i] == ts;
    return Ok(checked);
  }

  lemma {:induction false} TransitionsFail(ts: seq<RawTransition>, i: nat)
    requires i <= |ts| && Transitions(ts[..i]) == Err(InvalidArgument)
    ensures Transitions(ts) == Err(InvalidArgument)
  {
    if i < |ts| {
      var front := ts[..|ts| - 1];
      assert front[..i] == ts[..i];
      TransitionsFail(front, i);
    } else {
      assert ts[..i] == ts;
    }
  }

  /** Printing a lifecycle configuration, one rule and one transition at a time. */
  method PrintLifecycle(rs: seq<Rule>) returns (doc: Xml)
    ensures doc == LifecycleXml(rs)
  {
    var parts: seq<Xml> := [];
    var i := 0;
    assert rs[0..] == rs;
    while i < |rs|
      invariant 0 <= i <= |rs|
      invariant RulesXml(rs) == parts + RulesXml(rs[i..])
    {
      var r := rs[i];
      var x := PrintRule(r);
      assert rs[i..][1..] == rs[i + 1..];
      Shift(parts, x, RulesXml(rs[i + 1..]));
      parts := parts + [x];
      i := i + 1;
    }
    assert parts + [] == parts;
    doc := Elem("LifecycleConfiguration", "", parts);
  }

  method PrintRule(r: Rule) returns (x: Xml)
    ensures x == RuleElem(r, Escaped(r.id), Escaped(r.prefix))
  {
    var h := Head(Escaped(r.id), Escaped(r.prefix), r.status);
    var t := PrintTransitions(h, r.transitions);
    var e := ActionXml("Expiration", "Days", r.expiration);
    var n := ActionXml("NoncurrentVersionExpiration", "NoncurrentDays", r.noncurrent);
    var a := ActionXml("AbortIncompleteMultipartUpload", "DaysAfterInitiation", r.abort);
    Regroup(h, TransitionsXml(r.transitions), e, n, a);
    x := Elem("Rule", "", t + e + n + a);
  }

  /** The printed transitions of a rule behind what is printed already. */
  method PrintTransitions(head: seq<Xml>, ts: seq<Transition>) returns (xs: seq<Xml>)
    ensures xs == head + TransitionsXml(ts)
  {
    xs := head;
    var i := 0;
    while i < |ts|
      invariant 0 <= i <= |ts|
      invariant xs == head + TransitionsXml(ts[..i])
    {
      assert ts[..i + 1][..i] == ts[..i];
      xs := xs + [TransitionXml(ts[i])];
      i := i + 1;
    }
    assert ts[..i] == ts;
  }

  lemma Regroup(h: seq<Xml>, t: seq<Xml>, e: seq<Xml>, n: seq<Xml>, a: seq<Xml>)
    ensures h + t + e + n + a == h + (t + (e + (n + a)))
  {
  }

  /** Reading a lifecycle configuration: a loop over the rules, and in it one over a rule's children. */
  method ReadLifecycle(doc: Xml) returns (out: Option<seq<Rule>>)
    ensures out == LifecycleFromXml(doc)
  {
    var root := Decode(doc);
    if root.None? {
      return Some([]);
    }
    var xs := root.value.children;
    var rules: seq<Rule> := [];
    var i := 0;
    assert xs[0..] == xs;
    PrependNone(ReadRules(xs));
    while i < |xs|
      invariant 0 <= i <= |xs|
      invariant Prepend(rules, ReadRules(xs[i..])) == ReadRules(xs)
    {
      assert xs[i..][0] == xs[i] && xs[i..][1..] == xs[i + 1..];
      if xs[i].tag == "Rule" {
        var r := ReadOneRule(xs[i]);
        if r.None? {
          return None;
        }
        PrependStep(rules, r.value, ReadRules(xs[i + 1..]));
        rules := rules + [r.value];
      }
      i := i + 1;
    }
    assert rules + [] == rules;
    return Some(rules);
  }

  method ReadOneRule(x: Xml) returns (r: Option<Rule>)
    ensures r == ReadRule(x)
  {
    var status := TextOf(x, "Status");
    var o := Rule(TextOf(x, "ID"), if status == "" then "Enabled" else status, TextOf(x, "Prefix"), None, None, None, []);
    var j := 0;
    while j < |x.children|
      invariant 0 <= j <= |x.children|
      invariant ReadRule(x) == ReadChildren(x.children[j..], o)
    {
      assert x.children[j..][0] == x.children[j] && x.children[j..][1..] == x.children[j + 1..];
      var p := ReadChild(x.children[j], o);
      if p.None? {
        return None;
      }
      o := p.value;
      j := j + 1;
    }
    return Some(o);
  }
}
