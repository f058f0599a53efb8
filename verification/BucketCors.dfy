/** S3 CORS rules: validation, the XML document printed for them, and the reader that
    turns such a document back into rules. */
module BucketCors {
  import opened Common
  import opened XmlText
  import opened XmlTree
  import opened RuleFields

  // ---------- rules and their document ----------

  datatype CorsRule = CorsRule(id: string, methods: seq<string>, origins: seq<string>, headers: seq<string>,
                               expose: seq<string>, maxAge: Option<int>)

  /** A request's rule; its methods are upper-cased already. */
  datatype RawCors = RawCors(id: string, methods: seq<string>, origins: seq<string>, headers: seq<string>, expose: seq<string>, maxAge: Num)

  const CORS_METHODS: set<string> := {"GET", "PUT", "POST", "DELETE", "HEAD"}

  /** The stripped entries that are not empty. */
  function Cleaned(xs: seq<string>): seq<string> {
    if xs == [] then []
    else (if Strip(xs[0]) == "" then [] else [Strip(xs[0])]) + Cleaned(xs[1..])
  }

  function CorsRuleOf(r: RawCors): Result<CorsRule> {
    var methods, origins := Cleaned(r.methods), Cleaned(r.origins);
    if methods == [] || origins == [] then Err(MalformedXML)
    else if exists i :: 0 <= i < |methods| && methods[i] !in CORS_METHODS then Err(InvalidRequest)
    else
      match OptionalInt(r.maxAge)
      case Err(e) => Err(e)
      case Ok(age) => Ok(CorsRule(r.id, methods, origins, Cleaned(r.headers), Cleaned(r.expose), age))
  }

  function CorsRules(rs: seq<RawCors>): Result<seq<CorsRule>> {
    if rs == [] then Ok([])
    else
      match (CorsRuleOf(rs[0]), CorsRules(rs[1..]))
      case (Ok(r), Ok(rest)) => Ok([r] + rest)
      case (Err(e), _) => Err(e)
      case (_, Err(e)) => Err(e)
  }

  function Leaves(tag: string, texts: seq<string>): seq<Xml> {
    if texts == [] then [] else [Leaf(tag, texts[0])] + Leaves(tag, texts[1..])
  }

  function EscapedEach(texts: seq<string>): seq<string> {
    if texts == [] then [] else [Escaped(texts[0])] + EscapedEach(texts[1..])
  }

  function AgeXml(age: Option<int>): seq<Xml> {
    if age.None? then [] else [Leaf("MaxAgeSeconds", IntText(age.value))]
  }

  function CorsElem(id: string, methods: seq<string>, origins: seq<string>, headers: seq<string>, expose: seq<string>, age: Option<int>): Xml {
    Elem("CORSRule", "",
         (if id == "" then [] else [Leaf("ID", id)])
         + (Leaves("AllowedMethod", methods)
            + (Leaves("AllowedOrigin", origins)
               + (Leaves("AllowedHeader", headers)
                  + (Leaves("ExposeHeader", expose) + AgeXml(age))))))
  }

  function PrintedCors(r: CorsRule): Xml {
    CorsElem(Escaped(r.id), r.methods, EscapedEach(r.origins), EscapedEach(r.headers), EscapedEach(r.expose), r.maxAge)
  }

  function CorsElems(rs: seq<CorsRule>): seq<Xml> {
    if rs == [] then [] else [PrintedCors(rs[0])] + CorsElems(rs[1..])
  }

  function CorsXml(rs: seq<CorsRule>): Xml {
    Elem("CORSConfiguration", "", CorsElems(rs))
  }

  // ---------- reading a document ----------

  /** The stripped texts of the direct children with this tag. */
  function TextsOf(cs: seq<Xml>, tag: string): seq<string> {
    if cs == [] then []
    else (if cs[0].tag == tag then [Strip(cs[0].text)] else []) + TextsOf(cs[1..], tag)
  }

  function ReadCors(x: Xml): Option<CorsRule> {
    var age := TextOf(x, "MaxAgeSeconds");
    var cs := x.children;
    if age != "" && ReadInt(age).None? then None
    else Some(CorsRule(TextOf(x, "ID"), TextsOf(cs, "AllowedMethod"), TextsOf(cs, "AllowedOrigin"), TextsOf(cs, "AllowedHeader"),
                       TextsOf(cs, "ExposeHeader"), if age == "" then None else ReadInt(age)))
  }

  function ReadCorsRules(xs: seq<Xml>): Option<seq<CorsRule>> {
    if xs == [] then Some([])
    else if xs[0].tag != "CORSRule" then ReadCorsRules(xs[1..])
    else
      match (ReadCors(xs[0]), ReadCorsRules(xs[1..]))
      case (Some(r), Some(rest)) => Some([r] + rest)
      case _ => None
  }

  function CorsFromXml(doc: Xml): Option<seq<CorsRule>> {
    match Decode(doc)
    case None => Some([])
    case Some(root) => ReadCorsRules(root.children)
  }

  // ---------- decoding what was printed ----------

  lemma {:induction false} DecodeLeaves(tag: string, texts: seq<string>)
    ensures DecodeAll(Leaves(tag, EscapedEach(texts))) ==
            if forall i :: 0 <= i < |texts| ==> Legal(texts[i]) then Some(Leaves(tag, NormaliseEach(texts))) else None
  {
    if texts != [] {
      var tail := texts[1..];
      DecodeLeaves(tag, tail);
      DecodeEscaped(tag, texts[0]);
      assert EscapedEach(texts)[1..] == EscapedEach(tail) && Leaves(tag, EscapedEach(texts))[1..] == Leaves(tag, EscapedEach(tail));
      assert forall i :: 0 <= i < |tail| ==> tail[i] == texts[i + 1];
      if forall i :: 0 <= i < |tail| ==> Legal(tail[i]) {
        if Legal(texts[0]) {
          forall i | 0 <= i < |texts|
            ensures Legal(texts[i])
          {
            assert i > 0 ==> tail[i - 1] == texts[i];
          }
          assert NormaliseEach(texts)[1..] == NormaliseEach(tail);
        }
      } else {
        var i :| 0 <= i < |tail| && !Legal(tail[i]);
        assert !Legal(texts[i + 1]);
      }
    }
  }

  function NormaliseEach(texts: seq<string>): seq<string> {
    if texts == [] then [] else [Normalise(texts[0])] + NormaliseEach(texts[1..])
  }

  lemma {:induction false} DecodePlainLeaves(tag: string, texts: seq<string>)
    requires forall i :: 0 <= i < |texts| ==> Plain(texts[i])
    ensures DecodeAll(Leaves(tag, texts)) == Some(Leaves(tag, texts))
  {
    if texts != [] {
      DecodePlainLeaves(tag, texts[1..]);
      PlainParses(texts[0]);
      DecodeLeaf(tag, texts[0]);
      assert Leaves(tag, texts)[1..] == Leaves(tag, texts[1..]);
    }
  }

  /** A CORS rule as validation leaves it. */
  predicate CorsAccepted(r: CorsRule) {
    && (forall i :: 0 <= i < |r.methods| ==> r.methods[i] in CORS_METHODS)
    && AllTrimmed(r.origins) && AllTrimmed(r.headers) && AllTrimmed(r.expose)
  }

  predicate AllTrimmed(texts: seq<string>) {
    forall i :: 0 <= i < |texts| ==> Trimmed(texts[i])
  }

  predicate AllLegal(texts: seq<string>) {
    forall i :: 0 <= i < |texts| ==> Legal(texts[i])
  }

  predicate AllSurvive(texts: seq<string>) {
    forall i :: 0 <= i < |texts| ==> Survives(texts[i])
  }

  predicate CorsLegal(r: CorsRule) {
    Legal(r.id) && AllLegal(r.origins) && AllLegal(r.headers) && AllLegal(r.expose)
  }

  predicate CorsSurvives(r: CorsRule) {
    Survives(r.id) && AllSurvive(r.origins) && AllSurvive(r.headers) && AllSurvive(r.expose)
  }

  lemma MethodsPlain(m: string)
    requires m in CORS_METHODS
    ensures Plain(m) && Strip(m) == m
  {
    PlainParses(m);
  }

  lemma {:induction false} DecodeAge(age: Option<int>)
    ensures DecodeAll(AgeXml(age)) == Some(AgeXml(age))
  {
    if age.Some? {
      IntReads(age.value);
      DecodePlainLeaf("MaxAgeSeconds", IntText(age.value));
    }
  }

  function CorsTail(methods: seq<string>, origins: seq<string>, headers: seq<string>, expose: seq<string>, age: Option<int>): seq<Xml> {
    Leaves("AllowedMethod", methods)
    + (Leaves("AllowedOrigin", origins) + (Leaves("AllowedHeader", headers) + (Leaves("ExposeHeader", expose) + AgeXml(age))))
  }

  lemma DecodeCorsTail(r: CorsRule)
    requires CorsAccepted(r)
    ensures DecodeAll(CorsTail(r.methods, EscapedEach(r.origins), EscapedEach(r.headers), EscapedEach(r.expose), r.maxAge)) ==
            if AllLegal(r.origins) && AllLegal(r.headers) && AllLegal(r.expose)
            then Some(CorsTail(r.methods, NormaliseEach(r.origins), NormaliseEach(r.headers), NormaliseEach(r.expose), r.maxAge)) else None
  {
    forall i | 0 <= i < |r.methods| {
      MethodsPlain(r.methods[i]);
    }
    DecodePlainLeaves("AllowedMethod", r.methods);
    DecodeLeaves("AllowedOrigin", r.origins);
    DecodeLeaves("AllowedHeader", r.headers);
    DecodeLeaves("ExposeHeader", r.expose);
    DecodeAge(r.maxAge);
    var o, h, e := Leaves("AllowedOrigin", EscapedEach(r.origins)), Leaves("AllowedHeader", EscapedEach(r.headers)), Leaves("ExposeHeader", EscapedEach(r.expose));
    DecodeConcat(e, AgeXml(r.maxAge));
    DecodeConcat(h, e + AgeXml(r.maxAge));
    DecodeConcat(o, h + (e + AgeXml(r.maxAge)));
    DecodeConcat(Leaves("AllowedMethod", r.methods), o + (h + (e + AgeXml(r.maxAge))));
  }

  lemma EscapedEmpty(s: string)
    ensures Escaped(s) == "" <==> s == ""
    ensures Normalise(s) == "" <==> s == ""
  {
    EscapedIsPerCharacter(s);
  }

  lemma DecodeCors(r: CorsRule)
    requires CorsAccepted(r)
    ensures Decode(PrintedCors(r)) ==
            if CorsLegal(r)
            then Some(CorsElem(Normalise(r.id), r.methods, NormaliseEach(r.origins), NormaliseEach(r.headers), NormaliseEach(r.expose), r.maxAge))
            else None
  {
    EscapedEmpty(r.id);
    DecodeCorsTail(r);
    var tail := CorsTail(r.methods, EscapedEach(r.origins), EscapedEach(r.headers), EscapedEach(r.expose), r.maxAge);
    if r.id == "" {
      DecodeConcat([], tail);
    } else {
      DecodeEscaped("ID", r.id);
      DecodeOne(Leaf("ID", Escaped(r.id)));
      DecodeConcat([Leaf("ID", Escaped(r.id))], tail);
    }
  }

  // ---------- reading what was decoded ----------

  lemma {:induction false} TextsOfConcat(xs: seq<Xml>, ys: seq<Xml>, tag: string)
    ensures TextsOf(xs + ys, tag) == TextsOf(xs, tag) + TextsOf(ys, tag)
  {
    if xs == [] {
      assert xs + ys == ys;
    } else {
      assert (xs + ys)[1..] == xs[1..] + ys;
      TextsOfConcat(xs[1..], ys, tag);
    }
  }

  function StripEach(texts: seq<string>): seq<string> {
    if texts == [] then [] else [Strip(texts[0])] + StripEach(texts[1..])
  }

  lemma {:induction false} TextsOfLeaves(tag: string, texts: seq<string>, want: string)
    ensures TextsOf(Leaves(tag, texts), want) == if tag == want then StripEach(texts) else []
  {
    if texts != [] {
      TextsOfLeaves(tag, texts[1..], want);
      assert Leaves(tag, texts)[1..] == Leaves(tag, texts[1..]);
    }
  }

  lemma TextsOfAge(age: Option<int>, want: string)
    requires want != "MaxAgeSeconds"
    ensures TextsOf(AgeXml(age), want) == []
  {
    if age.Some? {
      assert AgeXml(age)[1..] == [];
    }
  }

  lemma TextsOfTail(methods: seq<string>, origins: seq<string>, headers: seq<string>, expose: seq<string>, age: Option<int>, want: string)
    requires want != "MaxAgeSeconds"
    ensures TextsOf(CorsTail(methods, origins, headers, expose, age), want) ==
            if want == "AllowedMethod" then StripEach(methods)
            else if want == "AllowedOrigin" then StripEach(origins)
            else if want == "AllowedHeader" then StripEach(headers)
            else if want == "ExposeHeader" then StripEach(expose)
            else []
  {
    var m, o, h, e, a := Leaves("AllowedMethod", methods), Leaves("AllowedOrigin", origins), Leaves("AllowedHeader", headers),
                         Leaves("ExposeHeader", expose), AgeXml(age);
    TextsOfLeaves("AllowedMethod", methods, want);
    TextsOfLeaves("AllowedOrigin", origins, want);
    TextsOfLeaves("AllowedHeader", headers, want);
    TextsOfLeaves("ExposeHeader", expose, want);
    TextsOfAge(age, want);
    TextsOfConcat(e, a, want);
    TextsOfConcat(h, e + a, want);
    TextsOfConcat(o, h + (e + a), want);
    TextsOfConcat(m, o + (h + (e + a)), want);
  }

  lemma {:induction false} FindInLeaves(tag: string, texts: seq<string>, want: string)
    requires tag != want
    ensures FindIn(Leaves(tag, texts), want) == None
  {
    if texts != [] {
      FindInLeaves(tag, texts[1..], want);
      assert Leaves(tag, texts)[1..] == Leaves(tag, texts[1..]);
    }
  }

  /** Neither the id nor the age is looked up among the lists. */
  lemma FindInTail(methods: seq<string>, origins: seq<string>, headers: seq<string>, expose: seq<string>, age: Option<int>, want: string)
    requires want == "ID" || want == "MaxAgeSeconds"
    ensures FindIn(CorsTail(methods, origins, headers, expose, age), want) == FindIn(AgeXml(age), want)
  {
    var m, o, h, e, a := Leaves("AllowedMethod", methods), Leaves("AllowedOrigin", origins), Leaves("AllowedHeader", headers),
                         Leaves("ExposeHeader", expose), AgeXml(age);
    FindInLeaves("AllowedMethod", methods, want);
    FindInLeaves("AllowedOrigin", origins, want);
    FindInLeaves("AllowedHeader", headers, want);
    FindInLeaves("ExposeHeader", expose, want);
    FindInConcat(e, a, want);
    FindInConcat(h, e + a, want);
    FindInConcat(o, h + (e + a), want);
    FindInConcat(m, o + (h + (e + a)), want);
  }

  lemma AgeFound(age: Option<int>)
    ensures FindIn(AgeXml(age), "ID") == None
    ensures FindIn(AgeXml(age), "MaxAgeSeconds") == if age.None? then None else Some(Leaf("MaxAgeSeconds", IntText(age.value)))
  {
    if age.Some? {
      FindInLeaf("MaxAgeSeconds", IntText(age.value), "ID");
      FindInLeaf("MaxAgeSeconds", IntText(age.value), "MaxAgeSeconds");
    }
  }

  lemma ReadBackCors(id: string, methods: seq<string>, origins: seq<string>, headers: seq<string>, expose: seq<string>, age: Option<int>)
    ensures ReadCors(CorsElem(id, methods, origins, headers, expose, age)) ==
            Some(CorsRule(Strip(id), StripEach(methods), StripEach(origins), StripEach(headers), StripEach(expose), age))
  {
    var x := CorsElem(id, methods, origins, headers, expose, age);
    var head := if id == "" then [] else [Leaf("ID", id)];
    var tail := CorsTail(methods, origins, headers, expose, age);
    assert x.children == head + tail;
    TailTexts(head, methods, origins, headers, expose, age);
    FindInConcat(head, tail, "ID");
    FindInConcat(head, tail, "MaxAgeSeconds");
    FindInTail(methods, origins, headers, expose, age, "ID");
    FindInTail(methods, origins, headers, expose, age, "MaxAgeSeconds");
    AgeFound(age);
    if id != "" {
      FindInLeaf("ID", id, "ID");
      FindInLeaf("ID", id, "MaxAgeSeconds");
    }
    if age.Some? {
      IntReads(age.value);
      PlainParses(IntText(age.value));
    }
  }

  lemma {:induction false} TailTexts(head: seq<Xml>, methods: seq<string>, origins: seq<string>, headers: seq<string>, expose: seq<string>, age: Option<int>)
    requires head == [] || (|head| == 1 && head[0].tag == "ID")
    ensures var cs := head + CorsTail(methods, origins, headers, expose, age);
            && TextsOf(cs, "AllowedMethod") == StripEach(methods) && TextsOf(cs, "AllowedOrigin") == StripEach(origins)
            && TextsOf(cs, "AllowedHeader") == StripEach(headers) && TextsOf(cs, "ExposeHeader") == StripEach(expose)
  {
    var tail := CorsTail(methods, origins, headers, expose, age);
    HeadAdds(head, tail, "AllowedMethod");
    HeadAdds(head, tail, "AllowedOrigin");
    HeadAdds(head, tail, "AllowedHeader");
    HeadAdds(head, tail, "ExposeHeader");
    TextsOfTail(methods, origins, headers, expose, age, "AllowedMethod");
    TextsOfTail(methods, origins, headers, expose, age, "AllowedOrigin");
    TextsOfTail(methods, origins, headers, expose, age, "AllowedHeader");
    TextsOfTail(methods, origins, headers, expose, age, "ExposeHeader");
  }

  lemma HeadAdds(head: seq<Xml>, tail: seq<Xml>, want: string)
    requires head == [] || (|head| == 1 && head[0].tag == "ID")
    requires want != "ID"
    ensures TextsOf(head + tail, want) == TextsOf(tail, want)
  {
    TextsOfConcat(head, tail, want);
    if head != [] {
      assert head[1..] == [];
    }
    assert [] + TextsOf(tail, want) == TextsOf(tail, want);
  }

  // ---------- the round trip ----------

  lemma {:induction false} StripEachSame(texts: seq<string>)
    ensures StripEach(texts) == texts <==> forall i :: 0 <= i < |texts| ==> Strip(texts[i]) == texts[i]
  {
    if texts != [] {
      var tail := texts[1..];
      StripEachSame(tail);
      assert StripEach(texts)[0] == Strip(texts[0]) && StripEach(texts)[1..] == StripEach(tail);
      assert forall i :: 0 <= i < |tail| ==> tail[i] == texts[i + 1];
      if StripEach(tail) == tail && Strip(texts[0]) == texts[0] {
        assert [texts[0]] + tail == texts;
        forall i | 0 <= i < |texts|
          ensures Strip(texts[i]) == texts[i]
        {
          assert i > 0 ==> tail[i - 1] == texts[i];
        }
      } else if StripEach(tail) != tail {
        var i :| 0 <= i < |tail| && Strip(tail[i]) != tail[i];
        assert Strip(texts[i + 1]) != texts[i + 1];
      }
    }
  }

  lemma {:induction false} TripEach(texts: seq<string>)
    requires AllLegal(texts)
    ensures StripEach(NormaliseEach(texts)) == texts <==> AllSurvive(texts)
  {
    if texts != [] {
      var tail := texts[1..];
      assert forall i :: 0 <= i < |tail| ==> tail[i] == texts[i + 1];
      TripEach(tail);
      TripExactly(texts[0]);
      var back := StripEach(NormaliseEach(texts));
      assert NormaliseEach(texts)[1..] == NormaliseEach(tail);
      assert back[0] == Strip(Normalise(texts[0])) && back[1..] == StripEach(NormaliseEach(tail));
      if AllSurvive(tail) && Survives(texts[0]) {
        assert [texts[0]] + tail == texts;
        forall i | 0 <= i < |texts|
          ensures Survives(texts[i])
        {
          assert i > 0 ==> tail[i - 1] == texts[i];
        }
      } else if !AllSurvive(tail) {
        var i :| 0 <= i < |tail| && !Survives(tail[i]);
        assert !Survives(texts[i + 1]);
      }
    }
  }

  function CorsBack(r: CorsRule): CorsRule {
    CorsRule(Strip(Normalise(r.id)), StripEach(r.methods), StripEach(NormaliseEach(r.origins)), StripEach(NormaliseEach(r.headers)),
             StripEach(NormaliseEach(r.expose)), r.maxAge)
  }

  lemma CorsBackSame(r: CorsRule)
    requires CorsAccepted(r) && CorsLegal(r)
    ensures CorsBack(r) == r <==> CorsSurvives(r)
  {
    TripExactly(r.id);
    TripEach(r.origins);
    TripEach(r.headers);
    TripEach(r.expose);
    forall i | 0 <= i < |r.methods| {
      MethodsPlain(r.methods[i]);
    }
    StripEachSame(r.methods);
  }

  function CorsBackAll(rs: seq<CorsRule>): seq<CorsRule> {
    if rs == [] then [] else [CorsBack(rs[0])] + CorsBackAll(rs[1..])
  }

  lemma {:induction false} DecodeCorsRules(rs: seq<CorsRule>)
    requires forall i :: 0 <= i < |rs| ==> CorsAccepted(rs[i]) && CorsLegal(rs[i])
    ensures DecodeAll(CorsElems(rs)).Some? && ReadCorsRules(DecodeAll(CorsElems(rs)).value) == Some(CorsBackAll(rs))
  {
    if rs != [] {
      var r, tail := rs[0], rs[1..];
      DecodeCorsRules(tail);
      DecodeCors(r);
      DecodeCons(PrintedCors(r), CorsElems(tail));
      ReadBackCors(Normalise(r.id), r.methods, NormaliseEach(r.origins), NormaliseEach(r.headers), NormaliseEach(r.expose), r.maxAge);
      var ys := DecodeAll(CorsElems(tail)).value;
      var y := Decode(PrintedCors(r)).value;
      assert ([y] + ys)[1..] == ys && y.tag == "CORSRule";
    }
  }

  lemma {:induction false} IllegalCorsSpoils(rs: seq<CorsRule>, i: nat)
    requires i < |rs| && CorsAccepted(rs[i]) && !CorsLegal(rs[i])
    ensures DecodeAll(CorsElems(rs)).None?
  {
    var r, tail := rs[0], rs[1..];
    DecodeCons(PrintedCors(r), CorsElems(tail));
    if i == 0 {
      DecodeCors(r);
    } else {
      IllegalCorsSpoils(tail, i - 1);
    }
  }

  lemma {:induction false} CorsBackAllSame(rs: seq<CorsRule>)
    requires forall i :: 0 <= i < |rs| ==> CorsAccepted(rs[i]) && CorsLegal(rs[i])
    ensures CorsBackAll(rs) == rs <==> forall i :: 0 <= i < |rs| ==> CorsSurvives(rs[i])
  {
    if rs != [] {
      var tail := rs[1..];
      assert forall i :: 0 <= i < |tail| ==> tail[i] == rs[i + 1];
      CorsBackAllSame(tail);
      CorsBackSame(rs[0]);
      assert CorsBackAll(rs)[0] == CorsBack(rs[0]) && CorsBackAll(rs)[1..] == CorsBackAll(tail);
      if forall i :: 0 <= i < |tail| ==> CorsSurvives(tail[i]) {
        if CorsSurvives(rs[0]) {
          assert rs == [rs[0]] + tail;
          forall i | 0 <= i < |rs|
            ensures CorsSurvives(rs[i])
          {
            assert i > 0 ==> tail[i - 1] == rs[i];
          }
        }
      } else {
        var i :| 0 <= i < |tail| && !CorsSurvives(tail[i]);
        assert !CorsSurvives(rs[i + 1]);
      }
    }
  }

  lemma {:induction false} CleanedTrimmed(xs: seq<string>)
    ensures AllTrimmed(Cleaned(xs)) && forall i :: 0 <= i < |Cleaned(xs)| ==> Cleaned(xs)[i] != ""
  {
    if xs != [] {
      CleanedTrimmed(xs[1..]);
      StripMeaning(xs[0]);
    }
  }

  lemma {:induction false} CorsRulesAccepted(raw: seq<RawCors>)
    requires CorsRules(raw).Ok?
    ensures forall i :: 0 <= i < |CorsRules(raw).value| ==> CorsAccepted(CorsRules(raw).value[i])
  {
    if raw != [] {
      CorsRulesAccepted(raw[1..]);
      CleanedTrimmed(raw[0].origins);
      CleanedTrimmed(raw[0].headers);
      CleanedTrimmed(raw[0].expose);
    }
  }

  lemma CorsListTrip(rs: seq<CorsRule>)
    requires forall i :: 0 <= i < |rs| ==> CorsAccepted(rs[i])
    ensures CorsFromXml(CorsXml(rs)) == Some(rs) <==> forall i :: 0 <= i < |rs| ==> CorsSurvives(rs[i])
  {
    if i :| 0 <= i < |rs| && !CorsLegal(rs[i]) {
      IllegalCorsSpoils(rs, i);
      assert !CorsSurvives(rs[i]);
    } else {
      DecodeCorsRules(rs);
      CorsBackAllSame(rs);
    }
  }

  /** Every accepted CORS rule list comes back from its document as it was, exactly when
      each id, origin and header survives the trip. */
  lemma {:induction false} CorsRoundTrip(raw: seq<RawCors>)
    requires CorsRules(raw).Ok?
    ensures var rs := CorsRules(raw).value;
            CorsFromXml(CorsXml(rs)) == Some(rs) <==> forall i :: 0 <= i < |rs| ==> CorsSurvives(rs[i])
  {
    CorsRulesAccepted(raw);
    CorsListTrip(CorsRules(raw).value);
  }

  // ---------- the loops ----------

  /** Printing a CORS configuration, one rule at a time. */
  method PrintCors(rs: seq<CorsRule>) returns (doc: Xml)
    ensures doc == CorsXml(rs)
  {
    var parts: seq<Xml> := [];
    var i := 0;
    assert rs[0..] == rs;
    while i < |rs|
      invariant 0 <= i <= |rs|
      invariant CorsElems(rs) == parts + CorsElems(rs[i..])
    {
      var x := PrintedCors(rs[i]);
      assert rs[i..][1..] == rs[i + 1..];
      Shift(parts, x, CorsElems(rs[i + 1..]));
      parts := parts + [x];
      i := i + 1;
    }
    assert parts + [] == parts;
    doc := Elem("CORSConfiguration", "", parts);
  }

  /** Reading a CORS configuration, one element at a time. */
  method ReadCorsDocument(doc: Xml) returns (out: Option<seq<CorsRule>>)
    ensures out == CorsFromXml(doc)
  {
    var root := Decode(doc);
    if root.None? {
      return Some([]);
    }
    var xs := root.value.children;
    var rules: seq<CorsRule> := [];
    var i := 0;
    assert xs[0..] == xs;
    PrependNone(ReadCorsRules(xs));
    while i < |xs|
      invariant 0 <= i <= |xs|
      invariant ReadCorsRules(xs) == Prepend(rules, ReadCorsRules(xs[i..]))
    {
      assert xs[i..][0] == xs[i] && xs[i..][1..] == xs[i + 1..];
      if xs[i].tag == "CORSRule" {
        var r := ReadCors(xs[i]);
        if r.None? {
          return None;
        }
        PrependStep(rules, r.value, ReadCorsRules(xs[i + 1..]));
        rules := rules + [r.value];
      }
      i := i + 1;
    }
    assert rules + [] == rules;
    return Some(rules);
  }
}
