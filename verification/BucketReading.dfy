/** What the readers of bucket documents make of any document, also one they did not print. */
module BucketReading {
  import opened Common
  import opened XmlText
  import opened XmlTree
  import opened BucketLifecycle
  import opened BucketCors

  // ---------- lifecycle rules ----------

  /** The child is an action of this kind with a number in it. */
  predicate Carries(c: Xml, tag: string, inner: string) {
    c.tag == tag && TextOf(c, inner) != ""
  }

  /** The number of the last action of a kind. */
  function LastNumber(cs: seq<Xml>, tag: string, inner: string): Option<int> {
    if cs == [] then None
    else if Carries(cs[|cs| - 1], tag, inner) then ReadInt(TextOf(cs[|cs| - 1], inner))
    else LastNumber(cs[..|cs| - 1], tag, inner)
  }

  /** The transitions with a number of days, in their order. */
  function TransitionsIn(cs: seq<Xml>): seq<Transition> {
    if cs == [] then []
    else
      var c := cs[|cs| - 1];
      TransitionsIn(cs[..|cs| - 1]) +
      if Carries(c, "Transition", "Days") && ReadInt(TextOf(c, "Days")).Some?
      then [Transition(ReadInt(TextOf(c, "Days")).value, TextOf(c, "StorageClass"))] else []
  }

  /** The action carries a text that is no number. */
  predicate Garbled(c: Xml) {
    || (Carries(c, "Expiration", "Days") && ReadInt(TextOf(c, "Days")).None?)
    || (Carries(c, "NoncurrentVersionExpiration", "NoncurrentDays") && ReadInt(TextOf(c, "NoncurrentDays")).None?)
    || (Carries(c, "AbortIncompleteMultipartUpload", "DaysAfterInitiation") && ReadInt(TextOf(c, "DaysAfterInitiation")).None?)
    || (Carries(c, "Transition", "Days") && ReadInt(TextOf(c, "Days")).None?)
  }

  predicate AnyGarbled(cs: seq<Xml>) {
    exists i :: 0 <= i < |cs| && Garbled(cs[i])
  }

  lemma AnyGarbledSnoc(cs: seq<Xml>)
    requires cs != []
    ensures AnyGarbled(cs) <==> AnyGarbled(cs[..|cs| - 1]) || Garbled(cs[|cs| - 1])
  {
    var n := |cs| - 1;
    if i :| 0 <= i < n && Garbled(cs[..n][i]) {
      assert Garbled(cs[i]);
    }
    if i :| 0 <= i < |cs| && Garbled(cs[i]) {
      assert i < n ==> Garbled(cs[..n][i]);
    }
  }

  /** The children of a rule as a whole: of each kind of action the last with a number counts, all
      transitions do, and one number that does not read spoils the reading. */
  lemma {:induction false} ReadChildrenExactly(cs: seq<Xml>, o: Rule)
    requires o.expiration.None? && o.noncurrent.None? && o.abort.None? && o.transitions == []
    ensures ReadChildren(cs, o) ==
            if AnyGarbled(cs) then None
            else Some(o.(expiration := LastNumber(cs, "Expiration", "Days"),
                         noncurrent := LastNumber(cs, "NoncurrentVersionExpiration", "NoncurrentDays"),
                         abort := LastNumber(cs, "AbortIncompleteMultipartUpload", "DaysAfterInitiation"),
                         transitions := TransitionsIn(cs)))
  {
    if cs != [] {
      var n := |cs| - 1;
      ReadChildrenExactly(cs[..n], o);
      AnyGarbledSnoc(cs);
      ReadChildrenSnoc(cs, o);
      assert TransitionsIn(cs[..n]) + [] == TransitionsIn(cs[..n]);
    }
  }

  lemma ReadChildrenSnoc(cs: seq<Xml>, o: Rule)
    requires cs != []
    ensures var n := |cs| - 1;
            ReadChildren(cs, o) == match ReadChildren(cs[..n], o)
                                   case None => None
                                   case Some(p) => ReadChild(cs[n], p)
  {
    var n := |cs| - 1;
    assert cs == cs[..n] + [cs[n]];
    ReadChildrenConcat(cs[..n], [cs[n]], o);
    if ReadChildren(cs[..n], o).Some? {
      ReadChildrenOne(cs[n], ReadChildren(cs[..n], o).value);
    }
  }

  /** A rule element is read as its texts and its actions, its status Enabled if it names none. */
  lemma {:induction false} RuleReadsAs(x: Xml)
    ensures match ReadRule(x)
            case None => AnyGarbled(x.children)
            case Some(r) =>
              && !AnyGarbled(x.children)
              && r.id == TextOf(x, "ID") && r.prefix == TextOf(x, "Prefix")
              && r.status == (if TextOf(x, "Status") != "" then TextOf(x, "Status") else "Enabled")
              && r.expiration == LastNumber(x.children, "Expiration", "Days")
              && r.noncurrent == LastNumber(x.children, "NoncurrentVersionExpiration", "NoncurrentDays")
              && r.abort == LastNumber(x.children, "AbortIncompleteMultipartUpload", "DaysAfterInitiation")
              && r.transitions == TransitionsIn(x.children)
  {
    var status := TextOf(x, "Status");
    ReadChildrenExactly(x.children, Rule(TextOf(x, "ID"), if status == "" then "Enabled" else status, TextOf(x, "Prefix"), None, None, None, []));
  }

  /** The elements with this tag, in their order. */
  function Tagged(xs: seq<Xml>, tag: string): seq<Xml> {
    if xs == [] then [] else Tagged(xs[..|xs| - 1], tag) + if xs[|xs| - 1].tag == tag then [xs[|xs| - 1]] else []
  }

  lemma {:induction false} TaggedCons(x: Xml, xs: seq<Xml>, tag: string)
    ensures Tagged([x] + xs, tag) == (if x.tag == tag then [x] else []) + Tagged(xs, tag)
  {
    var all := [x] + xs;
    if xs == [] {
      assert all[..0] == [] && all[0] == x;
      assert Tagged(all, tag) == Tagged([], tag) + if x.tag == tag then [x] else [];
    } else {
      var n := |xs| - 1;
      assert all[..n + 1] == [x] + xs[..n];
      TaggedCons(x, xs[..n], tag);
    }
  }

  /** The elements read one for one as these rules. */
  ghost predicate ReadAs(es: seq<Xml>, rs: seq<Rule>) {
    |rs| == |es| && forall i :: 0 <= i < |es| ==> ReadRule(es[i]) == Some(rs[i])
  }

  ghost predicate OneDoesNot(es: seq<Xml>) {
    exists i :: 0 <= i < |es| && ReadRule(es[i]).None?
  }

  lemma ReadAsCons(x: Xml, r: Rule, es: seq<Xml>, rs: seq<Rule>)
    requires ReadRule(x) == Some(r) && ReadAs(es, rs)
    ensures ReadAs([x] + es, [r] + rs)
  {
  }

  lemma OneDoesNotCons(x: Xml, es: seq<Xml>)
    requires ReadRule(x).None? || OneDoesNot(es)
    ensures OneDoesNot([x] + es)
  {
    var all := [x] + es;
    assert all[0] == x && forall i :: 0 <= i < |es| ==> all[i + 1] == es[i];
    if i :| 0 <= i < |es| && ReadRule(es[i]).None? {
      assert ReadRule(all[i + 1]).None?;
    }
  }

  lemma ReadRulesHead(xs: seq<Xml>)
    requires xs != []
    ensures xs[0].tag != "Rule" ==> ReadRules(xs) == ReadRules(xs[1..])
    ensures xs[0].tag == "Rule" ==>
              ReadRules(xs) == if ReadRule(xs[0]).Some? && ReadRules(xs[1..]).Some? then Some([ReadRule(xs[0]).value] + ReadRules(xs[1..]).value) else None
  {
  }

  /** A lifecycle document is read as its Rule elements, one for one, if every one of them reads. */
  lemma {:induction false} RulesReadAs(xs: seq<Xml>)
    ensures ReadRules(xs).Some? ==> ReadAs(Tagged(xs, "Rule"), ReadRules(xs).value)
    ensures ReadRules(xs).None? ==> OneDoesNot(Tagged(xs, "Rule"))
  {
    if xs != [] {
      var tail := Tagged(xs[1..], "Rule");
      assert xs == [xs[0]] + xs[1..];
      TaggedCons(xs[0], xs[1..], "Rule");
      RulesReadAs(xs[1..]);
      ReadRulesHead(xs);
      if xs[0].tag != "Rule" {
        assert [] + tail == tail;
      } else if ReadRules(xs).Some? {
        ReadAsCons(xs[0], ReadRule(xs[0]).value, tail, ReadRules(xs[1..]).value);
      } else {
        OneDoesNotCons(xs[0], tail);
      }
    }
  }

  // ---------- CORS rules ----------

  /** The stripped texts of the elements with a tag, in their order. */
  lemma {:induction false} TextsOfTagged(cs: seq<Xml>, tag: string)
    ensures var es := Tagged(cs, tag);
            |TextsOf(cs, tag)| == |es| && forall i :: 0 <= i < |es| ==> TextsOf(cs, tag)[i] == Strip(es[i].text)
  {
    if cs != [] {
      TextsOfTagged(cs[1..], tag);
      assert cs == [cs[0]] + cs[1..];
      TaggedCons(cs[0], cs[1..], tag);
    }
  }

  ghost predicate TextsFrom(cs: seq<Xml>, tag: string, texts: seq<string>) {
    var es := Tagged(cs, tag);
    |texts| == |es| && forall i :: 0 <= i < |es| ==> texts[i] == Strip(es[i].text)
  }

  /** A CORS rule element is read as its id, its four lists and its age, and not at all if the age
      is a text that is no number. */
  lemma {:induction false} CorsReadsAs(x: Xml)
    ensures match ReadCors(x)
            case None => TextOf(x, "MaxAgeSeconds") != "" && ReadInt(TextOf(x, "MaxAgeSeconds")).None?
            case Some(r) =>
              && r.id == TextOf(x, "ID")
              && TextsFrom(x.children, "AllowedMethod", r.methods) && TextsFrom(x.children, "AllowedOrigin", r.origins)
              && TextsFrom(x.children, "AllowedHeader", r.headers) && TextsFrom(x.children, "ExposeHeader", r.expose)
              && (r.maxAge.None? <==> TextOf(x, "MaxAgeSeconds") == "")
              && (r.maxAge.Some? ==> ReadInt(TextOf(x, "MaxAgeSeconds")) == r.maxAge)
  {
    TextsOfTagged(x.children, "AllowedMethod");
    TextsOfTagged(x.children, "AllowedOrigin");
    TextsOfTagged(x.children, "AllowedHeader");
    TextsOfTagged(x.children, "ExposeHeader");
  }

  /** A CORS document is read as its CORSRule elements, one for one, if every one of them reads. */
  lemma {:induction false} CorsRulesReadAs(xs: seq<Xml>)
    ensures var es := Tagged(xs, "CORSRule");
            match ReadCorsRules(xs)
            case None => exists i :: 0 <= i < |es| && ReadCors(es[i]).None?
            case Some(rs) => |rs| == |es| && forall i :: 0 <= i < |es| ==> ReadCors(es[i]) == Some(rs[i])
  {
    if xs != [] {
      var es, tail := Tagged(xs, "CORSRule"), Tagged(xs[1..], "CORSRule");
      assert xs == [xs[0]] + xs[1..];
      TaggedCons(xs[0], xs[1..], "CORSRule");
      CorsRulesReadAs(xs[1..]);
      if xs[0].tag == "CORSRule" {
        assert es == [xs[0]] + tail && forall i :: 0 < i < |es| ==> es[i] == tail[i - 1];
        if ReadCorsRules(xs).None? {
          if ReadCors(xs[0]).None? {
            assert ReadCors(es[0]).None?;
          } else {
            var i :| 0 <= i < |tail| && ReadCors(tail[i]).None?;
            assert ReadCors(es[i + 1]).None?;
          }
        }
      } else {
        assert es == tail;
      }
    }
  }

  // ---------- finding ----------

  /** An element with another tag is looked through child by child; one with the tag is found. */
  lemma FindExactly(x: Xml, tag: string)
    ensures x.tag == tag ==> Find(x, tag) == Some(x)
    ensures x.tag != tag && x.children == [] ==> Find(x, tag) == None
    ensures x.tag != tag && x.children != [] ==>
              Find(x, tag) == if Find(x.children[0], tag).Some? then Find(x.children[0], tag) else Find(x.(children := x.children[1..]), tag)
  {
  }

  // ---------- numbers ----------

  predicate IsDigit(c: char) {
    '0' <= c <= '9'
  }

  /** The character is a digit, or an underscore between two. */
  predicate InPlace(s: string, i: nat)
    requires i < |s|
  {
    IsDigit(s[i]) || (s[i] == '_' && 0 < i < |s| - 1 && IsDigit(s[i - 1]) && IsDigit(s[i + 1]))
  }

  predicate WellWritten(s: string) {
    s != "" && forall i :: 0 <= i < |s| ==> InPlace(s, i)
  }

  lemma LastIsDigit(s: string)
    requires WellWritten(s)
    ensures IsDigit(s[|s| - 1])
  {
    assert InPlace(s, |s| - 1);
  }

  /** A digit goes on a well-written row, or on one and an underscore. */
  lemma WellWrittenSnoc(init: string, s: string)
    requires |s| > |init| && s[..|init|] == init && IsDigit(s[|s| - 1])
    requires |s| == |init| + 1 || (|s| == |init| + 2 && s[|init|] == '_')
    requires |s| == |init| + 1 && init != "" ==> init[|init| - 1] != '_'
    ensures init != "" ==> (WellWritten(s) <==> WellWritten(init))
    ensures init == "" ==> (WellWritten(s) <==> |s| == 1)
  {
    assert forall i :: 0 <= i < |init| ==> init[i] == s[i];
    if WellWritten(init) {
      LastIsDigit(init);
      forall i | 0 <= i < |s|
        ensures InPlace(s, i)
      {
        assert i < |init| ==> InPlace(init, i);
      }
    }
    if WellWritten(s) {
      forall i | 0 <= i < |init|
        ensures InPlace(init, i)
      {
        assert InPlace(s, i) && InPlace(s, |init|);
      }
    }
    if init == "" && |s| == 2 {
      assert !InPlace(s, 0);
    }
  }

  /** Exactly the well-written rows of digits read as numbers. */
  lemma {:induction false} DigitsReadExactly(s: string)
    ensures ReadDigits(s).Some? <==> WellWritten(s)
    decreases |s|
  {
    if s != "" {
      var n := |s| - 1;
      if IsDigit(s[n]) && n > 0 {
        var init := if s[n - 1] == '_' then s[..n - 1] else s[..n];
        DigitsReadExactly(init);
        WellWrittenSnoc(init, s);
      } else if !IsDigit(s[n]) && WellWritten(s) {
        LastIsDigit(s);
      }
    }
  }

  /** A sign may stand before the digits, and a minus makes the number negative. */
  lemma SignsExactly(s: string)
    ensures ReadInt("-" + s) == (match ReadDigits(s) case Some(n) => Some(0 - n) case None => None)
    ensures ReadInt("+" + s) == (match ReadDigits(s) case Some(n) => Some(n) case None => None)
  {
    assert ("-" + s)[1..] == s && ("+" + s)[1..] == s;
  }
}
