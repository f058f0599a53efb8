/** The escaped, comma-separated filter grammar of the key, label and name
    query arguments: splitting, unescaping and matching, and what a client
    that escapes its literals can rely on. */
module FilterGrammar {
  import opened Common

  // ---------- the grammar as the store reads it ----------

  function Prepend(p: string, terms: seq<string>): (r: seq<string>)
    requires |terms| > 0
    ensures |r| == |terms|
  {
    [p + terms[0]] + terms[1..]
  }

  lemma PrependNothing(terms: seq<string>)
    requires |terms| > 0
    ensures Prepend("", terms) == terms
  {
    assert "" + terms[0] == terms[0];
  }

  lemma PrependTwice(p: string, q: string, terms: seq<string>)
    requires |terms| > 0
    ensures Prepend(p, Prepend(q, terms)) == Prepend(p + q, terms)
  {
    assert p + (q + terms[0]) == p + q + terms[0];
  }

  /** The terms of a filter: a backslash protects the character after it, and both stay in the term. */
  function Split(s: string): (terms: seq<string>)
    ensures |terms| > 0
  {
    if s == "" then [""]
    else if s[0] == '\\' && |s| > 1 then Prepend(s[..2], Split(s[2..]))
    else if s[0] == ',' then [""] + Split(s[1..])
    else Prepend(s[..1], Split(s[1..]))
  }

  lemma SplitPair(s: string)
    requires |s| > 1 && s[0] == '\\'
    ensures Split(s) == Prepend(s[..2], Split(s[2..]))
  {
  }

  lemma SplitPlain(s: string)
    requires s != "" && s[0] != ',' && (s[0] != '\\' || |s| == 1)
    ensures Split(s) == Prepend(s[..1], Split(s[1..]))
  {
  }

  /** What the loop holds once `cur` has been read of the term at hand. */
  function Read(terms: seq<string>, cur: string, rest: string): seq<string> {
    terms + Prepend(cur, Split(rest))
  }

  lemma {:induction false} ReadMore(terms: seq<string>, cur: string, more: string, rest: string)
    requires Split(more + rest) == Prepend(more, Split(rest))
    ensures Read(terms, cur, more + rest) == Read(terms, cur + more, rest)
  {
    PrependTwice(cur, more, Split(rest));
  }

  lemma ReadComma(terms: seq<string>, cur: string, rest: string)
    ensures Read(terms, cur, "," + rest) == Read(terms + [cur], "", rest)
  {
    assert ("," + rest)[1..] == rest;
    assert cur + "" == cur;
    PrependNothing(Split(rest));
    assert Prepend(cur, [""] + Split(rest)) == [cur] + Split(rest);
    assert terms + ([cur] + Split(rest)) == (terms + [cur]) + Split(rest);
  }

  /** The loop over an index that computes `Split`. */
  method SplitFilter(expr: string) returns (terms: seq<string>)
    ensures terms == Split(expr)
  {
    var cur, i := "", 0;
    terms := [];
    PrependNothing(Split(expr));
    assert expr[0..] == expr;
    while i < |expr|
      invariant 0 <= i <= |expr|
      invariant Read(terms, cur, expr[i..]) == Split(expr)
    {
      var c := expr[i];
      if c == '\\' && i + 1 < |expr| {
        var pair := [c, expr[i + 1]];
        assert expr[i..] == pair + expr[i + 2..] && expr[i..][..2] == pair && expr[i..][2..] == expr[i + 2..];
        SplitPair(expr[i..]);
        ReadMore(terms, cur, pair, expr[i + 2..]);
        cur := cur + pair;
        i := i + 2;
        continue;
      }
      assert expr[i..] == [c] + expr[i + 1..] && expr[i..][..1] == [c] && expr[i..][1..] == expr[i + 1..];
      if c == ',' {
        ReadComma(terms, cur, expr[i + 1..]);
        terms := terms + [cur];
        cur := "";
      } else {
        SplitPlain(expr[i..]);
        ReadMore(terms, cur, [c], expr[i + 1..]);
        cur := cur + [c];
      }
      i := i + 1;
    }
    assert expr[i..] == "" && cur + "" == cur;
    terms := terms + [cur];
  }

  /** Drops each protecting backslash; a backslash before a newline protects nothing. */
  function Unescape(s: string): string {
    if |s| < 2 then s
    else if s[0] == '\\' && s[1] != '\n' then [s[1]] + Unescape(s[2..])
    else [s[0]] + Unescape(s[1..])
  }

  predicate IsNullMarker(term: string) {
    term == "\0" || term == "%00"
  }

  predicate OpenRight(term: string) {
    EndsWith(term, "*") && !EndsWith(term, "\\*")
  }

  /** Whether one term accepts a value; `None` is the absent label. */
  predicate TermMatch(term: string, value: Option<string>) {
    if IsNullMarker(term) then value == None
    else if value == None then term == "*"
    else
      var v := value.value;
      var starL, starR := StartsWith(term, "*"), OpenRight(term);
      var lo, hi := if starL then 1 else 0, if starR then |term| - 1 else |term|;
      var core := Unescape(if lo <= hi then term[lo..hi] else "");
      if starL && starR then Contains(v, core)
      else if starL then EndsWith(v, core)
      else if starR then StartsWith(v, core)
      else v == core
  }

  predicate FilterMatch(expr: Option<string>, value: Option<string>) {
    expr == None || expr == Some("") || exists t :: t in Split(expr.value) && TermMatch(t, value)
  }

  // ---------- the client's side ----------

  function EscapeChar(c: char): string {
    if c == '\\' || c == ',' || c == '*' then ['\\', c] else [c]
  }

  function Escape(literal: string): string {
    if literal == "" then "" else EscapeChar(literal[0]) + Escape(literal[1..])
  }

  function JoinEscaped(literals: seq<string>): string {
    if literals == [] then ""
    else if |literals| == 1 then Escape(literals[0])
    else Escape(literals[0]) + "," + JoinEscaped(literals[1..])
  }

  // ---------- escaping is undone by unescaping and hidden from splitting ----------

  lemma {:induction false} UnescapeEscape(literal: string, rest: string)
    ensures Unescape(Escape(literal) + rest) == literal + Unescape(rest)
  {
    if literal == "" {
      assert Escape(literal) + rest == rest;
    } else {
      var c := literal[0];
      var s := Escape(literal[1..]) + rest;
      assert Escape(literal) + rest == EscapeChar(c) + s;
      UnescapeEscape(literal[1..], rest);
      UnescapeStep(c, s);
      assert literal == [c] + literal[1..];
      assert [c] + (literal[1..] + Unescape(rest)) == literal + Unescape(rest);
    }
  }

  lemma UnescapeStep(c: char, s: string)
    ensures Unescape(EscapeChar(c) + s) == [c] + Unescape(s)
  {
    var t := EscapeChar(c) + s;
    if |EscapeChar(c)| == 2 {
      assert t[0] == '\\' && t[1] == c && t[2..] == s;
    } else {
      assert t[0] == c && t[1..] == s && t[..1] == [c];
      if s == "" {
        assert t == [c];
      }
    }
  }

  lemma SplitStep(c: char, s: string)
    ensures Split(EscapeChar(c) + s) == Prepend(EscapeChar(c), Split(s))
  {
    var t := EscapeChar(c) + s;
    if |EscapeChar(c)| == 2 {
      assert t[0] == '\\' && t[..2] == EscapeChar(c) && t[2..] == s;
    } else {
      assert t[0] == c && t[1..] == s && t[..1] == [c];
    }
  }

  lemma {:induction false} SplitEscape(literal: string, rest: string)
    requires rest == "" || rest[0] == ',' || rest == "*"
    ensures Split(Escape(literal) + rest) == Prepend(Escape(literal), Split(rest))
  {
    if literal == "" {
      assert Escape(literal) + rest == rest;
      assert "" + Split(rest)[0] == Split(rest)[0];
    } else {
      var e, tail := EscapeChar(literal[0]), Escape(literal[1..]);
      assert Escape(literal) + rest == e + (tail + rest);
      SplitEscape(literal[1..], rest);
      SplitStep(literal[0], tail + rest);
      PrependTwice(e, tail, Split(rest));
    }
  }

  lemma {:induction false} SplitJoined(literals: seq<string>)
    requires literals != []
    ensures Split(JoinEscaped(literals)) == seq(|literals|, i requires 0 <= i < |literals| => Escape(literals[i]))
  {
    var first := Escape(literals[0]);
    if |literals| == 1 {
      SplitEscape(literals[0], "");
      assert first + "" == first;
      assert first + "" == JoinEscaped(literals);
    } else {
      var tail := "," + JoinEscaped(literals[1..]);
      assert JoinEscaped(literals) == first + tail;
      SplitEscape(literals[0], tail);
      assert tail[1..] == JoinEscaped(literals[1..]);
      assert first + "" == first;
      SplitJoined(literals[1..]);
    }
  }

  // ---------- the shape of an escaped literal's ends ----------

  lemma {:induction false} EscapeConcat(a: string, b: string)
    ensures Escape(a + b) == Escape(a) + Escape(b)
  {
    if a == "" {
      assert a + b == b;
    } else {
      assert (a + b)[1..] == a[1..] + b;
      EscapeConcat(a[1..], b);
    }
  }

  predicate EndsInBackslash(s: string) {
    s != "" && s[|s| - 1] == '\\'
  }

  lemma LastOne(s: string, c: char)
    requires s != ""
    ensures s[|s| - 1..] == [c] <==> s[|s| - 1] == c
  {
    assert s[|s| - 1..] == [s[|s| - 1]];
  }

  lemma LastTwo(s: string, b: char, c: char)
    requires |s| >= 2
    ensures s[|s| - 2..] == [b, c] <==> s[|s| - 2] == b && s[|s| - 1] == c
  {
    assert s[|s| - 2..] == [s[|s| - 2], s[|s| - 1]];
    if s[|s| - 2..] == [b, c] {
      assert [b, c][0] == s[|s| - 2] && [b, c][1] == s[|s| - 1];
    }
  }

  lemma StarTails(s: string)
    requires s != ""
    ensures EndsWith(s, "*") <==> s[|s| - 1] == '*'
    ensures EndsWith(s, "\\*") <==> |s| >= 2 && s[|s| - 2] == '\\' && s[|s| - 1] == '*'
  {
    LastOne(s, '*');
    if |s| >= 2 {
      LastTwo(s, '\\', '*');
    }
  }

  lemma EscapeEnds(literal: string)
    ensures literal == "" <==> Escape(literal) == ""
    ensures literal != "" ==> Escape(literal)[0] != '*'
    ensures EndsInBackslash(Escape(literal)) <==> EndsInBackslash(literal)
    ensures !OpenRight(Escape(literal))
  {
    if literal != "" {
      EscapeLast(literal);
      var e, last := Escape(literal), literal[|literal| - 1];
      var tail := EscapeChar(last);
      assert e[|e| - 1] == e[|e| - |tail|..][|tail| - 1] == last;
      if |tail| == 2 {
        assert e[|e| - 2] == e[|e| - |tail|..][0] == '\\';
      }
      StarTails(e);
    }
  }

  /** An escaped literal ends in the literal's last character, protected if it has to be. */
  lemma EscapeLast(literal: string)
    requires literal != ""
    ensures var e, last := Escape(literal), literal[|literal| - 1];
            |e| >= |EscapeChar(last)| && e[|e| - |EscapeChar(last)|..] == EscapeChar(last)
  {
    var n := |literal| - 1;
    var last := [literal[n]];
    assert literal == literal[..n] + last;
    EscapeConcat(literal[..n], last);
    assert Escape(last) == EscapeChar(literal[n]) by {
      assert last[1..] == "";
      assert EscapeChar(literal[n]) + "" == EscapeChar(literal[n]);
    }
  }

  lemma EscapeKeepsMarkers(literal: string)
    ensures IsNullMarker(Escape(literal)) <==> IsNullMarker(literal)
  {
    EscapePlain(literal);
  }

  /** A literal without special characters is its own escape; any other escape holds a backslash. */
  lemma {:induction false} EscapePlain(literal: string)
    ensures '\\' !in Escape(literal) ==> Escape(literal) == literal
    ensures '\\' !in literal && ',' !in literal && '*' !in literal ==> Escape(literal) == literal
  {
    if literal != "" {
      EscapePlain(literal[1..]);
      assert literal == [literal[0]] + literal[1..];
      var e, t := EscapeChar(literal[0]), Escape(literal[1..]);
      assert forall c :: c in e || c in t ==> c in e + t;
      if |e| == 2 {
        assert e[0] == '\\' && e[0] in e;
      }
    }
  }

  // ---------- what a client gets ----------

  lemma ExactTerm(term: string, v: string)
    requires !IsNullMarker(term) && !StartsWith(term, "*") && !OpenRight(term)
    ensures TermMatch(term, Some(v)) <==> v == Unescape(term)
  {
    assert term[0..|term|] == term;
  }

  lemma PrefixTerm(mid: string, v: string)
    requires !StartsWith(mid + "*", "*") && OpenRight(mid + "*")
    ensures TermMatch(mid + "*", Some(v)) <==> StartsWith(v, Unescape(mid))
  {
    var term := mid + "*";
    assert term[|term| - 1] == '*';
    assert term[0..|term| - 1] == mid;
  }

  lemma SuffixTerm(mid: string, v: string)
    requires !OpenRight("*" + mid)
    ensures TermMatch("*" + mid, Some(v)) <==> EndsWith(v, Unescape(mid))
  {
    var term := "*" + mid;
    assert term[0] == '*' && StartsWith(term, "*");
    assert term[1..|term|] == mid;
  }

  lemma SubstringTerm(mid: string, v: string)
    requires OpenRight("*" + mid + "*")
    ensures TermMatch("*" + mid + "*", Some(v)) <==> Contains(v, Unescape(mid))
  {
    var term := "*" + mid + "*";
    assert term[0] == '*' && StartsWith(term, "*");
    assert term[1..|term| - 1] == mid;
  }

  lemma LoneStar(v: string)
    ensures TermMatch("*", Some(v))
  {
    assert EndsWith("*", "*") && !EndsWith("*", "\\*");
    assert OccursAt(v, "", 0);
  }

  lemma EscapedTermIsExact(literal: string, value: Option<string>)
    ensures TermMatch(Escape(literal), value) <==>
            if IsNullMarker(literal) then value == None else value == Some(literal)
  {
    var e := Escape(literal);
    EscapeEnds(literal);
    EscapeKeepsMarkers(literal);
    UnescapeEscape(literal, "");
    assert e + "" == e && literal + "" == literal;
    if e != "" {
      assert !StartsWith(e, "*");
    }
    if value.Some? && !IsNullMarker(literal) {
      ExactTerm(e, value.value);
    }
  }

  /** Joining escaped literals gives a filter for exactly those values, unless the
      list is empty or one empty literal (an empty filter accepts everything) or
      some literal is one of the two spellings of the null label. */
  lemma JoinedLiteralsMatchExactly(literals: seq<string>)
    ensures (forall v :: FilterMatch(Some(JoinEscaped(literals)), Some(v)) <==> v in literals)
            <==> literals != [] && literals != [""] && forall l :: l in literals ==> !IsNullMarker(l)
  {
    if literals == [] {
      assert FilterMatch(Some(JoinEscaped(literals)), Some("a"));
      assert "a" !in literals;
    } else if literals == [""] {
      assert JoinEscaped(literals) == "";
      assert FilterMatch(Some(JoinEscaped(literals)), Some("a"));
      assert "a" !in literals;
    } else {
      forall v
        ensures FilterMatch(Some(JoinEscaped(literals)), Some(v)) <==> v in literals && !IsNullMarker(v)
      {
        JoinedAccepts(literals, Some(v));
      }
      if l :| l in literals && IsNullMarker(l) {
        assert !FilterMatch(Some(JoinEscaped(literals)), Some(l));
      }
    }
  }

  lemma JoinedAccepts(literals: seq<string>, value: Option<string>)
    requires literals != [] && literals != [""]
    ensures FilterMatch(Some(JoinEscaped(literals)), value) <==>
            exists l :: l in literals && if IsNullMarker(l) then value == None else value == Some(l)
  {
    SplitJoined(literals);
    JoinedNotEmpty(literals);
    var terms := Split(JoinEscaped(literals));
    forall i | 0 <= i < |literals|
      ensures TermMatch(terms[i], value) <==>
              if IsNullMarker(literals[i]) then value == None else value == Some(literals[i])
    {
      EscapedTermIsExact(literals[i], value);
    }
    if l :| l in literals && if IsNullMarker(l) then value == None else value == Some(l) {
      var i :| 0 <= i < |literals| && literals[i] == l;
      assert terms[i] in terms;
    }
    if t :| t in terms && TermMatch(t, value) {
      var i :| 0 <= i < |terms| && terms[i] == t;
      assert literals[i] in literals;
    }
  }

  lemma JoinedNotEmpty(literals: seq<string>)
    requires literals != [] && literals != [""]
    ensures JoinEscaped(literals) != ""
  {
    EscapeEnds(literals[0]);
    if |literals| == 1 {
      assert literals == [literals[0]];
    }
  }

  /** The null label is accepted by a joined filter exactly when one literal spells it. */
  lemma JoinedLiteralsOnNull(literals: seq<string>)
    requires literals != [] && literals != [""]
    ensures FilterMatch(Some(JoinEscaped(literals)), None) <==> exists l :: l in literals && IsNullMarker(l)
  {
    JoinedAccepts(literals, None);
  }

  lemma SplitBeforeStar(literal: string)
    ensures Split(Escape(literal)) == [Escape(literal)] && Split(Escape(literal) + "*") == [Escape(literal) + "*"]
  {
    SplitEscape(literal, "*");
    SplitEscape(literal, "");
    assert Escape(literal) + "" == Escape(literal);
    assert "*"[1..] == "" && "*"[..1] == "*";
    assert Split("*") == Prepend("*", [""]);
    assert "*" + "" == "*";
  }

  lemma SplitAfterStar(rest: string)
    requires Split(rest) == [rest]
    ensures Split("*" + rest) == ["*" + rest]
  {
    assert ("*" + rest)[1..] == rest && ("*" + rest)[..1] == "*";
  }

  lemma SingleTerm(term: string, literal: string, value: Option<string>)
    requires term == Escape(literal) + "*" || term == "*" + Escape(literal) || term == "*" + Escape(literal) + "*"
    ensures FilterMatch(Some(term), value) <==> TermMatch(term, value)
  {
    var e := Escape(literal);
    SplitBeforeStar(literal);
    SplitAfterStar(e);
    SplitAfterStar(e + "*");
    assert "*" + (e + "*") == "*" + e + "*";
    assert term in Split(term);
  }

  /** Of the starred filters only the lone star accepts the absent label. */
  lemma StarredOnNull(literal: string)
    ensures FilterMatch(Some(Escape(literal) + "*"), None) <==> literal == ""
    ensures FilterMatch(Some("*" + Escape(literal)), None) <==> literal == ""
    ensures !FilterMatch(Some("*" + Escape(literal) + "*"), None)
  {
    EscapeEnds(literal);
    var e := Escape(literal);
    SingleTerm(e + "*", literal, None);
    SingleTerm("*" + e, literal, None);
    SingleTerm("*" + e + "*", literal, None);
    assert (e + "*")[|e|] == '*' && ("*" + e)[0] == '*' && ("*" + e + "*")[0] == '*';
  }

  /** A missing or empty filter accepts everything, the absent label too. */
  lemma NoFilterAcceptsAll(expr: Option<string>, value: Option<string>)
    requires expr == None || expr == Some("")
    ensures FilterMatch(expr, value)
  {
  }

  lemma {:induction false} StarredTail(literal: string)
    ensures EndsWith(Escape(literal) + "*", "*") && EndsWith("*" + Escape(literal) + "*", "*")
    ensures EndsWith(Escape(literal) + "*", "\\*") <==> EndsInBackslash(literal)
    ensures EndsWith("*" + Escape(literal) + "*", "\\*") <==> EndsInBackslash(literal)
  {
    EscapeEnds(literal);
    StarTails(Escape(literal) + "*");
    StarTails("*" + Escape(literal) + "*");
  }

  lemma StarredHead(literal: string)
    requires literal != ""
    ensures !OpenRight("*" + Escape(literal))
    ensures !StartsWith(Escape(literal), "*") && !StartsWith(Escape(literal) + "*", "*")
  {
    EscapeEnds(literal);
    var e := Escape(literal);
    assert (e + "*")[0] == e[0] != '*';
    StarTails(e);
    StarTails("*" + e);
    if |e| == 1 {
      assert ("*" + e)[1] == e[0] != '*';
    }
  }

  lemma StarredMeaning(literal: string)
    ensures Unescape(Escape(literal)) == literal
    ensures Unescape(Escape(literal) + "*") == literal + "*"
  {
    UnescapeEscape(literal, "*");
    UnescapeEscape(literal, "");
    assert Escape(literal) + "" == Escape(literal) && literal + "" == literal;
  }

  lemma {:induction false} PrefixFilterMeaning(literal: string, v: string)
    ensures FilterMatch(Some(Escape(literal) + "*"), Some(v)) <==>
            if EndsInBackslash(literal) then v == literal + "*" else StartsWith(v, literal)
  {
    var term := Escape(literal) + "*";
    StarredTail(literal);
    StarredMeaning(literal);
    SingleTerm(term, literal, Some(v));
    if literal == "" {
      assert term == "*";
      LoneStar(v);
    } else {
      StarredHead(literal);
      assert term[|term| - 1] == '*' && !IsNullMarker(term);
      if EndsInBackslash(literal) {
        ExactTerm(term, v);
      } else {
        PrefixTerm(Escape(literal), v);
      }
    }
  }

  /** A trailing star asks for a prefix exactly when the literal does not end in a
      backslash; otherwise the store reads literal-plus-star as an exact term. */
  lemma {:induction false} PrefixFilter(literal: string)
    ensures (forall v :: FilterMatch(Some(Escape(literal) + "*"), Some(v)) <==> StartsWith(v, literal))
            <==> !EndsInBackslash(literal)
    ensures EndsInBackslash(literal) ==>
              forall v :: FilterMatch(Some(Escape(literal) + "*"), Some(v)) <==> v == literal + "*"
  {
    var filter := Some(Escape(literal) + "*");
    forall v
      ensures FilterMatch(filter, Some(v)) <==>
              if EndsInBackslash(literal) then v == literal + "*" else StartsWith(v, literal)
    {
      PrefixFilterMeaning(literal, v);
    }
    if EndsInBackslash(literal) {
      assert StartsWith(literal, literal) && literal != literal + "*";
      assert !FilterMatch(filter, Some(literal));
    }
  }

  /** A leading star always asks for a suffix. */
  lemma SuffixFilter(literal: string, v: string)
    ensures FilterMatch(Some("*" + Escape(literal)), Some(v)) <==> EndsWith(v, literal)
  {
    var term := "*" + Escape(literal);
    StarredMeaning(literal);
    SingleTerm(term, literal, Some(v));
    if literal == "" {
      assert term == "*";
      LoneStar(v);
    } else {
      StarredHead(literal);
      SuffixTerm(Escape(literal), v);
    }
  }

  lemma SubstringFilterMeaning(literal: string, v: string)
    ensures FilterMatch(Some("*" + Escape(literal) + "*"), Some(v)) <==>
            if EndsInBackslash(literal) then EndsWith(v, literal + "*") else Contains(v, literal)
  {
    var e := Escape(literal);
    StarredTail(literal);
    StarredMeaning(literal);
    SingleTerm("*" + e + "*", literal, Some(v));
    if EndsInBackslash(literal) {
      assert "*" + e + "*" == "*" + (e + "*");
      SuffixTerm(e + "*", v);
    } else {
      SubstringTerm(e, v);
    }
  }

  /** Stars on both sides ask for a substring, again unless the literal ends in a backslash. */
  lemma SubstringFilter(literal: string)
    ensures (forall v :: FilterMatch(Some("*" + Escape(literal) + "*"), Some(v)) <==> Contains(v, literal))
            <==> !EndsInBackslash(literal)
  {
    var filter := Some("*" + Escape(literal) + "*");
    forall v
      ensures FilterMatch(filter, Some(v)) <==>
              if EndsInBackslash(literal) then EndsWith(v, literal + "*") else Contains(v, literal)
    {
      SubstringFilterMeaning(literal, v);
    }
    if EndsInBackslash(literal) {
      assert OccursAt(literal, literal, 0);
      assert |literal| < |literal + "*"|;
      assert !FilterMatch(filter, Some(literal));
    }
  }
}
