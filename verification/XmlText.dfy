/** Text on its way into an XML document and back: escaping as the printer does it,
    decoding as an XML parser does it (sections 2.2, 2.4 and 2.11 of XML 1.0),
    stripping, and numbers. */
module XmlText {
  import opened Common

  // ---------- printing ----------

  /** Python's `s.replace(c, sub)`. */
  function Replace(s: string, c: char, sub: string): string {
    if s == "" then "" else (if s[0] == c then sub else s[..1]) + Replace(s[1..], c, sub)
  }

  /** The printer's three replacements, ampersands first. */
  function Escaped(s: string): string {
    Replace(Replace(Replace(s, '&', "&amp;"), '<', "&lt;"), '>', "&gt;")
  }

  function EscapeOf(c: char): string {
    if c == '&' then "&amp;" else if c == '<' then "&lt;" else if c == '>' then "&gt;" else [c]
  }

  function EscapeAll(s: string): string {
    if s == "" then "" else EscapeOf(s[0]) + EscapeAll(s[1..])
  }

  lemma ReplaceCons(x: char, s: string, c: char, sub: string)
    ensures Replace([x] + s, c, sub) == (if x == c then sub else [x]) + Replace(s, c, sub)
  {
    assert ([x] + s)[1..] == s && ([x] + s)[..1] == [x];
  }

  lemma {:induction false} ReplaceConcat(a: string, b: string, c: char, sub: string)
    ensures Replace(a + b, c, sub) == Replace(a, c, sub) + Replace(b, c, sub)
  {
    if a == "" {
      assert a + b == b;
    } else {
      assert (a + b)[1..] == a[1..] + b;
      ReplaceConcat(a[1..], b, c, sub);
    }
  }

  lemma {:induction false} ReplaceAbsent(s: string, c: char, sub: string)
    requires c !in s
    ensures Replace(s, c, sub) == s
  {
    if s != "" {
      assert s[0] in s && forall x :: x in s[1..] ==> x in s;
      ReplaceAbsent(s[1..], c, sub);
      assert s[..1] + s[1..] == s;
    }
  }

  lemma ReplaceOne(c: char, d: char, sub: string)
    ensures Replace([c], d, sub) == if c == d then sub else [c]
  {
    assert [c] == [c] + "";
    ReplaceCons(c, "", d, sub);
  }

  lemma EscapedOne(c: char)
    ensures Escaped([c]) == EscapeOf(c)
  {
    ReplaceOne(c, '&', "&amp;");
    if c == '&' {
      ReplaceAbsent("&amp;", '<', "&lt;");
      ReplaceAbsent("&amp;", '>', "&gt;");
    } else {
      ReplaceOne(c, '<', "&lt;");
      if c == '<' {
        ReplaceAbsent("&lt;", '>', "&gt;");
      } else {
        ReplaceOne(c, '>', "&gt;");
      }
    }
  }

  /** Replacing one character after another escapes each character once. */
  lemma {:induction false} EscapedIsPerCharacter(s: string)
    ensures Escaped(s) == EscapeAll(s)
  {
    if s != "" {
      var head, tail := [s[0]], s[1..];
      assert s == head + tail;
      ReplaceConcat(head, tail, '&', "&amp;");
      ReplaceConcat(Replace(head, '&', "&amp;"), Replace(tail, '&', "&amp;"), '<', "&lt;");
      ReplaceConcat(Replace(Replace(head, '&', "&amp;"), '<', "&lt;"), Replace(Replace(tail, '&', "&amp;"), '<', "&lt;"), '>', "&gt;");
      EscapedOne(s[0]);
      EscapedIsPerCharacter(tail);
    }
  }

  // ---------- parsing ----------

  /** The characters an XML document may hold. */
  predicate XmlChar(c: char) {
    || c == '\t' || c == '\n' || c == '\r'
    || ' ' <= c <= '\U{D7FF}'
    || '\U{E000}' <= c <= '\U{FFFD}'
    || '\U{10000}' <= c
  }

  /** Character data as a parser reports it: entities decoded, line ends normalised;
      `None` is a document that does not parse. */
  function ParseText(s: string): Option<string> {
    if s == "" then Some("")
    else if s[0] == '&' then
      if StartsWith(s, "&amp;") then Before('&', ParseText(s[5..]))
      else if StartsWith(s, "&lt;") then Before('<', ParseText(s[4..]))
      else if StartsWith(s, "&gt;") then Before('>', ParseText(s[4..]))
      else None
    else if s[0] == '<' || !XmlChar(s[0]) then None
    else if s[0] == '\r' then Before('\n', ParseText(if |s| > 1 && s[1] == '\n' then s[2..] else s[1..]))
    else Before(s[0], ParseText(s[1..]))
  }

  function Before(c: char, rest: Option<string>): Option<string> {
    if rest.Some? then Some([c] + rest.value) else None
  }

  /** Line ends as a parser normalises them. */
  function Normalise(s: string): string {
    if s == "" then ""
    else if s[0] == '\r' then "\n" + Normalise(if |s| > 1 && s[1] == '\n' then s[2..] else s[1..])
    else s[..1] + Normalise(s[1..])
  }

  predicate Legal(s: string) {
    forall i :: 0 <= i < |s| ==> XmlChar(s[i])
  }

  lemma EscapeHead(s: string, rest: string)
    requires s != ""
    ensures EscapeAll(s) == EscapeOf(s[0]) + EscapeAll(s[1..])
    ensures s[0] != '&' && s[0] != '<' && s[0] != '>' ==> EscapeAll(s)[0] == s[0] && EscapeAll(s)[1..] == EscapeAll(s[1..])
  {
  }

  lemma ParseEntity(c: char, rest: string)
    requires c == '&' || c == '<' || c == '>'
    ensures ParseText(EscapeOf(c) + rest) == Before(c, ParseText(rest))
  {
    var s := EscapeOf(c) + rest;
    assert s[|EscapeOf(c)|..] == rest && s[..|EscapeOf(c)|] == EscapeOf(c);
    assert s[0] == '&' && s[1] == EscapeOf(c)[1];
    assert "&amp;"[1] == 'a' && "&lt;"[1] == 'l' && "&gt;"[1] == 'g';
    assert StartsWith(s, "&amp;") ==> s[1] == s[..5][1];
    assert StartsWith(s, "&lt;") ==> s[1] == s[..4][1];
    assert StartsWith(s, "&gt;") ==> s[1] == s[..4][1];
  }

  /** What was escaped parses back up to line ends, unless it holds a character no document may. */
  lemma {:induction false} ParseEscaped(s: string)
    ensures ParseText(EscapeAll(s)) == if Legal(s) then Some(Normalise(s)) else None
    decreases |s|
  {
    if s != "" {
      var tail := s[1..];
      ParseEscaped(tail);
      LegalHead(s);
      if s[0] == '&' || s[0] == '<' || s[0] == '>' {
        ParseEntity(s[0], EscapeAll(tail));
        assert s[..1] == [s[0]];
      } else {
        EscapeHead(s, "");
        assert s[..1] == [s[0]];
        if s[0] == '\r' && tail != "" {
          EscapeHead(tail, "");
          if tail[0] == '\n' {
            ParseEscaped(tail[1..]);
            LegalHead(tail);
            assert s[2..] == tail[1..] && s[1] == '\n';
            assert EscapeAll(s)[2..] == EscapeAll(tail)[1..] == EscapeAll(tail[1..]);
          } else {
            assert EscapeAll(tail)[0] != '\n';
            assert EscapeAll(s)[1] == EscapeAll(tail)[0];
          }
        }
      }
    }
  }

  lemma LegalHead(s: string)
    requires s != ""
    ensures Legal(s) <==> XmlChar(s[0]) && Legal(s[1..])
  {
    assert forall i :: 0 <= i < |s| - 1 ==> s[1..][i] == s[i + 1];
    if XmlChar(s[0]) && Legal(s[1..]) {
      forall i | 0 <= i < |s|
        ensures XmlChar(s[i])
      {
        if i > 0 {
          assert s[1..][i - 1] == s[i];
        }
      }
    }
  }

  lemma {:induction false} NormaliseNoReturn(s: string)
    ensures '\r' !in Normalise(s)
    ensures '\r' !in s ==> Normalise(s) == s
    decreases |s|
  {
    if s != "" {
      NormaliseNoReturn(s[1..]);
      if |s| > 1 {
        NormaliseNoReturn(s[2..]);
      }
      assert s[0] in s && (forall x :: x in s[1..] ==> x in s);
      assert s[..1] + s[1..] == s;
    }
  }

  // ---------- stripping ----------

  /** What Python's `strip` takes for white space. */
  predicate IsSpace(c: char) {
    || '\t' <= c <= '\r' || '\U{1C}' <= c <= ' ' || c == '\U{85}' || c == '\U{A0}' || c == '\U{1680}'
    || '\U{2000}' <= c <= '\U{200A}' || c == '\U{2028}' || c == '\U{2029}' || c == '\U{202F}' || c == '\U{205F}' || c == '\U{3000}'
  }

  function StripLeft(s: string): string {
    if s != "" && IsSpace(s[0]) then StripLeft(s[1..]) else s
  }

  function StripRight(s: string): string {
    if s != "" && IsSpace(s[|s| - 1]) then StripRight(s[..|s| - 1]) else s
  }

  function Strip(s: string): string {
    StripRight(StripLeft(s))
  }

  /** No white space at either end. */
  predicate Trimmed(s: string) {
    s != "" ==> !IsSpace(s[0]) && !IsSpace(s[|s| - 1])
  }

  lemma {:induction false} StripLeftPart(s: string)
    ensures StripLeft(s) != "" ==> !IsSpace(StripLeft(s)[0])
    ensures forall c :: c in StripLeft(s) ==> c in s
    ensures |StripLeft(s)| <= |s| && (|StripLeft(s)| == |s| ==> StripLeft(s) == s)
  {
    if s != "" && IsSpace(s[0]) {
      StripLeftPart(s[1..]);
    }
  }

  lemma {:induction false} StripRightPart(s: string)
    ensures StripRight(s) != "" ==> !IsSpace(StripRight(s)[|StripRight(s)| - 1]) && StripRight(s)[0] == s[0]
    ensures forall c :: c in StripRight(s) ==> c in s
    ensures |StripRight(s)| <= |s|
  {
    if s != "" && IsSpace(s[|s| - 1]) {
      StripRightPart(s[..|s| - 1]);
    }
  }

  /** Stripping leaves trimmed text, and only trimmed text is left alone. */
  lemma StripMeaning(s: string)
    ensures Trimmed(Strip(s)) && (Strip(s) == s <==> Trimmed(s))
    ensures forall c :: c in Strip(s) ==> c in s
  {
    StripLeftPart(s);
    StripRightPart(StripLeft(s));
  }

  predicate AllSpace(s: string) {
    forall i :: 0 <= i < |s| ==> IsSpace(s[i])
  }

  lemma Regroup(a: string, b: string, c: string)
    ensures a + (b + c) == (a + b) + c
  {
  }

  lemma {:induction false} StripLeftExactly(s: string) returns (cut: string)
    ensures AllSpace(cut) && s == cut + StripLeft(s)
  {
    if s != "" && IsSpace(s[0]) {
      cut := StripLeftExactly(s[1..]);
      Regroup(s[..1], cut, StripLeft(s[1..]));
      assert s == s[..1] + s[1..];
      cut := s[..1] + cut;
    } else {
      cut := "";
    }
  }

  lemma {:induction false} StripRightExactly(s: string) returns (cut: string)
    ensures AllSpace(cut) && s == StripRight(s) + cut
  {
    if s != "" && IsSpace(s[|s| - 1]) {
      var n := |s| - 1;
      cut := StripRightExactly(s[..n]);
      assert s == s[..n] + s[n..] && (StripRight(s[..n]) + cut) + s[n..] == StripRight(s[..n]) + (cut + s[n..]);
      cut := cut + s[n..];
    } else {
      cut := "";
      assert s + "" == s;
    }
  }

  /** What stripping cuts off at either end is white space, and what is left has none at its ends. */
  lemma StripExactly(s: string) returns (left: string, right: string)
    ensures AllSpace(left) && AllSpace(right) && s == left + Strip(s) + right && Trimmed(Strip(s))
  {
    StripMeaning(s);
    left := StripLeftExactly(s);
    right := StripRightExactly(StripLeft(s));
    assert left + (Strip(s) + right) == left + Strip(s) + right;
  }

  /** A return alone or before a line feed is read as one line feed, wherever it stands. */
  lemma {:induction false} LineEnds(a: string, b: string)
    ensures Normalise(a + "\r\n" + b) == Normalise(a) + "\n" + Normalise(b)
    ensures b == "" || b[0] != '\n' ==> Normalise(a + "\r" + b) == Normalise(a) + "\n" + Normalise(b)
    decreases |a|
  {
    if a == "" {
      assert "" + "\r\n" + b == "\r\n" + b && ("\r\n" + b)[2..] == b && "" + "\r" + b == "\r" + b && ("\r" + b)[1..] == b;
    } else {
      NormaliseOn(a, "\r\n" + b);
      NormaliseOn(a, "\r" + b);
      assert a + ("\r\n" + b) == a + "\r\n" + b && a + ("\r" + b) == a + "\r" + b;
      LineEnds("", b);
    }
  }

  /** Text before a return is read on its own. */
  lemma {:induction false} NormaliseOn(a: string, b: string)
    requires b == "" || b[0] == '\r'
    ensures Normalise(a + b) == Normalise(a) + Normalise(b)
    decreases |a|
  {
    if a == "" {
      assert a + b == b;
    } else {
      var n := NormaliseHead(a, b);
      NormaliseOn(a[n..], b);
    }
  }

  /** The first character, or the return and line feed that count as one, is read alone. */
  lemma NormaliseHead(a: string, b: string) returns (n: nat)
    requires a != "" && (b == "" || b[0] == '\r')
    ensures 0 < n <= |a|
    ensures var head := if a[0] == '\r' then "\n" else [a[0]];
            Normalise(a) == head + Normalise(a[n..]) && Normalise(a + b) == head + Normalise(a[n..] + b)
  {
    n := if a[0] == '\r' && |a| > 1 && a[1] == '\n' then 2 else 1;
    assert (a + b)[n..] == a[n..] + b;
  }

  // ---------- the trip ----------

  /** Text that comes back from a document as it went in. */
  predicate Survives(s: string) {
    Legal(s) && '\r' !in s && Trimmed(s)
  }

  /** Printing, parsing and stripping returns a text exactly when it survives. */
  lemma TripExactly(s: string)
    requires Legal(s)
    ensures ParseText(Escaped(s)) == Some(Normalise(s))
    ensures Strip(Normalise(s)) == s <==> Survives(s)
  {
    EscapedIsPerCharacter(s);
    ParseEscaped(s);
    NormaliseNoReturn(s);
    StripMeaning(Normalise(s));
  }

  lemma IllegalDoesNotParse(s: string)
    requires !Legal(s)
    ensures ParseText(Escaped(s)) == None
  {
    EscapedIsPerCharacter(s);
    ParseEscaped(s);
  }

  // ---------- plain words and numbers ----------

  predicate PlainChar(c: char) {
    '0' <= c <= '9' || 'A' <= c <= 'Z' || 'a' <= c <= 'z' || c == '_' || c == '-'
  }

  /** A word that needs no escaping. */
  predicate Plain(s: string) {
    forall i :: 0 <= i < |s| ==> PlainChar(s[i])
  }

  lemma {:induction false} PlainIsItself(s: string)
    requires Plain(s)
    ensures ParseText(s) == Some(s)
  {
    if s != "" {
      assert Plain(s[1..]);
      PlainIsItself(s[1..]);
      assert PlainChar(s[0]) && [s[0]] + s[1..] == s;
    }
  }

  lemma PlainParses(s: string)
    requires Plain(s)
    ensures ParseText(s) == Some(s) && Strip(s) == s
  {
    PlainIsItself(s);
    StripMeaning(s);
  }

  /** The value of a row of digits, between which single underscores may stand; `None` for anything else. */
  function ReadDigits(s: string): Option<nat> {
    if s == "" then None
    else
      var d := s[|s| - 1];
      if !('0' <= d <= '9') then None
      else if |s| == 1 then Some((d - '0') as nat)
      else
        match ReadDigits(if s[|s| - 2] == '_' then s[..|s| - 2] else s[..|s| - 1])
        case None => None
        case Some(n) => Some(n * 10 + (d - '0') as nat)
  }

  /** What Python's `int` makes of a stripped text: digits with an optional sign. */
  function ReadInt(s: string): Option<int> {
    if s != "" && (s[0] == '-' || s[0] == '+') then
      match ReadDigits(s[1..])
      case None => None
      case Some(n) =>
        var v: int := n;
        Some(if s[0] == '-' then -v else v)
    else ReadDigits(s)
  }

  /** A number as it is printed. */
  function IntText(n: int): string {
    if n < 0 then "-" + Decimal(-n) else Decimal(n)
  }

  lemma {:induction false} DecimalReads(n: nat)
    ensures Plain(Decimal(n)) && Decimal(n) != "" && ReadDigits(Decimal(n)) == Some(n)
    ensures forall i :: 0 <= i < |Decimal(n)| ==> '0' <= Decimal(n)[i] <= '9'
  {
    var s := Decimal(n);
    if n >= 10 {
      DecimalReads(n / 10);
      var front, d := Decimal(n / 10), Digit(n % 10);
      assert s == front + [d] && s[..|s| - 1] == front && s[|s| - 1] == d && s[|s| - 2] == front[|front| - 1];
      assert PlainChar(d);
    }
  }

  /** What is printed for a number reads as the number. */
  lemma IntReads(n: int)
    ensures Plain(IntText(n)) && IntText(n) != "" && ReadInt(IntText(n)) == Some(n)
  {
    DecimalReads(if n < 0 then -n else n);
    assert n < 0 ==> IntText(n)[1..] == Decimal(-n);
  }
}
