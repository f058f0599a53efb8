/** What route templates and request paths mean, told from their spelling: templates are
    written from their parts with slashes at will, and paths are read without outer ones. */
module RouteTemplates {
  import opened Common
  import opened RouteSelection

  function Slashes(n: nat): string {
    if n == 0 then "" else "/" + Slashes(n - 1)
  }

  // ---------- pieces ----------

  predicate Plain(piece: string) {
    piece != "" && '/' !in piece
  }

  /** A template of these pieces: before each a slash and `gaps` more, and `tail` more at the end. */
  function Spell(pieces: seq<string>, gaps: seq<nat>, tail: nat): string
    requires |gaps| == |pieces|
  {
    if pieces == [] then Slashes(tail) else Slashes(gaps[0] + 1) + pieces[0] + Spell(pieces[1..], gaps[1..], tail)
  }

  lemma {:induction false} SegmentsSkipSlashes(n: nat, rest: string)
    ensures Segments(Slashes(n) + rest, "") == Segments(rest, "")
  {
    if n == 0 {
      assert Slashes(0) + rest == rest;
    } else {
      var s := Slashes(n) + rest;
      assert s[0] == '/' && s[1..] == Slashes(n - 1) + rest;
      SegmentsSkipSlashes(n - 1, rest);
      assert [] + Segments(s[1..], "") == Segments(s[1..], "");
    }
  }

  lemma {:induction false} SegmentsReadPiece(p: string, cur: string, rest: string)
    requires '/' !in p && cur + p != "" && (rest == "" || rest[0] == '/')
    ensures Segments(p + rest, cur) == [cur + p] + Segments(rest, "")
    decreases |p|
  {
    if p == "" {
      assert p + rest == rest && cur + p == cur;
      if rest == "" {
        assert [cur] + [] == [cur];
      } else {
        assert [] + Segments(rest[1..], "") == Segments(rest[1..], "");
      }
    } else {
      assert (p + rest)[0] == p[0] && (p + rest)[1..] == p[1..] + rest && (p + rest)[..1] == p[..1];
      assert p[0] in p && forall c :: c in p[1..] ==> c in p;
      SegmentsReadPiece(p[1..], cur + p[..1], rest);
      assert cur + p[..1] + p[1..] == cur + p;
    }
  }

  lemma {:induction false} SpellStarts(pieces: seq<string>, gaps: seq<nat>, tail: nat)
    requires |gaps| == |pieces|
    ensures var s := Spell(pieces, gaps, tail); s == "" || s[0] == '/'
  {
  }

  lemma {:induction false} SegmentsOfSpelling(pieces: seq<string>, gaps: seq<nat>, tail: nat)
    requires |gaps| == |pieces| && forall i :: 0 <= i < |pieces| ==> Plain(pieces[i])
    ensures Segments(Spell(pieces, gaps, tail), "") == pieces
  {
    if pieces == [] {
      SegmentsSkipSlashes(tail, "");
      assert Slashes(tail) + "" == Slashes(tail);
    } else {
      var rest := Spell(pieces[1..], gaps[1..], tail);
      SegmentsSkipSlashes(gaps[0] + 1, pieces[0] + rest);
      assert Slashes(gaps[0] + 1) + pieces[0] + rest == Slashes(gaps[0] + 1) + (pieces[0] + rest);
      SpellStarts(pieces[1..], gaps[1..], tail);
      assert "" + pieces[0] == pieces[0];
      SegmentsReadPiece(pieces[0], "", rest);
      SegmentsOfSpelling(pieces[1..], gaps[1..], tail);
    }
  }

  /** Extra slashes in a template change nothing. */
  lemma SlashesDoNotMatter(pieces: seq<string>, gaps: seq<nat>, tail: nat, gaps2: seq<nat>, tail2: nat, req: string)
    requires |gaps| == |pieces| == |gaps2| && forall i :: 0 <= i < |pieces| ==> Plain(pieces[i])
    ensures Captures(Spell(pieces, gaps, tail), req) == Captures(Spell(pieces, gaps2, tail2), req)
  {
    SegmentsOfSpelling(pieces, gaps, tail);
    SegmentsOfSpelling(pieces, gaps2, tail2);
  }

  // ---------- parts ----------

  /** How a part is written: `{n}` for a parameter, `{n+}` for a greedy one, a literal as it is. */
  function Write(p: Part): string {
    match p
    case Literal(t) => t
    case Param(n) => "{" + n + "}"
    case Greedy(n) => "{" + n + "+}"
  }

  predicate GoodName(n: string) {
    n != "" && '/' !in n && '}' !in n
  }

  /** Parts that can be written: a name has no slash and no closing brace, a plain parameter's
      does not end in a plus unless that is all of it, and a literal is no parameter's text. */
  ghost predicate Writable(p: Part) {
    match p
    case Literal(t) => Plain(t) && forall n :: GoodName(n) ==> t != "{" + n + "}"
    case Param(n) => GoodName(n) && (n[|n| - 1] == '+' ==> n == "+")
    case Greedy(n) => GoodName(n)
  }

  lemma BracedExactly(p: string)
    requires '/' !in p
    ensures Braced(p) <==> exists n :: GoodName(n) && p == "{" + n + "}"
  {
    if Braced(p) {
      var n := p[1..|p| - 1];
      assert p == "{" + n + "}";
      assert forall c :: c in n ==> c in p;
    }
    if n :| GoodName(n) && p == "{" + n + "}" {
      assert p[1..|p| - 1] == n;
    }
  }

  /** What is written for a part is read as that part. */
  lemma WrittenIsRead(p: Part)
    requires Writable(p)
    ensures ParsePart(Write(p)) == p && Plain(Write(p))
  {
    var t := Write(p);
    match p {
      case Literal(_) => BracedExactly(t);
      case Param(n) =>
        assert t[1..|t| - 1] == n;
        BracedExactly(t);
      case Greedy(n) =>
        assert t == "{" + (n + "+") + "}";
        assert t[1..|t| - 1] == n + "+" && (n + "+")[..|n|] == n;
        BracedExactly(t);
    }
  }

  lemma ReadGreedy(piece: string, n: string)
    requires Plain(piece) && Braced(piece) && n != "" && piece == "{" + n + "+}"
    ensures ParsePart(piece) == Greedy(n) && GoodName(n)
  {
    var inner := piece[1..|piece| - 1];
    assert inner == n + "+" && inner[..|inner| - 1] == n;
    assert forall c :: c in n ==> c in inner && c in piece;
  }

  lemma ReadParam(piece: string, n: string)
    requires Plain(piece) && Braced(piece) && piece == "{" + n + "}" && n != "" && (n[|n| - 1] == '+' ==> |n| == 1)
    ensures ParsePart(piece) == Param(n) && GoodName(n)
  {
    assert piece[1..|piece| - 1] == n;
    assert forall c :: c in n ==> c in piece;
  }

  /** Every piece is what is written for some part: for one parameter, or for itself. */
  lemma ReadIsWritten(piece: string)
    requires Plain(piece)
    ensures Writable(ParsePart(piece)) && Write(ParsePart(piece)) == piece
  {
    BracedExactly(piece);
    if Braced(piece) {
      var inner := piece[1..|piece| - 1];
      assert piece == "{" + inner + "}";
      if |inner| >= 2 && inner[|inner| - 1] == '+' {
        var n := inner[..|inner| - 1];
        assert piece == "{" + n + "+}";
        ReadGreedy(piece, n);
      } else {
        ReadParam(piece, inner);
        assert inner[|inner| - 1] == '+' ==> inner == "+";
      }
    }
  }

  function WriteAll(parts: seq<Part>): seq<string> {
    seq(|parts|, i requires 0 <= i < |parts| => Write(parts[i]))
  }

  /** The template of these parts. */
  function TemplateOf(parts: seq<Part>, gaps: seq<nat>, tail: nat): string
    requires |gaps| == |parts|
  {
    Spell(WriteAll(parts), gaps, tail)
  }

  lemma CompileSpelling(parts: seq<Part>, gaps: seq<nat>, tail: nat)
    requires |gaps| == |parts| && forall i :: 0 <= i < |parts| ==> Writable(parts[i])
    ensures Compile(TemplateOf(parts, gaps, tail)) == parts
  {
    var ps := WriteAll(parts);
    forall i | 0 <= i < |parts|
      ensures Plain(ps[i]) && ParsePart(ps[i]) == parts[i]
    {
      WrittenIsRead(parts[i]);
    }
    SegmentsOfSpelling(ps, gaps, tail);
  }

  // ---------- what a spelled template matches ----------

  /** A template matches the paths that some pieces admitted by its parts, in order, spell, each
      after one slash, and captures the greedy reading; a template without parts matches the root. */
  lemma {:induction false} TemplateMeans(parts: seq<Part>, gaps: seq<nat>, tail: nat, req: string)
    requires |gaps| == |parts| && forall i :: 0 <= i < |parts| ==> Writable(parts[i])
    ensures var caps := Captures(TemplateOf(parts, gaps, tail), req);
            && (parts == [] ==> caps == if req == "/" then Some([]) else None)
            && (parts != [] ==>
                  && (caps.Some? <==> exists cs :: Fits(parts, cs, req))
                  && (caps.Some? ==> Fits(parts, caps.value, req))
                  && (forall cs :: Fits(parts, cs, req) ==> caps.Some? && (cs == caps.value || TakesMore(caps.value, cs))))
  {
    CompileSpelling(parts, gaps, tail);
    if parts != [] {
      MatchesExactly(TemplateOf(parts, gaps, tail), req);
      MatchSound(parts, req);
      forall cs | Fits(parts, cs, req)
        ensures Captures(TemplateOf(parts, gaps, tail), req).Some?
        ensures cs == Captures(TemplateOf(parts, gaps, tail), req).value || TakesMore(Captures(TemplateOf(parts, gaps, tail), req).value, cs)
      {
        MatchIsLongest(parts, cs, req);
      }
    }
  }

  /** A route written as a verb, a blank and a template matches a request exactly if the verb is
      the request's or ANY and the template matches the path. */
  lemma {:induction false} RouteMeans(id: string, verb: string, parts: seq<Part>, gaps: seq<nat>, tail: nat, asked: string, req: string)
    requires |gaps| == |parts| && parts != [] && forall i :: 0 <= i < |parts| ==> Writable(parts[i])
    requires ' ' !in verb
    ensures var r := Route(id, verb + " " + TemplateOf(parts, gaps, tail));
            Matches(r, asked, req) <==> verb in {asked, "ANY"} && exists cs :: Fits(parts, cs, req)
  {
    var tmpl := TemplateOf(parts, gaps, tail);
    KeyParts(verb, tmpl);
    TemplateMeans(parts, gaps, tail, req);
  }

  /** The parameters of a matching route: each name with the capture of its last part of that name. */
  lemma {:induction false} ParamsMean(parts: seq<Part>, caps: seq<string>, i: nat)
    requires |caps| == |parts| && i < |parts| && !parts[i].Literal?
    requires forall j :: i < j < |parts| && !parts[j].Literal? ==> parts[j].name != parts[i].name
    ensures parts[i].name in Params(parts, caps) && Params(parts, caps)[parts[i].name] == caps[i]
  {
    var n := |parts| - 1;
    if i < n {
      ParamsMean(parts[..n], caps[..n], i);
    }
  }

  /** And no other names. */
  lemma {:induction false} ParamsAreNamed(parts: seq<Part>, caps: seq<string>, name: string)
    requires |caps| == |parts| && name in Params(parts, caps)
    ensures exists i :: 0 <= i < |parts| && !parts[i].Literal? && parts[i].name == name
  {
    var n := |parts| - 1;
    if n >= 0 && name in Params(parts[..n], caps[..n]) {
      ParamsAreNamed(parts[..n], caps[..n], name);
      var i :| 0 <= i < n && !parts[..n][i].Literal? && parts[..n][i].name == name;
      assert parts[i] == parts[..n][i];
    }
  }

  // ---------- request paths ----------

  /** Text with no slash at either end. */
  predicate Bare(s: string) {
    s == "" || (s[0] != '/' && s[|s| - 1] != '/')
  }

  lemma {:induction false} StripLeftSlashes(n: nat, rest: string)
    ensures StripLeft(Slashes(n) + rest) == StripLeft(rest)
  {
    if n == 0 {
      assert Slashes(0) + rest == rest;
    } else {
      var s := Slashes(n) + rest;
      assert s[0] == '/' && s[1..] == Slashes(n - 1) + rest;
      StripLeftSlashes(n - 1, rest);
    }
  }

  lemma {:induction false} SlashesEnd(n: nat)
    requires n > 0
    ensures Slashes(n) == Slashes(n - 1) + "/"
  {
    if n > 1 {
      SlashesEnd(n - 1);
      assert "/" + (Slashes(n - 2) + "/") == ("/" + Slashes(n - 2)) + "/";
    }
  }

  lemma {:induction false} StripRightSlashes(core: string, n: nat)
    requires Bare(core)
    ensures StripRight(core + Slashes(n)) == core
  {
    if n == 0 {
      assert core + Slashes(0) == core;
    } else {
      SlashesEnd(n);
      var s := core + Slashes(n);
      assert s == (core + Slashes(n - 1)) + "/";
      assert s[|s| - 1] == '/' && s[..|s| - 1] == core + Slashes(n - 1);
      StripRightSlashes(core, n - 1);
    }
  }

  /** A path with any slashes at its ends is read as its inner text after one slash. */
  lemma NormalisedExactly(m: nat, core: string, n: nat)
    requires Bare(core)
    ensures Normalised(Slashes(m) + core + Slashes(n)) == "/" + core
  {
    var rest := core + Slashes(n);
    assert Slashes(m) + core + Slashes(n) == Slashes(m) + rest;
    StripLeftSlashes(m, rest);
    if core == "" {
      assert rest == Slashes(n) == Slashes(n) + "";
      StripLeftSlashes(n, "");
    } else {
      assert rest[0] == core[0];
      StripRightSlashes(core, n);
    }
  }

  lemma {:induction false} SplitLeft(path: string) returns (m: nat, rest: string)
    ensures path == Slashes(m) + rest && (rest == "" || rest[0] != '/')
  {
    if path == "" || path[0] != '/' {
      m, rest := 0, path;
    } else {
      m, rest := SplitLeft(path[1..]);
      m := m + 1;
      assert path == "/" + path[1..] && "/" + (Slashes(m - 1) + rest) == ("/" + Slashes(m - 1)) + rest;
    }
  }

  lemma {:induction false} SplitRight(s: string) returns (core: string, n: nat)
    requires s == "" || s[0] != '/'
    ensures s == core + Slashes(n) && Bare(core)
  {
    if s == "" || s[|s| - 1] != '/' {
      core, n := s, 0;
    } else {
      core, n := SplitRight(s[..|s| - 1]);
      n := n + 1;
      SlashesEnd(n);
      assert s == s[..|s| - 1] + "/" && (core + Slashes(n - 1)) + "/" == core + (Slashes(n - 1) + "/");
    }
  }

  /** Every path is such a one. */
  lemma EveryPathIsSpelled(path: string) returns (m: nat, core: string, n: nat)
    ensures Bare(core) && path == Slashes(m) + core + Slashes(n) && Normalised(path) == "/" + core
  {
    var rest: string;
    m, rest := SplitLeft(path);
    core, n := SplitRight(rest);
    assert path == Slashes(m) + (core + Slashes(n)) == Slashes(m) + core + Slashes(n);
    NormalisedExactly(m, core, n);
  }
}
