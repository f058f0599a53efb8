/** Choosing the route of an HTTP API for a request: template matching as the
    regular-expression engine does it, and the scored search over the routes. */
module RouteSelection {
  import opened Common

  // ---------- templates ----------

  datatype Part = Literal(text: string) | Param(name: string) | Greedy(name: string)

  /** The non-empty pieces between slashes; `cur` is the piece being read. */
  function Segments(s: string, cur: string): seq<string> {
    if s == "" then (if cur == "" then [] else [cur])
    else if s[0] == '/' then (if cur == "" then [] else [cur]) + Segments(s[1..], "")
    else Segments(s[1..], cur + s[..1])
  }

  predicate Braced(p: string) {
    |p| >= 3 && p[0] == '{' && p[|p| - 1] == '}' && '}' !in p[1..|p| - 1]
  }

  function ParsePart(p: string): Part {
    if !Braced(p) then Literal(p)
    else
      var inner := p[1..|p| - 1];
      if |inner| >= 2 && inner[|inner| - 1] == '+' then Greedy(inner[..|inner| - 1]) else Param(inner)
  }

  function Compile(tmpl: string): seq<Part> {
    var ps := Segments(tmpl, "");
    seq(|ps|, i requires 0 <= i < |ps| => ParsePart(ps[i]))
  }

  /** What one part may capture: any text, not a slash for a plain parameter, not a newline for a greedy one. */
  predicate Admits(p: Part, cap: string) {
    match p
    case Literal(t) => cap == t
    case Param(_) => cap != "" && '/' !in cap
    case Greedy(_) => cap != "" && '\n' !in cap
  }

  /** The captures of all parts, the longest first for each part from left to right. */
  function Match(parts: seq<Part>, s: string): Option<seq<string>>
    decreases |parts|, 0, 0
  {
    if parts == [] then (if s == "" then Some([]) else None)
    else if s == "" || s[0] != '/' then None
    else TryLength(parts, s, |s| - 1)
  }

  function TryLength(parts: seq<Part>, s: string, n: nat): Option<seq<string>>
    requires parts != [] && n < |s|
    decreases |parts| - 1, 1, n
  {
    var rest := if Admits(parts[0], s[1..1 + n]) then Match(parts[1..], s[1 + n..]) else None;
    if rest.Some? then Some([s[1..1 + n]] + rest.value)
    else if n == 0 then None
    else TryLength(parts, s, n - 1)
  }

  /** Reads a path from its pieces. */
  function Rebuild(caps: seq<string>): string {
    if caps == [] then "" else "/" + caps[0] + Rebuild(caps[1..])
  }

  ghost predicate Fits(parts: seq<Part>, caps: seq<string>, s: string) {
    && |caps| == |parts|
    && (forall i :: 0 <= i < |parts| ==> Admits(parts[i], caps[i]))
    && Rebuild(caps) == s
  }

  lemma {:induction false} MatchSound(parts: seq<Part>, s: string)
    ensures Match(parts, s).Some? ==> Fits(parts, Match(parts, s).value, s)
    decreases |parts|, 0, 0
  {
    if parts != [] && s != "" && s[0] == '/' {
      TrySound(parts, s, |s| - 1);
    }
  }

  lemma {:induction false} TrySound(parts: seq<Part>, s: string, n: nat)
    requires parts != [] && n < |s| && s[0] == '/'
    ensures TryLength(parts, s, n).Some? ==> Fits(parts, TryLength(parts, s, n).value, s)
    decreases |parts| - 1, 1, n
  {
    var cap := s[1..1 + n];
    MatchSound(parts[1..], s[1 + n..]);
    if Admits(parts[0], cap) && Match(parts[1..], s[1 + n..]).Some? {
      var rest := Match(parts[1..], s[1 + n..]).value;
      var caps := [cap] + rest;
      assert caps[1..] == rest;
      assert s == "/" + cap + s[1 + n..];
    } else if n > 0 {
      TrySound(parts, s, n - 1);
    }
  }

  lemma {:induction false} MatchComplete(parts: seq<Part>, caps: seq<string>, s: string)
    requires Fits(parts, caps, s)
    ensures Match(parts, s).Some?
    decreases |parts|, 0, 0
  {
    if parts != [] {
      var n := |caps[0]|;
      assert s == "/" + caps[0] + Rebuild(caps[1..]);
      assert s[1..1 + n] == caps[0] && s[1 + n..] == Rebuild(caps[1..]);
      MatchComplete(parts[1..], caps[1..], s[1 + n..]);
      TryReaches(parts, s, n, |s| - 1);
    }
  }

  lemma {:induction false} TryReaches(parts: seq<Part>, s: string, n: nat, from: nat)
    requires parts != [] && n <= from < |s|
    requires Admits(parts[0], s[1..1 + n]) && Match(parts[1..], s[1 + n..]).Some?
    ensures TryLength(parts, s, from).Some?
  {
    if from > n {
      TryReaches(parts, s, n, from - 1);
    }
  }

  /** At the first piece where the two readings differ, `a` takes more. */
  predicate TakesMore(a: seq<string>, b: seq<string>) {
    a != [] && b != [] && (|a[0]| > |b[0]| || (a[0] == b[0] && TakesMore(a[1..], b[1..])))
  }

  /** Of all ways to read a path, the match is the one that takes the longest piece first. */
  lemma {:induction false} MatchIsLongest(parts: seq<Part>, caps: seq<string>, s: string)
    requires Fits(parts, caps, s)
    ensures Match(parts, s).Some? && (Match(parts, s).value == caps || TakesMore(Match(parts, s).value, caps))
    decreases |parts|, 0, 0
  {
    if parts == [] {
      assert caps == [];
    } else {
      var n := |caps[0]|;
      assert s == "/" + caps[0] + Rebuild(caps[1..]);
      assert s[1..1 + n] == caps[0] && s[1 + n..] == Rebuild(caps[1..]);
      TryIsLongest(parts, caps, s, |s| - 1);
    }
  }

  lemma {:induction false} TryIsLongest(parts: seq<Part>, caps: seq<string>, s: string, from: nat)
    requires parts != [] && Fits(parts, caps, s) && |caps[0]| <= from < |s|
    requires s[1..1 + |caps[0]|] == caps[0] && s[1 + |caps[0]|..] == Rebuild(caps[1..])
    ensures TryLength(parts, s, from).Some?
            && (TryLength(parts, s, from).value == caps || TakesMore(TryLength(parts, s, from).value, caps))
    decreases |parts| - 1, 1, from
  {
    var rest := if Admits(parts[0], s[1..1 + from]) then Match(parts[1..], s[1 + from..]) else None;
    if rest.Some? {
      var found := [s[1..1 + from]] + rest.value;
      assert found[1..] == rest.value;
      if from == |caps[0]| {
        MatchIsLongest(parts[1..], caps[1..], s[1 + from..]);
        assert caps == [caps[0]] + caps[1..];
      }
    } else if from == |caps[0]| {
      MatchIsLongest(parts[1..], caps[1..], s[1 + from..]);
    } else {
      TryIsLongest(parts, caps, s, from - 1);
    }
  }

  // ---------- one route ----------

  datatype Route = Route(id: string, key: string)

  const DEFAULT_KEY := "$default"

  function BeforeSpace(key: string): string {
    if key == "" || key[0] == ' ' then "" else key[..1] + BeforeSpace(key[1..])
  }

  function Verb(key: string): string {
    BeforeSpace(key)
  }

  function Template(key: string): string {
    var n := |BeforeSpace(key)|;
    if n < |key| then key[n + 1..] else ""
  }

  function StripLeft(s: string): string {
    if s != "" && s[0] == '/' then StripLeft(s[1..]) else s
  }

  function StripRight(s: string): string {
    if s != "" && s[|s| - 1] == '/' then StripRight(s[..|s| - 1]) else s
  }

  /** The normalised path: one leading slash, none at the end. */
  function Normalised(path: string): string {
    "/" + StripRight(StripLeft(path))
  }

  /** The captures with which a template matches a path; the empty template is the root. */
  function Captures(tmpl: string, req: string): Option<seq<string>> {
    if Compile(tmpl) == [] then (if req == "/" then Some([]) else None) else Match(Compile(tmpl), req)
  }

  predicate Matches(r: Route, verb: string, req: string) {
    r.key != DEFAULT_KEY && (Verb(r.key) == verb || Verb(r.key) == "ANY") && Captures(Template(r.key), req).Some?
  }

  function ParamCount(parts: seq<Part>): nat {
    if parts == [] then 0 else ParamCount(parts[..|parts| - 1]) + if parts[|parts| - 1].Literal? then 0 else 1
  }

  function Score(r: Route, verb: string): int {
    var tmpl := Template(r.key);
    10 + |tmpl| * 2 - 5 * ParamCount(Compile(tmpl)) + if Verb(r.key) == verb then 1 else 0
  }

  /** Parameter names and what they captured; a repeated name keeps its last capture. */
  function Params(parts: seq<Part>, caps: seq<string>): map<string, string>
    requires |caps| == |parts|
  {
    if parts == [] then map[]
    else
      var n := |parts| - 1;
      var before := Params(parts[..n], caps[..n]);
      if parts[n].Literal? then before else before[parts[n].name := caps[n]]
  }

  // ---------- scores are above the default's ----------

  function TotalLength(ps: seq<string>): nat {
    if ps == [] then 0 else TotalLength(ps[..|ps| - 1]) + |ps[|ps| - 1]|
  }

  lemma {:induction false} TotalLengthCons(p: string, ps: seq<string>)
    ensures TotalLength([p] + ps) == |p| + TotalLength(ps)
  {
    if ps == [] {
      assert [p] + ps == [p] && [p][..0] == [];
      assert TotalLength([p]) == TotalLength([]) + |p|;
    } else {
      var n := |ps| - 1;
      assert ([p] + ps)[..n + 1] == [p] + ps[..n];
      TotalLengthCons(p, ps[..n]);
    }
  }

  lemma {:induction false} SegmentsFit(s: string, cur: string)
    ensures TotalLength(Segments(s, cur)) <= |s| + |cur|
    decreases |s|
  {
    if s == "" {
      if cur != "" {
        TotalLengthCons(cur, []);
        assert [cur] + [] == [cur];
      }
    } else if s[0] == '/' {
      SegmentsFit(s[1..], "");
      if cur != "" {
        TotalLengthCons(cur, Segments(s[1..], ""));
      } else {
        assert [] + Segments(s[1..], "") == Segments(s[1..], "");
      }
    } else {
      SegmentsFit(s[1..], cur + s[..1]);
    }
  }

  lemma {:induction false} ParamsAreLong(ps: seq<string>)
    ensures 3 * ParamCount(seq(|ps|, i requires 0 <= i < |ps| => ParsePart(ps[i]))) <= TotalLength(ps)
  {
    if ps != [] {
      var n := |ps| - 1;
      var parts := seq(|ps|, i requires 0 <= i < |ps| => ParsePart(ps[i]));
      ParamsAreLong(ps[..n]);
      assert parts[..n] == seq(n, i requires 0 <= i < n => ParsePart(ps[..n][i]));
    }
  }

  /** Every template scores above the default route, however many parameters it has. */
  lemma ScoreIsPositive(r: Route, verb: string)
    ensures Score(r, verb) >= 10
  {
    var tmpl := Template(r.key);
    SegmentsFit(tmpl, "");
    ParamsAreLong(Segments(tmpl, ""));
  }

  // ---------- the search ----------

  /** Index `b` is the first route of the highest score among the first `n` that match. */
  ghost predicate IsBest(routes: seq<Route>, n: nat, verb: string, req: string, b: nat)
    requires n <= |routes|
  {
    && b < n && Matches(routes[b], verb, req)
    && forall i :: 0 <= i < n && Matches(routes[i], verb, req) ==>
         Score(routes[i], verb) <= Score(routes[b], verb) && (i < b ==> Score(routes[i], verb) < Score(routes[b], verb))
  }

  ghost predicate NoneMatches(routes: seq<Route>, n: nat, verb: string, req: string)
    requires n <= |routes|
  {
    forall i :: 0 <= i < n ==> !Matches(routes[i], verb, req)
  }

  /** The default route is the choice, and only because nothing else matches. */
  ghost predicate IsFallback(routes: seq<Route>, n: nat, verb: string, req: string, b: nat)
    requires n <= |routes|
  {
    NoneMatches(routes, n, verb, req) && b < n && routes[b].key == DEFAULT_KEY
    && forall i :: 0 <= i < b ==> routes[i].key != DEFAULT_KEY
  }

  ghost predicate NothingFound(routes: seq<Route>, n: nat, verb: string, req: string)
    requires n <= |routes|
  {
    NoneMatches(routes, n, verb, req) && forall i :: 0 <= i < n ==> routes[i].key != DEFAULT_KEY
  }

  function BestParams(r: Route, req: string): map<string, string>
    requires Captures(Template(r.key), req).Some?
  {
    CapturesFit(Template(r.key), req);
    Params(Compile(Template(r.key)), Captures(Template(r.key), req).value)
  }

  lemma CapturesFit(tmpl: string, req: string)
    ensures Captures(tmpl, req).Some? ==> |Captures(tmpl, req).value| == |Compile(tmpl)|
    ensures Captures(tmpl, req).Some? && Compile(tmpl) != [] ==> Fits(Compile(tmpl), Captures(tmpl, req).value, req)
  {
    MatchSound(Compile(tmpl), req);
  }

  /** What the search knows after the first `k` routes. */
  ghost predicate Progress(routes: seq<Route>, k: nat, verb: string, req: string, best: Option<nat>, score: int)
    requires k <= |routes|
  {
    match best
    case None => NothingFound(routes, k, verb, req) && score == -1
    case Some(b) => (IsBest(routes, k, verb, req, b) && score == Score(routes[b], verb)) || (IsFallback(routes, k, verb, req, b) && score == 0)
  }

  lemma SkipUnmatched(routes: seq<Route>, k: nat, verb: string, req: string, best: Option<nat>, score: int)
    requires k < |routes| && Progress(routes, k, verb, req, best, score)
    requires !Matches(routes[k], verb, req) && (routes[k].key == DEFAULT_KEY ==> best.Some?)
    ensures Progress(routes, k + 1, verb, req, best, score)
  {
    if best.Some? {
      if IsBest(routes, k, verb, req, best.value) {
        BestSkips(routes, k, verb, req, best.value);
      } else {
        assert IsFallback(routes, k + 1, verb, req, best.value);
      }
    }
  }

  lemma BestSkips(routes: seq<Route>, k: nat, verb: string, req: string, b: nat)
    requires k < |routes| && IsBest(routes, k, verb, req, b) && !Matches(routes[k], verb, req)
    ensures IsBest(routes, k + 1, verb, req, b)
  {
    forall i | 0 <= i < k + 1 && Matches(routes[i], verb, req)
      ensures Score(routes[i], verb) <= Score(routes[b], verb) && (i < b ==> Score(routes[i], verb) < Score(routes[b], verb))
    {
      assert i < k;
    }
  }

  lemma TakeDefault(routes: seq<Route>, k: nat, verb: string, req: string, score: int)
    requires k < |routes| && Progress(routes, k, verb, req, None, score) && routes[k].key == DEFAULT_KEY
    ensures Progress(routes, k + 1, verb, req, Some(k), 0)
  {
  }

  /** A match after none is the best so far. */
  lemma FirstMatch(routes: seq<Route>, k: nat, verb: string, req: string)
    requires k < |routes| && NoneMatches(routes, k, verb, req) && Matches(routes[k], verb, req)
    ensures IsBest(routes, k + 1, verb, req, k)
  {
  }

  lemma BetterMatch(routes: seq<Route>, k: nat, verb: string, req: string, b: nat)
    requires k < |routes| && IsBest(routes, k, verb, req, b) && Matches(routes[k], verb, req)
    requires Score(routes[k], verb) > Score(routes[b], verb)
    ensures IsBest(routes, k + 1, verb, req, k)
  {
    var best := Score(routes[k], verb);
    forall i | 0 <= i < k + 1 && Matches(routes[i], verb, req)
      ensures Score(routes[i], verb) <= best && (i < k ==> Score(routes[i], verb) < best)
    {
      if i < k {
        assert Score(routes[i], verb) <= Score(routes[b], verb);
      }
    }
  }

  lemma NoBetter(routes: seq<Route>, k: nat, verb: string, req: string, b: nat)
    requires k < |routes| && IsBest(routes, k, verb, req, b) && Matches(routes[k], verb, req)
    requires Score(routes[k], verb) <= Score(routes[b], verb)
    ensures IsBest(routes, k + 1, verb, req, b)
  {
    forall i | 0 <= i < k + 1 && Matches(routes[i], verb, req)
      ensures Score(routes[i], verb) <= Score(routes[b], verb) && (i < b ==> Score(routes[i], verb) < Score(routes[b], verb))
    {
      if i == k {
        assert b < i;
      }
    }
  }

  lemma TakeMatch(routes: seq<Route>, k: nat, verb: string, req: string, best: Option<nat>, score: int)
    requires k < |routes| && Progress(routes, k, verb, req, best, score) && Matches(routes[k], verb, req)
    ensures Score(routes[k], verb) > score ==> Progress(routes, k + 1, verb, req, Some(k), Score(routes[k], verb))
    ensures Score(routes[k], verb) <= score ==> Progress(routes, k + 1, verb, req, best, score)
    ensures Score(routes[k], verb) <= score ==> best.Some? && Matches(routes[best.value], verb, req)
  {
    ScoreIsPositive(routes[k], verb);
    if best.None? || IsFallback(routes, k, verb, req, best.value) {
      FirstMatch(routes, k, verb, req);
    } else if Score(routes[k], verb) > score {
      BetterMatch(routes, k, verb, req, best.value);
    } else {
      NoBetter(routes, k, verb, req, best.value);
    }
  }

  method RouteMatch(routes: seq<Route>, verb: string, path: string) returns (best: Option<nat>, params: map<string, string>)
    ensures best.Some? ==>
              || (IsBest(routes, |routes|, verb, Normalised(path), best.value) && params == BestParams(routes[best.value], Normalised(path)))
              || (IsFallback(routes, |routes|, verb, Normalised(path), best.value) && params == map[])
    ensures best.None? ==> NothingFound(routes, |routes|, verb, Normalised(path))
  {
    var bestScore := -1;
    best, params := None, map[];
    var req := Normalised(path);
    var k := 0;
    while k < |routes|
      invariant 0 <= k <= |routes|
      invariant Progress(routes, k, verb, req, best, bestScore)
      invariant best.Some? ==> best.value < |routes| && params == ParamsOf(routes[best.value], verb, req)
    {
      var r := routes[k];
      if r.key == DEFAULT_KEY {
        if best.None? {
          TakeDefault(routes, k, verb, req, bestScore);
          best, bestScore, params := Some(k), 0, map[];
        } else {
          SkipUnmatched(routes, k, verb, req, best, bestScore);
        }
        k := k + 1;
        continue;
      }
      if (Verb(r.key) != verb && Verb(r.key) != "ANY") || Captures(Template(r.key), req).None? {
        SkipUnmatched(routes, k, verb, req, best, bestScore);
        k := k + 1;
        continue;
      }
      TakeMatch(routes, k, verb, req, best, bestScore);
      var score := Score(r, verb);
      if score > bestScore {
        best, bestScore, params := Some(k), score, BestParams(r, req);
      }
      k := k + 1;
    }
  }

  /** The parameters of a chosen route: its captures, or none for the default route. */
  function ParamsOf(r: Route, verb: string, req: string): map<string, string> {
    if Matches(r, verb, req) then BestParams(r, req) else map[]
  }

  // ---------- what the captures mean ----------

  /** The template with each parameter replaced by its value. */
  function Substitute(parts: seq<Part>, params: map<string, string>): seq<string> {
    seq(|parts|, i requires 0 <= i < |parts| =>
      match parts[i]
      case Literal(t) => t
      case Param(n) => if n in params then params[n] else ""
      case Greedy(n) => if n in params then params[n] else "")
  }

  predicate DistinctNames(parts: seq<Part>) {
    forall i, j :: 0 <= i < j < |parts| && !parts[i].Literal? && !parts[j].Literal? ==> parts[i].name != parts[j].name
  }

  lemma {:induction false} ParamsHold(parts: seq<Part>, caps: seq<string>, i: nat)
    requires |caps| == |parts| && DistinctNames(parts) && i < |parts| && !parts[i].Literal?
    ensures parts[i].name in Params(parts, caps) && Params(parts, caps)[parts[i].name] == caps[i]
  {
    var n := |parts| - 1;
    if i < n {
      assert DistinctNames(parts[..n]);
      ParamsHold(parts[..n], caps[..n], i);
    }
  }

  /** With distinct parameter names, putting the captured parameters back into the
      winning template rebuilds the normalised path. */
  lemma ParamsRebuildPath(r: Route, verb: string, path: string)
    requires Matches(r, verb, Normalised(path)) && DistinctNames(Compile(Template(r.key)))
    ensures var parts := Compile(Template(r.key));
            parts != [] ==> Rebuild(Substitute(parts, BestParams(r, Normalised(path)))) == Normalised(path)
    ensures Compile(Template(r.key)) == [] ==> Normalised(path) == "/"
  {
    var req := Normalised(path);
    var parts := Compile(Template(r.key));
    CapturesFit(Template(r.key), req);
    if parts != [] {
      var caps := Captures(Template(r.key), req).value;
      var filled := Substitute(parts, BestParams(r, req));
      forall i | 0 <= i < |parts|
        ensures filled[i] == caps[i]
      {
        assert Admits(parts[i], caps[i]);
        if !parts[i].Literal? {
          ParamsHold(parts, caps, i);
        }
      }
      assert filled == caps;
    }
  }

  /** A route matches exactly when some pieces admitted by its template spell the path. */
  lemma MatchesExactly(tmpl: string, req: string)
    requires Compile(tmpl) != []
    ensures Captures(tmpl, req).Some? <==> exists caps :: Fits(Compile(tmpl), caps, req)
  {
    MatchSound(Compile(tmpl), req);
    if caps :| Fits(Compile(tmpl), caps, req) {
      MatchComplete(Compile(tmpl), caps, req);
    }
  }

  // ---------- which kind of route is chosen ----------

  function VerbBonus(r: Route, verb: string): nat {
    if Verb(r.key) == verb then 1 else 0
  }

  /** Two points a character of the template, five off a parameter, one for the named verb. */
  function Points(r: Route, verb: string): int {
    2 * |Template(r.key)| - 5 * ParamCount(Compile(Template(r.key))) + VerbBonus(r, verb)
  }

  /** Route `e` has more points than route `i`, or as many and stands before it. */
  predicate Ahead(routes: seq<Route>, e: nat, i: nat, verb: string)
    requires e < |routes| && i < |routes|
  {
    Points(routes[e], verb) > Points(routes[i], verb) || (Points(routes[e], verb) == Points(routes[i], verb) && e < i)
  }

  /** Some matching route of the kind is ahead of every matching route of another kind. */
  ghost predicate KindLeads(routes: seq<Route>, verb: string, req: string, kind: Route -> bool) {
    exists e :: 0 <= e < |routes| && kind(routes[e]) && Matches(routes[e], verb, req)
      && forall i :: 0 <= i < |routes| && !kind(routes[i]) && Matches(routes[i], verb, req) ==> Ahead(routes, e, i, verb)
  }

  /** The search chooses a route of a kind exactly when some matching route of that kind is
      ahead of every matching route of another kind. */
  lemma {:induction false} ChosenKindExactly(routes: seq<Route>, verb: string, req: string, b: nat, kind: Route -> bool)
    requires IsBest(routes, |routes|, verb, req, b)
    ensures kind(routes[b]) <==> KindLeads(routes, verb, req, kind)
  {
    forall i | 0 <= i < |routes| && Matches(routes[i], verb, req) && i != b
      ensures Ahead(routes, b, i, verb) && !Ahead(routes, i, b, verb)
    {
      assert Score(routes[i], verb) <= Score(routes[b], verb);
    }
  }

  predicate IsLiteral(r: Route) {
    ParamCount(Compile(Template(r.key))) == 0
  }

  predicate WithoutGreedy(r: Route) {
    forall i :: 0 <= i < |Compile(Template(r.key))| ==> !Compile(Template(r.key))[i].Greedy?
  }

  function NamesVerb(verb: string): Route -> bool {
    (r: Route) => Verb(r.key) == verb
  }

  /** The documented order, "exact > param > greedy > ANY", rank by rank: a matching literal
      route, one without a greedy parameter, one that names the verb is chosen exactly when
      some such route is ahead of every matching route that is not one. */
  lemma {:induction false} DocumentedRanksExactly(routes: seq<Route>, verb: string, req: string, b: nat)
    requires IsBest(routes, |routes|, verb, req, b)
    ensures IsLiteral(routes[b]) <==> KindLeads(routes, verb, req, IsLiteral)
    ensures WithoutGreedy(routes[b]) <==> KindLeads(routes, verb, req, WithoutGreedy)
    ensures Verb(routes[b].key) == verb <==> KindLeads(routes, verb, req, NamesVerb(verb))
  {
    ChosenKindExactly(routes, verb, req, b, IsLiteral);
    ChosenKindExactly(routes, verb, req, b, WithoutGreedy);
    ChosenKindExactly(routes, verb, req, b, NamesVerb(verb));
  }

  // ---------- names against captures ----------

  /** A template with one slash before each piece and none besides. */
  predicate Canonical(tmpl: string) {
    tmpl != "" && Rebuild(Segments(tmpl, "")) == tmpl
  }

  function PartLength(p: Part): nat {
    match p
    case Literal(t) => |t|
    case Param(n) => |n| + 2
    case Greedy(n) => |n| + 3
  }

  /** By how much the names of a template outweigh what they capture: two points a character,
      and one more for a greedy parameter, one less for a plain one. */
  function Excess(parts: seq<Part>, caps: seq<string>): int
    requires |caps| == |parts|
  {
    if parts == [] then 0
    else
      Excess(parts[1..], caps[1..]) +
      match parts[0]
      case Literal(_) => 0
      case Param(n) => 2 * (|n| - |caps[0]|) - 1
      case Greedy(n) => 2 * (|n| - |caps[0]|) + 1
  }

  function Written(parts: seq<Part>): nat {
    if parts == [] then 0 else 1 + PartLength(parts[0]) + Written(parts[1..])
  }

  lemma {:induction false} ParamCountHead(parts: seq<Part>)
    requires parts != []
    ensures ParamCount(parts) == ParamCount(parts[1..]) + if parts[0].Literal? then 0 else 1
  {
    var n := |parts| - 1;
    if n > 0 {
      ParamCountHead(parts[..n]);
      assert parts[..n][1..] == parts[1..][..n - 1];
    } else {
      assert parts[..0] == [] && parts[1..] == [];
    }
  }

  lemma {:induction false} RebuildLength(caps: seq<string>, ps: seq<string>)
    requires caps == ps
    ensures |Rebuild(caps)| == Written(seq(|ps|, i requires 0 <= i < |ps| => ParsePart(ps[i])))
  {
    if ps != [] {
      var parts := seq(|ps|, i requires 0 <= i < |ps| => ParsePart(ps[i]));
      var tail := seq(|ps[1..]|, i requires 0 <= i < |ps[1..]| => ParsePart(ps[1..][i]));
      assert parts[1..] == tail;
      RebuildLength(caps[1..], ps[1..]);
    }
  }

  lemma {:induction false} WrittenByCaptures(parts: seq<Part>, caps: seq<string>, s: string)
    requires Fits(parts, caps, s)
    ensures 2 * Written(parts) - 5 * ParamCount(parts) == 2 * |s| + Excess(parts, caps)
  {
    if parts != [] {
      var rest := Rebuild(caps[1..]);
      assert Fits(parts[1..], caps[1..], rest);
      WrittenByCaptures(parts[1..], caps[1..], rest);
      ParamCountHead(parts);
      assert Admits(parts[0], caps[0]);
      assert s == "/" + caps[0] + rest;
    }
  }

  /** A matching route's points, told from the request: twice its length and the excess. */
  lemma PointsByCaptures(r: Route, verb: string, req: string)
    requires Canonical(Template(r.key)) && Captures(Template(r.key), req).Some?
    ensures |Captures(Template(r.key), req).value| == |Compile(Template(r.key))|
    ensures Points(r, verb) == 2 * |req| + Excess(Compile(Template(r.key)), Captures(Template(r.key), req).value) + VerbBonus(r, verb)
  {
    var tmpl := Template(r.key);
    CapturesFit(tmpl, req);
    RebuildLength(Segments(tmpl, ""), Segments(tmpl, ""));
    WrittenByCaptures(Compile(tmpl), Captures(tmpl, req).value, req);
  }

  lemma {:induction false} LiteralExcess(parts: seq<Part>, caps: seq<string>)
    requires |caps| == |parts| && ParamCount(parts) == 0
    ensures Excess(parts, caps) == 0
  {
    if parts != [] {
      ParamCountHead(parts);
      LiteralExcess(parts[1..], caps[1..]);
    }
  }

  /** Of two matching routes with canonical templates, the literal one has more points exactly
      when the other's names do not outweigh what they capture, the verbs' points aside. */
  lemma LiteralLeadsExactly(exact: Route, other: Route, verb: string, req: string)
    requires Canonical(Template(exact.key)) && Canonical(Template(other.key))
    requires Matches(exact, verb, req) && Matches(other, verb, req) && IsLiteral(exact)
    ensures |Captures(Template(other.key), req).value| == |Compile(Template(other.key))|
    ensures Points(exact, verb) > Points(other, verb) <==>
            Excess(Compile(Template(other.key)), Captures(Template(other.key), req).value) + VerbBonus(other, verb) < VerbBonus(exact, verb)
  {
    PointsByCaptures(exact, verb, req);
    PointsByCaptures(other, verb, req);
    LiteralExcess(Compile(Template(exact.key)), Captures(Template(exact.key), req).value);
  }

  lemma KeyParts(verb: string, tmpl: string)
    requires ' ' !in verb
    ensures Verb(verb + " " + tmpl) == verb && Template(verb + " " + tmpl) == tmpl
  {
    BeforeSpaceOf(verb, tmpl);
    assert (verb + " " + tmpl)[|verb| + 1..] == tmpl;
  }

  lemma {:induction false} BeforeSpaceOf(verb: string, tmpl: string)
    requires ' ' !in verb
    ensures BeforeSpace(verb + " " + tmpl) == verb
  {
    var key := verb + " " + tmpl;
    if verb == "" {
      assert key[0] == ' ';
    } else {
      assert key[0] == verb[0] && key[..1] == verb[..1];
      assert key[1..] == verb[1..] + " " + tmpl;
      assert forall c :: c in verb[1..] ==> c in verb;
      BeforeSpaceOf(verb[1..], tmpl);
      assert verb[..1] + verb[1..] == verb;
    }
  }

  /** Both routes match, and the one with parameters outscores the literal one. */
  predicate ParametersWin(exact: Route, other: Route, verb: string, path: string) {
    && Matches(exact, verb, Normalised(path)) && Matches(other, verb, Normalised(path))
    && ParamCount(Compile(Template(exact.key))) == 0 && ParamCount(Compile(Template(other.key))) > 0
    && Score(other, verb) > Score(exact, verb)
  }

  const EXACT_A := Route("1", "GET" + " " + "/a")
  const CATCH_ALL := Route("2", "GET" + " " + "/{p+}")

  lemma {:induction false} ExactMatches()
    ensures Matches(EXACT_A, "GET", "/a") && Verb(EXACT_A.key) == "GET" && Template(EXACT_A.key) == "/a"
  {
    KeyParts("GET", "/a");
    assert EXACT_A.key[0] == 'G';
    CompileA();
    MatchesExactly("/a", "/a");
  }

  lemma CatchAllMatches()
    ensures Matches(CATCH_ALL, "GET", "/a") && Verb(CATCH_ALL.key) == "GET" && Template(CATCH_ALL.key) == "/{p+}"
  {
    KeyParts("GET", "/{p+}");
    assert CATCH_ALL.key[0] == 'G';
    CompileCatchAll();
    MatchesExactly("/{p+}", "/a");
  }

  /** "Exact beats parameter" does not hold: a longer template scores its own length, so
      a catch-all can win over the literal path. */
  lemma CatchAllCanBeatExact()
    ensures exists exact, other, verb, path :: ParametersWin(exact, other, verb, path)
  {
    RootA();
    ExactMatches();
    CatchAllMatches();
    CompileA();
    CompileCatchAll();
    assert ParametersWin(EXACT_A, CATCH_ALL, "GET", "/a");
  }

  const PLAIN := Route("3", "GET" + " " + "/{p}")

  lemma PlainMatches()
    ensures Matches(PLAIN, "GET", "/a") && Verb(PLAIN.key) == "GET" && Template(PLAIN.key) == "/{p}"
  {
    KeyParts("GET", "/{p}");
    assert PLAIN.key[0] == 'G';
    CompilePlain();
    MatchesExactly("/{p}", "/a");
  }

  /** Both routes match, and the one with a greedy parameter outscores the one without. */
  predicate GreedyWins(plain: Route, greedy: Route, verb: string, path: string) {
    && Matches(plain, verb, Normalised(path)) && Matches(greedy, verb, Normalised(path))
    && WithoutGreedy(plain) && !WithoutGreedy(greedy) && Score(greedy, verb) > Score(plain, verb)
  }

  /** "Parameter beats greedy" does not hold either: the plus sign is two points more. */
  lemma GreedyCanBeatPlain()
    ensures exists plain, greedy, verb, path :: GreedyWins(plain, greedy, verb, path)
  {
    RootA();
    PlainMatches();
    CatchAllMatches();
    CompilePlain();
    CompileCatchAll();
    assert Compile("/{p+}")[0].Greedy? && WithoutGreedy(PLAIN);
    assert GreedyWins(PLAIN, CATCH_ALL, "GET", "/a");
  }

  const LONG_ANY := Route("4", "ANY" + " " + "/{pp}")

  lemma LongAnyMatches()
    ensures Matches(LONG_ANY, "GET", "/a") && Verb(LONG_ANY.key) == "ANY" && Template(LONG_ANY.key) == "/{pp}"
  {
    KeyParts("ANY", "/{pp}");
    assert LONG_ANY.key[0] == 'A';
    CompileLong();
    MatchesExactly("/{pp}", "/a");
  }

  /** Both routes match, and the one that does not name the verb outscores the one that does. */
  predicate AnyWins(named: Route, any: Route, verb: string, path: string) {
    && Matches(named, verb, Normalised(path)) && Matches(any, verb, Normalised(path))
    && Verb(named.key) == verb && Verb(any.key) != verb && Score(any, verb) > Score(named, verb)
  }

  /** Nor does "a verb beats ANY": a longer parameter name is worth more than the verb. */
  lemma AnyCanBeatNamed()
    ensures exists named, any, verb, path :: AnyWins(named, any, verb, path)
  {
    RootA();
    PlainMatches();
    LongAnyMatches();
    CompilePlain();
    CompileLong();
    assert AnyWins(PLAIN, LONG_ANY, "GET", "/a");
  }

  lemma CompileLong()
    ensures Compile("/{pp}") == [Param("pp")] && ParamCount(Compile("/{pp}")) == 1
    ensures Fits(Compile("/{pp}"), ["a"], "/a")
  {
    SegmentsOne("{pp}");
    assert "/{pp}" == "/" + "{pp}";
    assert "{pp}"[1..3] == "pp";
    assert Compile("/{pp}")[..0] == [];
    RootA();
  }

  lemma CompilePlain()
    ensures Compile("/{p}") == [Param("p")] && ParamCount(Compile("/{p}")) == 1
    ensures Fits(Compile("/{p}"), ["a"], "/a")
  {
    SegmentsOne("{p}");
    assert "/{p}" == "/" + "{p}";
    assert "{p}"[1..2] == "p";
    assert Compile("/{p}")[..0] == [];
    RootA();
  }

  lemma RootA()
    ensures Normalised("/a") == "/a" && Rebuild(["a"]) == "/a"
  {
    assert "/a"[1..] == "a" && StripLeft("/a") == StripLeft("a") == "a";
    assert ["a"][1..] == [];
  }

  lemma CompileA()
    ensures Compile("/a") == [Literal("a")] && ParamCount(Compile("/a")) == 0
    ensures Fits(Compile("/a"), ["a"], "/a")
  {
    SegmentsOne("a");
    assert "/a" == "/" + "a";
    assert Compile("/a")[..0] == [];
    RootA();
  }

  lemma CompileCatchAll()
    ensures Compile("/{p+}") == [Greedy("p")] && ParamCount(Compile("/{p+}")) == 1
    ensures Fits(Compile("/{p+}"), ["a"], "/a")
  {
    SegmentsOne("{p+}");
    assert "/{p+}" == "/" + "{p+}";
    var inner := "{p+}"[1..3];
    assert inner == "p+" && inner[..1] == "p";
    assert Compile("/{p+}")[..0] == [];
    RootA();
  }

  lemma SegmentsOne(p: string)
    requires p != "" && '/' !in p
    ensures Segments("/" + p, "") == [p]
  {
    SegmentsRun(p, "");
    assert ("/" + p)[1..] == p && "" + p == p;
    assert [] + [p] == [p];
  }

  lemma {:induction false} SegmentsRun(p: string, cur: string)
    requires '/' !in p && p + cur != ""
    ensures Segments(p, cur) == [cur + p]
    decreases |p|
  {
    if p == "" {
      assert cur + p == cur;
    } else {
      assert forall c :: c in p[1..] ==> c in p;
      SegmentsRun(p[1..], cur + p[..1]);
      assert cur + p[..1] + p[1..] == cur + p;
    }
  }
}
