/** Adopting resources stored under other subscription ids into the space's own
    subscription: keys are renamed, ids inside each record rewritten, and a record
    whose new key is taken gives way. */
module Subscriptions {
  import opened Common
  import opened Dicts

  const SPACE: string := "00000000-0000-0000-0000-cloudlearn01"
  const PREFIX: string := "/subscriptions/"

  // ---------- ids in text ----------

  function LowerChar(c: char): char {
    if 'A' <= c <= 'Z' then ((c as int) + 32) as char else c
  }

  /** Equal up to letter case. */
  predicate SameLetters(a: string, b: string) {
    |a| == |b| && forall i :: 0 <= i < |a| ==> LowerChar(a[i]) == LowerChar(b[i])
  }

  function UpToSlash(s: string): (n: nat)
    ensures n <= |s|
  {
    if s == "" || s[0] == '/' then 0 else 1 + UpToSlash(s[1..])
  }

  datatype Id = Id(sub: string, rest: string)

  /** The subscription a key names, and what follows it. */
  function Names(key: string): Option<Id> {
    if |key| < |PREFIX| || !SameLetters(key[..|PREFIX|], PREFIX) then None
    else
      var tail := key[|PREFIX|..];
      var n := UpToSlash(tail);
      if n == 0 || n == |tail| then None else Some(Id(tail[..n], tail[n + 1..]))
  }

  predicate Foreign(key: string) {
    Names(key).Some? && !SameLetters(Names(key).value.sub, SPACE)
  }

  /** The key a foreign key is renamed to; other keys keep their name. */
  function NewKey(key: string): string {
    if Foreign(key) then PREFIX + SPACE + "/" + Names(key).value.rest else key
  }

  lemma {:induction false} UpToSlashAt(s: string, rest: string)
    requires '/' !in s
    ensures UpToSlash(s + "/" + rest) == |s|
  {
    var t := s + "/" + rest;
    if s != "" {
      assert s[0] in s && t[0] == s[0] && t[1..] == s[1..] + "/" + rest;
      UpToSlashAt(s[1..], rest);
    }
  }

  /** A new key names the space's subscription. */
  lemma NewKeyIsLocal(key: string)
    ensures !Foreign(NewKey(key))
    ensures Foreign(key) ==> Names(NewKey(key)) == Some(Id(SPACE, Names(key).value.rest))
  {
    if Foreign(key) {
      var rest := Names(key).value.rest;
      var k := NewKey(key);
      assert k[..|PREFIX|] == PREFIX;
      assert k[|PREFIX|..] == SPACE + "/" + rest;
      UpToSlashAt(SPACE, rest);
      assert k[|PREFIX|..][|SPACE| + 1..] == rest && k[|PREFIX|..][..|SPACE|] == SPACE;
    }
  }

  // ---------- rewriting the ids inside a record ----------

  /** `name` stands at `i`, in any letter case. */
  predicate ReadsAt(s: string, i: nat, name: string) {
    i + |name| <= |s| && forall j :: 0 <= j < |name| ==> LowerChar(s[i + j]) == LowerChar(name[j])
  }

  /** A name stops at `i`. */
  predicate Ends(s: string, i: nat) {
    i == |s| || (i < |s| && (s[i] == '/' || s[i] == '"'))
  }

  /** An id of subscription `old` stands at `i`, and the name ends there. */
  predicate Hit(s: string, former: string, i: nat) {
    ReadsAt(s, i, PREFIX) && ReadsAt(s, i + |PREFIX|, former) && Ends(s, i + |PREFIX| + |former|)
  }

  function Rewrite(s: string, former: string): string {
    if s == "" then ""
    else if Hit(s, former, 0) then PREFIX + SPACE + Rewrite(s[|PREFIX| + |former|..], former)
    else s[..1] + Rewrite(s[1..], former)
  }

  /** How far the text goes unchanged. */
  function FirstHit(s: string, former: string): (q: nat)
    ensures q <= |s|
  {
    if s == "" || Hit(s, former, 0) then 0 else 1 + FirstHit(s[1..], former)
  }

  lemma ReadsShift(s: string, i: nat, name: string, k: nat)
    requires k <= i && k <= |s|
    ensures ReadsAt(s, i, name) <==> ReadsAt(s[k..], i - k, name)
  {
    if i + |name| <= |s| {
      assert forall m :: k <= m < |s| ==> s[k..][m - k] == s[m];
    }
  }

  lemma HitShift(s: string, former: string, i: nat, k: nat)
    requires k <= i && k <= |s|
    ensures Hit(s, former, i) <==> Hit(s[k..], former, i - k)
  {
    ReadsShift(s, i, PREFIX, k);
    ReadsShift(s, i + |PREFIX|, former, k);
  }

  lemma {:induction false} RewriteUpToHit(s: string, former: string)
    ensures var q := FirstHit(s, former);
            && Rewrite(s, former) == s[..q] + Rewrite(s[q..], former)
            && (q < |s| ==> Hit(s, former, q))
  {
    if s == "" || Hit(s, former, 0) {
      assert s[0..] == s && s[..0] == "";
    } else {
      var tail := s[1..];
      RewriteUpToHit(tail, former);
      var q := FirstHit(tail, former);
      assert tail[q..] == s[q + 1..] && s[..1] + tail[..q] == s[..q + 1];
      HitShift(s, former, q + 1, 1);
    }
  }

  /** A name a key can hold: not empty, no slash; and no quote, which ends a string of a record. */
  predicate PlainName(s: string) {
    s != "" && '/' !in s && '"' !in s
  }

  lemma LowerKeepsMarks(c: char)
    ensures LowerChar(c) == '/' <==> c == '/'
    ensures LowerChar(c) == '"' <==> c == '"'
  {
  }

  /** What follows a rewritten id: the end, a slash or a quote. */
  lemma RewriteHead(s: string, former: string)
    requires s == "" || s[0] == '/' || s[0] == '"'
    ensures var r := Rewrite(s, former); r == "" || r[0] == '/' || r[0] == '"'
  {
  }

  /** Two delimited names read at one place are one name. */
  lemma SameName(s: string, i: nat, a: string, b: string)
    requires PlainName(a) && PlainName(b)
    requires ReadsAt(s, i, a) && Ends(s, i + |a|)
    requires ReadsAt(s, i, b) && Ends(s, i + |b|)
    ensures SameLetters(a, b)
  {
    if |a| < |b| {
      NoMark(b, |a|);
      assert false;
    } else if |b| < |a| {
      NoMark(a, |b|);
      assert false;
    }
  }

  lemma NoMark(name: string, j: nat)
    requires PlainName(name) && j < |name|
    ensures LowerChar(name[j]) != '/' && LowerChar(name[j]) != '"'
  {
    assert name[j] in name;
  }

  lemma SpaceIsPlain()
    ensures PlainName(SPACE)
  {
  }

  lemma PrefixSlash(j: nat)
    requires j < |PREFIX|
    ensures LowerChar(PREFIX[j]) == '/' <==> j == 0 || j == 14
  {
  }

  /** The slashes of a rewritten id are those of its prefix. */
  lemma SlashInNew(rest: string, i: nat)
    requires i < |PREFIX| + |SPACE| && (PREFIX + SPACE + rest)[i] == '/'
    ensures i == 0 || i == 14
  {
    if i >= |PREFIX| {
      SpaceIsPlain();
      NoMark(SPACE, i - |PREFIX|);
      assert false;
    } else {
      PrefixSlash(i);
    }
  }

  lemma NewIsNotOld(rest: string, former: string)
    requires rest == "" || rest[0] == '/' || rest[0] == '"'
    requires PlainName(former) && Hit(PREFIX + SPACE + rest, former, 0)
    ensures SameLetters(former, SPACE)
  {
    var r := PREFIX + SPACE + rest;
    SpaceIsPlain();
    assert forall j :: 0 <= j < |SPACE| ==> r[|PREFIX| + j] == SPACE[j];
    SameName(r, |PREFIX|, former, SPACE);
  }

  lemma NoHitAtFourteen(rest: string, former: string)
    ensures !Hit(PREFIX + SPACE + rest, former, 14)
  {
    var r := PREFIX + SPACE + rest;
    assert r[14 + 1] == SPACE[0] && LowerChar(SPACE[0]) != LowerChar(PREFIX[1]);
  }

  /** No id of the old subscription starts inside a rewritten one. */
  lemma NoHitInNew(rest: string, former: string, i: nat)
    requires PlainName(former) && !SameLetters(former, SPACE)
    requires rest == "" || rest[0] == '/' || rest[0] == '"'
    requires i < |PREFIX| + |SPACE|
    ensures !Hit(PREFIX + SPACE + rest, former, i)
  {
    var r := PREFIX + SPACE + rest;
    if Hit(r, former, i) {
      assert LowerChar(r[i + 0]) == LowerChar(PREFIX[0]);
      LowerKeepsMarks(r[i]);
      SlashInNew(rest, i);
      NoHitAtFourteen(rest, former);
      NewIsNotOld(rest, former);
    }
  }

  /** A rewritten id that starts inside an occurrence starts at the second slash of its prefix. */
  lemma BlockAtSecondSlash(r: string, former: string, q: nat)
    requires PlainName(former) && Hit(r, former, 0) && 0 < q < |PREFIX| + |former| && r[q] == '/'
    ensures q == 14
  {
    forall k | |PREFIX| <= k < |PREFIX| + |former|
      ensures r[k] != '/'
    {
      var j := k - |PREFIX|;
      assert LowerChar(r[0 + |PREFIX| + j]) == LowerChar(former[j]);
      NoMark(former, j);
    }
    assert LowerChar(r[0 + q]) == LowerChar(PREFIX[q]);
    PrefixSlash(q);
  }

  /** Then the old subscription is called `subscriptions`, and the text held an id where the block's predecessor starts. */
  lemma SubscriptionsTwice(s: string, r: string, former: string)
    requires PlainName(former) && Hit(r, former, 0) && Hit(s, former, 14)
    requires |r| >= 29
    requires forall j :: 0 <= j < 14 ==> r[j] == s[j]
    requires forall j :: 0 <= j < |PREFIX| ==> r[14 + j] == PREFIX[j]
    ensures Hit(s, former, 0)
  {
    var word := "subscriptions";
    PrefixIsWord(r);
    SameName(r, 15, former, word);
    forall j | 0 <= j < |PREFIX|
      ensures LowerChar(s[0 + j]) == LowerChar(PREFIX[j])
    {
      assert j < 14 ==> LowerChar(r[0 + j]) == LowerChar(PREFIX[j]);
      assert LowerChar(s[14 + 0]) == LowerChar(PREFIX[0]);
    }
    forall j | 0 <= j < |former|
      ensures LowerChar(s[|PREFIX| + j]) == LowerChar(former[j])
    {
      assert LowerChar(s[14 + (j + 1)]) == LowerChar(PREFIX[j + 1]) && PREFIX[j + 1] == word[j];
    }
    assert LowerChar(s[14 + 14]) == LowerChar(PREFIX[14]);
    LowerKeepsMarks(s[28]);
  }

  lemma PrefixIsWord(r: string)
    requires |r| >= 29
    requires forall j :: 0 <= j < |PREFIX| ==> r[14 + j] == PREFIX[j]
    ensures ReadsAt(r, 15, "subscriptions") && Ends(r, 28) && PlainName("subscriptions")
  {
    forall j | 0 <= j < 13
      ensures r[15 + j] == "subscriptions"[j]
    {
      assert r[14 + (j + 1)] == PREFIX[j + 1];
    }
    assert r[14 + 14] == PREFIX[14];
  }

  /** A character copied because no id started there starts none afterwards either. */
  lemma NoHitAtCopied(s: string, former: string)
    requires PlainName(former) && s != "" && !Hit(s, former, 0)
    ensures !Hit(Rewrite(s, former), former, 0)
  {
    var r, q, n := Rewrite(s, former), FirstHit(s, former), |PREFIX| + |former|;
    RewriteUpToHit(s, former);
    if Hit(r, former, 0) {
      assert forall j :: 0 <= j < q ==> r[j] == s[j];
      if n <= q {
        CopiedHit(s, r, former, q);
      } else {
        RewrittenAt(s, former, q);
        BlockAtSecondSlash(r, former, q);
        SubscriptionsTwice(s, r, former);
      }
    }
  }

  /** An occurrence made of copied characters alone was there before. */
  lemma CopiedHit(s: string, r: string, former: string, q: nat)
    requires Hit(r, former, 0) && |PREFIX| + |former| <= q <= |s| && q <= |r|
    requires forall j :: 0 <= j < q ==> r[j] == s[j]
    requires q < |s| ==> Hit(s, former, q)
    ensures Hit(s, former, 0)
  {
    assert ReadsAt(s, 0, PREFIX);
    assert ReadsAt(s, |PREFIX|, former);
    if q == |PREFIX| + |former| && q < |s| {
      assert LowerChar(s[q + 0]) == LowerChar(PREFIX[0]);
      LowerKeepsMarks(s[q]);
    }
  }

  /** Where the unchanged part ends, a rewritten id stands, if anything does. */
  lemma RewrittenAt(s: string, former: string, q: nat)
    requires q == FirstHit(s, former)
    ensures var r := Rewrite(s, former);
            if q < |s| then |r| >= q + |PREFIX| + |SPACE| && forall j :: 0 <= j < |PREFIX| ==> r[q + j] == PREFIX[j] else |r| == q
    ensures q < |s| ==> Hit(s, former, q)
  {
    RewriteUpToHit(s, former);
    if q < |s| {
      HitShift(s, former, q, q);
      var rest := Rewrite(s[q..][|PREFIX| + |former|..], former);
      assert Rewrite(s, former) == s[..q] + (PREFIX + SPACE + rest);
    }
  }

  /** After rewriting, no id in the text names the old subscription, in any letter case. */
  lemma {:induction false} NoneLeft(s: string, former: string, i: nat)
    requires PlainName(former) && !SameLetters(former, SPACE)
    ensures !Hit(Rewrite(s, former), former, i)
    decreases |s|
  {
    if s != "" {
      if Hit(s, former, 0) {
        var rest := s[|PREFIX| + |former|..];
        HitAtStart(s, former);
        if i < |PREFIX| + |SPACE| {
          RewriteHead(rest, former);
          NoHitInNew(Rewrite(rest, former), former, i);
        } else {
          NoneLeft(rest, former, i - |PREFIX| - |SPACE|);
          NoHitBehind(PREFIX + SPACE, Rewrite(rest, former), former, i);
        }
      } else if i == 0 {
        NoHitAtCopied(s, former);
      } else {
        NoneLeft(s[1..], former, i - 1);
        NoHitBehind(s[..1], Rewrite(s[1..], former), former, i);
      }
    }
  }

  lemma NoHitBehind(head: string, tail: string, former: string, i: nat)
    requires |head| <= i && !Hit(tail, former, i - |head|)
    ensures !Hit(head + tail, former, i)
  {
    assert (head + tail)[|head|..] == tail;
    HitShift(head + tail, former, i, |head|);
  }

  /** Text without such an id stays as it is. */
  lemma {:induction false} OtherTextKept(s: string, former: string)
    requires forall i :: 0 <= i <= |s| ==> !Hit(s, former, i)
    ensures Rewrite(s, former) == s
  {
    if s != "" {
      forall i | 0 <= i <= |s[1..]|
        ensures !Hit(s[1..], former, i)
      {
        HitShift(s, former, i + 1, 1);
      }
      OtherTextKept(s[1..], former);
      assert s[..1] + s[1..] == s;
    }
  }

  /** The first id of the old subscription becomes the space's, what stands before it is
      unchanged, and the text after it is rewritten in the same way. */
  lemma {:induction false} FirstIdReplaced(s: string, former: string)
    requires FirstHit(s, former) < |s|
    ensures var q, n := FirstHit(s, former), |PREFIX| + |former|;
            && Hit(s, former, q)
            && Rewrite(s, former) == s[..q] + (PREFIX + SPACE + Rewrite(s[q + n..], former))
  {
    var q, n := FirstHit(s, former), |PREFIX| + |former|;
    var tail := s[q..];
    RewriteUpToHit(s, former);
    HitShift(s, former, q, q);
    assert tail[n..] == s[q + n..];
    HitAtStart(tail, former);
  }

  lemma HitAtStart(s: string, former: string)
    requires Hit(s, former, 0)
    ensures Rewrite(s, former) == PREFIX + SPACE + Rewrite(s[|PREFIX| + |former|..], former)
  {
  }

  // ---------- the store ----------

  /** A stored value: a resource document with its `_sub` mark, or anything else. */
  datatype Record = Document(text: string, sub: Option<string>) | Scalar(text: string)

  datatype Store = Store(records: map<string, Record>, order: seq<string>)

  ghost predicate Valid(st: Store) {
    Lists(st.order, st.records.Keys)
  }

  function Get(st: Store, key: string): Option<Record> {
    if key in st.records then Some(st.records[key]) else None
  }

  /** A record as it arrives from subscription `old`. */
  function Moved(r: Record, former: string): Record {
    match r
    case Document(text, sub) => Document(Rewrite(text, former), if sub.Some? then Some(SPACE) else None)
    case Scalar(_) => r
  }

  /** A record with its mark in the space's spelling. */
  function Normal(r: Record): Record {
    if r.Document? && r.sub.Some? && r.sub.value != "" && r.sub.value != SPACE then r.(sub := Some(SPACE)) else r
  }

  function ForeignKeys(order: seq<string>): seq<string> {
    if order == [] then []
    else (if Foreign(order[0]) then [order[0]] else []) + ForeignKeys(order[1..])
  }

  /** One foreign key: popped, and stored under its new name unless that is taken. */
  function AdoptOne(st: Store, key: string): Store {
    if key !in st.records || Names(key).None? then st
    else
      var records, order, k := st.records - {key}, Drop(st.order, key), NewKey(key);
      if k in records then Store(records, order)
      else Store(records[k := Moved(st.records[key], Names(key).value.sub)], order + [k])
  }

  function AdoptEach(st: Store, keys: seq<string>): Store {
    if keys == [] then st else AdoptOne(AdoptEach(st, keys[..|keys| - 1]), keys[|keys| - 1])
  }

  function CountMoved(st: Store, keys: seq<string>): nat {
    if keys == [] then 0
    else
      var front := keys[..|keys| - 1];
      CountMoved(st, front) + if NewKey(keys[|keys| - 1]) in AdoptEach(st, front).records then 0 else 1
  }

  function NormaliseAll(records: map<string, Record>): map<string, Record> {
    map k | k in records :: Normal(records[k])
  }

  function Adopt(st: Store): Store {
    var a := AdoptEach(st, ForeignKeys(st.order));
    Store(NormaliseAll(a.records), a.order)
  }

  // ---------- what adoption does, key by key ----------

  /** The first of `keys` that is renamed to `k`. */
  function Source(keys: seq<string>, k: string): Option<string> {
    if keys == [] then None
    else
      var front := Source(keys[..|keys| - 1], k);
      if front.Some? then front else if NewKey(keys[|keys| - 1]) == k then Some(keys[|keys| - 1]) else None
  }

  /** What stands under `k` once `keys` are adopted, in terms of the store before. */
  function Fate(st: Store, keys: seq<string>, k: string): Option<Record> {
    if Foreign(k) then if k in keys then None else Get(st, k)
    else if k in st.records then Some(st.records[k])
    else
      match Source(keys, k)
      case None => None
      case Some(f) => if f in st.records && Names(f).Some? then Some(Moved(st.records[f], Names(f).value.sub)) else None
  }

  predicate Adoptable(st: Store, keys: seq<string>) {
    NoDup(keys) && forall i :: 0 <= i < |keys| ==> Foreign(keys[i]) && keys[i] in st.records
  }

  lemma {:induction false} SourceIn(keys: seq<string>, k: string)
    ensures Source(keys, k).Some? ==> Source(keys, k).value in keys && NewKey(Source(keys, k).value) == k
    ensures forall i :: 0 <= i < |keys| && NewKey(keys[i]) == k ==> Source(keys, k).Some?
  {
    if keys != [] {
      var front := keys[..|keys| - 1];
      SourceIn(front, k);
      assert forall i :: 0 <= i < |keys| - 1 ==> keys[i] == front[i];
      assert forall f :: f in front ==> f in keys;
    }
  }

  lemma AdoptablePart(st: Store, keys: seq<string>)
    requires Adoptable(st, keys) && keys != []
    ensures Adoptable(st, keys[..|keys| - 1]) && keys[|keys| - 1] !in keys[..|keys| - 1]
  {
  }

  lemma GetAfterOne(st: Store, key: string, k: string)
    requires key in st.records && Foreign(key)
    ensures Get(AdoptOne(st, key), k) ==
            if k == key then None
            else if k == NewKey(key) && k !in st.records then Some(Moved(st.records[key], Names(key).value.sub))
            else Get(st, k)
  {
    NewKeyIsLocal(key);
  }

  lemma {:induction false} FateAfterOne(st: Store, front: seq<string>, key: string, k: string)
    requires key in st.records && Foreign(key) && key !in front
    requires Source(front, k).Some? ==> Source(front, k).value in st.records && Foreign(Source(front, k).value)
    ensures Fate(st, front + [key], k) ==
            if k == key then None
            else if k == NewKey(key) && Fate(st, front, k).None? then Some(Moved(st.records[key], Names(key).value.sub))
            else Fate(st, front, k)
  {
    var keys := front + [key];
    assert keys[..|keys| - 1] == front && keys[|keys| - 1] == key;
    NewKeyIsLocal(key);
  }

  /** Each key's fate is what the loop leaves under it. */
  lemma {:induction false} EachIsFate(st: Store, keys: seq<string>, k: string)
    requires Adoptable(st, keys)
    ensures Get(AdoptEach(st, keys), k) == Fate(st, keys, k)
    decreases |keys|
  {
    if keys != [] {
      var front, key := keys[..|keys| - 1], keys[|keys| - 1];
      AdoptablePart(st, keys);
      EachIsFate(st, front, key);
      EachIsFate(st, front, k);
      GetAfterOne(AdoptEach(st, front), key, k);
      assert keys == front + [key];
      SourceKnown(st, front, k);
      FateAfterOne(st, front, key, k);
    }
  }

  lemma SourceKnown(st: Store, keys: seq<string>, k: string)
    requires Adoptable(st, keys)
    ensures Source(keys, k).Some? ==> Source(keys, k).value in st.records && Foreign(Source(keys, k).value)
  {
    SourceIn(keys, k);
  }

  lemma {:induction false} ForeignKeysAre(order: seq<string>)
    requires NoDup(order)
    ensures NoDup(ForeignKeys(order))
    ensures forall k :: k in ForeignKeys(order) <==> k in order && Foreign(k)
  {
    if order != [] {
      var tail := order[1..];
      assert order == [order[0]] + tail;
      ForeignKeysAre(tail);
      assert order[0] !in tail;
      var keys := ForeignKeys(order);
      assert Foreign(order[0]) ==> keys[1..] == ForeignKeys(tail);
      assert forall i :: 0 <= i < |ForeignKeys(tail)| ==> ForeignKeys(tail)[i] in ForeignKeys(tail);
    }
  }

  lemma ForeignAdoptable(st: Store)
    requires Valid(st)
    ensures Adoptable(st, ForeignKeys(st.order))
  {
    ForeignKeysAre(st.order);
  }

  /** After adoption: no key names a foreign subscription; a record that stood under
      the space's id keeps its content, its mark normalised; under any other key
      stands the first foreign record renamed to it, rewritten. */
  lemma AdoptionExactly(st: Store, k: string)
    requires Valid(st)
    ensures Foreign(k) ==> Get(Adopt(st), k) == None
    ensures !Foreign(k) && k in st.records ==> Get(Adopt(st), k) == Some(Normal(st.records[k]))
    ensures !Foreign(k) && k !in st.records ==>
              match Source(ForeignKeys(st.order), k)
              case None => Get(Adopt(st), k) == None
              case Some(f) => f in st.records && Foreign(f) && NewKey(f) == k
                              && Get(Adopt(st), k) == Some(Normal(Moved(st.records[f], Names(f).value.sub)))
  {
    var keys := ForeignKeys(st.order);
    ForeignAdoptable(st);
    ForeignKeysAre(st.order);
    EachIsFate(st, keys, k);
    SourceIn(keys, k);
  }

  /** Every foreign record's new key is present afterwards. */
  lemma EveryForeignKeyArrives(st: Store, f: string)
    requires Valid(st) && f in st.records && Foreign(f)
    ensures NewKey(f) in Adopt(st).records
  {
    ForeignKeysAre(st.order);
    NewKeyIsLocal(f);
    AdoptionExactly(st, NewKey(f));
    var i :| 0 <= i < |ForeignKeys(st.order)| && ForeignKeys(st.order)[i] == f;
    SourceIn(ForeignKeys(st.order), NewKey(f));
  }

  // ---------- counting ----------

  lemma AdoptOneValid(st: Store, key: string)
    requires Valid(st)
    ensures Valid(AdoptOne(st, key))
  {
    if key in st.records && Names(key).Some? {
      DropLists(st.order, st.records.Keys, key);
      assert (st.records - {key}).Keys == st.records.Keys - {key};
      var order, k := Drop(st.order, key), NewKey(key);
      if k !in st.records - {key} {
        TouchLists(order, st.records.Keys - {key}, k);
        assert AdoptOne(st, key).records.Keys == st.records.Keys - {key} + {k};
      }
    }
  }

  lemma {:induction false} AdoptEachValid(st: Store, keys: seq<string>)
    requires Valid(st)
    ensures Valid(AdoptEach(st, keys))
  {
    if keys != [] {
      AdoptEachValid(st, keys[..|keys| - 1]);
      AdoptOneValid(AdoptEach(st, keys[..|keys| - 1]), keys[|keys| - 1]);
    }
  }

  lemma AdoptOneSize(st: Store, key: string)
    requires key in st.records && Foreign(key)
    ensures |AdoptOne(st, key).records| == |st.records| - if NewKey(key) in st.records then 1 else 0
  {
    NewKeyIsLocal(key);
    var records, k := st.records - {key}, NewKey(key);
    assert records.Keys == st.records.Keys - {key};
    assert |records.Keys| == |st.records.Keys| - 1;
    if k !in records {
      assert AdoptOne(st, key).records.Keys == records.Keys + {k};
    }
  }

  /** The count returned is what the store did not lose: records before, less the foreign ones, plus the moved ones. */
  lemma {:induction false} EachSize(st: Store, keys: seq<string>)
    requires Adoptable(st, keys)
    ensures |AdoptEach(st, keys).records| + |keys| == |st.records| + CountMoved(st, keys)
  {
    if keys != [] {
      var front, key := keys[..|keys| - 1], keys[|keys| - 1];
      AdoptablePart(st, keys);
      EachSize(st, front);
      EachIsFate(st, front, key);
      AdoptOneSize(AdoptEach(st, front), key);
    }
  }

  lemma EachSnoc(st: Store, keys: seq<string>, i: nat)
    requires i < |keys|
    ensures AdoptEach(st, keys[..i + 1]) == AdoptOne(AdoptEach(st, keys[..i]), keys[i])
    ensures CountMoved(st, keys[..i + 1]) ==
            CountMoved(st, keys[..i]) + if NewKey(keys[i]) in AdoptEach(st, keys[..i]).records then 0 else 1
  {
    assert keys[..i + 1][..i] == keys[..i];
  }

  /** Each foreign key gets a place of its own. */
  predicate PlacesFree(st: Store, keys: seq<string>) {
    && (forall i :: 0 <= i < |keys| ==> NewKey(keys[i]) !in st.records)
    && (forall i, j :: 0 <= i < j < |keys| ==> NewKey(keys[i]) != NewKey(keys[j]))
  }

  predicate Renamed(keys: seq<string>, k: string) {
    exists i :: 0 <= i < |keys| && NewKey(keys[i]) == k
  }

  /** A new key is taken when the space held it or an earlier foreign key was renamed to it. */
  lemma {:induction false} PlaceTaken(st: Store, front: seq<string>, key: string)
    requires Adoptable(st, front) && Foreign(key)
    ensures NewKey(key) in AdoptEach(st, front).records <==>
            NewKey(key) in st.records || Renamed(front, NewKey(key))
  {
    NewKeyIsLocal(key);
    EachIsFate(st, front, NewKey(key));
    SourceKnown(st, front, NewKey(key));
    SourceIn(front, NewKey(key));
  }

  lemma PlacesFreeStep(st: Store, keys: seq<string>)
    requires keys != []
    ensures var front, k := keys[..|keys| - 1], NewKey(keys[|keys| - 1]);
            PlacesFree(st, keys) <==> PlacesFree(st, front) && k !in st.records && !Renamed(front, k)
  {
    var n := |keys| - 1;
    assert forall i :: 0 <= i < n ==> keys[..n][i] == keys[i];
  }

  lemma {:induction false} AllMoveStep(st: Store, keys: seq<string>)
    requires Adoptable(st, keys) && keys != []
    requires var n := |keys| - 1; CountMoved(st, keys[..n]) <= n && (CountMoved(st, keys[..n]) == n <==> PlacesFree(st, keys[..n]))
    ensures CountMoved(st, keys) <= |keys| && (CountMoved(st, keys) == |keys| <==> PlacesFree(st, keys))
  {
    var front, key := keys[..|keys| - 1], keys[|keys| - 1];
    AdoptablePart(st, keys);
    PlaceTaken(st, front, key);
    PlacesFreeStep(st, keys);
  }

  lemma {:induction false} AllMoveExactly(st: Store, keys: seq<string>)
    requires Adoptable(st, keys)
    ensures CountMoved(st, keys) <= |keys| && (CountMoved(st, keys) == |keys| <==> PlacesFree(st, keys))
  {
    if keys != [] {
      AdoptablePart(st, keys);
      AllMoveExactly(st, keys[..|keys| - 1]);
      AllMoveStep(st, keys);
    }
  }

  /** Adoption keeps every record exactly when no new key is taken, by the space or by another foreign record. */
  lemma {:induction false} NothingLostExactly(st: Store)
    requires Valid(st)
    ensures var keys := ForeignKeys(st.order);
            && |Adopt(st).records| + |keys| == |st.records| + CountMoved(st, keys)
            && (|Adopt(st).records| == |st.records| <==> PlacesFree(st, keys))
  {
    var keys := ForeignKeys(st.order);
    ForeignAdoptable(st);
    EachSize(st, keys);
    AllMoveExactly(st, keys);
    assert NormaliseAll(AdoptEach(st, keys).records).Keys == AdoptEach(st, keys).records.Keys;
  }

  /** Two foreign subscriptions holding one resource name: only one copy is left. */
  lemma OneCopyLeft(st: Store, a: string, b: string)
    requires Valid(st) && st.records.Keys == {a, b} && Foreign(a) && Foreign(b) && NewKey(a) == NewKey(b)
    ensures |Adopt(st).records| == 1
  {
    forall k | k in Adopt(st).records
      ensures k == NewKey(a)
    {
      AdoptionExactly(st, k);
    }
    EveryForeignKeyArrives(st, a);
    assert Adopt(st).records.Keys == {NewKey(a)};
  }

  const COPY_A: string := "/subscriptions/a/x"
  const COPY_B: string := "/subscriptions/b/x"

  lemma CopiesClash()
    ensures Foreign(COPY_A) && Foreign(COPY_B) && COPY_A != COPY_B && NewKey(COPY_A) == NewKey(COPY_B)
  {
    NamesShort('a');
    NamesShort('b');
    assert COPY_A[15] == 'a' && COPY_B[15] == 'b';
  }

  lemma SecondCopyLost()
    ensures exists st :: Valid(st) && |st.records| == 2 && (forall k :: k in st.records ==> Foreign(k)) && |Adopt(st).records| == 1
  {
    CopiesClash();
    var st := TwoKeys(COPY_A, COPY_B, Scalar("1"), Scalar("2"));
    OneCopyLeft(st, COPY_A, COPY_B);
  }

  lemma TwoKeys(a: string, b: string, x: Record, y: Record) returns (st: Store)
    requires a != b
    ensures Valid(st) && st.records.Keys == {a, b} && |st.records| == 2
  {
    st := Store(map[a := x, b := y], [a, b]);
    assert st.records.Keys == {a, b};
  }

  lemma NamesShort(c: char)
    requires c != '/'
    ensures Names("/subscriptions/" + [c] + "/x") == Some(Id([c], "x")) && Foreign("/subscriptions/" + [c] + "/x")
  {
    var key := "/subscriptions/" + [c] + "/x";
    assert key[..15] == PREFIX && key[15..] == [c] + "/" + "x";
    UpToSlashAt([c], "x");
    assert key[15..][..1] == [c] && key[15..][2..] == "x";
  }

  // ---------- a second call ----------

  lemma {:induction false} NoForeignKeys(order: seq<string>)
    requires forall k :: k in order ==> !Foreign(k)
    ensures ForeignKeys(order) == []
  {
    if order != [] {
      assert order[0] in order && forall k :: k in order[1..] ==> k in order;
      NoForeignKeys(order[1..]);
    }
  }

  /** A second call moves nothing and changes nothing. */
  lemma AdoptionIsIdempotent(st: Store)
    requires Valid(st)
    ensures Valid(Adopt(st))
    ensures ForeignKeys(Adopt(st).order) == [] && CountMoved(Adopt(st), ForeignKeys(Adopt(st).order)) == 0
    ensures Adopt(Adopt(st)) == Adopt(st)
  {
    var a, after := AdoptEach(st, ForeignKeys(st.order)), Adopt(st);
    AdoptEachValid(st, ForeignKeys(st.order));
    assert after.records.Keys == a.records.Keys;
    forall k | k in after.order
      ensures !Foreign(k)
    {
      AdoptionExactly(st, k);
    }
    NoForeignKeys(after.order);
    assert forall r :: Normal(Normal(r)) == Normal(r);
    assert NormaliseAll(after.records) == after.records;
  }

  /** The text a moved record arrives with holds no id of its old subscription. */
  lemma MovedTextIsClean(text: string, sub: Option<string>, key: string, i: nat)
    requires Foreign(key) && '"' !in Names(key).value.sub
    ensures !Hit(Moved(Document(text, sub), Names(key).value.sub).text, Names(key).value.sub, i)
  {
    NamePlain(key);
    NoneLeft(text, Names(key).value.sub, i);
  }

  lemma {:induction false} NoSlashBefore(s: string)
    ensures '/' !in s[..UpToSlash(s)]
  {
    if s != "" && s[0] != '/' {
      NoSlashBefore(s[1..]);
      assert s[..UpToSlash(s)] == [s[0]] + s[1..][..UpToSlash(s[1..])];
    }
  }

  lemma NamePlain(key: string)
    requires Names(key).Some?
    ensures Names(key).value.sub != "" && '/' !in Names(key).value.sub
  {
    NoSlashBefore(key[|PREFIX|..]);
  }

  // ---------- the state in place ----------

  class SpaceState {
    var records: map<string, Record>
    var order: seq<string>

    ghost function Now(): Store
      reads this
    {
      Store(records, order)
    }

    /** Moves every foreign record and returns how many moved. */
    method AdoptForeign() returns (moved: nat)
      requires Valid(Now())
      modifies this
      ensures Valid(Now())
      ensures Now() == Adopt(old(Now()))
      ensures moved == CountMoved(old(Now()), ForeignKeys(old(order)))
    {
      ghost var start := Now();
      var keys := ForeignKeys(order);
      ForeignAdoptable(start);
      moved := AdoptKeys(keys);
      AdoptEachValid(start, keys);
      NormaliseMarks();
      AdoptionIsIdempotent(start);
    }

    method AdoptKeys(keys: seq<string>) returns (moved: nat)
      requires Adoptable(Now(), keys)
      modifies this
      ensures Now() == AdoptEach(old(Now()), keys)
      ensures moved == CountMoved(old(Now()), keys)
    {
      ghost var start := Now();
      moved := 0;
      var i := 0;
      while i < |keys|
        invariant 0 <= i <= |keys|
        invariant Now() == AdoptEach(start, keys[..i])
        invariant moved == CountMoved(start, keys[..i])
      {
        EachSnoc(start, keys, i);
        KeyStillThere(start, keys, i);
        var stored := AdoptKey(keys[i]);
        if stored {
          moved := moved + 1;
        }
        i := i + 1;
      }
      assert keys[..i] == keys;
    }

    /** Pops a foreign key and stores its record under the new one, unless that is taken. */
    method AdoptKey(key: string) returns (stored: bool)
      requires key in records && Foreign(key)
      modifies this
      ensures Now() == AdoptOne(old(Now()), key)
      ensures stored <==> NewKey(key) !in old(records)
    {
      NewKeyIsLocal(key);
      var k, record := NewKey(key), records[key];
      records, order := records - {key}, Drop(order, key);
      stored := k !in records;
      if stored {
        records, order := records[k := Moved(record, Names(key).value.sub)], order + [k];
      }
    }

    /** Gives every record's mark the space's spelling, in place. */
    method NormaliseMarks()
      requires Valid(Now())
      modifies this
      ensures order == old(order) && records == NormaliseAll(old(records))
    {
      ghost var before := records;
      var i := 0;
      while i < |order|
        invariant 0 <= i <= |order| && order == old(order) && records.Keys == before.Keys
        invariant forall j :: 0 <= j < i ==> records[order[j]] == Normal(before[order[j]])
        invariant forall j :: i <= j < |order| ==> records[order[j]] == before[order[j]]
      {
        assert order[i] in order;
        records := records[order[i] := Normal(records[order[i]])];
        i := i + 1;
      }
      forall k | k in before
        ensures records[k] == Normal(before[k])
      {
        assert k in order;
      }
    }
  }

  lemma KeyStillThere(st: Store, keys: seq<string>, i: nat)
    requires i < |keys| && Adoptable(st, keys)
    ensures keys[i] in AdoptEach(st, keys[..i]).records && Foreign(keys[i])
  {
    assert keys[i] !in keys[..i];
    EachIsFate(st, keys[..i], keys[i]);
  }
}
