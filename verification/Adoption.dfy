/** What adoption makes of keys and records, told from the text of the keys, the marks of the
    records and the order of the store. */
module Adoption {
  import opened Common
  import opened Dicts
  import opened Subscriptions

  // ---------- keys ----------

  /** The key names subscription `sub`, with the word before it in any letter case. */
  predicate Spelled(key: string, word: string, sub: string, rest: string) {
    key == word + sub + "/" + rest && SameLetters(word, "/subscriptions/") && sub != "" && '/' !in sub
  }

  lemma SpelledNames(key: string, word: string, sub: string, rest: string)
    requires Spelled(key, word, sub, rest)
    ensures Names(key) == Some(Id(sub, rest))
  {
    var n, tail := |PREFIX|, sub + "/" + rest;
    assert key == word + tail;
    assert key[..n] == word && key[n..] == tail;
    UpToSlashAt(sub, rest);
    assert tail[..|sub|] == sub && tail[|sub| + 1..] == rest;
  }

  lemma NamesSpelled(key: string) returns (word: string)
    requires Names(key).Some?
    ensures Spelled(key, word, Names(key).value.sub, Names(key).value.rest)
  {
    word := key[..|PREFIX|];
    var tail := key[|PREFIX|..];
    var n := UpToSlash(tail);
    SlashThere(tail);
    NamePlain(key);
    assert tail == tail[..n] + "/" + tail[n + 1..];
    assert key == word + tail;
    Regroup(word, tail[..n], tail[n + 1..]);
  }

  lemma Regroup(a: string, b: string, c: string)
    ensures a + (b + "/" + c) == a + b + "/" + c
  {
  }

  lemma {:induction false} SlashThere(s: string)
    requires UpToSlash(s) < |s|
    ensures s[UpToSlash(s)] == '/'
  {
    if s[0] != '/' {
      SlashThere(s[1..]);
    }
  }

  /** The key is spelled as one of another subscription. */
  ghost predicate OfAnother(key: string) {
    exists word, sub, rest :: Spelled(key, word, sub, rest) && !SameLetters(sub, SPACE)
  }

  /** The keys to adopt are those spelled with another subscription; the others keep their name. */
  lemma {:induction false} ForeignExactly(key: string)
    ensures Foreign(key) <==> OfAnother(key)
    ensures !OfAnother(key) ==> NewKey(key) == key
  {
    if Foreign(key) {
      var word := NamesSpelled(key);
    }
    if word, sub, rest :| Spelled(key, word, sub, rest) && !SameLetters(sub, SPACE) {
      SpelledNames(key, word, sub, rest);
    }
  }

  /** A key of another subscription is renamed to the space's, with what follows as it is. */
  lemma {:induction false} RenamedExactly(key: string, word: string, sub: string, rest: string)
    requires Spelled(key, word, sub, rest) && !SameLetters(sub, SPACE)
    ensures NewKey(key) == "/subscriptions/" + "00000000-0000-0000-0000-cloudlearn01" + "/" + rest
  {
    SpelledNames(key, word, sub, rest);
  }

  /** One letter is the capital of the other. */
  predicate CapitalOf(a: char, b: char) {
    'A' <= a <= 'Z' && 'a' <= b <= 'z' && b - a == 'a' - 'A'
  }

  /** Two texts are equal up to letter case exactly if they are so letter by letter. */
  lemma {:induction false} LettersExactly(a: string, b: string)
    ensures SameLetters(a, b) <==> |a| == |b| && forall i :: 0 <= i < |a| ==> a[i] == b[i] || CapitalOf(a[i], b[i]) || CapitalOf(b[i], a[i])
  {
  }

  // ---------- records ----------

  /** A record that stays: only a mark is put in the space's spelling, if it has one. */
  predicate StaysAs(was: Record, now: Record) {
    match was
    case Scalar(_) => now == was
    case Document(text, None) => now == was
    case Document(text, Some(m)) => now == Document(text, Some(if m == "" then "" else SPACE))
  }

  /** A record that moves: its text is rewritten, and a mark of any kind becomes the space's. */
  predicate ArrivesAs(was: Record, former: string, now: Record) {
    match was
    case Scalar(_) => now == was
    case Document(text, None) => now == Document(Rewrite(text, former), None)
    case Document(text, Some(_)) => now == Document(Rewrite(text, former), Some(SPACE))
  }

  /** Place `i` of the order is the first foreign key that is renamed to `k`. */
  ghost predicate FirstTo(order: seq<string>, k: string, i: nat) {
    && i < |order| && Foreign(order[i]) && NewKey(order[i]) == k
    && forall j :: 0 <= j < i && Foreign(order[j]) ==> NewKey(order[j]) != k
  }

  lemma {:induction false} SourceSnoc(keys: seq<string>, key: string, k: string)
    ensures Source(keys + [key], k) == if Source(keys, k).Some? then Source(keys, k) else if NewKey(key) == k then Some(key) else None
  {
    assert (keys + [key])[..|keys|] == keys;
  }

  lemma {:induction false} SourceCons(key: string, keys: seq<string>, k: string)
    ensures Source([key] + keys, k) == if NewKey(key) == k then Some(key) else Source(keys, k)
  {
    if keys == [] {
      assert [key] + keys == [] + [key];
      SourceSnoc([], key, k);
    } else {
      var n := |keys| - 1;
      SourceCons(key, keys[..n], k);
      assert [key] + keys == ([key] + keys[..n]) + [keys[n]];
      SourceSnoc([key] + keys[..n], keys[n], k);
    }
  }

  lemma {:induction false} SourceIsFirst(order: seq<string>, k: string)
    ensures match Source(ForeignKeys(order), k)
            case Some(f) => exists i: nat :: FirstTo(order, k, i) && order[i] == f
            case None => forall i :: 0 <= i < |order| && Foreign(order[i]) ==> NewKey(order[i]) != k
  {
    if order != [] {
      var tail := order[1..];
      SourceIsFirst(tail, k);
      SourceCons(order[0], ForeignKeys(tail), k);
      assert [] + ForeignKeys(tail) == ForeignKeys(tail);
      assert forall j :: 1 <= j < |order| ==> order[j] == tail[j - 1];
      if Foreign(order[0]) && NewKey(order[0]) == k {
        assert FirstTo(order, k, 0);
      } else if Source(ForeignKeys(tail), k).Some? {
        var i: nat :| FirstTo(tail, k, i) && tail[i] == Source(ForeignKeys(tail), k).value;
        assert FirstTo(order, k, i + 1);
      }
    }
  }

  /** What stands under a key afterwards: nothing under a foreign one; a record that was there
      stays; else the record of the first foreign key renamed to it arrives, if there is one. */
  lemma {:induction false} AdoptedExactly(st: Store, k: string)
    requires Valid(st)
    ensures var now := Get(Adopt(st), k);
            if Foreign(k) then now == None
            else if k in st.records then now.Some? && StaysAs(st.records[k], now.value)
            else if forall i :: 0 <= i < |st.order| && Foreign(st.order[i]) ==> NewKey(st.order[i]) != k then now == None
            else now.Some? && exists i: nat, word, sub, rest :: FirstTo(st.order, k, i) && st.order[i] in st.records
                                && Spelled(st.order[i], word, sub, rest) && ArrivesAs(st.records[st.order[i]], sub, now.value)
  {
    AdoptionExactly(st, k);
    SourceIsFirst(st.order, k);
    var source := Source(ForeignKeys(st.order), k);
    if !Foreign(k) && k !in st.records && source.Some? {
      var word := NamesSpelled(source.value);
    }
  }

  // ---------- the order ----------

  function Except(order: seq<string>, keys: seq<string>): seq<string> {
    if order == [] then [] else (if order[0] in keys then [] else [order[0]]) + Except(order[1..], keys)
  }

  /** The new names that found their place free, in the order of the keys. */
  function Gained(st: Store, keys: seq<string>): seq<string> {
    if keys == [] then []
    else
      var front, k := keys[..|keys| - 1], NewKey(keys[|keys| - 1]);
      Gained(st, front) + if k in st.records || Renamed(front, k) then [] else [k]
  }

  lemma {:induction false} DropExcept(order: seq<string>, keys: seq<string>, key: string)
    requires NoDup(order) && key !in keys
    ensures Drop(Except(order, keys), key) == Except(order, keys + [key])
  {
    if order != [] {
      var tail := order[1..];
      assert order == [order[0]] + tail;
      assert order[0] !in tail;
      assert forall x :: x in keys + [key] <==> x in keys || x == key;
      DropExcept(tail, keys, key);
      assert ([order[0]] + Except(tail, keys))[1..] == Except(tail, keys);
      assert [] + Except(tail, keys) == Except(tail, keys) && [] + Except(tail, keys + [key]) == Except(tail, keys + [key]);
      if order[0] == key {
        ExceptAbsent(tail, keys, key);
      }
    }
  }

  lemma {:induction false} ExceptAbsent(order: seq<string>, keys: seq<string>, key: string)
    requires key !in order
    ensures Except(order, keys + [key]) == Except(order, keys)
  {
    if order != [] {
      assert order[0] in order && forall x :: x in order[1..] ==> x in order;
      ExceptAbsent(order[1..], keys, key);
    }
  }

  lemma {:induction false} DropFromFirst(a: seq<string>, b: seq<string>, key: string)
    requires key in a
    ensures Drop(a + b, key) == Drop(a, key) + b
  {
    if a[0] != key {
      assert a == [a[0]] + a[1..];
      DropFromFirst(a[1..], b, key);
      assert (a + b)[1..] == a[1..] + b;
    } else {
      assert (a + b)[1..] == a[1..] + b;
    }
  }

  lemma {:induction false} ExceptKeeps(order: seq<string>, keys: seq<string>, x: string)
    ensures x in Except(order, keys) <==> x in order && x !in keys
  {
    if order != [] {
      assert order == [order[0]] + order[1..];
      ExceptKeeps(order[1..], keys, x);
    }
  }

  lemma {:induction false} EachOrder(st: Store, keys: seq<string>)
    requires Valid(st) && Adoptable(st, keys)
    ensures AdoptEach(st, keys).order == Except(st.order, keys) + Gained(st, keys)
  {
    if keys == [] {
      ExceptNothing(st.order);
    } else {
      var front, key := keys[..|keys| - 1], keys[|keys| - 1];
      var mid := AdoptEach(st, front);
      AdoptablePart(st, keys);
      EachOrder(st, front);
      EachIsFate(st, front, key);
      ExceptKeeps(st.order, front, key);
      DropFromFirst(Except(st.order, front), Gained(st, front), key);
      DropExcept(st.order, front, key);
      assert keys == front + [key];
      PlaceTaken(st, front, key);
      NewKeyIsLocal(key);
      OneMoreInOrder(mid, key, Except(st.order, keys), Gained(st, front));
    }
  }

  lemma OneMoreInOrder(mid: Store, key: string, kept: seq<string>, gained: seq<string>)
    requires key in mid.records && Foreign(key) && Drop(mid.order, key) == kept + gained
    ensures AdoptOne(mid, key).order == kept + (gained + if NewKey(key) in mid.records then [] else [NewKey(key)])
  {
    NewKeyIsLocal(key);
    assert kept + (gained + [NewKey(key)]) == (kept + gained) + [NewKey(key)];
    assert gained + [] == gained;
  }

  lemma {:induction false} ExceptNothing(order: seq<string>)
    ensures Except(order, []) == order
  {
    if order != [] {
      ExceptNothing(order[1..]);
    }
  }

  /** Afterwards the keys that kept their name come first, as they stood, and then the new names
      that were free, in the order of the keys they come from. */
  lemma {:induction false} AdoptedOrder(st: Store)
    requires Valid(st)
    ensures var keys := ForeignKeys(st.order);
            Adopt(st).order == Except(st.order, keys) + Gained(st, keys)
  {
    ForeignAdoptable(st);
    EachOrder(st, ForeignKeys(st.order));
  }
}
