/** XML documents as element trees whose texts are still escaped: decoding them as a
    parser does and looking elements up. Tags and tree structure are the XML library's. */
module XmlTree {
  import opened Common
  import opened XmlText

  // ---------- documents ----------

  datatype Xml = Elem(tag: string, text: string, children: seq<Xml>)

  function Leaf(tag: string, text: string): Xml {
    Elem(tag, text, [])
  }

  /** The parsed document: every text decoded, or `None` if some text does not parse. */
  function Decode(x: Xml): Option<Xml>
    decreases x, 1
  {
    match (ParseText(x.text), DecodeAll(x.children))
    case (Some(t), Some(cs)) => Some(Elem(x.tag, t, cs))
    case _ => None
  }

  function DecodeAll(xs: seq<Xml>): Option<seq<Xml>>
    decreases xs, 0
  {
    if xs == [] then Some([])
    else
      match (Decode(xs[0]), DecodeAll(xs[1..]))
      case (Some(x), Some(ys)) => Some([x] + ys)
      case _ => None
  }

  /** The first element with this tag in document order, the element itself included. */
  function Find(x: Xml, tag: string): Option<Xml>
    decreases x, 1
  {
    if x.tag == tag then Some(x) else FindIn(x.children, tag)
  }

  function FindIn(xs: seq<Xml>, tag: string): Option<Xml>
    decreases xs, 0
  {
    if xs == [] then None
    else
      match Find(xs[0], tag)
      case Some(x) => Some(x)
      case None => FindIn(xs[1..], tag)
  }

  /** The stripped text under a tag, empty when there is none. */
  function TextOf(x: Xml, tag: string): string {
    match Find(x, tag)
    case Some(e) => Strip(e.text)
    case None => ""
  }

  // ---------- decoding ----------

  lemma {:induction false} DecodeConcat(xs: seq<Xml>, ys: seq<Xml>)
    ensures DecodeAll(xs + ys) ==
            if DecodeAll(xs).Some? && DecodeAll(ys).Some? then Some(DecodeAll(xs).value + DecodeAll(ys).value) else None
  {
    if xs == [] {
      assert xs + ys == ys;
      if DecodeAll(ys).Some? {
        assert [] + DecodeAll(ys).value == DecodeAll(ys).value;
      }
    } else {
      assert (xs + ys)[1..] == xs[1..] + ys;
      DecodeConcat(xs[1..], ys);
      if Decode(xs[0]).Some? && DecodeAll(xs[1..]).Some? && DecodeAll(ys).Some? {
        var x, a, b := Decode(xs[0]).value, DecodeAll(xs[1..]).value, DecodeAll(ys).value;
        assert [x] + (a + b) == ([x] + a) + b;
      }
    }
  }

  lemma DecodeOne(x: Xml)
    ensures DecodeAll([x]) == if Decode(x).Some? then Some([Decode(x).value]) else None
  {
    assert [x] == [x] + [];
    DecodeCons(x, []);
    if Decode(x).Some? {
      assert [Decode(x).value] + [] == [Decode(x).value];
    }
  }

  lemma DecodeCons(x: Xml, xs: seq<Xml>)
    ensures DecodeAll([x] + xs) ==
            if Decode(x).Some? && DecodeAll(xs).Some? then Some([Decode(x).value] + DecodeAll(xs).value) else None
  {
    assert ([x] + xs)[1..] == xs;
  }

  lemma DecodeLeaf(tag: string, text: string)
    ensures Decode(Leaf(tag, text)) == if ParseText(text).Some? then Some(Leaf(tag, ParseText(text).value)) else None
  {
  }

  /** An element of plain leaves decodes to itself. */
  lemma DecodePlainLeaf(tag: string, text: string)
    requires Plain(text)
    ensures DecodeAll([Leaf(tag, text)]) == Some([Leaf(tag, text)])
  {
    PlainParses(text);
    DecodeLeaf(tag, text);
    DecodeOne(Leaf(tag, text));
  }

  lemma DecodeWrapped(tag: string, inner: string, text: string)
    requires Plain(text)
    ensures DecodeAll([Elem(tag, "", [Leaf(inner, text)])]) == Some([Elem(tag, "", [Leaf(inner, text)])])
  {
    DecodePlainLeaf(inner, text);
    DecodeOne(Elem(tag, "", [Leaf(inner, text)]));
  }

  lemma DecodeEscaped(tag: string, text: string)
    ensures Decode(Leaf(tag, Escaped(text))) == if Legal(text) then Some(Leaf(tag, Normalise(text))) else None
  {
    DecodeLeaf(tag, Escaped(text));
    if Legal(text) {
      TripExactly(text);
    } else {
      IllegalDoesNotParse(text);
    }
  }

  lemma {:induction false} DecodeThree(xs: seq<Xml>, ys: seq<Xml>, zs: seq<Xml>)
    ensures DecodeAll(xs + (ys + zs)) ==
            if DecodeAll(xs).Some? && DecodeAll(ys).Some? && DecodeAll(zs).Some?
            then Some(DecodeAll(xs).value + (DecodeAll(ys).value + DecodeAll(zs).value)) else None
  {
    DecodeConcat(ys, zs);
    DecodeConcat(xs, ys + zs);
  }

  lemma DecodeId(id: string)
    ensures DecodeAll([Leaf("ID", Escaped(id))]) == if Legal(id) then Some([Leaf("ID", Normalise(id))]) else None
  {
    DecodeEscaped("ID", id);
    DecodeOne(Leaf("ID", Escaped(id)));
  }

  // ---------- looking up ----------

  lemma {:induction false} FindInConcat(xs: seq<Xml>, ys: seq<Xml>, tag: string)
    ensures FindIn(xs + ys, tag) == if FindIn(xs, tag).Some? then FindIn(xs, tag) else FindIn(ys, tag)
  {
    if xs == [] {
      assert xs + ys == ys;
    } else {
      assert (xs + ys)[1..] == xs[1..] + ys;
      FindInConcat(xs[1..], ys, tag);
    }
  }

  lemma FindInLeaf(tag: string, text: string, want: string)
    ensures FindIn([Leaf(tag, text)], want) == if tag == want then Some(Leaf(tag, text)) else None
  {
    assert [Leaf(tag, text)][1..] == [];
    assert Leaf(tag, text).children == [];
    assert FindIn(Leaf(tag, text).children, want) == None;
  }

  lemma TextOfWrapped(tag: string, inner: string, text: string)
    requires tag != inner && Plain(text)
    ensures TextOf(Elem(tag, "", [Leaf(inner, text)]), inner) == text
  {
    FindInLeaf(inner, text, inner);
    PlainParses(text);
  }

  // ---------- loops that collect ----------

  function Prepend<T>(front: seq<T>, rest: Option<seq<T>>): Option<seq<T>> {
    if rest.Some? then Some(front + rest.value) else None
  }

  lemma PrependStep<T>(front: seq<T>, x: T, rest: Option<seq<T>>)
    ensures Prepend(front, Prepend([x], rest)) == Prepend(front + [x], rest)
  {
    if rest.Some? {
      assert front + ([x] + rest.value) == (front + [x]) + rest.value;
    }
  }

  lemma PrependNone<T>(rest: Option<seq<T>>)
    ensures Prepend([], rest) == rest
  {
    if rest.Some? {
      assert [] + rest.value == rest.value;
    }
  }

  lemma Shift<T>(front: seq<T>, x: T, rest: seq<T>)
    ensures front + ([x] + rest) == (front + [x]) + rest
    ensures [] + rest == rest && front + [] == front
  {
  }
}
