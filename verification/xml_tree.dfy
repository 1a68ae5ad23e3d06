/**
 * The request payload and the element tree it is serialized into, with the
 * serialization stated as a pure recursive function. The imperative
 * serializer in module AbstractRequest is proved to build exactly this tree.
 */
module XmlTree {

  /** A payload value: unset, a scalar, or a nested array of entries. */
  datatype Value = Null | Scalar(text: string) | Nested(entries: seq<Entry>)

  /** One key/value pair of a payload array, in the array's order. */
  datatype Entry = Entry(key: string, value: Value)

  /** An XML element: name, namespace URI, text content and child elements. */
  datatype Elem = Elem(name: string, ns: string, text: string, children: seq<Elem>)

  /**
   * The child elements that serializing `entries` adds below an element
   * whose namespace is `ns` (a child added without a namespace of its own
   * belongs to its parent's).
   */
  function Children(ns: string, entries: seq<Entry>): (r: seq<Elem>)
    ensures |r| <= |entries|
    ensures forall c :: c in r ==> c.ns == ns
    decreases entries
  {
    if entries == [] then []
    else EntryElems(ns, entries[0]) + Children(ns, entries[1..])
  }

  /** What one entry contributes: nothing when unset, otherwise one element named by its key. */
  function EntryElems(ns: string, e: Entry): (r: seq<Elem>)
    ensures |r| == if e.value.Null? then 0 else 1
    ensures forall c :: c in r ==> c.name == e.key && c.ns == ns
    decreases e
  {
    match e.value
    case Null => []
    case Scalar(s) => [Elem(e.key, ns, s, [])]
    case Nested(sub) => [Elem(e.key, ns, "", Children(ns, sub))]
  }

  /** The whole document: an empty root element with the payload below it. */
  function Document(root: string, ns: string, data: seq<Entry>): (d: Elem)
    ensures d.name == root && d.text == ""
    ensures InNamespace(d, ns)
    ensures |d.children| <= |data|
  {
    ChildrenInNamespace(ns, data);
    Elem(root, ns, "", Children(ns, data))
  }

  /** The entries that are set, in order. */
  function NonNull(entries: seq<Entry>): (r: seq<Entry>)
    ensures |r| <= |entries|
    ensures forall e :: e in r ==> e in entries && !e.value.Null?
    ensures forall i :: 0 <= i < |entries| && !entries[i].value.Null? ==> entries[i] in r
  {
    if entries == [] then []
    else (if entries[0].value.Null? then [] else [entries[0]]) + NonNull(entries[1..])
  }

  /** Keeping the set entries goes entry by entry, so their order is the input's order. */
  lemma {:induction false} NonNullAppend(a: seq<Entry>, b: seq<Entry>)
    ensures NonNull(a + b) == NonNull(a) + NonNull(b)
  {
    if a == [] {
      assert a + b == b;
    } else {
      assert (a + b)[1..] == a[1..] + b;
      NonNullAppend(a[1..], b);
    }
  }

  /** Every element of the tree lies in namespace `ns`. */
  predicate InNamespace(c: Elem, ns: string)
    decreases c
  {
    c.ns == ns && forall k :: k in c.children ==> InNamespace(k, ns)
  }

  /** Serialization works entry by entry: a longer array adds its children after the shorter one's. */
  lemma {:induction false} ChildrenAppend(ns: string, a: seq<Entry>, b: seq<Entry>)
    ensures Children(ns, a + b) == Children(ns, a) + Children(ns, b)
  {
    if a == [] {
      assert a + b == b;
    } else {
      assert (a + b)[1..] == a[1..] + b;
      ChildrenAppend(ns, a[1..], b);
    }
  }

  /** Serializing one more entry adds that entry's elements at the end. */
  lemma ChildrenSnoc(ns: string, entries: seq<Entry>, e: Entry)
    ensures Children(ns, entries + [e]) == Children(ns, entries) + EntryElems(ns, e)
  {
    ChildrenAppend(ns, entries, [e]);
    assert [e][1..] == [];
  }

  /** An entry whose value is unset produces nothing: adding one anywhere leaves the children as they were. */
  lemma NullEntryIgnored(ns: string, a: seq<Entry>, key: string, b: seq<Entry>)
    ensures Children(ns, a + [Entry(key, Null)] + b) == Children(ns, a + b)
  {
    ChildrenAppend(ns, a + [Entry(key, Null)], b);
    ChildrenAppend(ns, a, [Entry(key, Null)]);
    ChildrenAppend(ns, a, b);
    assert Children(ns, [Entry(key, Null)]) == [];
  }

  /** The same at the level of the document. */
  lemma NullEntryIgnoredInDocument(root: string, ns: string, a: seq<Entry>, key: string, b: seq<Entry>)
    ensures Document(root, ns, a + [Entry(key, Null)] + b) == Document(root, ns, a + b)
  {
    NullEntryIgnored(ns, a, key, b);
  }

  /** An empty string is not unset: it still adds one (empty) element. */
  lemma EmptyStringKept(ns: string, a: seq<Entry>, key: string, b: seq<Entry>)
    ensures Children(ns, a + [Entry(key, Scalar(""))] + b)
         == Children(ns, a) + [Elem(key, ns, "", [])] + Children(ns, b)
  {
    ChildrenAppend(ns, a + [Entry(key, Scalar(""))], b);
    ChildrenAppend(ns, a, [Entry(key, Scalar(""))]);
    assert Children(ns, [Entry(key, Scalar(""))]) == [Elem(key, ns, "", [])];
  }

  /**
   * `c` is the element for the set entry `e`: named by its key, in `ns`; a
   * scalar gives a leaf with that text, and a nested array gives an element
   * without text holding the array's own serialization (none at all for an
   * empty array).
   */
  predicate ElemFor(ns: string, e: Entry, c: Elem) {
    c.name == e.key && c.ns == ns &&
    (e.value.Scalar? ==> c.text == e.value.text && c.children == []) &&
    (e.value.Nested? ==> c.text == "" && c.children == Children(ns, e.value.entries))
  }

  /** The children correspond one to one, in order, to the entries that are set. */
  lemma {:induction false} ChildrenShape(ns: string, entries: seq<Entry>)
    ensures |Children(ns, entries)| == |NonNull(entries)|
    ensures forall i :: 0 <= i < |NonNull(entries)| ==>
      ElemFor(ns, NonNull(entries)[i], Children(ns, entries)[i])
  {
    if entries != [] {
      var rest := entries[1..];
      ChildrenShape(ns, rest);
      if entries[0].value.Null? {
        assert Children(ns, entries) == Children(ns, rest);
        assert NonNull(entries) == NonNull(rest);
      } else {
        var cs, es := Children(ns, entries), NonNull(entries);
        assert cs == EntryElems(ns, entries[0]) + Children(ns, rest);
        assert es == [entries[0]] + NonNull(rest);
        forall i | 0 <= i < |es| ensures ElemFor(ns, es[i], cs[i]) {
          if i > 0 {
            assert es[i] == NonNull(rest)[i - 1];
            assert cs[i] == Children(ns, rest)[i - 1];
          }
        }
      }
    }
  }

  /** Every element the serialization creates is in the namespace it was given. */
  lemma {:induction false} ChildrenInNamespace(ns: string, entries: seq<Entry>)
    ensures forall c :: c in Children(ns, entries) ==> InNamespace(c, ns)
    decreases entries
  {
    if entries != [] {
      EntryInNamespace(ns, entries[0]);
      ChildrenInNamespace(ns, entries[1..]);
    }
  }

  lemma {:induction false} EntryInNamespace(ns: string, e: Entry)
    ensures forall c :: c in EntryElems(ns, e) ==> InNamespace(c, ns)
    decreases e
  {
    if e.value.Nested? {
      ChildrenInNamespace(ns, e.value.entries);
    }
  }

  /** Reading a tree back: a childless element is a scalar, any other a nested array. */
  function Parse(cs: seq<Elem>): (r: seq<Entry>)
    ensures |r| == |cs|
    decreases cs
  {
    if cs == [] then [] else [ParseElem(cs[0])] + Parse(cs[1..])
  }

  function ParseElem(c: Elem): (e: Entry)
    ensures e.key == c.name
    decreases c
  {
    Entry(c.name, if c.children == [] then Scalar(c.text) else Nested(Parse(c.children)))
  }

  /**
   * The payload as it can be read back from its serialization: unset
   * entries are gone, and a nested array with nothing set inside reads as
   * an empty scalar.
   */
  function Normalize(entries: seq<Entry>): (r: seq<Entry>)
    ensures |r| == |NonNull(entries)|
    decreases entries
  {
    if entries == [] then [] else NormalizeEntry(entries[0]) + Normalize(entries[1..])
  }

  function NormalizeEntry(e: Entry): (r: seq<Entry>)
    ensures |r| == if e.value.Null? then 0 else 1
    decreases e
  {
    match e.value
    case Null => []
    case Scalar(_) => [e]
    case Nested(sub) =>
      var n := Normalize(sub);
      [Entry(e.key, if n == [] then Scalar("") else Nested(n))]
  }

  /** A payload that survives the round trip unchanged: nothing unset, no empty nested array. */
  predicate Canonical(entries: seq<Entry>)
    decreases entries
  {
    entries == [] || (CanonicalEntry(entries[0]) && Canonical(entries[1..]))
  }

  predicate CanonicalEntry(e: Entry)
    decreases e
  {
    match e.value
    case Null => false
    case Scalar(_) => true
    case Nested(sub) => sub != [] && Canonical(sub)
  }

  lemma {:induction false} ParseAppend(a: seq<Elem>, b: seq<Elem>)
    ensures Parse(a + b) == Parse(a) + Parse(b)
  {
    if a == [] {
      assert a + b == b;
    } else {
      assert (a + b)[1..] == a[1..] + b;
      ParseAppend(a[1..], b);
    }
  }

  /** Reading back the serialization of a payload gives its normalized form. */
  lemma {:induction false} ParseChildren(ns: string, entries: seq<Entry>)
    ensures Parse(Children(ns, entries)) == Normalize(entries)
    decreases entries
  {
    if entries != [] {
      ParseEntry(ns, entries[0]);
      ParseChildren(ns, entries[1..]);
      ParseAppend(EntryElems(ns, entries[0]), Children(ns, entries[1..]));
    }
  }

  lemma {:induction false} ParseEntry(ns: string, e: Entry)
    ensures Parse(EntryElems(ns, e)) == NormalizeEntry(e)
    decreases e
  {
    if e.value.Nested? {
      var sub := e.value.entries;
      ParseChildren(ns, sub);
      assert Children(ns, sub) == [] <==> Normalize(sub) == [];
      assert Parse([Elem(e.key, ns, "", Children(ns, sub))])
          == [ParseElem(Elem(e.key, ns, "", Children(ns, sub)))];
    } else if e.value.Scalar? {
      assert Parse([Elem(e.key, ns, e.value.text, [])]) == [ParseElem(Elem(e.key, ns, e.value.text, []))];
    }
  }

  /** Normalizing a canonical payload changes nothing. */
  lemma {:induction false} NormalizeCanonical(entries: seq<Entry>)
    requires Canonical(entries)
    ensures Normalize(entries) == entries
    decreases entries
  {
    if entries != [] {
      NormalizeCanonicalEntry(entries[0]);
      NormalizeCanonical(entries[1..]);
    }
  }

  lemma {:induction false} NormalizeCanonicalEntry(e: Entry)
    requires CanonicalEntry(e)
    ensures NormalizeEntry(e) == [e]
    decreases e
  {
    if e.value.Nested? {
      NormalizeCanonical(e.value.entries);
    }
  }

  /** Round trip: a canonical payload is recovered, key for key and level for level, from its serialization. */
  lemma RoundTrip(ns: string, entries: seq<Entry>)
    requires Canonical(entries)
    ensures Parse(Children(ns, entries)) == entries
  {
    ParseChildren(ns, entries);
    NormalizeCanonical(entries);
  }

  /** A payload that normalizes to itself has nothing unset and no empty nested array. */
  lemma {:induction false} NormalizeFixedCanonical(entries: seq<Entry>)
    requires Normalize(entries) == entries
    ensures Canonical(entries)
    decreases entries
  {
    if entries != [] {
      var e, rest := entries[0], entries[1..];
      assert Normalize(entries) == NormalizeEntry(e) + Normalize(rest);
      if !e.value.Null? {
        assert NormalizeEntry(e) == Normalize(entries)[..1] == [e];
        assert Normalize(rest) == Normalize(entries)[1..] == rest;
        NormalizeFixedCanonicalEntry(e);
        NormalizeFixedCanonical(rest);
      }
    }
  }

  lemma {:induction false} NormalizeFixedCanonicalEntry(e: Entry)
    requires NormalizeEntry(e) == [e]
    ensures CanonicalEntry(e)
    decreases e
  {
    if e.value.Nested? {
      var sub := e.value.entries;
      assert Normalize(sub) != [] && Normalize(sub) == sub;
      NormalizeFixedCanonical(sub);
    }
  }

  /** The round trip returns a payload exactly when the payload has nothing unset and no empty nested array. */
  lemma RoundTripExactly(ns: string, entries: seq<Entry>)
    ensures Parse(Children(ns, entries)) == entries <==> Canonical(entries)
  {
    ParseChildren(ns, entries);
    if Canonical(entries) {
      NormalizeCanonical(entries);
    }
    if Parse(Children(ns, entries)) == entries {
      NormalizeFixedCanonical(entries);
    }
  }

  /** Worked document: {A: "1", B: {C: "2"}} below root R in namespace N. */
  lemma DocumentExample()
    ensures Document("R", "N", [Entry("A", Scalar("1")), Entry("B", Nested([Entry("C", Scalar("2"))]))])
         == Elem("R", "N", "", [Elem("A", "N", "1", []), Elem("B", "N", "", [Elem("C", "N", "2", [])])])
  {
    var inner := [Entry("C", Scalar("2"))];
    assert Children("N", inner) == [Elem("C", "N", "2", [])];
    var data := [Entry("A", Scalar("1")), Entry("B", Nested(inner))];
    assert data[1..][1..] == [];
    assert Children("N", data[1..]) == [Elem("B", "N", "", [Elem("C", "N", "2", [])])];
  }
}
