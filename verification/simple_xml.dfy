/**
 * A mutable XML element: the part of SimpleXMLElement the request uses. An
 * element is created once and then grows by `AddChild`, which attaches a new
 * element and returns it so that the caller can go on filling it in place.
 */
module SimpleXml {
  import opened XmlTree

  class Node {
    const name: string
    const ns: string
    const text: string
    var kids: seq<Node>

    /** The tree this element currently stands for. */
    ghost var Tree: Elem
    /** This element and every element below it. */
    ghost var Repr: set<object>

    ghost predicate Valid()
      reads this, Repr
      decreases Repr
    {
      this in Repr &&
      Tree.name == name && Tree.ns == ns && Tree.text == text &&
      |Tree.children| == |kids| &&
      forall i :: 0 <= i < |kids| ==>
        kids[i] in Repr && kids[i].Repr <= Repr && this !in kids[i].Repr &&
        kids[i].Valid() && kids[i].Tree == Tree.children[i]
    }

    /** A new element without children. */
    constructor (name: string, ns: string, text: string)
      ensures Valid() && Repr == {this}
      ensures Tree == Elem(name, ns, text, [])
    {
      this.name, this.ns, this.text := name, ns, text;
      kids := [];
      Tree := Elem(name, ns, text, []);
      Repr := {this};
    }

    /**
     * Attaches a new last child named `childName` with text `childText`; it
     * is in this element's namespace. Returns the new child.
     */
    method AddChild(childName: string, childText: string) returns (child: Node)
      requires Valid()
      modifies this
      ensures Valid() && fresh(child)
      ensures child.Valid() && child.Repr == {child}
      ensures child.Tree == Elem(childName, ns, childText, [])
      ensures kids == old(kids) + [child]
      ensures Repr == old(Repr) + {child}
      ensures Tree == old(Tree).(children := old(Tree.children) + [child.Tree])
    {
      child := new Node(childName, ns, childText);
      kids := kids + [child];
      Repr := Repr + {child};
      Tree := Tree.(children := Tree.children + [child.Tree]);
    }
  }
}
