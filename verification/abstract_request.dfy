/**
 * The request side of the First Atlantic Commerce gateway: the fixed
 * endpoints and namespace, the request parameters, endpoint choice, the
 * request signature and the serialization of a payload into an XML tree.
 */
module AbstractRequest {
  import opened Amount
  import opened XmlTree
  import opened SimpleXml

  const LiveEndpoint: string := "https://marlin.firstatlanticcommerce.com/PGServiceXML/"
  const TestEndpoint: string := "https://ecm.firstatlanticcommerce.com/PGServiceXML/"
  /** The default namespace of every request document. */
  const Namespace: string := "http://schemas.firstatlanticcommerce.com/gateway/data"

  /** The request parameters the core reads. */
  datatype Parameters = Parameters(
    merchantPassword: string,
    merchantId: string,
    acquirerId: string,
    transactionId: string,
    amount: string,
    currencyNumeric: string,
    testMode: bool,
    requestName: string)

  /** The URL requests are posted to. */
  function Endpoint(p: Parameters): (url: string)
    ensures url == TestEndpoint <==> p.testMode
    ensures url == LiveEndpoint <==> !p.testMode
  {
    assert |TestEndpoint| != |LiveEndpoint|;
    if p.testMode then TestEndpoint else LiveEndpoint
  }

  /** The six signed fields, in the order they are appended to the signed text. */
  function SignedFields(p: Parameters): (fs: seq<string>)
    ensures |fs| == 6
  {
    [p.merchantPassword, p.merchantId, p.acquirerId, p.transactionId,
     FormatAmount(p.amount), p.currencyNumeric]
  }

  /** Appends the fields one after another to an empty text, with no separators. */
  function Append(fields: seq<string>): (s: string) {
    if fields == [] then [] else Append(fields[..|fields| - 1]) + fields[|fields| - 1]
  }

  /** Where field `k` starts: right after the fields appended before it. */
  function Offset(fields: seq<string>, k: nat): (o: nat)
    requires k <= |fields|
  {
    |Append(fields[..k])|
  }

  /** Field `k` of `fields` is found in `s` at its offset. */
  predicate FieldAt(s: string, fields: seq<string>, k: nat)
    requires k < |fields|
  {
    Offset(fields, k) + |fields[k]| <= |s| &&
    s[Offset(fields, k)..Offset(fields, k) + |fields[k]|] == fields[k]
  }

  /** Every field is found in the appended text at its offset. */
  lemma {:induction false} AppendLayout(fields: seq<string>)
    ensures forall k :: 0 <= k < |fields| ==> FieldAt(Append(fields), fields, k)
    decreases |fields|
  {
    if fields != [] {
      var n := |fields| - 1;
      var init := fields[..n];
      var s := Append(fields);
      AppendLayout(init);
      assert s == Append(init) + fields[n];
      forall k | 0 <= k < |fields| ensures FieldAt(s, fields, k) {
        if k < n {
          assert init[..k] == fields[..k];
          assert FieldAt(Append(init), init, k);
          assert s[..|Append(init)|] == Append(init);
        } else {
          assert init == fields[..k];
        }
      }
    }
  }

  /** Two texts cut at the same length are equal exactly when both parts are. */
  lemma SplitEqual(a: string, x: string, b: string, y: string)
    requires |a| == |b| && a + x == b + y
    ensures a == b && x == y
  {
    assert a == (a + x)[..|a|] && b == (b + y)[..|b|];
    assert x == (a + x)[|a|..] && y == (b + y)[|b|..];
  }

  /** Appending fields of matching lengths gives equal texts exactly when the fields are equal. */
  lemma {:induction false} AppendInjective(fs: seq<string>, gs: seq<string>)
    requires |fs| == |gs|
    requires forall k :: 0 <= k < |fs| ==> |fs[k]| == |gs[k]|
    ensures Append(fs) == Append(gs) <==> fs == gs
    decreases |fs|
  {
    if fs != [] {
      var n := |fs| - 1;
      AppendInjective(fs[..n], gs[..n]);
      assert fs == fs[..n] + [fs[n]] && gs == gs[..n] + [gs[n]];
      if Append(fs) == Append(gs) {
        SplitEqual(Append(fs[..n]), fs[n], Append(gs[..n]), gs[n]);
      }
    }
  }

  /** A change confined to one field changes the appended text, whatever it does to that field's length. */
  lemma {:induction false} AppendSeesOneChange(fs: seq<string>, gs: seq<string>, k: nat)
    requires |fs| == |gs| && k < |fs|
    requires fs[k] != gs[k]
    requires forall j :: 0 <= j < |fs| && j != k ==> fs[j] == gs[j]
    ensures Append(fs) != Append(gs)
    decreases |fs|
  {
    var n := |fs| - 1;
    var a, b := Append(fs[..n]), Append(gs[..n]);
    if k == n {
      assert fs[..n] == gs[..n];
      if Append(fs) == Append(gs) {
        SplitEqual(a, fs[n], b, gs[n]);
      }
    } else {
      AppendSeesOneChange(fs[..n], gs[..n], k);
      if Append(fs) == Append(gs) {
        assert fs[n] == gs[n];
        SplitEqual(a, fs[n], b, gs[n]);
      }
    }
  }

  /**
   * The text the signature digests: the six signed fields appended one
   * after another, with no separators; each is found right after those
   * before it.
   */
  function Preimage(p: Parameters): (s: string)
    ensures forall k :: 0 <= k < 6 ==> FieldAt(s, SignedFields(p), k)
  {
    AppendLayout(SignedFields(p));
    Append(SignedFields(p))
  }

  /** Spelled out, the preimage is password, merchant ID, acquirer ID, transaction ID, amount and currency code. */
  lemma PreimageUnfolded(p: Parameters)
    ensures Preimage(p) == p.merchantPassword + p.merchantId + p.acquirerId + p.transactionId
                           + FormatAmount(p.amount) + p.currencyNumeric
  {
    var fs := SignedFields(p);
    assert fs[..1][..0] == [];
    assert Append(fs[..1]) == fs[0];
    assert fs[..2][..1] == fs[..1];
    assert Append(fs[..2]) == fs[0] + fs[1];
    assert fs[..3][..2] == fs[..2];
    assert Append(fs[..3]) == fs[0] + fs[1] + fs[2];
    assert fs[..4][..3] == fs[..3];
    assert Append(fs[..4]) == fs[0] + fs[1] + fs[2] + fs[3];
    assert fs[..5][..4] == fs[..4];
    assert Append(fs[..5]) == fs[0] + fs[1] + fs[2] + fs[3] + fs[4];
    assert fs[..6] == fs;
  }

  /**
   * The request signature: the base64 text of the raw SHA-1 digest of the
   * merchant password, merchant ID, acquirer ID, transaction ID, formatted
   * amount and currency code, run together. The digest and the encoding
   * are passed in.
   */
  function Signature(p: Parameters, sha1: string -> seq<bv8>, base64: seq<bv8> -> string): (sig: string)
    ensures sig == base64(sha1(p.merchantPassword + p.merchantId + p.acquirerId + p.transactionId
                               + FormatAmount(p.amount) + p.currencyNumeric))
  {
    PreimageUnfolded(p);
    base64(sha1(Preimage(p)))
  }

  /** The six signed fields of `p` and `q` have the same lengths. */
  predicate SameFieldLengths(p: Parameters, q: Parameters) {
    forall k :: 0 <= k < 6 ==> |SignedFields(p)[k]| == |SignedFields(q)[k]|
  }

  /** The six signed fields of `p` and `q` are equal. */
  predicate SameSignedFields(p: Parameters, q: Parameters) {
    SignedFields(p) == SignedFields(q)
  }

  /** `p` and `q` agree on five of the six signed fields and differ in the remaining one. */
  predicate DifferInOneField(p: Parameters, q: Parameters) {
    exists k :: 0 <= k < 6 && SignedFields(p)[k] != SignedFields(q)[k] &&
      forall j :: 0 <= j < 6 && j != k ==> SignedFields(p)[j] == SignedFields(q)[j]
  }

  /** When the field lengths agree, two preimages are equal exactly when the six signed fields are. */
  lemma PreimageDeterminesFields(p: Parameters, q: Parameters)
    requires SameFieldLengths(p, q)
    ensures Preimage(p) == Preimage(q) <==> SameSignedFields(p, q)
  {
    AppendInjective(SignedFields(p), SignedFields(q));
  }

  /**
   * Any change confined to one signed field changes the preimage, whether
   * or not it changes that field's length.
   */
  lemma PreimageSeesOneFieldChange(p: Parameters, q: Parameters)
    requires DifferInOneField(p, q)
    ensures Preimage(p) != Preimage(q)
  {
    var k :| 0 <= k < 6 && SignedFields(p)[k] != SignedFields(q)[k] &&
      forall j :: 0 <= j < 6 && j != k ==> SignedFields(p)[j] == SignedFields(q)[j];
    AppendSeesOneChange(SignedFields(p), SignedFields(q), k);
  }

  /**
   * The fields are run together without separators, so the preimage does
   * not fix where one field ends: moving the last character of the merchant
   * ID to the front of the acquirer ID leaves it unchanged.
   */
  lemma PreimageBoundaryAmbiguity(p: Parameters)
    requires |p.merchantId| > 0
    ensures var n := |p.merchantId| - 1;
      var q := p.(merchantId := p.merchantId[..n], acquirerId := [p.merchantId[n]] + p.acquirerId);
      Preimage(q) == Preimage(p) && !SameSignedFields(p, q)
  {
    var n := |p.merchantId| - 1;
    var q := p.(merchantId := p.merchantId[..n], acquirerId := [p.merchantId[n]] + p.acquirerId);
    PreimageUnfolded(p);
    PreimageUnfolded(q);
    assert q.merchantId + q.acquirerId == p.merchantId + p.acquirerId by {
      assert p.merchantId == q.merchantId + [p.merchantId[n]];
    }
    assert p.merchantPassword + q.merchantId + q.acquirerId == p.merchantPassword + p.merchantId + p.acquirerId;
    assert SignedFields(p)[1] != SignedFields(q)[1];
  }

  /** Only the formatted amount is signed: amounts that format alike give the same preimage. */
  lemma PreimageSeesFormattedAmount(p: Parameters, a: string, b: string)
    requires FormatAmount(a) == FormatAmount(b)
    ensures Preimage(p.(amount := a)) == Preimage(p.(amount := b))
  {
    assert SignedFields(p.(amount := a)) == SignedFields(p.(amount := b));
  }

  /**
   * Dropping the decimal point of the amount, or adding a leading zero to
   * it, changes neither the preimage nor the signature.
   */
  lemma AmountSpellingsCollide(p: Parameters, sha1: string -> seq<bv8>, base64: seq<bv8> -> string)
    ensures Preimage(p.(amount := "10.00")) == Preimage(p.(amount := "1000"))
    ensures Preimage(p.(amount := "1000")) == Preimage(p.(amount := "01000"))
    ensures Signature(p.(amount := "10.00"), sha1, base64) == Signature(p.(amount := "1000"), sha1, base64)
  {
    FormatAmountSpellings();
    PreimageSeesFormattedAmount(p, "10.00", "1000");
    PreimageSeesFormattedAmount(p, "1000", "01000");
  }

  /** The signature depends on the six signed fields and on nothing else. */
  lemma SignatureDeterministic(p: Parameters, q: Parameters, sha1: string -> seq<bv8>, base64: seq<bv8> -> string)
    requires SameSignedFields(p, q)
    ensures Signature(p, sha1, base64) == Signature(q, sha1, base64)
  {
  }

  /**
   * With a collision-free digest and encoding, equal signatures over fields
   * of equal lengths mean equal signed fields.
   */
  lemma SignatureDetectsChange(p: Parameters, q: Parameters, sha1: string -> seq<bv8>, base64: seq<bv8> -> string)
    requires forall x, y :: sha1(x) == sha1(y) ==> x == y
    requires forall x, y :: base64(x) == base64(y) ==> x == y
    requires SameFieldLengths(p, q)
    requires Signature(p, sha1, base64) == Signature(q, sha1, base64)
    ensures SameSignedFields(p, q)
  {
    PreimageDeterminesFields(p, q);
  }

  /**
   * With a collision-free digest and encoding, a change confined to one
   * signed field changes the signature.
   */
  lemma SignatureSeesOneFieldChange(p: Parameters, q: Parameters, sha1: string -> seq<bv8>, base64: seq<bv8> -> string)
    requires forall x, y :: sha1(x) == sha1(y) ==> x == y
    requires forall x, y :: base64(x) == base64(y) ==> x == y
    requires DifferInOneField(p, q)
    ensures Signature(p, sha1, base64) != Signature(q, sha1, base64)
  {
    PreimageSeesOneFieldChange(p, q);
  }

  /** Worked request: test-mode credentials and ten units of currency 840. */
  const ExampleRequest := Parameters("pw", "m1", "a1", "t1", "10.00", "840", true, "AuthorizeRequest")

  /** The worked request's fields run together, with the amount already formatted. */
  lemma ExampleText(amount: string)
    requires amount == "000000001000"
    ensures "pw" + "m1" + "a1" + "t1" + amount + "840" == "pwm1a1t1000000001000840"
  {
    assert "pw" + "m1" == "pwm1";
    assert "pwm1" + "a1" == "pwm1a1";
    assert "pwm1a1" + "t1" == "pwm1a1t1";
    assert "pwm1a1t1" + amount == "pwm1a1t1000000001000";
  }

  /** The worked request's signed text: the amount as twelve digits between the transaction ID and the currency. */
  lemma PreimageExample()
    ensures Preimage(ExampleRequest) == "pwm1a1t1000000001000840"
  {
    PreimageUnfolded(ExampleRequest);
    FormatAmountWhole();
    ExampleText(FormatAmount(ExampleRequest.amount));
  }

  /** The worked request is signed over that text and goes to the test endpoint. */
  lemma SignatureExample(sha1: string -> seq<bv8>, base64: seq<bv8> -> string)
    ensures Signature(ExampleRequest, sha1, base64) == base64(sha1("pwm1a1t1000000001000840"))
    ensures Endpoint(ExampleRequest) == TestEndpoint
  {
    PreimageExample();
  }

  /**
   * Appends to `xml` the children serializing `data`, in order, skipping
   * unset entries and filling each nested array's element in place.
   */
  method SerializeInto(data: seq<Entry>, xml: Node)
    requires xml.Valid()
    modifies xml.Repr
    ensures xml.Valid() && fresh(xml.Repr - old(xml.Repr))
    ensures xml.Tree == old(xml.Tree).(children := old(xml.Tree.children) + Children(xml.ns, data))
    decreases data
  {
    ghost var start := xml.Tree;
    var i := 0;
    while i < |data|
      invariant 0 <= i <= |data|
      invariant xml.Valid() && fresh(xml.Repr - old(xml.Repr))
      invariant xml.Tree == start.(children := start.children + Children(xml.ns, data[..i]))
    {
      SerializeEntry(data[i], xml);
      ChildrenSnoc(xml.ns, data[..i], data[i]);
      assert data[..i + 1] == data[..i] + [data[i]];
      i := i + 1;
    }
    assert data[..i] == data;
  }

  /** One round of the serialization loop: the element, if any, for one entry. */
  method SerializeEntry(e: Entry, xml: Node)
    requires xml.Valid()
    modifies xml.Repr
    ensures xml.Valid() && fresh(xml.Repr - old(xml.Repr))
    ensures xml.Tree == old(xml.Tree).(children := old(xml.Tree.children) + EntryElems(xml.ns, e))
    decreases e, 1
  {
    match e.value {
      case Null =>
      case Nested(_) =>
        SerializeNested(e, xml);
      case Scalar(s) =>
        var _ := xml.AddChild(e.key, s);
    }
  }

  /** A nested array: a new child named by the key, then filled in place with the array's entries. */
  method SerializeNested(e: Entry, xml: Node)
    requires e.value.Nested? && xml.Valid()
    modifies xml.Repr
    ensures xml.Valid() && fresh(xml.Repr - old(xml.Repr))
    ensures xml.Tree == old(xml.Tree).(children := old(xml.Tree.children) + [Elem(e.key, xml.ns, "", Children(xml.ns, e.value.entries))])
    decreases e, 0
  {
    var node := xml.AddChild(e.key, "");
    ghost var before := xml.Tree.children;
    SerializeInto(e.value.entries, node);
    assert node.Tree == Elem(e.key, xml.ns, "", Children(xml.ns, e.value.entries));
    assert xml.Tree.children == before == old(xml.Tree.children) + [Elem(e.key, xml.ns, "", [])];
    // the ghost view of `xml` follows what happened below its new last child
    xml.Repr := xml.Repr + node.Repr;
    xml.Tree := xml.Tree.(children := old(xml.Tree.children) + [node.Tree]);
  }

  /** Serializes a payload into a new document rooted at the request's name, in the gateway's namespace. */
  method XmlSerialize(p: Parameters, data: seq<Entry>) returns (xml: Node)
    ensures xml.Valid() && fresh(xml.Repr)
    ensures xml.Tree == Document(p.requestName, Namespace, data)
  {
    xml := new Node(p.requestName, Namespace, "");
    SerializeInto(data, xml);
  }
}
