# First Atlantic Commerce request core, modelled in Dafny

This project models the request side of the Omnipay gateway for First
Atlantic Commerce (PGServiceXML). The modelled code is the abstract request class in
`src/Message/AbstractRequest.php`. It covers four things:

- **Amount formatting** (`Amount`). Every `.` is removed from the amount
  string, and the result is left-padded with `'0'` to twelve characters.
  Padding never truncates.
- **Request signature** (`AbstractRequest.Preimage`, `AbstractRequest.Signature`).
  Six fields are concatenated with no separators: merchant password, merchant
  ID, acquirer ID, transaction ID, formatted amount, numeric currency code.
  The signature is the base64 text of the raw SHA-1 digest of that text.
  SHA-1 and base64 are PHP built-ins, so they are function parameters here.
- **Endpoint choice** (`AbstractRequest.Endpoint`). The test URL in test mode,
  the live URL otherwise.
- **Payload serialization** (`XmlTree`, `SimpleXml`, `AbstractRequest.SerializeInto`).
  A payload is an ordered array of key/value entries. A value is null, a
  scalar, or a nested array. It becomes an XML element tree under a root
  named after the request, in the gateway's namespace. The source builds the
  tree in place: it adds a child to a SimpleXMLElement and then recurses into
  that child. The model does the same. `SimpleXml.Node` is a mutable element
  whose `AddChild` attaches and returns a new child. `SerializeInto` loops
  over the entries, and for a nested array it calls itself on the new child.
  Each method is proved to build exactly the tree given by the pure recursive
  function `XmlTree.Children`. The lemmas about `Children` then state the
  serializer's promises: null entries are skipped and order is kept. Read
  back, the tree gives the payload with its null entries removed; it gives
  exactly the payload when, and only when, the payload has no null entry and
  no empty nested array (`XmlTree.RoundTripExactly`).

Getters that come from the parameter trait and the Omnipay base class are
fields of the `Parameters` record.

The docblock at src/Message/AbstractRequest.php:45 promises twelve digits.
But `str_pad` (line 52) returns a longer dot-free amount unchanged, so such an
amount comes out longer than twelve characters. The model follows the code
(`Amount.FormatAmountLong`).

The six signed fields are run together without separators. So the signed
text does not fix where one field ends and the next begins: for example,
merchant ID `m1a` with acquirer ID `1` signs the same text as merchant ID
`m1` with acquirer ID `a1` (`AbstractRequest.PreimageBoundaryAmbiguity`).
A change confined to a single signed field is always seen
(`AbstractRequest.PreimageSeesOneFieldChange`). The fifth signed field is the
formatted amount, not the amount parameter. So amounts that format alike sign
alike: `10.00`, `1000` and `01000` give the same signed text and the same
signature (`AbstractRequest.AmountSpellingsCollide`).

## Model

| member | source | states |
|---|---|---|
| `Amount.StripDots` | src/Message/AbstractRequest.php:51 | The result contains no `.` at all (every occurrence is removed, not just the first) and is never longer than the input. |
| `Amount.StripDotsAppend` | src/Message/AbstractRequest.php:51 | Removing dots works character by character: it distributes over concatenation, so the kept characters stay in input order. |
| `Amount.StripDotsCounts` | src/Message/AbstractRequest.php:51 | Every character other than `.` is kept as many times as it occurs in the input; no `.` is kept. |
| `Amount.StripDotsNoDots` | src/Message/AbstractRequest.php:51 | A string without dots is returned unchanged (so removing dots is idempotent). |
| `Amount.PadLeft` | src/Message/AbstractRequest.php:52 | Left padding: the length is the larger of the width and the input length; the input is the suffix; every character before it is the pad character; nothing is truncated. |
| `Amount.FormatAmount` | src/Message/AbstractRequest.php:47-55 | The formatted amount has no `.`, is max(12, digit count) long, and is `'0'`s followed by the dot-free amount. |
| `Amount.FormatAmountShort` | src/Message/AbstractRequest.php:45-52 | If the dot-free amount has at most 12 characters, the result is exactly 12 long: `'0'` padding followed by the dot-free amount. |
| `Amount.FormatAmountLong` | src/Message/AbstractRequest.php:52 | If the dot-free amount has 12 or more characters, the result is that string: no padding and no truncation. |
| `Amount.FormatAmountIdempotent` | src/Message/AbstractRequest.php:47-55 | Formatting a formatted amount again changes nothing. |
| `Amount.FormatAmountDigits` | src/Message/AbstractRequest.php:45-52 | An amount made only of digits and dots formats to a string of digits only. |
| `Amount.PadLeftAbsorbs` | src/Message/AbstractRequest.php:52 | Left padding a string that is shorter than the width and starts with the pad character gives the same result as padding the rest of it. |
| `Amount.FormatAmountLeadingZero` | src/Message/AbstractRequest.php:51-52 | While the dot-free amount is shorter than twelve characters, a leading zero on the amount does not change the formatted amount. |
| `Amount.FormatAmountSpellings` | src/Message/AbstractRequest.php:51-52 | `"10.00"`, `"1000"` and `"01000"` format alike. |
| `Amount.FormatAmountCents` | src/Message/AbstractRequest.php:47-55 | `"12.34"` formats to `"000000001234"`. |
| `Amount.FormatAmountWhole` | src/Message/AbstractRequest.php:47-55 | `"10.00"` formats to `"000000001000"`. |
| `Amount.FormatAmountUnscaled` | src/Message/AbstractRequest.php:47-55 | `"0"` formats to twelve zeros. `"0.5"` formats to `"000000000005"`: the amount is not rescaled, the dot is only dropped. |
| `AbstractRequest.Endpoint` | src/Message/AbstractRequest.php:80-83 | The test URL is chosen exactly when test mode is on, and the live URL exactly when it is off. |
| `AbstractRequest.AppendLayout` | src/Message/AbstractRequest.php:65-70 | Appending texts one after another with `.=` puts each of them, intact, right after the ones appended before it. |
| `AbstractRequest.AppendInjective` | src/Message/AbstractRequest.php:65-70 | For lists of texts whose lengths match one by one, the appended texts are equal if and only if the lists are equal. |
| `AbstractRequest.AppendSeesOneChange` | src/Message/AbstractRequest.php:65-70 | If two lists of texts differ in exactly one place, their appended texts differ, even when that one text changes length. |
| `AbstractRequest.Preimage` | src/Message/AbstractRequest.php:65-70 | The signed text holds the six signed fields in order (password, merchant ID, acquirer ID, transaction ID, formatted amount, currency code). Each field is found intact right after the ones before it. |
| `AbstractRequest.PreimageUnfolded` | src/Message/AbstractRequest.php:65-70 | The signed text is exactly the six fields concatenated in source order, with the amount formatted and nothing between them. |
| `AbstractRequest.Signature` | src/Message/AbstractRequest.php:60-72 | The signature is the base64 text of the raw SHA-1 digest of merchant password, merchant ID, acquirer ID, transaction ID, formatted amount and currency code, run together in that order. No other parameter enters it. |
| `AbstractRequest.PreimageDeterminesFields` | src/Message/AbstractRequest.php:65-70 | For fields of equal lengths, two signed texts are equal if and only if all six signed fields are equal. |
| `AbstractRequest.PreimageSeesOneFieldChange` | src/Message/AbstractRequest.php:65-70 | If two requests agree on five signed fields and differ in the sixth, their signed texts differ, whatever the lengths. |
| `AbstractRequest.PreimageBoundaryAmbiguity` | src/Message/AbstractRequest.php:65-70 | With no separators, moving the last character of the merchant ID to the front of the acquirer ID gives different signed fields but the same signed text. |
| `AbstractRequest.PreimageSeesFormattedAmount` | src/Message/AbstractRequest.php:47-70 | Only the formatted amount is signed: two amounts that format alike give the same signed text. |
| `AbstractRequest.AmountSpellingsCollide` | src/Message/AbstractRequest.php:47-72 | The amounts `10.00`, `1000` and `01000` give the same signed text, and `10.00` and `1000` the same signature, whatever the other parameters. |
| `AbstractRequest.SignatureDeterministic` | src/Message/AbstractRequest.php:63-73 | Requests that agree on the six signed fields get the same signature, whatever their other parameters. |
| `AbstractRequest.SignatureDetectsChange` | src/Message/AbstractRequest.php:63-73 | Suppose the digest and the encoding are collision-free. Then equal signatures over fields of equal lengths mean the six signed fields are equal. |
| `AbstractRequest.SignatureSeesOneFieldChange` | src/Message/AbstractRequest.php:63-73 | Suppose the digest and the encoding are collision-free. Then a change confined to one signed field, of any length, changes the signature. |
| `AbstractRequest.PreimageExample` | src/Message/AbstractRequest.php:47-70 | Credentials pw/m1/a1, transaction t1, amount 10.00, currency 840: the signed text is `pwm1a1t1000000001000840`. |
| `AbstractRequest.SignatureExample` | src/Message/AbstractRequest.php:63-83 | For that request the signature is base64(SHA-1(`pwm1a1t1000000001000840`)), and test mode gives the test endpoint. |
| `AbstractRequest.SerializeInto` | src/Message/AbstractRequest.php:126-142 | Serializing into an existing element appends exactly `Children(ns, data)` after its existing children. Its name, namespace and text are unchanged. The element stays well formed, and every new node is fresh. |
| `AbstractRequest.SerializeEntry` | src/Message/AbstractRequest.php:128-141 | One loop round. A null entry adds nothing. A scalar adds one leaf with its text. A nested array adds one element, which is then filled recursively in place. |
| `AbstractRequest.SerializeNested` | src/Message/AbstractRequest.php:133-137 | A nested array adds one element named by its key, without text, whose children are then exactly the serialization of the array. The element stays well formed. |
| `AbstractRequest.XmlSerialize` | src/Message/AbstractRequest.php:120-145 | Serializing a payload without an element gives a new root named after the request, in the gateway namespace, without text, holding the payload's children. |
| `SimpleXml.Node.constructor` | src/Message/AbstractRequest.php:123 | A new element has the given name, namespace and text, and no children. |
| `SimpleXml.Node.AddChild` | src/Message/AbstractRequest.php:135-140 | Adding a child appends one fresh, childless element with the given name and text to the end of the children. The new element is in the parent's namespace. Nothing else changes. |
| `XmlTree.Children` | src/Message/AbstractRequest.php:126-142 | Serializing a payload adds at most one element per entry, each in the namespace of the element it is added under. |
| `XmlTree.EntryElems` | src/Message/AbstractRequest.php:128-141 | A null entry adds no element. Any other entry adds exactly one, named by its key, in the parent's namespace. |
| `XmlTree.Document` | src/Message/AbstractRequest.php:120-124 | The document root is named after the request, has no text, and it and every element below it are in the gateway namespace. It has at most one child per payload entry. |
| `XmlTree.NonNull` | src/Message/AbstractRequest.php:128-131 | The kept entries are exactly the payload entries whose value is not null: each kept entry is one of them, and each of them is kept. |
| `XmlTree.NonNullAppend` | src/Message/AbstractRequest.php:126-131 | Skipping null entries goes entry by entry, so the kept entries are in payload order. |
| `XmlTree.ChildrenAppend` | src/Message/AbstractRequest.php:126-142 | The serialization goes entry by entry in order: serializing `a + b` gives the children of `a` followed by those of `b`. |
| `XmlTree.NullEntryIgnored` | src/Message/AbstractRequest.php:128-131 | Inserting an entry bound to null anywhere in a payload leaves its children unchanged. |
| `XmlTree.NullEntryIgnoredInDocument` | src/Message/AbstractRequest.php:120-131 | The same holds for the whole document. |
| `XmlTree.EmptyStringKept` | src/Message/AbstractRequest.php:128-140 | An empty string is not null: it adds exactly one empty, childless element at its place. |
| `XmlTree.ChildrenShape` | src/Message/AbstractRequest.php:126-142 | There is one child per non-null entry, in input order. Each child is named by its key and is in the given namespace. A scalar gives a leaf with that text. A nested array gives an element without text whose children are that array's serialization; an empty array gives no children. |
| `XmlTree.ChildrenInNamespace` | src/Message/AbstractRequest.php:122-140 | Every element of the serialization, at any depth, is in the namespace of the element it was added under. |
| `XmlTree.EntryInNamespace` | src/Message/AbstractRequest.php:133-140 | The same, for the element one entry produces. |
| `XmlTree.ParseChildren` | src/Message/AbstractRequest.php:126-142 | Reading the serialized tree back (childless element as scalar, any other as nested array) gives the payload with nulls removed, and with a nested array that has nothing set inside read as an empty scalar. |
| `XmlTree.RoundTrip` | src/Message/AbstractRequest.php:120-145 | If a payload has no null and no empty nested array, reading back its serialization gives the payload itself: the same keys, values and nesting. |
| `XmlTree.ChildrenSnoc` | src/Message/AbstractRequest.php:126-142 | Serializing one more entry adds that entry's elements after the children of the entries before it. |
| `XmlTree.NormalizeFixedCanonical` | src/Message/AbstractRequest.php:126-142 | A payload that its read-back form leaves unchanged has no null entry and no empty nested array. |
| `XmlTree.RoundTripExactly` | src/Message/AbstractRequest.php:120-145 | Reading back the serialization gives the payload itself if and only if the payload has no null entry and no empty nested array. |
| `XmlTree.DocumentExample` | src/Message/AbstractRequest.php:120-145 | `{A: "1", B: {C: "2"}}` under root `R` in namespace `N` gives `R` with leaf `A` = `1` and element `B` holding leaf `C` = `2`, all in `N`. |

## Left out

- `sendData` (src/Message/AbstractRequest.php:101-110) is not modelled. It is the HTTP POST through the Omnipay HTTP client with its content-type header, the parsing of the reply XML, and the storing of the response: network I/O and a foreign library.
- `newResponse` (src/Message/AbstractRequest.php:92) is abstract. The response classes of each request type are not part of this model.
- SHA-1 and base64 are PHP built-ins. They are parameters of `AbstractRequest.Signature`, so nothing is proved about the digest itself. The signature lemmas assume a collision-free digest only where they say so.
- Text is modelled as `seq<char>`. PHP strings are bytes, and the digest reads bytes. No character encoding is modelled.
- The XML text rendering (`asXML()`), the XML declaration, and the escaping done by SimpleXML's `addChild` (for example of `&`) are not modelled. The model is the element tree. `XmlSerialize` returns the root element, not its text.
- The root's `xmlns` declaration is modelled as the namespace of the root and of every element below it. libxml2 gives a child added without a namespace the namespace of its parent.
- PHP's conversion of scalars to strings is not modelled: booleans, integers and integer array keys. Keys and scalar values are strings, and a PHP array is a sequence of entries. Key uniqueness is not required, because the serializer does not depend on it.
- The parameter getters and setters of the parameter trait and the Omnipay base request are not modelled. A missing amount (null from the getter) is not modelled either; PHP treats it as the empty string. The parameters are plain fields of `AbstractRequest.Parameters`.
- `SimpleXml.Node.AddChild`: element names are taken verbatim. SimpleXML rejects an empty name (a warning and no element in PHP 7, an error in PHP 8), and for a name like `p:n` it keeps only the local name `n`. Neither path is modelled, and no name is checked against the XML name rules.
- `AbstractRequest.XmlSerialize`: the SimpleXMLElement constructor parses `<requestName xmlns="..." />` and throws when the request name makes that text malformed. This error path is not modelled; any request name gives a root.
- `SimpleXml.Node` keeps only what the serializer touches: the name, the namespace, the text and the ordered children. Attributes, other SimpleXML operations and aliasing through other handles are not modelled.
