/** The identity of an Android bundle, read from its protobuf manifest (aapt2's XmlNode). */
module BundleManifest {
  import opened Wrappers
  import opened Protobuf

  const ANDROID_NAMESPACE := "http://schemas.android.com/apk/res/android"

  datatype ManifestError = Proto(error: ProtoError) | NoRootElement | NotManifest

  datatype Identity = Identity(package: Option<string>, versionCode: Option<string>, versionName: Option<string>)

  function First(fields: seq<(nat, Bytes)>, number: nat): Option<Bytes> {
    if fields == [] then None
    else if fields[0].0 == number then Some(fields[0].1)
    else First(fields[1..], number)
  }

  /** `utf8` decodes text; a missing field reads as the empty string. */
  function Text(fields: seq<(nat, Bytes)>, number: nat, utf8: Bytes -> string): string {
    if First(fields, number).Some? then utf8(First(fields, number).value) else ""
  }

  function Key(attribute: seq<(nat, Bytes)>, utf8: Bytes -> string): string {
    (if Text(attribute, 1, utf8) == ANDROID_NAMESPACE then "android:" else "") + Text(attribute, 2, utf8)
  }

  /** The attributes of an element's fields, later ones replacing earlier ones of the same key. */
  ghost function Collect(fields: seq<(nat, Bytes)>, utf8: Bytes -> string, known: map<string, string>)
    : Result<map<string, string>, ProtoError>
  {
    if fields == [] then Ok(known)
    else if fields[0].0 != 4 then Collect(fields[1..], utf8, known)
    else
      var attribute := Fields(fields[0].1, 0);
      if attribute.Err? then Err(attribute.error)
      else Collect(fields[1..], utf8, known[Key(attribute.value, utf8) := Text(attribute.value, 3, utf8)])
  }

  function Lookup(attributes: map<string, string>, key: string): Option<string> {
    if key in attributes then Some(attributes[key]) else None
  }

  /** `value || null`: an empty string counts as missing. */
  function NonEmpty(value: Option<string>): Option<string> {
    if value == Some("") then None else value
  }

  function IdentityFrom(attributes: map<string, string>): Identity {
    Identity(
      NonEmpty(Lookup(attributes, "package")),
      NonEmpty(Lookup(attributes, "android:versionCode")),
      Lookup(attributes, "android:versionName"))
  }

  ghost function ManifestOf(bytes: Bytes, utf8: Bytes -> string): Result<Identity, ManifestError> {
    var node := Fields(bytes, 0);
    if node.Err? then Err(Proto(node.error))
    else if First(node.value, 1).None? then Err(NoRootElement)
    else
      var fields := Fields(First(node.value, 1).value, 0);
      if fields.Err? then Err(Proto(fields.error))
      else if Text(fields.value, 3, utf8) != "manifest" then Err(NotManifest)
      else
        var attributes := Collect(fields.value, utf8, map[]);
        if attributes.Err? then Err(Proto(attributes.error)) else Ok(IdentityFrom(attributes.value))
  }

  method ReadBundleManifest(bytes: Bytes, utf8: Bytes -> string) returns (r: Result<Identity, ManifestError>)
    ensures r == ManifestOf(bytes, utf8)
  {
    var node := ProtoFields(bytes);
    if node.Err? { return Err(Proto(node.error)); }
    var element := First(node.value, 1);
    if element.None? { return Err(NoRootElement); }
    var parsed := ProtoFields(element.value);
    if parsed.Err? { return Err(Proto(parsed.error)); }
    var fields := parsed.value;
    if Text(fields, 3, utf8) != "manifest" { return Err(NotManifest); }
    var attributes: map<string, string> := map[];
    for i := 0 to |fields|
      invariant Collect(fields[i..], utf8, attributes) == Collect(fields, utf8, map[])
    {
      assert fields[i..][1..] == fields[i + 1..];
      if fields[i].0 == 4 {
        var attribute := ProtoFields(fields[i].1);
        if attribute.Err? { return Err(Proto(attribute.error)); }
        attributes := attributes[Key(attribute.value, utf8) := Text(attribute.value, 3, utf8)];
      }
    }
    r := Ok(IdentityFrom(attributes));
  }

  // ---------------------------------------------------------------- the encoded manifest

  /** A field of an XmlElement: an attribute (number 4), given by its own message, or any other. */
  datatype Part = Attribute(message: Message) | Plain(field: Field)

  /** XmlNode: its first field with the number 1, if it has one, is the element. */
  datatype Node = Node(lead: Message, element: Option<seq<Part>>, rest: Message)

  ghost function PartField(p: Part): Field {
    match p
    case Attribute(message) => Delimited(4, EncodeMessage(message))
    case Plain(field) => field
  }

  ghost function ElementMessage(parts: seq<Part>): Message {
    if parts == [] then [] else [PartField(parts[0])] + ElementMessage(parts[1..])
  }

  ghost function NodeMessage(n: Node): Message {
    n.lead + (if n.element.Some? then [Delimited(1, EncodeMessage(ElementMessage(n.element.value)))] else []) + n.rest
  }

  /** No length-delimited field of the message carries the number. */
  ghost predicate Without(m: Message, number: nat) {
    forall i | 0 <= i < |m| :: m[i].Delimited? ==> m[i].number != number
  }

  ghost predicate Readable(m: Message) {
    WellFormed(m) && Skippable(m)
  }

  ghost predicate ReadablePart(p: Part) {
    match p
    case Attribute(message) => Readable(message)
    case Plain(field) => !(field.Delimited? && field.number == 4)
  }

  ghost predicate ReadableParts(parts: seq<Part>) {
    forall i | 0 <= i < |parts| :: ReadablePart(parts[i])
  }

  ghost predicate ReadableNode(n: Node) {
    && Readable(NodeMessage(n)) && Without(n.lead, 1)
    && (if n.element.Some? then Readable(ElementMessage(n.element.value)) && ReadableParts(n.element.value)
        else Without(n.rest, 1))
  }

  /** The bytes of the first length-delimited field with the number. */
  ghost function FirstGiven(m: Message, number: nat): Option<Bytes> {
    if m == [] then None
    else if m[0].Delimited? && m[0].number == number then Some(m[0].data)
    else FirstGiven(m[1..], number)
  }

  /** Its text, empty where the field is left out. */
  ghost function TextGiven(m: Message, number: nat, utf8: Bytes -> string): string {
    match FirstGiven(m, number)
    case None => ""
    case Some(bytes) => utf8(bytes)
  }

  /** XmlAttribute: namespace_uri = 1, name = 2, value = 3, each of which may be left out. */
  ghost predicate Names(attribute: Message, key: string, utf8: Bytes -> string) {
    var name := TextGiven(attribute, 2, utf8);
    if TextGiven(attribute, 1, utf8) == "http://schemas.android.com/apk/res/android" then key == "android:" + name
    else key == name
  }

  /** The value of the last attribute with the key. */
  ghost function LastValue(parts: seq<Part>, key: string, utf8: Bytes -> string): Option<string> {
    if parts == [] then None
    else
      var later := LastValue(parts[1..], key, utf8);
      if later.Some? then later
      else if parts[0].Attribute? && Names(parts[0].message, key, utf8) then Some(TextGiven(parts[0].message, 3, utf8))
      else None
  }

  /** Package and version code are missing when empty; the version name is kept as it is. */
  ghost predicate Identifies(parts: seq<Part>, utf8: Bytes -> string, id: Identity) {
    var package, code := LastValue(parts, "package", utf8), LastValue(parts, "android:versionCode", utf8);
    && id.package == (if package == Some("") then None else package)
    && id.versionCode == (if code == Some("") then None else code)
    && id.versionName == LastValue(parts, "android:versionName", utf8)
  }

  lemma {:induction false} FirstIs(m: Message, number: nat)
    ensures First(DelimitedFields(m), number) == FirstGiven(m, number)
  {
    if m != [] {
      FirstIs(m[1..], number);
      if m[0].Delimited? { FirstHead(m[0].number, m[0].data, DelimitedFields(m[1..]), number); }
      else { assert [] + DelimitedFields(m[1..]) == DelimitedFields(m[1..]); }
    }
  }

  lemma {:induction false} FirstHead(number: nat, data: Bytes, rest: seq<(nat, Bytes)>, wanted: nat)
    ensures First([(number, data)] + rest, wanted) == if wanted == number then Some(data) else First(rest, wanted)
  {}

  lemma {:induction false} TextIs(m: Message, number: nat, utf8: Bytes -> string)
    ensures Text(DelimitedFields(m), number, utf8) == TextGiven(m, number, utf8)
  {
    FirstIs(m, number);
  }

  /** The bytes decode to the attribute's key and value. */
  ghost predicate Reads(code: Bytes, a: Message, utf8: Bytes -> string) {
    var fields := Fields(code, 0);
    fields.Ok? && Names(a, Key(fields.value, utf8), utf8) && Text(fields.value, 3, utf8) == TextGiven(a, 3, utf8)
  }

  lemma {:induction false} AttributeReads(a: Message, utf8: Bytes -> string)
    requires Readable(a)
    ensures Reads(EncodeMessage(a), a, utf8)
  {
    ReadInvertsEncodeMessage(a);
    TextIs(a, 1, utf8);
    TextIs(a, 2, utf8);
    TextIs(a, 3, utf8);
  }

  /** `after` holds the last value given by the attributes, and what `before` held for every other key. */
  ghost predicate LastWins(before: map<string, string>, parts: seq<Part>, utf8: Bytes -> string,
                           after: map<string, string>)
  {
    forall key ::
      Lookup(after, key) ==
        if LastValue(parts, key, utf8).Some? then LastValue(parts, key, utf8) else Lookup(before, key)
  }

  lemma {:induction false} AttributeCounts(
      before: map<string, string>, key: string, a: Message, parts: seq<Part>, utf8: Bytes -> string,
      after: map<string, string>)
    requires Names(a, key, utf8) && LastWins(before[key := TextGiven(a, 3, utf8)], parts, utf8, after)
    ensures LastWins(before, [Attribute(a)] + parts, utf8, after)
  {
    assert ([Attribute(a)] + parts)[1..] == parts;
  }

  lemma {:induction false} PlainDoesNot(
      before: map<string, string>, f: Field, parts: seq<Part>, utf8: Bytes -> string, after: map<string, string>)
    requires LastWins(before, parts, utf8, after)
    ensures LastWins(before, [Plain(f)] + parts, utf8, after)
  {
    assert ([Plain(f)] + parts)[1..] == parts;
  }

  lemma {:induction false} DelimitedHead(f: Field, m: Message)
    ensures DelimitedFields([f] + m) == (if f.Delimited? then [(f.number, f.data)] else []) + DelimitedFields(m)
  {
    assert ([f] + m)[1..] == m;
  }

  lemma {:induction false} CollectOne(
      code: Bytes, tail: seq<(nat, Bytes)>, utf8: Bytes -> string, known: map<string, string>)
    requires Fields(code, 0).Ok?
    ensures var fields := Fields(code, 0).value;
      Collect([(4, code)] + tail, utf8, known) == Collect(tail, utf8, known[Key(fields, utf8) := Text(fields, 3, utf8)])
  {}

  lemma {:induction false} CollectOther(
      f: Field, tail: seq<(nat, Bytes)>, utf8: Bytes -> string, known: map<string, string>)
    requires !(f.Delimited? && f.number == 4)
    ensures Collect((if f.Delimited? then [(f.number, f.data)] else []) + tail, utf8, known)
         == Collect(tail, utf8, known)
  {
    if !f.Delimited? { assert [] + tail == tail; }
  }

  /** Reading the fields of an element in order leaves, for every key, the last value given to it. */
  lemma {:induction false} CollectAttributes(parts: seq<Part>, utf8: Bytes -> string, known: map<string, string>)
    returns (after: map<string, string>)
    requires ReadableParts(parts)
    ensures Collect(DelimitedFields(ElementMessage(parts)), utf8, known) == Ok(after)
    ensures LastWins(known, parts, utf8, after)
    decreases |parts|
  {
    if parts == [] {
      after := known;
    } else {
      var tail := ElementMessage(parts[1..]);
      assert ReadablePart(parts[0]) && parts == [parts[0]] + parts[1..];
      DelimitedHead(PartField(parts[0]), tail);
      match parts[0]
      case Attribute(a) =>
        AttributeReads(a, utf8);
        var fields := Fields(EncodeMessage(a), 0).value;
        CollectOne(EncodeMessage(a), DelimitedFields(tail), utf8, known);
        after := CollectAttributes(parts[1..], utf8, known[Key(fields, utf8) := Text(fields, 3, utf8)]);
        AttributeCounts(known, Key(fields, utf8), a, parts[1..], utf8, after);
      case Plain(f) =>
        CollectOther(f, DelimitedFields(tail), utf8, known);
        after := CollectAttributes(parts[1..], utf8, known);
        PlainDoesNot(known, f, parts[1..], utf8, after);
    }
  }

  lemma {:induction false} FirstAfter(m: Message, rest: Message, number: nat)
    requires Without(m, number)
    ensures FirstGiven(m + rest, number) == FirstGiven(rest, number)
  {
    if m == [] {
      assert m + rest == rest;
    } else {
      assert (m + rest)[0] == m[0] && (m + rest)[1..] == m[1..] + rest;
      FirstAfter(m[1..], rest, number);
    }
  }

  lemma {:induction false} RootIs(n: Node)
    requires ReadableNode(n)
    ensures FirstGiven(NodeMessage(n), 1) ==
      if n.element.Some? then Some(EncodeMessage(ElementMessage(n.element.value))) else None
  {
    if n.element.Some? {
      var element := Delimited(1, EncodeMessage(ElementMessage(n.element.value)));
      assert NodeMessage(n) == n.lead + ([element] + n.rest);
      FirstAfter(n.lead, [element] + n.rest, 1);
      assert ([element] + n.rest)[0] == element;
    } else {
      assert NodeMessage(n) == n.lead + n.rest && n.rest + [] == n.rest;
      FirstAfter(n.lead, n.rest, 1);
      FirstAfter(n.rest, [], 1);
    }
  }

  lemma {:induction false} IdentityFromAttributes(parts: seq<Part>, utf8: Bytes -> string, after: map<string, string>)
    requires LastWins(map[], parts, utf8, after)
    ensures Identifies(parts, utf8, IdentityFrom(after))
  {}

  lemma {:induction false} ManifestFromParts(
      bytes: Bytes, utf8: Bytes -> string, node: seq<(nat, Bytes)>, element: Bytes, fields: seq<(nat, Bytes)>,
      after: map<string, string>)
    requires Fields(bytes, 0) == Ok(node) && First(node, 1) == Some(element) && Fields(element, 0) == Ok(fields)
    requires Collect(fields, utf8, map[]) == Ok(after)
    ensures ManifestOf(bytes, utf8) ==
      if Text(fields, 3, utf8) != "manifest" then Err(NotManifest) else Ok(IdentityFrom(after))
  {}

  /** What a manifest message must be read as. */
  ghost predicate IsManifest(n: Node, utf8: Bytes -> string, r: Result<Identity, ManifestError>) {
    if n.element.None? then r == Err(NoRootElement)
    else if TextGiven(ElementMessage(n.element.value), 3, utf8) != "manifest" then r == Err(NotManifest)
    else r.Ok? && Identifies(n.element.value, utf8, r.value)
  }

  /**
   The package and version an encoded manifest carries are recovered, whatever other fields stand between and
   whichever are left out; the last attribute of a name wins. Another root, or none, is an error.
   */
  lemma {:induction false} ManifestRoundTrip(n: Node, utf8: Bytes -> string)
    requires ReadableNode(n)
    ensures IsManifest(n, utf8, ManifestOf(EncodeMessage(NodeMessage(n)), utf8))
  {
    ReadInvertsEncodeMessage(NodeMessage(n));
    FirstIs(NodeMessage(n), 1);
    RootIs(n);
    if n.element.Some? { ElementRoundTrip(n, utf8, n.element.value); }
  }

  lemma {:induction false} ElementRoundTrip(n: Node, utf8: Bytes -> string, parts: seq<Part>)
    requires ReadableNode(n) && n.element == Some(parts)
    requires Fields(EncodeMessage(NodeMessage(n)), 0) == Ok(DelimitedFields(NodeMessage(n)))
    requires First(DelimitedFields(NodeMessage(n)), 1) == Some(EncodeMessage(ElementMessage(parts)))
    ensures IsManifest(n, utf8, ManifestOf(EncodeMessage(NodeMessage(n)), utf8))
  {
    var element, fields := EncodeMessage(ElementMessage(parts)), DelimitedFields(ElementMessage(parts));
    ReadInvertsEncodeMessage(ElementMessage(parts));
    TextIs(ElementMessage(parts), 3, utf8);
    var after := CollectAttributes(parts, utf8, map[]);
    IdentityFromAttributes(parts, utf8, after);
    ManifestFromParts(EncodeMessage(NodeMessage(n)), utf8, DelimitedFields(NodeMessage(n)), element, fields, after);
  }
}
