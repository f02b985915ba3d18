/** The IPP encoder of the fake print server (scripts/behavior/fake_cupsd.py:25-64)
    and a decoder of the encoding, sections 3.1 and 3.5.1 of RFC 8010. */
module Ipp {
  import opened Bytes
  import opened Wrappers

  const SHORT: nat := 0x1_0000
  const WORD: nat := 0x1_0000_0000
  const END: byte := 0x03

  /** An attribute: value tag, name and value octets. */
  datatype Attribute = Attribute(tag: byte, name: seq<byte>, value: seq<byte>)

  datatype Group = Group(tag: byte, attributes: seq<Attribute>)

  /** Value tags start at 0x10; names and values have 16-bit lengths. */
  predicate AttributeOk(a: Attribute) {
    a.tag >= 0x10 && |a.name| < SHORT && |a.value| < SHORT
  }

  /** Group tags are below 0x10, and 0x03 ends the message. */
  predicate GroupOk(g: Group) {
    g.tag < 0x10 && g.tag != END && forall i :: 0 <= i < |g.attributes| ==> AttributeOk(g.attributes[i])
  }

  // ------------------------------------------------------------ the encoder

  /** `_attr`. */
  function Attr(a: Attribute): (s: seq<byte>)
    ensures |s| == 5 + |a.name| + |a.value|
  {
    [a.tag] + BigEndian(|a.name|, 2) + a.name + BigEndian(|a.value|, 2) + a.value
  }

  function Attrs(attributes: seq<Attribute>): seq<byte> {
    if attributes == [] then [] else Attr(attributes[0]) + Attrs(attributes[1..])
  }

  function Groups(groups: seq<Group>): seq<byte> {
    if groups == [] then [] else [groups[0].tag] + Attrs(groups[0].attributes) + Groups(groups[1..])
  }

  /** `_text`. */
  function Text(tag: byte, name: string, value: string): Attribute
    requires IsAscii(name) && IsAscii(value)
  {
    Attribute(tag, Ascii(name), Ascii(value))
  }

  /** `_int`: a 32-bit two's complement number, as `struct.pack(">i")` demands. */
  function Int(tag: byte, name: string, value: int): Attribute
    requires IsAscii(name) && -0x8000_0000 <= value < 0x8000_0000
  {
    Attribute(tag, Ascii(name), BigEndian(if value < 0 then value + WORD else value, 4))
  }

  function IntOf(value: seq<byte>): int {
    var n := FromBigEndian(value);
    if n >= 0x8000_0000 then n - WORD else n
  }

  lemma IntRoundTrip(tag: byte, name: string, value: int)
    requires IsAscii(name) && -0x8000_0000 <= value < 0x8000_0000
    ensures IntOf(Int(tag, name, value).value) == value
  {
    Bounds();
    BigEndianRoundTrip(if value < 0 then value + WORD else value, 4);
  }

  /** The operation attributes every response starts with. */
  function Opening(): Group {
    Group(0x01, [Text(0x47, "attributes-charset", "utf-8"), Text(0x48, "attributes-natural-language", "en")])
  }

  function Header(status: nat, requestId: nat): (s: seq<byte>)
    ensures |s| == 8
  {
    [2, 0] + BigEndian(status, 2) + BigEndian(requestId, 4)
  }

  /** Version 2.0, a status, groups and the end tag. */
  function Encoded(status: nat, requestId: nat, groups: seq<Group>): seq<byte> {
    Header(status, requestId) + Groups(groups) + [END]
  }

  /** `_response`. */
  method Response(requestId: nat, groups: seq<(byte, seq<byte>)>, ghost shown: seq<Group>) returns (body: seq<byte>)
    requires |shown| == |groups|
    requires forall i :: 0 <= i < |groups| ==> groups[i] == (shown[i].tag, Attrs(shown[i].attributes))
    ensures body == Encoded(0, requestId, [Opening()] + shown)
  {
    hide Attr, Ascii, Attrs, BigEndian, Opening, Groups;
    body := [2, 0] + BigEndian(0, 2) + BigEndian(requestId, 4);
    OpeningIs();
    body := body + ([0x01] + Attr(Text(0x47, "attributes-charset", "utf-8"))
                    + Attr(Text(0x48, "attributes-natural-language", "en")));
    assert [Opening()] + shown[..0] == [Opening()];
    for i := 0 to |groups|
      invariant body == Header(0, requestId) + Groups([Opening()] + shown[..i])
    {
      GroupsSnoc([Opening()] + shown[..i], shown[i]);
      assert [Opening()] + shown[..i + 1] == [Opening()] + shown[..i] + [shown[i]];
      body := body + ([groups[i].0] + groups[i].1);
    }
    assert shown[..|groups|] == shown;
    body := body + [0x03];
  }

  lemma OpeningIs()
    ensures Groups([Opening()])
            == [0x01] + Attr(Text(0x47, "attributes-charset", "utf-8"))
               + Attr(Text(0x48, "attributes-natural-language", "en"))
    ensures GroupOk(Opening())
  {
    var a := Opening().attributes;
    assert a[1..] == [a[1]] && a[1..][1..] == [];
    assert Attrs(a) == Attr(a[0]) + (Attr(a[1]) + []) == Attr(a[0]) + Attr(a[1]);
    assert Groups([Opening()]) == [0x01] + Attrs(a) + [] == [0x01] + Attrs(a);
  }

  lemma {:induction false} GroupsSnoc(groups: seq<Group>, g: Group)
    ensures Groups(groups + [g]) == Groups(groups) + ([g.tag] + Attrs(g.attributes))
  {
    hide Attrs;
    if groups == [] {
      assert [] + [g] == [g] && [g][1..] == [];
    } else {
      assert (groups + [g])[1..] == groups[1..] + [g];
      GroupsSnoc(groups[1..], g);
    }
  }

  // ------------------------------------------------------------ the decoder

  datatype Message = Message(status: nat, requestId: nat, groups: seq<Group>)

  /** The attribute at `p`, if there is one. */
  function ReadAttribute(s: seq<byte>, p: nat): Option<Attribute> {
    if p + 3 > |s| then None else
    var names := FromBigEndian(s[p + 1..p + 3]);
    if p + 5 + names > |s| then None else
    var values := FromBigEndian(s[p + 3 + names..p + 5 + names]);
    if p + 5 + names + values > |s| then None else
    Some(Attribute(s[p], s[p + 3..p + 3 + names], s[p + 5 + names..p + 5 + names + values]))
  }

  /** Attributes up to the next tag below 0x10, and where that is. */
  function ReadAttributes(s: seq<byte>, p: nat): Option<(seq<Attribute>, nat)>
    decreases |s| - p
  {
    if p >= |s| then None
    else if s[p] < 0x10 then Some(([], p))
    else
      match ReadAttribute(s, p)
      case None => None
      case Some(a) =>
        match ReadAttributes(s, p + 5 + |a.name| + |a.value|)
        case None => None
        case Some((rest, end)) => Some(([a] + rest, end))
  }

  lemma {:induction false} AttributesAdvance(s: seq<byte>, p: nat)
    ensures ReadAttributes(s, p).Some? ==> p <= ReadAttributes(s, p).value.1 < |s|
    decreases |s| - p
  {
    if p < |s| && s[p] >= 0x10 && ReadAttribute(s, p).Some? {
      var a := ReadAttribute(s, p).value;
      AttributesAdvance(s, p + 5 + |a.name| + |a.value|);
    }
  }

  /** Groups up to the end tag, which must be the last byte. */
  function ReadGroups(s: seq<byte>, p: nat): Option<seq<Group>>
    decreases |s| - p
  {
    if p >= |s| || s[p] >= 0x10 then None
    else if s[p] == END then (if p + 1 == |s| then Some([]) else None)
    else
      AttributesAdvance(s, p + 1);
      match ReadAttributes(s, p + 1)
      case None => None
      case Some((attributes, end)) =>
        match ReadGroups(s, end)
        case None => None
        case Some(rest) => Some([Group(s[p], attributes)] + rest)
  }

  function Decode(s: seq<byte>): Option<Message> {
    if |s| < 8 || s[0] != 2 || s[1] != 0 then None else
    match ReadGroups(s, 8)
    case None => None
    case Some(groups) => Some(Message(FromBigEndian(s[2..4]), FromBigEndian(s[4..8]), groups))
  }

  // ------------------------------------------------------------ round trip

  lemma AttributeRead(s: seq<byte>, p: nat, a: Attribute)
    requires AttributeOk(a) && At(s, p, Attr(a))
    ensures ReadAttribute(s, p) == Some(a) && s[p] == a.tag
  {
    hide BigEndian, FromBigEndian;
    var names, values := BigEndian(|a.name|, 2), BigEndian(|a.value|, 2);
    AtSplit(s, p, [a.tag] + names + a.name + values, a.value);
    AtSplit(s, p, [a.tag] + names + a.name, values);
    AtSplit(s, p, [a.tag] + names, a.name);
    AtSplit(s, p, [a.tag], names);
    assert s[p] == s[p..p + 1][0];
    Bounds();
    BigEndianRoundTrip(|a.name|, 2);
    BigEndianRoundTrip(|a.value|, 2);
  }

  lemma {:induction false} AttributesRead(s: seq<byte>, p: nat, attributes: seq<Attribute>)
    requires forall i :: 0 <= i < |attributes| ==> AttributeOk(attributes[i])
    requires At(s, p, Attrs(attributes))
    requires p + |Attrs(attributes)| < |s| && s[p + |Attrs(attributes)|] < 0x10
    ensures ReadAttributes(s, p) == Some((attributes, p + |Attrs(attributes)|))
    decreases |attributes|
  {
    hide Attr, ReadAttribute;
    if attributes != [] {
      AtSplit(s, p, Attr(attributes[0]), Attrs(attributes[1..]));
      AttributeRead(s, p, attributes[0]);
      AttributesRead(s, p + |Attr(attributes[0])|, attributes[1..]);
      assert [attributes[0]] + attributes[1..] == attributes;
    }
  }

  lemma {:induction false} GroupsRead(s: seq<byte>, p: nat, groups: seq<Group>)
    requires forall i :: 0 <= i < |groups| ==> GroupOk(groups[i])
    requires At(s, p, Groups(groups) + [END]) && |s| == p + |Groups(groups)| + 1
    ensures ReadGroups(s, p) == Some(groups)
    decreases |groups|
  {
    hide Attrs, ReadAttributes;
    if groups == [] {
      assert Groups(groups) + [END] == [END];
      assert s[p] == s[p..p + 1][0];
    } else {
      var g, rest := groups[0], Groups(groups[1..]) + [END];
      assert Groups(groups) + [END] == [g.tag] + Attrs(g.attributes) + rest;
      AtSplit(s, p, [g.tag] + Attrs(g.attributes), rest);
      AtSplit(s, p, [g.tag], Attrs(g.attributes));
      var end := p + 1 + |Attrs(g.attributes)|;
      assert s[p] == s[p..p + 1][0];
      assert s[end] == s[end..end + |rest|][0] == rest[0];
      assert rest[0] == (if |groups| > 1 then groups[1].tag else END);
      AttributesRead(s, p + 1, g.attributes);
      GroupsRead(s, end, groups[1..]);
      assert [g] + groups[1..] == groups;
    }
  }

  /** A response decodes to the request id, the groups and the attributes, in
      order, that were put in: no value tag can be taken for a group tag. */
  lemma MessageRoundTrip(status: nat, requestId: nat, groups: seq<Group>)
    requires status < SHORT && requestId < WORD && forall i :: 0 <= i < |groups| ==> GroupOk(groups[i])
    ensures Decode(Encoded(status, requestId, groups)) == Some(Message(status, requestId, groups))
  {
    hide Groups, ReadGroups, BigEndian, FromBigEndian;
    var s, id := Encoded(status, requestId, groups), BigEndian(requestId, 4);
    AtWhole(s);
    assert s == Header(status, requestId) + (Groups(groups) + [END]);
    AtSplit(s, 0, Header(status, requestId), Groups(groups) + [END]);
    GroupsRead(s, 8, groups);
    Bounds();
    BigEndianRoundTrip(status, 2);
    BigEndianRoundTrip(requestId, 4);
    assert s[2..4] == BigEndian(status, 2) && s[4..8] == id;
  }
}
