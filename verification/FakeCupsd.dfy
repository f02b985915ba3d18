/** The request reader and dispatcher of the fake print server
    (scripts/behavior/fake_cupsd.py:67-101). */
module FakeCupsd {
  import opened Bytes
  import opened Wrappers
  import opened Ipp

  const SEPARATOR: seq<byte> := [13, 10, 13, 10]
  const READ_SIZE: nat := 4096

  const GET_PRINTERS: nat := 0x4002
  const GET_DEFAULT: nat := 0x4001
  const GET_JOBS: nat := 0x000A

  datatype Request = Request(operation: nat, requestId: nat)

  /** What the header lines give for the content length: 0 without such a line,
      `None` when its value is no number. */
  type LengthOf = seq<byte> -> Option<int>

  /** The first `\r\n\r\n` at or after `from`. */
  function Find(s: seq<byte>, from: nat): (i: Option<nat>)
    ensures i.Some? ==> from <= i.value && At(s, i.value, SEPARATOR)
    ensures i.Some? ==> forall j :: from <= j < i.value ==> !At(s, j, SEPARATOR)
    ensures i.None? ==> forall j :: from <= j ==> !At(s, j, SEPARATOR)
    decreases |s| - from
  {
    if from + 4 > |s| then None else if At(s, from, SEPARATOR) then Some(from) else Find(s, from + 1)
  }

  /** What a connection delivers, read by read: nothing empty, nothing over the
      read size; then the peer has closed. */
  ghost predicate Reads(chunks: seq<seq<byte>>) {
    forall i :: 0 <= i < |chunks| ==> 0 < |chunks[i]| <= READ_SIZE
  }

  /** The head once it holds the separator, and the reads that are left. */
  function ReadHead(chunks: seq<seq<byte>>, head: seq<byte>): (r: Option<(seq<byte>, seq<seq<byte>>)>)
    ensures r.Some? ==> Find(r.value.0, 0).Some?
    decreases |chunks|
  {
    if Find(head, 0).Some? then Some((head, chunks))
    else if chunks == [] then None
    else ReadHead(chunks[1..], head + chunks[0])
  }

  function ReadBody(chunks: seq<seq<byte>>, body: seq<byte>, length: int): Option<seq<byte>>
    decreases |chunks|
  {
    if |body| >= length then Some(body)
    else if chunks == [] then None
    else ReadBody(chunks[1..], body + chunks[0], length)
  }

  /** The request the handler acts on; `None` closes without a reply. */
  function Handled(chunks: seq<seq<byte>>, lengthOf: LengthOf): Option<Request> {
    match ReadHead(chunks, [])
    case None => None
    case Some((head, rest)) =>
      var i := Find(head, 0).value;
      var length := lengthOf(head[..i]);
      if length.None? then None else
      match ReadBody(rest, head[i + 4..], length.value)
      case None => None
      case Some(body) => RequestIn(body)
  }

  function RequestIn(body: seq<byte>): Option<Request> {
    if |body| < 8 then None
    else Some(Request(FromBigEndian(body[2..4]), FromBigEndian(body[4..8])))
  }

  /** The reading part of `handle`. */
  method Handle(chunks: seq<seq<byte>>, lengthOf: LengthOf) returns (r: Option<Request>)
    ensures r == Handled(chunks, lengthOf)
  {
    var head: seq<byte> := [];
    var next := 0;
    assert chunks[0..] == chunks;
    while Find(head, 0).None?
      invariant 0 <= next <= |chunks|
      invariant ReadHead(chunks, []) == ReadHead(chunks[next..], head)
      decreases |chunks| - next
    {
      if next == |chunks| {
        return None;
      }
      assert chunks[next..][0] == chunks[next] && chunks[next..][1..] == chunks[next + 1..];
      head, next := head + chunks[next], next + 1;
    }
    var i := Find(head, 0).value;
    var header, body := head[..i], head[i + 4..];
    var length := lengthOf(header);
    if length.None? {
      return None;
    }
    ghost var first := body;
    ghost var rest := chunks[next..];
    while |body| < length.value
      invariant 0 <= next <= |chunks|
      invariant ReadBody(rest, first, length.value) == ReadBody(chunks[next..], body, length.value)
      decreases |chunks| - next
    {
      if next == |chunks| {
        return None;
      }
      assert chunks[next..][0] == chunks[next] && chunks[next..][1..] == chunks[next + 1..];
      body, next := body + chunks[next], next + 1;
    }
    r := RequestIn(body);
  }

  // ------------------------------------------------------------ the whole stream

  /** The answer as a function of the bytes alone. */
  function Answer(stream: seq<byte>, lengthOf: LengthOf): Option<Request> {
    var i := Find(stream, 0);
    if i.None? then None else
    var length := lengthOf(stream[..i.value]);
    var body := stream[i.value + 4..];
    if length.None? || |body| < length.value then None else RequestIn(body)
  }

  lemma FindInPrefix(a: seq<byte>, b: seq<byte>, i: nat)
    ensures At(a, i, SEPARATOR) ==> At(a + b, i, SEPARATOR)
    ensures At(a + b, i, SEPARATOR) && i + 4 <= |a| ==> At(a, i, SEPARATOR)
  {
    if i + 4 <= |a| {
      assert (a + b)[i..i + 4] == a[i..i + 4];
    }
  }

  /** More bytes do not move a separator already found. */
  lemma FindStable(a: seq<byte>, b: seq<byte>)
    ensures Find(a, 0).Some? ==> Find(a + b, 0) == Find(a, 0)
    ensures Find(a + b, 0).Some? && Find(a + b, 0).value + 4 <= |a| ==> Find(a, 0) == Find(a + b, 0)
  {
    forall i: nat
      ensures At(a, i, SEPARATOR) ==> At(a + b, i, SEPARATOR)
      ensures At(a + b, i, SEPARATOR) && i + 4 <= |a| ==> At(a, i, SEPARATOR)
    {
      FindInPrefix(a, b, i);
    }
  }

  lemma {:induction false} HeadOfStream(chunks: seq<seq<byte>>, head: seq<byte>)
    ensures var all := head + Concat(chunks);
            match ReadHead(chunks, head)
            case None => Find(all, 0).None?
            case Some((h, rest)) => h + Concat(rest) == all && Find(h, 0).Some? && Find(h, 0) == Find(all, 0)
    decreases |chunks|
  {
    hide Find;
    FindStable(head, Concat(chunks));
    if Find(head, 0).None? {
      if chunks == [] {
        assert head + Concat(chunks) == head;
      } else {
        HeadOfStream(chunks[1..], head + chunks[0]);
        assert head + Concat(chunks) == head + chunks[0] + Concat(chunks[1..]);
      }
    }
  }

  lemma {:induction false} BodyOfStream(chunks: seq<seq<byte>>, body: seq<byte>, length: int)
    ensures var all := body + Concat(chunks);
            match ReadBody(chunks, body, length)
            case None => |all| < length
            case Some(b) => length <= |b| <= |all| && b == all[..|b|]
    decreases |chunks|
  {
    if |body| < length && chunks != [] {
      BodyOfStream(chunks[1..], body + chunks[0], length);
      assert body + Concat(chunks) == body + chunks[0] + Concat(chunks[1..]);
    }
  }

  lemma RequestInPrefix(body: seq<byte>, n: nat)
    requires 8 <= n <= |body|
    ensures RequestIn(body[..n]) == RequestIn(body)
  {
    assert body[..n][2..4] == body[2..4] && body[..n][4..8] == body[4..8];
  }

  /** The guard: the announced length covers the operation and request id, or
      there are no more than that many bytes to read anyway. */
  predicate LongEnough(stream: seq<byte>, lengthOf: LengthOf) {
    var i := Find(stream, 0);
    i.Some? && lengthOf(stream[..i.value]).Some? ==>
      lengthOf(stream[..i.value]).value >= 8 || |stream| < i.value + 12
  }

  /** Which bytes the body was read with does not matter to its request. */
  lemma BodyDecides(rest: seq<seq<byte>>, first: seq<byte>, length: int)
    requires length >= 8 || |first + Concat(rest)| < 8
    ensures var all := first + Concat(rest); var body := ReadBody(rest, first, length);
            (if body.None? then None else RequestIn(body.value))
            == (if |all| < length then None else RequestIn(all))
  {
    BodyOfStream(rest, first, length);
    hide ReadBody, Concat;
    var all, body := first + Concat(rest), ReadBody(rest, first, length);
    if body.Some? && |body.value| >= 8 {
      RequestInPrefix(all, |body.value|);
    }
  }

  /** However the bytes are split into reads, the answer is the same. */
  lemma SplitIrrelevant(chunks: seq<seq<byte>>, lengthOf: LengthOf)
    requires LongEnough(Concat(chunks), lengthOf)
    ensures Handled(chunks, lengthOf) == Answer(Concat(chunks), lengthOf)
  {
    hide Find, ReadHead, ReadBody, RequestIn, Concat;
    var stream := Concat(chunks);
    assert [] + stream == stream;
    HeadOfStream(chunks, []);
    if ReadHead(chunks, []).Some? {
      var (head, rest) := ReadHead(chunks, []).value;
      var i := Find(head, 0).value;
      HeadSplits(head, Concat(rest), i);
      if lengthOf(stream[..i]).Some? {
        BodyDecides(rest, head[i + 4..], lengthOf(stream[..i]).value);
      }
    }
  }

  lemma HeadSplits(head: seq<byte>, rest: seq<byte>, i: nat)
    requires i + 4 <= |head|
    ensures (head + rest)[..i] == head[..i] && (head + rest)[i + 4..] == head[i + 4..] + rest
  {
  }

  function Singles(s: seq<byte>): (chunks: seq<seq<byte>>)
    ensures |chunks| == |s|
  {
    if s == [] then [] else [[s[0]]] + Singles(s[1..])
  }

  lemma {:induction false} SinglesJoin(s: seq<byte>)
    ensures Concat(Singles(s)) == s && Reads(Singles(s))
  {
    if s != [] {
      SinglesJoin(s[1..]);
    }
  }

  /** Byte by byte, the head stops right after the separator. */
  lemma {:induction false} SinglesHead(s: seq<byte>, head: seq<byte>, i: nat)
    requires Find(head + s, 0) == Some(i) && |head| <= i + 4 <= |head + s|
    ensures ReadHead(Singles(s), head) == Some(((head + s)[..i + 4], Singles((head + s)[i + 4..])))
    decreases |s|
  {
    hide Find;
    FindStable(head, s);
    if |head| == i + 4 {
      assert (head + s)[..i + 4] == head && (head + s)[i + 4..] == s;
      FindFound(head, s, i);
    } else {
      assert head + s == head + [s[0]] + s[1..];
      FindNotYet(head, s, i);
      SinglesHead(s[1..], head + [s[0]], i);
    }
  }

  lemma FindFound(head: seq<byte>, s: seq<byte>, i: nat)
    requires Find(head + s, 0) == Some(i) && |head| == i + 4
    ensures Find(head, 0).Some?
  {
    FindStable(head, s);
  }

  lemma FindNotYet(head: seq<byte>, s: seq<byte>, i: nat)
    requires Find(head + s, 0) == Some(i) && |head| < i + 4
    ensures Find(head, 0).None?
  {
    FindStable(head, s);
  }

  lemma {:induction false} SinglesBody(s: seq<byte>, body: seq<byte>, length: int)
    requires |body| < 8 && length < 8
    ensures ReadBody(Singles(s), body, length).Some? ==> |ReadBody(Singles(s), body, length).value| < 8
    decreases |s|
  {
    if |body| < length && s != [] {
      SinglesBody(s[1..], body + [s[0]], length);
    }
  }

  /** Outside the guard the answer does depend on the split: one split of the
      same bytes is answered and another is not. */
  lemma SplitMatters(stream: seq<byte>, lengthOf: LengthOf) returns (a: seq<seq<byte>>, b: seq<seq<byte>>)
    requires !LongEnough(stream, lengthOf)
    ensures Reads(a) && Reads(b) && Concat(a) == stream && Concat(b) == stream
    ensures Handled(a, lengthOf).None? && Handled(b, lengthOf).Some?
  {
    hide Find, Singles, ReadHead, ReadBody, Concat;
    var i := Find(stream, 0).value;
    var length := lengthOf(stream[..i]).value;
    a := Singles(stream);
    SinglesJoin(stream);
    assert [] + stream == stream;
    SinglesHead(stream, [], i);
    var head := stream[..i + 4];
    FindStable(head, stream[i + 4..]);
    assert stream == head + stream[i + 4..] && head[..i] == stream[..i] && head[i + 4..] == [];
    SinglesBody(stream[i + 4..], [], length);
    b := OneReadWithBody(stream, i, lengthOf);
  }

  /** All bytes before the separator's last one singly, then that byte and the
      first eight of the body in one read, then the rest. */
  lemma OneReadWithBody(stream: seq<byte>, i: nat, lengthOf: LengthOf) returns (b: seq<seq<byte>>)
    requires Find(stream, 0) == Some(i) && i + 12 <= |stream|
    requires lengthOf(stream[..i]).Some? && lengthOf(stream[..i]).value < 8
    ensures Reads(b) && Concat(b) == stream && Handled(b, lengthOf).Some?
  {
    hide Find, Singles, ReadHead, ReadBody;
    var before, middle, after := stream[..i + 3], stream[i + 3..i + 12], stream[i + 12..];
    var rest, head := Singles(after), stream[..i + 12];
    SinglesJoin(after);
    b := JoinSingles(before, [middle] + rest);
    assert ([middle] + rest)[1..] == rest;
    assert head == before + middle && stream == head + after == before + (middle + after);
    FindStable(head, after);
    assert [] + before == before;
    SinglesThen(before, [], middle, rest, i);
    assert head[..i] == stream[..i] && |head[i + 4..]| == 8;
    EightIsEnough(rest, head[i + 4..], lengthOf(stream[..i]).value);
  }

  lemma EightIsEnough(chunks: seq<seq<byte>>, body: seq<byte>, length: int)
    requires |body| == 8 && length < 8
    ensures ReadBody(chunks, body, length) == Some(body)
  {
  }

  lemma JoinSingles(s: seq<byte>, more: seq<seq<byte>>) returns (b: seq<seq<byte>>)
    requires Reads(more)
    ensures b == Singles(s) + more && Reads(b) && Concat(b) == s + Concat(more)
  {
    SinglesJoin(s);
    ConcatJoin(Singles(s), more);
    b := Singles(s) + more;
  }

  lemma {:induction false} ConcatJoin(a: seq<seq<byte>>, b: seq<seq<byte>>)
    ensures Concat(a + b) == Concat(a) + Concat(b)
  {
    if a == [] {
      assert a + b == b;
    } else {
      assert (a + b)[1..] == a[1..] + b;
      ConcatJoin(a[1..], b);
    }
  }

  lemma {:induction false} SinglesThen(s: seq<byte>, head: seq<byte>, middle: seq<byte>, rest: seq<seq<byte>>, i: nat)
    requires |head + s| == i + 3 && Find(head + s + middle, 0) == Some(i)
    ensures ReadHead(Singles(s) + ([middle] + rest), head) == Some((head + s + middle, rest))
    decreases |s|
  {
    hide Find;
    var chunks := Singles(s) + ([middle] + rest);
    assert head + s + middle == head + (s + middle);
    FindNotYet(head, s + middle, i);
    if s == [] {
      assert chunks == [middle] + rest && chunks[1..] == rest && head + s + middle == head + middle;
    } else {
      assert chunks[0] == [s[0]] && chunks[1..] == Singles(s[1..]) + ([middle] + rest);
      assert head + s == head + [s[0]] + s[1..];
      SinglesThen(s[1..], head + [s[0]], middle, rest, i);
    }
  }

  // ------------------------------------------------------------ the reply

  /** What the server knows: attributes of its printer, of the default printer's
      name and of its job. */
  datatype Queue = Queue(printer: seq<Attribute>, name: Attribute, job: seq<Attribute>)

  ghost predicate QueueOk(q: Queue) {
    && (forall i :: 0 <= i < |q.printer| ==> AttributeOk(q.printer[i]))
    && AttributeOk(q.name)
    && (forall i :: 0 <= i < |q.job| ==> AttributeOk(q.job[i]))
  }

  /** Status and groups of the answer to an operation. */
  function Content(q: Queue, operation: nat): (nat, seq<Group>) {
    if operation == GET_PRINTERS then (0, [Opening(), Group(0x04, q.printer)])
    else if operation == GET_DEFAULT then (0, [Opening(), Group(0x04, [q.name])])
    else if operation == GET_JOBS then (0, [Opening(), Group(0x02, q.job)])
    else (0x0501, [])
  }

  /** The dispatch of `handle`; an unknown operation gets a bare error. */
  method Reply(q: Queue, request: Request) returns (reply: seq<byte>)
    ensures reply == Encoded(Content(q, request.operation).0, request.requestId, Content(q, request.operation).1)
  {
    hide Opening;
    if request.operation == GET_PRINTERS {
      reply := Response(request.requestId, [(0x04, Attrs(q.printer))], [Group(0x04, q.printer)]);
    } else if request.operation == GET_DEFAULT {
      NameAlone(q.name);
      reply := Response(request.requestId, [(0x04, Attr(q.name))], [Group(0x04, [q.name])]);
    } else if request.operation == GET_JOBS {
      reply := Response(request.requestId, [(0x02, Attrs(q.job))], [Group(0x02, q.job)]);
    } else {
      reply := [2, 0] + BigEndian(0x0501, 2) + BigEndian(request.requestId, 4) + [0x03];
      assert Header(0x0501, request.requestId) + Groups([]) == Header(0x0501, request.requestId);
    }
  }

  lemma NameAlone(a: Attribute)
    ensures Attrs([a]) == Attr(a)
  {
    assert [a][1..] == [];
  }

  /** `handle` as a whole: no reply, or one to the request that was read. */
  method Serve(q: Queue, chunks: seq<seq<byte>>, lengthOf: LengthOf) returns (reply: Option<seq<byte>>)
    ensures match Handled(chunks, lengthOf)
            case None => reply == None
            case Some(request) =>
              var (status, groups) := Content(q, request.operation);
              reply == Some(Encoded(status, request.requestId, groups))
  {
    hide Handled, Encoded, Content;
    var request := Handle(chunks, lengthOf);
    if request.None? {
      return None;
    }
    var bytes := Reply(q, request.value);
    reply := Some(bytes);
  }

  /** A line ends at `j`, and an empty one follows. */
  predicate EmptyLine(s: seq<byte>, j: nat) {
    j + 4 <= |s| && s[j] == 13 && s[j + 1] == 10 && s[j + 2] == 13 && s[j + 3] == 10
  }

  /** A head, to the end of its first empty line. */
  ghost predicate IsHead(head: seq<byte>) {
    |head| >= 4 && EmptyLine(head, |head| - 4) && forall j :: 0 <= j < |head| - 4 ==> !EmptyLine(head, j)
  }

  /** A request as it is sent: a head that the first empty line ends, the version,
      the operation and the request id, and whatever follows. */
  ghost predicate Sent(stream: seq<byte>, head: seq<byte>, version: seq<byte>, operation: nat, id: nat,
                       rest: seq<byte>) {
    && IsHead(head) && |version| == 2 && operation < 0x1_0000 && id < 0x1_0000_0000
    && stream == head + (version + BigEndian(operation, 2) + BigEndian(id, 4) + rest)
  }

  lemma HeadEnds(stream: seq<byte>, head: seq<byte>, body: seq<byte>)
    requires IsHead(head) && stream == head + body
    ensures Find(stream, 0) == Some(|head| - 4)
    ensures stream[..|head| - 4] == head[..|head| - 4] && stream[|head|..] == body
  {
    var i := |head| - 4;
    assert stream[i..i + 4] == [13, 10, 13, 10];
    assert At(stream, i, SEPARATOR) && Find(stream, 0).Some?;
    forall j | 0 <= j < i
      ensures !At(stream, j, SEPARATOR)
    {
      var part := stream[j..j + 4];
      assert part == [head[j], head[j + 1], head[j + 2], head[j + 3]];
      assert !EmptyLine(head, j) && part != [13, 10, 13, 10];
    }
  }

  /** A request whose announced length covers it is read as the operation and id
      that were sent, however the bytes are split. */
  lemma SentIsHandled(chunks: seq<seq<byte>>, lengthOf: LengthOf, head: seq<byte>, version: seq<byte>,
                      operation: nat, id: nat, rest: seq<byte>)
    requires Sent(Concat(chunks), head, version, operation, id, rest)
    requires lengthOf(head[..|head| - 4]).Some? && 8 <= lengthOf(head[..|head| - 4]).value <= 8 + |rest|
    ensures Handled(chunks, lengthOf) == Some(Request(operation, id))
  {
    hide Find, Handled, BigEndian, FromBigEndian, Concat;
    var stream, op, number := Concat(chunks), BigEndian(operation, 2), BigEndian(id, 4);
    var body := version + op + number + rest;
    HeadEnds(stream, head, body);
    SplitIrrelevant(chunks, lengthOf);
    Bounds();
    BigEndianRoundTrip(operation, 2);
    BigEndianRoundTrip(id, 4);
    assert body[2..4] == op && body[4..8] == number;
  }

  /** And one that breaks off before its announced length, or before its id,
      gets no reply. */
  lemma CutOffIsClosed(chunks: seq<seq<byte>>, lengthOf: LengthOf, head: seq<byte>, body: seq<byte>)
    requires IsHead(head) && Concat(chunks) == head + body
    requires lengthOf(head[..|head| - 4]).Some? && (|body| < 8 || 8 <= |body| < lengthOf(head[..|head| - 4]).value)
    ensures Handled(chunks, lengthOf) == None
  {
    hide Find, Handled, Concat;
    HeadEnds(Concat(chunks), head, body);
    SplitIrrelevant(chunks, lengthOf);
  }

  /** The groups that answer an operation: the operation attributes, then the
      printer for 0x4002 and its name for 0x4001 in a group 0x04, the job for
      0x000A in a group 0x02; anything else is refused with 0x0501. */
  ghost predicate Answers(q: Queue, operation: nat, id: nat, reply: Message) {
    var opening := Group(0x01, [Attribute(0x47, Ascii("attributes-charset"), Ascii("utf-8")),
                                Attribute(0x48, Ascii("attributes-natural-language"), Ascii("en"))]);
    && reply.requestId == id
    && reply.status == (if operation in {0x4002, 0x4001, 0x000A} then 0 else 0x0501)
    && reply.groups == if operation == 0x4002 then [opening, Group(0x04, q.printer)]
                       else if operation == 0x4001 then [opening, Group(0x04, [q.name])]
                       else if operation == 0x000A then [opening, Group(0x02, q.job)]
                       else []
  }

  /** Every complete request is answered in kind: however its bytes are split,
      the reply decodes to its own request id and to what its operation asks. */
  lemma ReplyAnswersRequest(q: Queue, chunks: seq<seq<byte>>, lengthOf: LengthOf, head: seq<byte>, version: seq<byte>,
                            operation: nat, id: nat, rest: seq<byte>)
    requires QueueOk(q) && Sent(Concat(chunks), head, version, operation, id, rest)
    requires lengthOf(head[..|head| - 4]).Some? && 8 <= lengthOf(head[..|head| - 4]).value <= 8 + |rest|
    ensures Handled(chunks, lengthOf) == Some(Request(operation, id))
    ensures var (status, groups) := Content(q, operation);
            var reply := Decode(Encoded(status, id, groups));
            reply.Some? && Answers(q, operation, id, reply.value)
  {
    SentIsHandled(chunks, lengthOf, head, version, operation, id, rest);
    hide Decode, Encoded, Handled, Concat, BigEndian;
    OpeningIs();
    MessageRoundTrip(Content(q, operation).0, id, Content(q, operation).1);
  }
}
