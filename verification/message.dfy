/**
 * A whole DNS message as this server handles it: one header, exactly one
 * question and at most one answer. Decoding reads the header from the first
 * twelve bytes and a single question from the rest; a response is derived
 * from a request and an answer; encoding concatenates the three parts.
 */
module DnsMessage {
  import opened Wrappers
  import opened ByteOrder
  import DnsHeader
  import DnsQuestion
  import DnsAnswer
  import Utf8

  datatype Message = Message(header: DnsHeader.Header, question: DnsQuestion.Question, answer: Option<DnsAnswer.Answer>)

  /** Enough bytes for `Message::from` not to panic: a full header and a readable question after it. */
  predicate Decodable(b: seq<bv8>)
  {
    |b| >= DnsHeader.HEADER_SIZE && DnsQuestion.Decodable(b[DnsHeader.HEADER_SIZE..])
  }

  /** `Message::from(&[u8])`. */
  function Decode(b: seq<bv8>): (m: Message)
    requires Decodable(b)
    ensures m.answer.None?
    ensures DnsHeader.FieldsFit(m.header) && 0 !in m.question.qname
    ensures DnsHeader.Encode(m.header) == b[..DnsHeader.HEADER_SIZE]
    ensures m.question.qname == DnsQuestion.NameBeforeZero(b[DnsHeader.HEADER_SIZE..])
    ensures var k := DnsHeader.HEADER_SIZE + |m.question.qname| + 1;
      Be16(m.question.qtype) == b[k..k + 2] && Be16(m.question.qclass) == b[k + 2..k + 4]
  {
    DnsHeader.EncodeDecode(b[0..12]);
    QuestionFieldsAt(b);
    Message(DnsHeader.Decode(b[0..12]), DnsQuestion.Decode(b[12..]), None)
  }

  /** Where the question's type and class sit in the whole message. */
  lemma QuestionFieldsAt(b: seq<bv8>)
    requires Decodable(b)
    ensures var q := DnsQuestion.Decode(b[DnsHeader.HEADER_SIZE..]);
      var k := DnsHeader.HEADER_SIZE + |q.qname| + 1;
      Be16(q.qtype) == b[k..k + 2] && Be16(q.qclass) == b[k + 2..k + 4]
  {
    var rest := b[12..];
    var k := |DnsQuestion.Decode(rest).qname| + 1;
    assert rest[k..k + 2] == b[12 + k..12 + k + 2] && rest[k + 2..k + 4] == b[12 + k + 2..12 + k + 4];
  }

  /** The only policy decision: a standard query (opcode 0) succeeds, anything else is "not implemented" (4). */
  function ResponseCode(opcode: bv8): (rcode: bv8)
    ensures rcode == 0 <==> opcode == 0
    ensures rcode != 0 ==> rcode == 4
  {
    match opcode
    case 0 => 0
    case _ => 4
  }

  /**
   * `Message::response_message`: the request header with `qr` set, one
   * question, one answer and the response code chosen by the opcode; the
   * question is echoed and the given answer attached.
   */
  function Response(m: Message, answer: DnsAnswer.Answer): (r: Message)
    ensures r.header.qr == 1 && r.header.qdcount == 1 && r.header.ancount == 1
    ensures r.header.rcode == (if m.header.opcode == 0 then 0 else 4)
    ensures r.header.id == m.header.id && r.header.opcode == m.header.opcode
    ensures r.header.aa == m.header.aa && r.header.tc == m.header.tc && r.header.rd == m.header.rd
    ensures r.header.ra == m.header.ra && r.header.z == m.header.z
    ensures r.header.nscount == m.header.nscount && r.header.arcount == m.header.arcount
    ensures r.question == m.question && r.answer == Some(answer)
  {
    var rcode := ResponseCode(m.header.opcode);
    var h := m.header.(qr := 1, qdcount := 1, ancount := 1, rcode := rcode);
    Message(h, m.question, Some(answer))
  }

  /** The bytes of the optional answer section. */
  function AnswerWire(answer: Option<DnsAnswer.Answer>): seq<bv8>
  {
    match answer
    case Some(a) => DnsAnswer.Wire(a)
    case None => []
  }

  /** `Into<Vec<u8>> for Message`: header, question and answer bytes, concatenated. */
  function Encode(m: Message): (r: seq<bv8>)
    ensures |r| == DnsHeader.HEADER_SIZE + |m.question.qname| + 5 + |AnswerWire(m.answer)|
    ensures r[..DnsHeader.HEADER_SIZE] == DnsHeader.Encode(m.header)
  {
    DnsHeader.Encode(m.header) + DnsQuestion.Wire(m.question) + AnswerWire(m.answer)
  }

  /** Deriving a response keeps a header whose fields fit their bits in that shape. */
  lemma ResponseKeepsFieldsFit(m: Message, answer: DnsAnswer.Answer)
    requires DnsHeader.FieldsFit(m.header)
    ensures DnsHeader.FieldsFit(Response(m, answer).header)
  {
  }

  /** Deriving a response from a response changes nothing in the header. */
  lemma ResponseIdempotent(m: Message, a: DnsAnswer.Answer, a': DnsAnswer.Answer)
    ensures Response(Response(m, a), a').header == Response(m, a).header
  {
  }

  /** An encoded response starts with the request's id in network byte order. */
  lemma ResponseEchoesId(m: Message, a: DnsAnswer.Answer)
    ensures Encode(Response(m, a))[..2] == Be16(m.header.id)
  {
    var r := Response(m, a);
    var h := DnsHeader.Encode(r.header);
    EncodeParts(r);
    assert Encode(r)[..2] == h[..2] == [h[0], h[1]];
  }

  /** The ancount bytes of an encoded response say "one answer". */
  lemma ResponseAnnouncesOneAnswer(m: Message, a: DnsAnswer.Answer)
    ensures Encode(Response(m, a))[6..8] == [0, 1]
  {
    var r := Response(m, a);
    var h := DnsHeader.Encode(r.header);
    EncodeParts(r);
    assert Encode(r)[6..8] == h[6..8] == [h[6], h[7]];
    OneEncoding();
  }

  /** An encoded response ends with the answer's bytes, after the header and the echoed question. */
  lemma ResponseEndsWithAnswer(m: Message, a: DnsAnswer.Answer)
    ensures var w, t := Encode(Response(m, a)), DnsAnswer.Wire(a);
      && |w| == DnsHeader.HEADER_SIZE + |m.question.qname| + 5 + |Utf8.Encode(a.name)| + 11 + |a.rdata|
      && w[|w| - |t|..] == t
  {
    var r := Response(m, a);
    var h, q, t := DnsHeader.Encode(r.header), DnsQuestion.Wire(r.question), DnsAnswer.Wire(a);
    assert Encode(r) == (h + q) + t;
  }

  /**
   * End to end: the bytes of the response to any decodable request decode
   * again, to the response's header and question (the decoder never reads an
   * answer section).
   */
  lemma ResponseDecodes(b: seq<bv8>, a: DnsAnswer.Answer)
    requires Decodable(b)
    ensures var r := Response(Decode(b), a);
      && Decodable(Encode(r))
      && Decode(Encode(r)) == r.(answer := None)
  {
    var req := Decode(b);
    var r := Response(req, a);
    ResponseKeepsFieldsFit(req, a);
    EncodeParts(r);
    DnsQuestion.DecodeWire(r.question, AnswerWire(r.answer));
    DnsHeader.DecodeEncode(r.header);
  }

  /** Where the header and the question-and-answer bytes sit in an encoded message. */
  lemma EncodeParts(m: Message)
    ensures Encode(m)[..DnsHeader.HEADER_SIZE] == DnsHeader.Encode(m.header)
    ensures Encode(m)[DnsHeader.HEADER_SIZE..] == DnsQuestion.Wire(m.question) + AnswerWire(m.answer)
  {
    var h, q, t := DnsHeader.Encode(m.header), DnsQuestion.Wire(m.question), AnswerWire(m.answer);
    assert Encode(m) == h + (q + t);
  }

  /**
   * A request with two questions, the second compressed to a pointer: only
   * the first question is read, and its name is the raw label bytes with
   * their length prefixes, up to the terminating zero.
   */
  lemma TwoQuestionRequest()
    ensures var header: seq<bv8> := [144, 155, 1, 0, 0, 2, 0, 0, 0, 0, 0, 0];
      var first: seq<bv8> := [3, 97, 98, 99, 17, 108, 111, 110, 103, 97, 115, 115, 100, 111, 109, 97, 105, 110,
                              110, 97, 109, 101, 3, 99, 111, 109, 0, 0, 1, 0, 1];
      var second: seq<bv8> := [3, 100, 101, 102, 192, 16, 0, 1, 0, 1];
      var b := header + first + second;
      && Decodable(b)
      && Decode(b).header.id == 0x909B && Decode(b).header.qdcount == 2 && Decode(b).header.rd == 1
      && Decode(b).question == DnsQuestion.Question(first[..26], 1, 1)
  {
    var header: seq<bv8> := [144, 155, 1, 0, 0, 2, 0, 0, 0, 0, 0, 0];
    var first: seq<bv8> := [3, 97, 98, 99, 17, 108, 111, 110, 103, 97, 115, 115, 100, 111, 109, 97, 105, 110,
                            110, 97, 109, 101, 3, 99, 111, 109, 0, 0, 1, 0, 1];
    var second: seq<bv8> := [3, 100, 101, 102, 192, 16, 0, 1, 0, 1];
    var b := header + first + second;
    assert b[0..12] == header;
    assert b[12..] == first + second;
    DnsHeader.ExampleHeader();
    var q := DnsQuestion.Question(first[..26], 1, 1);
    assert forall i :: 0 <= i < 26 ==> first[i] != 0;
    assert first == DnsQuestion.Wire(q);
    DnsQuestion.DecodeWire(q, second);
  }

  /** A request with opcode 5 gets response code 4, whatever the answer. */
  lemma UnsupportedOpcodeResponse(m: Message, a: DnsAnswer.Answer)
    requires m.header.opcode == 5
    ensures Response(m, a).header.rcode == 4
  {
  }
}
