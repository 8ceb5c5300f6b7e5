/**
 * The answer record as this server writes it (the fields of section 4.1.3 of
 * RFC 1035). The name is a text string written as its UTF-8 bytes followed
 * by one zero byte; it is not split into labels. `rdlength` is written as
 * stored, independently of how many `rdata` bytes follow.
 */
module DnsAnswer {
  import opened ByteOrder
  import Utf8
  import DnsQuestion

  datatype Answer = Answer(name: string, qtype: bv16, qclass: bv16, ttl: bv32, rdlength: bv16, rdata: seq<bv8>)

  /** `Answer::default()`: empty name, no rdata, every number zero. */
  function Default(): (a: Answer)
    ensures a.name == [] && a.rdata == []
  {
    Answer("", 0, 0, 0, 0, [])
  }

  /** `Answer::for_question`: the question is not consulted, and the answer is eleven zero bytes on the wire. */
  function ForQuestion(q: DnsQuestion.Question): (a: Answer)
    ensures Wire(a) == [0, 0, 0, 0, 0, 0, 0, 0, 0, 0, 0]
  {
    DefaultWire();
    Default()
  }

  /**
   * The eleven bytes between the name and the rdata: the name's zero byte,
   * then type, class, TTL and the stored rdlength, each big-endian.
   */
  function FixedFields(a: Answer): (r: seq<bv8>)
    ensures |r| == 11 && r[0] == 0
    ensures [r[1], r[2]] == Be16(a.qtype) && [r[3], r[4]] == Be16(a.qclass)
    ensures [r[5], r[6], r[7], r[8]] == Be32(a.ttl) && [r[9], r[10]] == Be16(a.rdlength)
  {
    [0] + Be16(a.qtype) + Be16(a.qclass) + Be32(a.ttl) + Be16(a.rdlength)
  }

  /** The bytes `Into<Vec<u8>> for Answer` produces. */
  function Wire(a: Answer): seq<bv8>
  {
    Utf8.Encode(a.name) + FixedFields(a) + a.rdata
  }

  /** `Into<Vec<u8>> for Answer`, appending piece by piece to a growing buffer. */
  method Into(a: Answer) returns (bytes: seq<bv8>)
    ensures bytes == Wire(a)
    ensures |bytes| == |Utf8.Encode(a.name)| + 11 + |a.rdata|
  {
    var name := Utf8.Encode(a.name);
    bytes := [];
    bytes := bytes + name;
    assert bytes == name;
    bytes := bytes + [0];
    bytes := bytes + Be16(a.qtype);
    bytes := bytes + Be16(a.qclass);
    bytes := bytes + Be32(a.ttl);
    bytes := bytes + Be16(a.rdlength);
    bytes := bytes + a.rdata;
    Regroup(name, [0], Be16(a.qtype), Be16(a.qclass), Be32(a.ttl), Be16(a.rdlength), a.rdata);
  }

  /**
   * Field layout: the name's bytes, the eleven fixed bytes (with the stored
   * rdlength, whatever the length of `rdata`), then `rdata` verbatim as the suffix.
   */
  lemma WireLayout(a: Answer)
    ensures var n, w := |Utf8.Encode(a.name)|, Wire(a);
      && |w| == n + 11 + |a.rdata|
      && w[..n] == Utf8.Encode(a.name)
      && w[n..n + 11] == FixedFields(a)
      && w[n + 11..] == a.rdata
  {
    SplitThree(Utf8.Encode(a.name), FixedFields(a), a.rdata);
  }

  lemma Regroup(x: seq<bv8>, y0: seq<bv8>, y1: seq<bv8>, y2: seq<bv8>, y3: seq<bv8>, y4: seq<bv8>, z: seq<bv8>)
    ensures x + y0 + y1 + y2 + y3 + y4 + z == x + (y0 + y1 + y2 + y3 + y4) + z
  {
  }

  lemma SplitThree(x: seq<bv8>, y: seq<bv8>, z: seq<bv8>)
    ensures (x + y + z)[..|x|] == x && (x + y + z)[|x|..|x| + |y|] == y && (x + y + z)[|x| + |y|..] == z
  {
  }

  /**
   * The bytes in front of the TTL are exactly a question record for the
   * name's bytes, so the question decoder reads the name, type and class
   * back out of an answer whose name has no NUL character.
   */
  lemma AnswerStartsWithQuestion(a: Answer)
    ensures Wire(a) == DnsQuestion.Wire(DnsQuestion.Question(Utf8.Encode(a.name), a.qtype, a.qclass))
                       + (Be32(a.ttl) + Be16(a.rdlength) + a.rdata)
    ensures '\0' !in a.name ==>
      && DnsQuestion.Decodable(Wire(a))
      && DnsQuestion.Decode(Wire(a)) == DnsQuestion.Question(Utf8.Encode(a.name), a.qtype, a.qclass)
  {
    var q := DnsQuestion.Question(Utf8.Encode(a.name), a.qtype, a.qclass);
    var tail := Be32(a.ttl) + Be16(a.rdlength) + a.rdata;
    Regroup(q.qname, [0], Be16(a.qtype), Be16(a.qclass), Be32(a.ttl), Be16(a.rdlength), a.rdata);
    assert Wire(a) == DnsQuestion.Wire(q) + tail;
    if '\0' !in a.name {
      Utf8.EncodeZeroIffNul(a.name);
      DnsQuestion.DecodeWire(q, tail);
    }
  }

  /** The default answer goes on the wire as eleven zero bytes. */
  lemma DefaultWire()
    ensures Wire(Default()) == [0, 0, 0, 0, 0, 0, 0, 0, 0, 0, 0]
  {
    ZeroEncodings();
  }

  /** Every question gets the same answer: the default one. */
  lemma ForQuestionIgnoresQuestion(q: DnsQuestion.Question, q': DnsQuestion.Question)
    ensures ForQuestion(q) == ForQuestion(q') == Default()
  {
  }
}
