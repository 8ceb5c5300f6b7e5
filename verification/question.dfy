/**
 * The question record as this server reads and writes it. The name is NOT
 * parsed into labels and compression pointers are NOT followed: decoding
 * takes the raw bytes in front of the first zero byte as `qname`, skips one
 * byte, and reads `qtype` and `qclass` big-endian from the next four.
 */
module DnsQuestion {
  import opened Wrappers
  import opened ByteOrder

  datatype Question = Question(qname: seq<bv8>, qtype: bv16, qclass: bv16)

  /** `bytes.iter().position(|&byte| byte == 0)`: the index of the first zero byte. */
  function ZeroPosition(b: seq<bv8>): (r: Option<nat>)
    ensures r.Some? ==> r.value < |b| && b[r.value] == 0 && 0 !in b[..r.value]
    ensures r.None? <==> 0 !in b
  {
    if |b| == 0 then None
    else if b[0] == 0 then Some(0)
    else match ZeroPosition(b[1..])
      case Some(i) =>
        assert b[..i + 1] == [b[0]] + b[1..][..i];
        Some(i + 1)
      case None => None
  }

  /** The `qname` the decoder keeps: the bytes before the first zero, or nothing when there is none. */
  function NameBeforeZero(b: seq<bv8>): (name: seq<bv8>)
    ensures 0 !in name
    ensures |name| <= |b| && name == b[..|name|]
    ensures 0 in b ==> |name| < |b| && b[|name|] == 0
    ensures 0 !in b ==> name == []
  {
    match ZeroPosition(b)
    case Some(i) => b[..i]
    case None => []
  }

  /** Enough bytes for the decoder not to panic: the name, one skipped byte and four field bytes. */
  predicate Decodable(b: seq<bv8>)
  {
    |NameBeforeZero(b)| + 5 <= |b|
  }

  /** `Question::from(&[u8])`. */
  function Decode(b: seq<bv8>): (q: Question)
    requires Decodable(b)
    ensures q.qname == NameBeforeZero(b)
    ensures var k := |q.qname| + 1;
      Be16(q.qtype) == b[k..k + 2] && Be16(q.qclass) == b[k + 2..k + 4]
  {
    var qname := NameBeforeZero(b);
    var rest := b[|qname| + 1..];
    Question(qname, FromBe16(rest[0], rest[1]), FromBe16(rest[2], rest[3]))
  }

  /** The bytes `Into<Vec<u8>> for Question` produces: name, a zero byte, then the two fields big-endian. */
  function Wire(q: Question): seq<bv8>
  {
    q.qname + [0] + Be16(q.qtype) + Be16(q.qclass)
  }

  /** `Into<Vec<u8>> for Question`, appending piece by piece to a growing buffer. */
  method Into(q: Question) returns (bytes: seq<bv8>)
    ensures bytes == Wire(q)
    ensures |bytes| == |q.qname| + 5
    ensures bytes[..|q.qname|] == q.qname && bytes[|q.qname|] == 0
  {
    bytes := [];
    bytes := bytes + q.qname;
    assert bytes == q.qname;
    bytes := bytes + [0];
    bytes := bytes + Be16(q.qtype);
    bytes := bytes + Be16(q.qclass);
  }

  /**
   * Round trip: decoding the encoding of a question, followed by anything at
   * all, gives the question back, as long as its name holds no zero byte.
   */
  lemma DecodeWire(q: Question, rest: seq<bv8>)
    requires 0 !in q.qname
    ensures Decodable(Wire(q) + rest)
    ensures Decode(Wire(q) + rest) == q
  {
    var b := Wire(q) + rest;
    var n := |q.qname|;
    assert b[n] == 0;
    assert b[..n] == q.qname;
    assert b[n + 1..n + 5] == Be16(q.qtype) + Be16(q.qclass);
    Be16RoundTrip(q.qtype);
    Be16RoundTrip(q.qclass);
  }

  /** A decoded name never contains a zero byte, so decoded questions always survive a round trip. */
  lemma DecodedNameHasNoZero(b: seq<bv8>)
    requires Decodable(b)
    ensures 0 !in Decode(b).qname
    ensures Decodable(Wire(Decode(b)) + b[|Decode(b).qname| + 5..])
    ensures Decode(Wire(Decode(b)) + b[|Decode(b).qname| + 5..]) == Decode(b)
  {
    DecodeWire(Decode(b), b[|Decode(b).qname| + 5..]);
  }

  /** Re-encoding a question decoded from bytes that contain a zero reproduces the bytes it read. */
  lemma WireDecode(b: seq<bv8>)
    requires Decodable(b) && 0 in b
    ensures Wire(Decode(b)) == b[..|Decode(b).qname| + 5]
  {
    var n := |Decode(b).qname|;
    Regroup(b, n);
  }

  lemma Regroup(b: seq<bv8>, n: nat)
    requires n + 5 <= |b|
    ensures b[..n + 5] == b[..n] + [b[n]] + b[n + 1..n + 3] + b[n + 3..n + 5]
  {
  }

  /**
   * Without any zero byte the name is empty and the decoder still skips the
   * first byte: `qtype` comes from bytes 1 and 2, `qclass` from 3 and 4.
   */
  lemma NoZeroSkipsFirstByte(b: seq<bv8>)
    requires 0 !in b && |b| >= 5
    ensures Decodable(b)
    ensures Decode(b) == Question([], FromBe16(b[1], b[2]), FromBe16(b[3], b[4]))
  {
  }
}
