/**
 * The fixed 12-byte DNS message header (section 4.1.1 of RFC 1035) as the
 * server packs and unpacks it: a big-endian 16-bit id, two flag bytes and four
 * big-endian 16-bit record counts. Every one-, three- and four-bit field is
 * stored in its own byte, exactly as the Rust code's `u8` fields.
 */
module DnsHeader {
  import opened ByteOrder

  const HEADER_SIZE: nat := 12

  datatype Header = Header(
    id: bv16,
    qr: bv8, opcode: bv8, aa: bv8, tc: bv8, rd: bv8,
    ra: bv8, z: bv8, rcode: bv8,
    qdcount: bv16, ancount: bv16, nscount: bv16, arcount: bv16)

  /** Every field holds a value that fits the bits the wire format gives it. */
  predicate FieldsFit(h: Header)
  {
    && h.qr <= 1 && h.opcode <= 15 && h.aa <= 1 && h.tc <= 1 && h.rd <= 1
    && h.ra <= 1 && h.z <= 7 && h.rcode <= 15
  }

  /** `Header::default()`: every field zero. */
  function Default(): (h: Header)
    ensures FieldsFit(h)
  {
    Header(0, 0, 0, 0, 0, 0, 0, 0, 0, 0, 0, 0, 0)
  }

  /**
   * `Header::from(&[u8])`: reads bytes 0 to 11 only. A shorter slice makes the
   * Rust code panic on indexing, hence the precondition.
   */
  function Decode(b: seq<bv8>): (h: Header)
    requires |b| >= HEADER_SIZE
    ensures FieldsFit(h)
    ensures Be16(h.id) == b[0..2] && Be16(h.qdcount) == b[4..6] && Be16(h.ancount) == b[6..8]
    ensures Be16(h.nscount) == b[8..10] && Be16(h.arcount) == b[10..12]
  {
    Header(
      id := FromBe16(b[0], b[1]),
      qr := b[2] >> 7,
      opcode := (b[2] >> 3) & 0x0F,
      aa := (b[2] >> 2) & 0x01,
      tc := (b[2] >> 1) & 0x01,
      rd := b[2] & 0x01,
      ra := b[3] >> 7,
      z := (b[3] >> 4) & 0x07,
      rcode := b[3] & 0x0F,
      qdcount := FromBe16(b[4], b[5]),
      ancount := FromBe16(b[6], b[7]),
      nscount := FromBe16(b[8], b[9]),
      arcount := FromBe16(b[10], b[11]))
  }

  /**
   * `Into<Vec<u8>> for Header`: the flag fields are shifted into place and
   * or-ed together on `u8`, so bits beyond a field's width are shifted out or
   * spill into its neighbours; `FieldsFit` rules that out where it matters.
   */
  function Encode(h: Header): (r: seq<bv8>)
    ensures |r| == HEADER_SIZE
    ensures [r[0], r[1]] == Be16(h.id) && [r[4], r[5]] == Be16(h.qdcount) && [r[6], r[7]] == Be16(h.ancount)
    ensures [r[8], r[9]] == Be16(h.nscount) && [r[10], r[11]] == Be16(h.arcount)
  {
    [ (h.id >> 8) as bv8, Low8(h.id),
      (h.qr << 7) | (h.opcode << 3) | (h.aa << 2) | (h.tc << 1) | h.rd,
      (h.ra << 7) | (h.z << 4) | h.rcode,
      (h.qdcount >> 8) as bv8, Low8(h.qdcount),
      (h.ancount >> 8) as bv8, Low8(h.ancount),
      (h.nscount >> 8) as bv8, Low8(h.nscount),
      (h.arcount >> 8) as bv8, Low8(h.arcount) ]
  }

  /** Decoding looks at the first twelve bytes and at nothing after them. */
  lemma DecodeReadsOnlyHeader(b: seq<bv8>, c: seq<bv8>)
    requires |b| >= HEADER_SIZE && |c| >= HEADER_SIZE && b[..HEADER_SIZE] == c[..HEADER_SIZE]
    ensures Decode(b) == Decode(c)
  {
    assert forall i :: 0 <= i < HEADER_SIZE ==> b[i] == b[..HEADER_SIZE][i] == c[i];
  }

  /**
   * Where the decoded flags sit in bytes 2 and 3: qr in bit 7, opcode in bits
   * 6 to 3, aa, tc and rd in bits 2, 1 and 0; ra in bit 7, z in bits 6 to 4
   * and rcode in bits 3 to 0.
   */
  lemma DecodeFlagLayout(b: seq<bv8>)
    requires |b| >= HEADER_SIZE
    ensures var h := Decode(b);
      && b[2] == (h.qr << 7) | (h.opcode << 3) | (h.aa << 2) | (h.tc << 1) | h.rd
      && b[3] == (h.ra << 7) | (h.z << 4) | h.rcode
  {
    FlagBytesRoundTrip(b[2], b[3]);
  }

  /** Encoding puts each flag field back in the bits `Decode` reads it from, provided every field fits its bits. */
  lemma EncodeFlagLayout(h: Header)
    requires FieldsFit(h)
    ensures var r := Encode(h);
      && r[2] >> 7 == h.qr && (r[2] >> 3) & 0x0F == h.opcode && (r[2] >> 2) & 0x01 == h.aa
      && (r[2] >> 1) & 0x01 == h.tc && r[2] & 0x01 == h.rd
      && r[3] >> 7 == h.ra && (r[3] >> 4) & 0x07 == h.z && r[3] & 0x0F == h.rcode
  {
    DecodeEncode(h);
  }

  /** Re-encoding a decoded header reproduces the twelve bytes it came from. */
  lemma EncodeDecode(b: seq<bv8>)
    requires |b| >= HEADER_SIZE
    ensures Encode(Decode(b)) == b[..HEADER_SIZE]
  {
    var h := Decode(b);
    var r := Encode(h);
    FlagBytesRoundTrip(b[2], b[3]);
    FromBe16RoundTrip(b[0], b[1]);
    FromBe16RoundTrip(b[4], b[5]);
    FromBe16RoundTrip(b[6], b[7]);
    FromBe16RoundTrip(b[8], b[9]);
    FromBe16RoundTrip(b[10], b[11]);
    assert [r[0], r[1]] == [b[0], b[1]] && [r[4], r[5]] == [b[4], b[5]] && [r[6], r[7]] == [b[6], b[7]];
    assert [r[8], r[9]] == [b[8], b[9]] && [r[10], r[11]] == [b[10], b[11]];
    assert r[2] == b[2] && r[3] == b[3];
    assert forall i :: 0 <= i < HEADER_SIZE ==> r[i] == b[i];
  }

  /** Splitting the two flag bytes into fields and packing them again gives the same bytes. */
  lemma FlagBytesRoundTrip(b2: bv8, b3: bv8)
    ensures ((b2 >> 7) << 7) | (((b2 >> 3) & 0x0F) << 3) | (((b2 >> 2) & 0x01) << 2)
            | (((b2 >> 1) & 0x01) << 1) | (b2 & 0x01) == b2
    ensures ((b3 >> 7) << 7) | (((b3 >> 4) & 0x07) << 4) | (b3 & 0x0F) == b3
  {
  }

  /** Decoding an encoded header gives it back, provided every field fits its bits. */
  lemma DecodeEncode(h: Header)
    requires FieldsFit(h)
    ensures Decode(Encode(h)) == h
  {
    var r := Encode(h);
    var d := Decode(r);
    FlagByteRoundTrip(h);
    Be16RoundTrip(h.id);
    Be16RoundTrip(h.qdcount);
    Be16RoundTrip(h.ancount);
    Be16RoundTrip(h.nscount);
    Be16RoundTrip(h.arcount);
    assert d.id == h.id;
  }

  lemma FlagByteRoundTrip(h: Header)
    requires FieldsFit(h)
    ensures var b2 := (h.qr << 7) | (h.opcode << 3) | (h.aa << 2) | (h.tc << 1) | h.rd;
      b2 >> 7 == h.qr && (b2 >> 3) & 0x0F == h.opcode && (b2 >> 2) & 0x01 == h.aa
      && (b2 >> 1) & 0x01 == h.tc && b2 & 0x01 == h.rd
    ensures var b3 := (h.ra << 7) | (h.z << 4) | h.rcode;
      b3 >> 7 == h.ra && (b3 >> 4) & 0x07 == h.z && b3 & 0x0F == h.rcode
  {
  }

  /** The default header goes on the wire as twelve zero bytes. */
  lemma DefaultEncodesToZeros()
    ensures Encode(Default()) == [0, 0, 0, 0, 0, 0, 0, 0, 0, 0, 0, 0]
  {
    ZeroEncodings();
  }

  /** Id 0x909B, recursion desired, two questions. */
  lemma ExampleHeader()
    ensures Decode([144, 155, 1, 0, 0, 2, 0, 0, 0, 0, 0, 0]) == Header(0x909B, 0, 0, 0, 0, 1, 0, 0, 0, 2, 0, 0, 0)
  {
  }
}
