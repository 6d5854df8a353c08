/**
 * The DNS message codec of `src/packet.rs`: the 12-byte header, the
 * question entry with its label-encoded name, the one answer-record shape
 * the client accepts, the wire-code enumerations, and the serialization of
 * a whole query packet.
 *
 * The model keeps the codec as written, including where the decoder is not
 * the inverse of the encoder (the QR bit, the flag bits, the opcode) and
 * where the answer decoder reports fewer bytes than the record occupies;
 * the lemmas below state those facts precisely.
 */
module PacketCodec {
  import opened Wire

  const HEADER_SIZE: nat := 12
  const RCODE_MASK: bv8 := 0x0F
  const PTR_MASK: bv8 := 0xC0

  /** What `Answer::parse` reports as consumed, whatever the record holds. */
  const ANSWER_CONSUMED: nat := 14

  // ---------------------------------------------------------------------
  // Wire-code enumerations and their `From` conversions
  // ---------------------------------------------------------------------

  datatype Opcode = Standard
  datatype RCode = NoError | FormatError | ServerFailure | NameError | NotImplemented | Refused
  datatype QType = AA
  datatype QClass = Internet
  datatype AType = A | CNAME

  /** `opcode as u8`: the one opcode is declared as 0. */
  function OpcodeCode(o: Opcode): (b: byte)
    ensures b == 0
  {
    0
  }

  /** `Opcode::from`: only code 0 is known; any other code panics. */
  function OpcodeFrom(b: byte): (r: Result<Opcode>)
    ensures r.Ok? <==> b == 0
    ensures r.Ok? ==> OpcodeCode(r.value) == b
    ensures r.Err? ==> r.error == BadOpcode(b)
  {
    if b == 0 then Ok(Standard) else Err(BadOpcode(b))
  }

  /** `rcode as u8`: the declaration order of the variants. */
  function RCodeValue(c: RCode): (b: byte)
    ensures b < 6
  {
    match c
    case NoError => 0
    case FormatError => 1
    case ServerFailure => 2
    case NameError => 3
    case NotImplemented => 4
    case Refused => 5
  }

  /** `RCode::from`: codes 0 to 5 in declaration order; any other code panics. */
  function RCodeFrom(b: byte): (r: Result<RCode>)
    ensures r.Ok? <==> b < 6
    ensures r.Ok? ==> RCodeValue(r.value) == b
    ensures r.Err? ==> r.error == BadRCode(b)
  {
    match b
    case 0 => Ok(NoError)
    case 1 => Ok(FormatError)
    case 2 => Ok(ServerFailure)
    case 3 => Ok(NameError)
    case 4 => Ok(NotImplemented)
    case 5 => Ok(Refused)
    case _ => Err(BadRCode(b))
  }

  /** Decoding the code of an opcode gives that opcode back. */
  lemma {:induction false} OpcodeRoundTrip(o: Opcode)
    ensures OpcodeFrom(OpcodeCode(o)) == Ok(o)
  {
  }

  /** Decoding the code of a response code gives that response code back. */
  lemma {:induction false} RCodeRoundTrip(c: RCode)
    ensures RCodeFrom(RCodeValue(c)) == Ok(c)
  {
    match c
    case NoError =>
    case FormatError =>
    case ServerFailure =>
    case NameError =>
    case NotImplemented =>
    case Refused =>
  }

  /** `qtype as u16`: the one query type is declared as 1, the A type of RFC 1035. */
  function QTypeCode(t: QType): (x: u16)
    ensures x == 1
  {
    1
  }

  /** `QType::from`: only code 1 is known; any other code panics. */
  function QTypeFrom(x: u16): (r: Result<QType>)
    ensures r.Ok? <==> x == 1
    ensures r.Ok? ==> QTypeCode(r.value) == x
    ensures r.Err? ==> r.error == BadQType(x)
  {
    if x == 1 then Ok(AA) else Err(BadQType(x))
  }

  /** `qclass as u16`: the one class is declared as 1, IN. */
  function QClassCode(c: QClass): (x: u16)
    ensures x == 1
  {
    1
  }

  /** `QClass::from`: only code 1 is known; any other code panics. */
  function QClassFrom(x: u16): (r: Result<QClass>)
    ensures r.Ok? <==> x == 1
    ensures r.Ok? ==> QClassCode(r.value) == x
    ensures r.Err? ==> r.error == BadQClass(x)
  {
    if x == 1 then Ok(Internet) else Err(BadQClass(x))
  }

  /** `atype as u16`: A is 1 and CNAME is 5, distinct codes. */
  function ATypeCode(t: AType): (x: u16)
    ensures x == 1 <==> t == A
    ensures x == 5 <==> t == CNAME
  {
    match t
    case A => 1
    case CNAME => 5
  }

  /** `AType::from`: codes 1 and 5; any other code panics. */
  function ATypeFrom(x: u16): (r: Result<AType>)
    ensures r.Ok? <==> x == 1 || x == 5
    ensures r.Ok? ==> ATypeCode(r.value) == x
    ensures r.Err? ==> r.error == BadAType(x)
  {
    if x == 1 then Ok(A) else if x == 5 then Ok(CNAME) else Err(BadAType(x))
  }

  /** Decoding the code of a query type, a class or an answer type gives it back. */
  lemma {:induction false} TypeCodesRoundTrip(t: QType, c: QClass, a: AType)
    ensures QTypeFrom(QTypeCode(t)) == Ok(t)
    ensures QClassFrom(QClassCode(c)) == Ok(c)
    ensures ATypeFrom(ATypeCode(a)) == Ok(a)
  {
    match a
    case A =>
    case CNAME =>
  }

  // ---------------------------------------------------------------------
  // Header
  // ---------------------------------------------------------------------

  datatype Header = Header(
    id: u16,
    qr: bool,
    opcode: Opcode,
    aa: bool,
    tc: bool,
    rd: bool,
    ra: bool,
    rcode: RCode,
    qdcount: u16,
    ancount: u16,
    nscount: u16,
    arcount: u16)

  /** The mask `m` when `c` holds, otherwise no bit. */
  function BitIf(c: bool, m: bv8): bv8 {
    if c then m else 0
  }

  /**
   * Byte 2 of a serialized header. The QR bit is written inverted at bit 7,
   * the opcode shifted by two (which would overlap AA for any opcode but 0),
   * AA at bit 2, TC at bit 1 and RD at bit 0; RA is not part of it.
   */
  function FlagsByte(h: Header): (b: bv8)
    ensures ((b & 0x80) != 0) == !h.qr
    ensures ((b & 0x04) != 0) == h.aa
    ensures ((b & 0x02) != 0) == h.tc
    ensures ((b & 0x01) != 0) == h.rd
    ensures (b & 0x78) == 0
  {
    BitIf(!h.qr, 0x80) | (Bits(OpcodeCode(h.opcode)) << 2) | BitIf(h.aa, 0x04) | BitIf(h.tc, 0x02) | BitIf(h.rd, 0x01)
  }

  /** The bytes `Header::serialize` produces. */
  function HeaderBytes(h: Header): (r: seq<byte>)
    ensures |r| == HEADER_SIZE
    ensures U16At(r, 0) == h.id
    ensures ((Bits(r[2]) & 0x80) != 0) == !h.qr
    ensures ((Bits(r[2]) & 0x04) != 0) == h.aa
    ensures ((Bits(r[2]) & 0x02) != 0) == h.tc
    ensures ((Bits(r[2]) & 0x01) != 0) == h.rd
    ensures (Bits(r[2]) & 0x78) == 0
    ensures r[3] == RCodeValue(h.rcode)
    ensures U16At(r, 4) == h.qdcount && U16At(r, 6) == h.ancount
    ensures U16At(r, 8) == h.nscount && U16At(r, 10) == h.arcount
  {
    [h.id / 0x100, h.id % 0x100, Octet(FlagsByte(h)), RCodeValue(h.rcode),
     h.qdcount / 0x100, h.qdcount % 0x100, h.ancount / 0x100, h.ancount % 0x100,
     h.nscount / 0x100, h.nscount % 0x100, h.arcount / 0x100, h.arcount % 0x100]
  }

  /** `Header::serialize`: pushes the id, ORs the flag bits into byte 2, sets byte 3, pushes the counts. */
  method SerializeHeader(h: Header) returns (header: seq<byte>)
    ensures header == HeaderBytes(h)
  {
    header := U16Bytes(h.id);
    // byte 2 starts as 0 and has the flag bits ORed into it
    var control: bv8 := 0;
    if !h.qr {
      control := control | 0x80;
    }
    control := control | (Bits(OpcodeCode(h.opcode)) << 2);
    if h.aa {
      control := control | 0x04;
    }
    if h.tc {
      control := control | 0x02;
    }
    if h.rd {
      control := control | 0x01;
    }
    header := header + [Octet(control)];
    header := header + [RCodeValue(h.rcode)];
    header := header + U16Bytes(h.qdcount);
    header := header + U16Bytes(h.ancount);
    header := header + U16Bytes(h.nscount);
    header := header + U16Bytes(h.arcount);
  }

  /** Two headers serialize alike exactly when they agree on every field but RA. */
  lemma {:induction false} HeaderBytesIgnoreOnlyRa(h1: Header, h2: Header)
    ensures HeaderBytes(h1) == HeaderBytes(h2) <==> h1.(ra := false) == h2.(ra := false)
  {
    if HeaderBytes(h1) == HeaderBytes(h2) {
      var r := HeaderBytes(h1);
      assert RCodeValue(h1.rcode) == r[3] == RCodeValue(h2.rcode);
      RCodeRoundTrip(h1.rcode);
      RCodeRoundTrip(h2.rcode);
    }
  }

  /** The opcode bits `Header::parse` extracts: `0xf8 & (b >> 6)`, which is 0 for every byte. */
  function OpcodeBits(control: byte): (o: byte)
    ensures o == 0
  {
    Octet(0xf8 & (Bits(control) >> 6))
  }

  /** `b & m` on an octet. */
  function Masked(b: byte, m: bv8): byte {
    Octet(Bits(b) & m)
  }

  /** Masking a response code's value with `RCODE_MASK` leaves it unchanged. */
  lemma {:induction false} RCodeNibble(c: RCode)
    ensures Masked(RCodeValue(c), RCODE_MASK) == RCodeValue(c)
  {
    match c
    case NoError =>
    case FormatError =>
    case ServerFailure =>
    case NameError =>
    case NotImplemented =>
    case Refused =>
  }

  /**
   * `Header::parse`. The id and the two control bytes are read first (too
   * few bytes: an end-of-input error), then the opcode and the response
   * code are converted (an unknown response code panics), then the four
   * counts are read. QR is taken from bit 3 of byte 2, the opcode is always
   * Standard, and AA, TC, RD and RA are always false.
   */
  function ParseHeader(bytes: seq<byte>): (r: Result<Header>)
    ensures |bytes| < HEADER_SIZE ==> r.Err?
    ensures |bytes| >= HEADER_SIZE ==> (r.Ok? <==> Masked(bytes[3], RCODE_MASK) < 6)
    ensures r.Err? ==>
      r.error == (if |bytes| >= 4 && Masked(bytes[3], RCODE_MASK) >= 6 then BadRCode(Masked(bytes[3], RCODE_MASK)) else UnexpectedEof)
    ensures r.Ok? ==>
      && |bytes| >= HEADER_SIZE
      && r.value.id == U16At(bytes, 0)
      && r.value.qr == ((Bits(bytes[2]) & 0x08) != 0)
      && r.value.opcode == Standard
      && !r.value.aa && !r.value.tc && !r.value.rd && !r.value.ra
      && RCodeValue(r.value.rcode) == Masked(bytes[3], RCODE_MASK)
      && r.value.qdcount == U16At(bytes, 4)
      && r.value.ancount == U16At(bytes, 6)
      && r.value.nscount == U16At(bytes, 8)
      && r.value.arcount == U16At(bytes, 10)
  {
    if |bytes| < 4 then Err(UnexpectedEof)
    else
      var qr := (Bits(bytes[2]) & 0x08) != 0;
      match OpcodeFrom(OpcodeBits(bytes[2]))
      case Err(e) => Err(e)
      case Ok(opcode) =>
        match RCodeFrom(Masked(bytes[3], RCODE_MASK))
        case Err(e) => Err(e)
        case Ok(rcode) =>
          if |bytes| < HEADER_SIZE then Err(UnexpectedEof)
          else Ok(Header(U16At(bytes, 0), qr, opcode, false, false, false, false, rcode,
                         U16At(bytes, 4), U16At(bytes, 6), U16At(bytes, 8), U16At(bytes, 10)))
  }

  /**
   * What decoding a serialized header gives back: the id, opcode, response
   * code and counts survive, while QR, AA, TC, RD and RA all come back false
   * (the encoder never sets bit 3 of byte 2, which is where QR is read).
   */
  lemma {:induction false} ParseHeaderBytes(h: Header)
    ensures ParseHeader(HeaderBytes(h)) == Ok(h.(qr := false, aa := false, tc := false, rd := false, ra := false))
  {
    var r := HeaderBytes(h);
    assert (Bits(r[2]) & 0x08) == 0;
    RCodeNibble(h.rcode);
    var p := ParseHeader(r);
    assert p.Ok?;
    RCodeRoundTrip(h.rcode);
    RCodeRoundTrip(p.value.rcode);
    assert p.value.rcode == h.rcode;
    assert p.value.id == h.id;
    assert p.value.opcode == h.opcode;
    assert p.value.qdcount == h.qdcount && p.value.ancount == h.ancount;
    assert p.value.nscount == h.nscount && p.value.arcount == h.arcount;
    assert !p.value.qr;
  }

  // ---------------------------------------------------------------------
  // Question: label-encoded name, qtype, qclass
  // ---------------------------------------------------------------------

  /** One label of a domain name, as the bytes of its UTF-8 text. */
  type Label = seq<byte>

  datatype Question = Question(name: seq<Label>, qtype: QType, qclass: QClass)

  /** `len as u8`: the length byte of a label, truncated to 8 bits. */
  function LengthByte(n: nat): (b: byte)
    ensures n <= 0xFF ==> b == n
    ensures (n - b) % 0x100 == 0
  {
    n % 0x100
  }

  /** A label on the wire: its (truncated) length byte, then its bytes. */
  function LabelBytes(l: Label): (r: seq<byte>)
    ensures |r| == |l| + 1
  {
    [LengthByte(|l|)] + l
  }

  /** The sum over the labels of their length plus one. */
  function NameLength(name: seq<Label>): nat {
    if name == [] then 0 else |name[0]| + 1 + NameLength(name[1..])
  }

  /** The labels of a name on the wire, without the terminating zero byte. */
  function NameBytes(name: seq<Label>): (r: seq<byte>)
    ensures |r| == NameLength(name)
  {
    if name == [] then [] else LabelBytes(name[0]) + NameBytes(name[1..])
  }

  lemma {:induction false} NameBytesAppend(a: seq<Label>, b: seq<Label>)
    ensures NameBytes(a + b) == NameBytes(a) + NameBytes(b)
    decreases |a|
  {
    if a == [] {
      assert a + b == b;
    } else {
      assert (a + b)[1..] == a[1..] + b;
      NameBytesAppend(a[1..], b);
    }
  }

  /** The bytes `Question::serialize` produces. */
  function QuestionBytes(q: Question): (r: seq<byte>)
    ensures |r| == NameLength(q.name) + 5
  {
    NameBytes(q.name) + [0] + U16Bytes(QTypeCode(q.qtype)) + U16Bytes(QClassCode(q.qclass))
  }

  /** A serialized question is its name, the zero terminator, then qtype and qclass big-endian. */
  lemma {:induction false} QuestionBytesLayout(q: Question)
    ensures var r := QuestionBytes(q);
      && r[..NameLength(q.name)] == NameBytes(q.name)
      && r[NameLength(q.name)] == 0
      && U16At(r, |r| - 4) == QTypeCode(q.qtype)
      && U16At(r, |r| - 2) == QClassCode(q.qclass)
  {
    var n := NameBytes(q.name);
    var r := QuestionBytes(q);
    assert r[..|n|] == n;
    U16AtShift(r, U16Bytes(QTypeCode(q.qtype)), |n| + 1, 0);
    U16AtShift(r, U16Bytes(QClassCode(q.qclass)), |n| + 3, 0);
  }

  /** `Question::serialize`: pushes each label's length byte and bytes, the terminator, qtype and qclass. */
  method SerializeQuestion(q: Question) returns (contents: seq<byte>)
    ensures contents == QuestionBytes(q)
  {
    contents := [];
    var k := 0;
    while k < |q.name|
      invariant 0 <= k <= |q.name|
      invariant contents == NameBytes(q.name[..k])
    {
      var part := q.name[k];
      contents := contents + [LengthByte(|part|)];
      var j := 0;
      while j < |part|
        invariant 0 <= j <= |part|
        invariant contents == NameBytes(q.name[..k]) + [LengthByte(|part|)] + part[..j]
      {
        contents := contents + [part[j]];
        j := j + 1;
      }
      assert part[..j] == part;
      assert NameBytes([part]) == LabelBytes(part);
      assert q.name[..k + 1] == q.name[..k] + [part];
      NameBytesAppend(q.name[..k], [part]);
      k := k + 1;
    }
    assert q.name[..k] == q.name;
    contents := contents + [0];
    contents := contents + U16Bytes(QTypeCode(q.qtype));
    contents := contents + U16Bytes(QClassCode(q.qclass));
  }

  /** A label the encoder writes faithfully and the decoder accepts: 1 to 255 bytes of UTF-8. */
  predicate ValidLabel(l: Label, utf8: Label -> bool) {
    1 <= |l| <= 0xFF && utf8(l)
  }

  predicate ValidName(name: seq<Label>, utf8: Label -> bool) {
    forall k :: 0 <= k < |name| ==> ValidLabel(name[k], utf8)
  }

  lemma {:induction false} ValidNameCons(l: Label, name: seq<Label>, utf8: Label -> bool)
    requires ValidLabel(l, utf8) && ValidName(name, utf8)
    ensures ValidName([l] + name, utf8)
  {
    forall k | 0 <= k < |name| + 1 ensures ValidLabel(([l] + name)[k], utf8) {
      if k > 0 {
        assert ([l] + name)[k] == name[k - 1];
      }
    }
  }

  /**
   * The label loop of `Question::parse`, from index `i`: a length byte of
   * zero ends the name; otherwise that many bytes form one label, which must
   * be UTF-8. Reading the length byte or slicing the label past the end of
   * the buffer panics. The result's `end` is the index just past the zero.
   *
   * On success the bytes read are exactly the encoding of the labels found.
   */
  function LabelsFrom(bytes: seq<byte>, i: nat, utf8: Label -> bool): (r: Result<Walk<Label>>)
    ensures r.Ok? ==> i < r.value.end <= |bytes|
    decreases |bytes| - i
  {
    if i >= |bytes| then Err(IndexOutOfBounds)
    else
      var size := bytes[i];
      if size == 0 then Ok(Walk([], i + 1))
      else if i + 1 + size > |bytes| then Err(IndexOutOfBounds)
      else
        var part := bytes[i + 1 .. i + 1 + size];
        if !utf8(part) then Err(NonUtf8)
        else Prefixed([part], LabelsFrom(bytes, i + 1 + size, utf8))
  }

  /** Whatever the label loop reads is a valid name, and the bytes it read are exactly that name's encoding. */
  lemma {:induction false} LabelsFromDecodes(bytes: seq<byte>, i: nat, utf8: Label -> bool)
    requires LabelsFrom(bytes, i, utf8).Ok?
    ensures var w := LabelsFrom(bytes, i, utf8).value;
      && bytes[i..w.end] == NameBytes(w.items) + [0]
      && ValidName(w.items, utf8)
    decreases |bytes| - i
  {
    var size := bytes[i];
    if size != 0 {
      var part := bytes[i + 1 .. i + 1 + size];
      var rest := LabelsFrom(bytes, i + 1 + size, utf8).value;
      LabelsFromDecodes(bytes, i + 1 + size, utf8);
      LabelStep(bytes, i, part, rest);
      ValidNameCons(part, rest.items, utf8);
    }
  }

  /** One step of the label loop: a label read at `i` followed by the rest of the name. */
  lemma {:induction false} LabelStep(bytes: seq<byte>, i: nat, part: Label, rest: Walk<Label>)
    requires i < |bytes| && 0 < bytes[i] == |part|
    requires i + 1 + |part| < rest.end <= |bytes|
    requires bytes[i + 1 .. i + 1 + |part|] == part
    requires bytes[i + 1 + |part| .. rest.end] == NameBytes(rest.items) + [0]
    ensures bytes[i..rest.end] == NameBytes([part] + rest.items) + [0]
  {
    var j := i + 1 + |part|;
    assert bytes[i..rest.end] == [bytes[i]] + bytes[i + 1 .. j] + bytes[j..rest.end];
    var name := [part] + rest.items;
    assert name[0] == part && name[1..] == rest.items;
    assert NameBytes(name) == LabelBytes(part) + NameBytes(rest.items);
  }

  /** Prepends labels already read to the outcome of reading the rest of a name. */
  function Prefixed(name: seq<Label>, r: Result<Walk<Label>>): Result<Walk<Label>> {
    match r
    case Err(e) => Err(e)
    case Ok(w) => Ok(Walk(name + w.items, w.end))
  }

  lemma {:induction false} PrefixedEmpty(r: Result<Walk<Label>>)
    ensures Prefixed([], r) == r
  {
    if r.Ok? {
      assert [] + r.value.items == r.value.items;
    }
  }

  lemma {:induction false} PrefixedAppend(name: seq<Label>, part: Label, r: Result<Walk<Label>>)
    ensures Prefixed(name, Prefixed([part], r)) == Prefixed(name + [part], r)
  {
    if r.Ok? {
      assert name + ([part] + r.value.items) == name + [part] + r.value.items;
    }
  }

  /** Wherever a buffer holds the encoding of a valid name, the label loop reads that name back. */
  lemma {:induction false} LabelsFromEncoded(bytes: seq<byte>, i: nat, name: seq<Label>, utf8: Label -> bool)
    requires ValidName(name, utf8)
    requires i + NameLength(name) + 1 <= |bytes|
    requires bytes[i .. i + NameLength(name) + 1] == NameBytes(name) + [0]
    ensures LabelsFrom(bytes, i, utf8) == Ok(Walk(name, i + NameLength(name) + 1))
    decreases |name|
  {
    if name == [] {
      assert bytes[i] == (NameBytes(name) + [0])[0] == 0;
    } else {
      var l, tail := name[0], name[1..];
      var j := i + 1 + |l|;
      NameEncodedSplit(bytes, i, name);
      assert ValidLabel(l, utf8);
      assert ValidName(tail, utf8) by {
        forall k | 0 <= k < |tail| ensures ValidLabel(tail[k], utf8) {
          assert tail[k] == name[k + 1];
        }
      }
      LabelsFromEncoded(bytes, j, tail, utf8);
      assert [l] + tail == name;
    }
  }

  /** The encoding of a name: its first label's length byte and bytes, then the encoding of the rest. */
  lemma {:induction false} NameEncodedSplit(bytes: seq<byte>, i: nat, name: seq<Label>)
    requires name != []
    requires i + NameLength(name) + 1 <= |bytes|
    requires bytes[i .. i + NameLength(name) + 1] == NameBytes(name) + [0]
    ensures var l, tail := name[0], name[1..];
      && NameLength(name) == |l| + 1 + NameLength(tail)
      && bytes[i] == LengthByte(|l|)
      && bytes[i + 1 .. i + 1 + |l|] == l
      && bytes[i + 1 + |l| .. i + 1 + |l| + NameLength(tail) + 1] == NameBytes(tail) + [0]
  {
    var l, tail := name[0], name[1..];
    var head, tenc := [LengthByte(|l|)] + l, NameBytes(tail) + [0];
    NameBytesCons(name, head, tenc);
    SliceParts(bytes, i, head, tenc);
    SliceParts(bytes, i, [LengthByte(|l|)], l);
    assert bytes[i] == bytes[i .. i + 1][0];
  }

  /** The terminated encoding of a name is its first label, then the terminated encoding of the rest. */
  lemma {:induction false} NameBytesCons(name: seq<Label>, head: seq<byte>, tenc: seq<byte>)
    requires name != [] && head == [LengthByte(|name[0]|)] + name[0] && tenc == NameBytes(name[1..]) + [0]
    ensures NameBytes(name) + [0] == head + tenc
    ensures NameLength(name) + 1 == |head| + |tenc|
  {
    assert NameBytes(name) == head + NameBytes(name[1..]);
  }

  /**
   * `Question::parse`: the labels, then qtype and qclass read through a
   * cursor over the rest (too few bytes: an end-of-input error; an unknown
   * code panics). The consumed count is the index past the terminator plus 4.
   */
  function ParsedQuestion(bytes: seq<byte>, utf8: Label -> bool): (r: Result<Parsed<Question>>)
    ensures LabelsFrom(bytes, 0, utf8).Err? ==> r == Err(LabelsFrom(bytes, 0, utf8).error)
    ensures r.Ok? <==>
      && LabelsFrom(bytes, 0, utf8).Ok?
      && LabelsFrom(bytes, 0, utf8).value.end + 4 <= |bytes|
      && U16At(bytes, LabelsFrom(bytes, 0, utf8).value.end) == 1
      && U16At(bytes, LabelsFrom(bytes, 0, utf8).value.end + 2) == 1
    ensures r.Ok? ==>
      && r.value.consumed == LabelsFrom(bytes, 0, utf8).value.end + 4
      && r.value.consumed <= |bytes|
      && r.value.item.name == LabelsFrom(bytes, 0, utf8).value.items
  {
    match LabelsFrom(bytes, 0, utf8)
    case Err(e) => Err(e)
    case Ok(w) =>
      var i := w.end;
      if |bytes| - i < 2 then Err(UnexpectedEof)
      else match QTypeFrom(U16At(bytes, i))
      case Err(e) => Err(e)
      case Ok(qtype) =>
        if |bytes| - i < 4 then Err(UnexpectedEof)
        else match QClassFrom(U16At(bytes, i + 2))
        case Err(e) => Err(e)
        case Ok(qclass) =>
          Ok(Parsed(Question(w.items, qtype, qclass), i + 4))
  }

  /** The bytes a successful question decode consumed are exactly the encoding of the question it returns, whose name is valid. */
  lemma {:induction false} ParsedQuestionDecodes(bytes: seq<byte>, utf8: Label -> bool)
    requires ParsedQuestion(bytes, utf8).Ok?
    ensures var p := ParsedQuestion(bytes, utf8).value;
      && p.consumed <= |bytes|
      && bytes[..p.consumed] == QuestionBytes(p.item)
      && ValidName(p.item.name, utf8)
  {
    var p := ParsedQuestion(bytes, utf8).value;
    var w := LabelsFrom(bytes, 0, utf8).value;
    var i := w.end;
    LabelsFromDecodes(bytes, 0, utf8);
    assert NameLength(w.items) + 1 == i;
    assert bytes[..i] == NameBytes(w.items) + [0];
    U16AtBytes(bytes, i);
    U16AtBytes(bytes, i + 2);
    assert bytes[..i + 4] == bytes[..i] + bytes[i .. i + 2] + bytes[i + 2 .. i + 4];
  }

  /** Decoding a serialized question, whatever follows it, gives it back and consumes exactly its bytes. */
  lemma {:induction false} QuestionRoundTrip(q: Question, rest: seq<byte>, utf8: Label -> bool)
    requires ValidName(q.name, utf8)
    ensures ParsedQuestion(QuestionBytes(q) + rest, utf8) == Ok(Parsed(q, |QuestionBytes(q)|))
  {
    var qb := QuestionBytes(q);
    var bytes := qb + rest;
    var n := NameLength(q.name);
    assert bytes[..n + 1] == qb[..n + 1] == NameBytes(q.name) + [0];
    LabelsFromEncoded(bytes, 0, q.name, utf8);
    U16AtShift(bytes, qb, n + 1, n + 1);
    U16AtShift(bytes, qb, n + 3, n + 3);
    var r := ParsedQuestion(bytes, utf8);
    assert r.Ok?;
    assert r.value.item.name == q.name;
    assert r.value.item.qtype == q.qtype && r.value.item.qclass == q.qclass;
    assert r.value.consumed == |qb|;
  }

  /**
   * `Question::parse` with its index loop: reads label after label, pushing
   * each onto the name, then the two codes through a cursor.
   */
  method ParseQuestion(bytes: seq<byte>, utf8: Label -> bool) returns (r: Result<Parsed<Question>>)
    ensures r == ParsedQuestion(bytes, utf8)
  {
    var i: nat := 0;
    var name: seq<Label> := [];
    PrefixedEmpty(LabelsFrom(bytes, 0, utf8));
    while true
      invariant i <= |bytes|
      invariant LabelsFrom(bytes, 0, utf8) == Prefixed(name, LabelsFrom(bytes, i, utf8))
      decreases |bytes| - i
    {
      ghost var at := i;
      if i >= |bytes| {
        return Err(IndexOutOfBounds);
      }
      var size := bytes[i];
      i := i + 1;
      if size == 0 {
        assert LabelsFrom(bytes, at, utf8) == Ok(Walk([], i));
        break;
      }
      if i + size > |bytes| {
        return Err(IndexOutOfBounds);
      }
      var part := bytes[i .. i + size];
      if !utf8(part) {
        return Err(NonUtf8);
      }
      assert LabelsFrom(bytes, at, utf8) == Prefixed([part], LabelsFrom(bytes, i + size, utf8));
      PrefixedAppend(name, part, LabelsFrom(bytes, i + size, utf8));
      name := name + [part];
      i := i + size;
    }
    assert LabelsFrom(bytes, 0, utf8) == Ok(Walk(name, i)) by {
      assert name + [] == name;
    }
    // The cursor over `bytes[i..]` reads qtype, then qclass.
    if |bytes| - i < 2 {
      return Err(UnexpectedEof);
    }
    var qtype := QTypeFrom(U16At(bytes, i));
    if qtype.Err? {
      return Err(qtype.error);
    }
    if |bytes| - i < 4 {
      return Err(UnexpectedEof);
    }
    var qclass := QClassFrom(U16At(bytes, i + 2));
    if qclass.Err? {
      return Err(qclass.error);
    }
    r := Ok(Parsed(Question(name, qtype.value, qclass.value), i + 4));
  }

  // ---------------------------------------------------------------------
  // Answer record
  // ---------------------------------------------------------------------

  datatype Answer = Answer(atype: AType, rclass: QClass, ttl: u32, rdlength: u16, ip: seq<byte>)

  /**
   * `Answer::parse`. Indexing byte 0 of an empty buffer panics; a first byte
   * with neither of its top two bits set is rejected as not a pointer;
   * slicing from byte 2 panics on a one-byte buffer. A cursor from byte 2
   * then reads type, class, ttl and rdlength; an rdlength other than 4
   * panics, and four address bytes follow. The consumed count is 14.
   */
  function ParsedAnswer(bytes: seq<byte>): (r: Result<Parsed<Answer>>)
    ensures |bytes| > 0 && (Bits(bytes[0]) & PTR_MASK) == 0 ==> r == Err(BadAnswerPacket)
    ensures r.Ok? <==>
      && |bytes| >= 16
      && (Bits(bytes[0]) & PTR_MASK) != 0
      && (U16At(bytes, 2) == 1 || U16At(bytes, 2) == 5)
      && U16At(bytes, 4) == 1
      && U16At(bytes, 10) == 4
    ensures r.Ok? ==>
      && r.value.consumed == 14
      && ATypeCode(r.value.item.atype) == U16At(bytes, 2)
      && r.value.item.rclass == Internet
      && r.value.item.ttl == U32At(bytes, 6)
      && r.value.item.rdlength == 4
      && r.value.item.ip == [bytes[12], bytes[13], bytes[14], bytes[15]]
    ensures
      && |bytes| >= 12
      && (Bits(bytes[0]) & PTR_MASK) != 0
      && (U16At(bytes, 2) == 1 || U16At(bytes, 2) == 5)
      && U16At(bytes, 4) == 1
      && U16At(bytes, 10) != 4
      ==> r == Err(Unimplemented)
  {
    if |bytes| == 0 then Err(IndexOutOfBounds)
    else if (Bits(bytes[0]) & PTR_MASK) == 0 then Err(BadAnswerPacket)
    else if |bytes| < 2 then Err(IndexOutOfBounds)
    else if |bytes| < 4 then Err(UnexpectedEof)
    else match ATypeFrom(U16At(bytes, 2))
    case Err(e) => Err(e)
    case Ok(atype) =>
      if |bytes| < 6 then Err(UnexpectedEof)
      else match QClassFrom(U16At(bytes, 4))
      case Err(e) => Err(e)
      case Ok(rclass) =>
        if |bytes| < 12 then Err(UnexpectedEof)
        else if U16At(bytes, 10) != 4 then Err(Unimplemented)
        else if |bytes| < 16 then Err(UnexpectedEof)
        else Ok(Parsed(Answer(atype, rclass, U32At(bytes, 6), 4, [bytes[12], bytes[13], bytes[14], bytes[15]]), ANSWER_CONSUMED))
  }

  /** `Answer::parse` with its cursor and the loop that pushes the four address bytes. */
  method ParseAnswer(bytes: seq<byte>) returns (r: Result<Parsed<Answer>>)
    ensures r == ParsedAnswer(bytes)
  {
    if |bytes| == 0 {
      return Err(IndexOutOfBounds);
    }
    if (Bits(bytes[0]) & PTR_MASK) == 0 {
      return Err(BadAnswerPacket);
    }
    if |bytes| < 2 {
      return Err(IndexOutOfBounds);
    }
    var pos := 2;
    if |bytes| < pos + 2 {
      return Err(UnexpectedEof);
    }
    var atype := ATypeFrom(U16At(bytes, pos));
    if atype.Err? {
      return Err(atype.error);
    }
    pos := pos + 2;
    if |bytes| < pos + 2 {
      return Err(UnexpectedEof);
    }
    var rclass := QClassFrom(U16At(bytes, pos));
    if rclass.Err? {
      return Err(rclass.error);
    }
    pos := pos + 2;
    if |bytes| < pos + 4 {
      return Err(UnexpectedEof);
    }
    var ttl := U32At(bytes, pos);
    pos := pos + 4;
    if |bytes| < pos + 2 {
      return Err(UnexpectedEof);
    }
    var rdlength := U16At(bytes, pos);
    pos := pos + 2;
    if rdlength != 4 {
      return Err(Unimplemented);
    }
    var ip: seq<byte> := [];
    for n := 0 to 4
      invariant pos == 12 + n <= |bytes|
      invariant ip == bytes[12..pos]
    {
      if pos >= |bytes| {
        return Err(UnexpectedEof);
      }
      ip := ip + [bytes[pos]];
      pos := pos + 1;
    }
    assert ip == [bytes[12], bytes[13], bytes[14], bytes[15]];
    r := Ok(Parsed(Answer(atype.value, rclass.value, ttl, rdlength, ip), ANSWER_CONSUMED));
  }

  // ---------------------------------------------------------------------
  // Packet
  // ---------------------------------------------------------------------

  datatype Packet = Packet(header: Header, questions: seq<Question>, answers: seq<Answer>)

  /** The questions serialized one after another. */
  function QuestionsBytes(qs: seq<Question>): seq<byte> {
    if qs == [] then [] else QuestionBytes(qs[0]) + QuestionsBytes(qs[1..])
  }

  lemma {:induction false} QuestionsBytesAppend(a: seq<Question>, b: seq<Question>)
    ensures QuestionsBytes(a + b) == QuestionsBytes(a) + QuestionsBytes(b)
    decreases |a|
  {
    if a == [] {
      assert a + b == b;
    } else {
      assert (a + b)[1..] == a[1..] + b;
      QuestionsBytesAppend(a[1..], b);
    }
  }

  lemma {:induction false} QuestionsBytesSingle(q: Question)
    ensures QuestionsBytes([q]) == QuestionBytes(q)
  {
    assert [q][1..] == [];
  }

  /** The bytes `Packet::serialize` produces: the header, then each question; answers are never written. */
  function PacketBytes(p: Packet): (r: seq<byte>)
    ensures |r| >= HEADER_SIZE && r[..HEADER_SIZE] == HeaderBytes(p.header)
  {
    var r := HeaderBytes(p.header) + QuestionsBytes(p.questions);
    assert r[..HEADER_SIZE] == HeaderBytes(p.header);
    r
  }

  /** `Packet::serialize`: the header bytes, then each question's bytes appended in order. */
  method SerializePacket(p: Packet) returns (contents: seq<byte>)
    ensures contents == PacketBytes(p)
  {
    contents := SerializeHeader(p.header);
    var k := 0;
    while k < |p.questions|
      invariant 0 <= k <= |p.questions|
      invariant contents == HeaderBytes(p.header) + QuestionsBytes(p.questions[..k])
    {
      var bytes := SerializeQuestion(p.questions[k]);
      assert QuestionsBytes([p.questions[k]]) == bytes;
      assert p.questions[..k + 1] == p.questions[..k] + [p.questions[k]];
      QuestionsBytesAppend(p.questions[..k], [p.questions[k]]);
      contents := contents + bytes;
      k := k + 1;
    }
    assert p.questions[..k] == p.questions;
  }
}
