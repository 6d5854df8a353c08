/**
 * Two places where the codec does not do what it evidently means to, each
 * shown on a concrete input and then corrected, with the intended property
 * proved of the correction.
 *
 * 1. An answer record is 16 bytes (a 2-byte name pointer, type, class, a
 *    4-byte ttl, rdlength and 4 address bytes), but `Answer::parse`
 *    reports 14 consumed, so the answer loop reads every answer after the
 *    first from the middle of the one before it.
 * 2. `create_question` keeps the empty pieces of `split(".")`. A domain
 *    written with its trailing root dot gets an empty label, whose zero
 *    length byte ends the name early on the wire.
 */
module Corrected {
  import opened Wire
  import opened PacketCodec
  import opened Response
  import opened Query

  // ---------------------------------------------------------------------
  // Answer records of their real size
  // ---------------------------------------------------------------------

  /** The size of an A/CNAME record whose name is a pointer: 2 + 2 + 2 + 4 + 2 + 4. */
  const ANSWER_RECORD_SIZE: nat := 16

  /** An answer a 16-byte record can carry: four bytes of address data. */
  predicate ValidAnswer(a: Answer) {
    a.rdlength == 4 && |a.ip| == 4
  }

  /** An answer record as a server writes it, its name a pointer to offset 12. */
  function AnswerBytes(a: Answer): (r: seq<byte>)
    requires ValidAnswer(a)
    ensures |r| == ANSWER_RECORD_SIZE
  {
    [0xC0, 0x0C] + U16Bytes(ATypeCode(a.atype)) + U16Bytes(QClassCode(a.rclass))
      + U32Bytes(a.ttl) + U16Bytes(a.rdlength) + a.ip
  }

  /** Where each field of a record sits. */
  lemma {:induction false} AnswerBytesLayout(a: Answer, rest: seq<byte>)
    requires ValidAnswer(a)
    ensures var b := AnswerBytes(a) + rest;
      && |b| >= ANSWER_RECORD_SIZE
      && b[0] == 0xC0
      && U16At(b, 2) == ATypeCode(a.atype)
      && U16At(b, 4) == QClassCode(a.rclass)
      && U32At(b, 6) == a.ttl
      && U16At(b, 10) == 4
      && [b[12], b[13], b[14], b[15]] == a.ip
  {
    var b := AnswerBytes(a) + rest;
    var t, c, l := U16Bytes(ATypeCode(a.atype)), U16Bytes(QClassCode(a.rclass)), U16Bytes(a.rdlength);
    var ttl := U32Bytes(a.ttl);
    assert b == [0xC0, 0x0C] + t + c + ttl + l + a.ip + rest;
    U16AtShift(b, t, 2, 0);
    U16AtShift(b, c, 4, 0);
    U16AtShift(b, ttl, 6, 0);
    U16AtShift(b, ttl, 8, 2);
    U16AtShift(b, l, 10, 0);
  }

  /**
   * As written: `Answer::parse` reads every field of a record back, but
   * reports 14 bytes consumed of the 16 the record occupies.
   */
  lemma {:induction false} AnswerRecordAsWritten(a: Answer, rest: seq<byte>)
    requires ValidAnswer(a)
    ensures ParsedAnswer(AnswerBytes(a) + rest) == Ok(Parsed(a, ANSWER_CONSUMED))
    ensures ANSWER_CONSUMED < |AnswerBytes(a)|
  {
    AnswerBytesLayout(a, rest);
    var b := AnswerBytes(a) + rest;
    assert Bits(b[0]) & PTR_MASK != 0;
    assert ATypeFrom(U16At(b, 2)) == Ok(a.atype) by {
      match a.atype
      case A => {}
      case CNAME => {}
    }
    assert QClassFrom(U16At(b, 4)) == Ok(a.rclass) by {
      match a.rclass
      case Internet => {}
    }
    assert a == Answer(a.atype, a.rclass, U32At(b, 6), 4, [b[12], b[13], b[14], b[15]]);
  }

  /** `Answer::parse` reporting the whole record as consumed. */
  function ParsedAnswerFixed(bytes: seq<byte>): (r: Result<Parsed<Answer>>)
    ensures r.Ok? ==> r.value.consumed == ANSWER_RECORD_SIZE <= |bytes|
  {
    match ParsedAnswer(bytes)
    case Err(e) => Err(e)
    case Ok(p) => Ok(Parsed(p.item, ANSWER_RECORD_SIZE))
  }

  /** The corrected decoder accepts, reads and rejects exactly as `Answer::parse` does. */
  lemma {:induction false} ParsedAnswerFixedAgrees(bytes: seq<byte>)
    ensures ParsedAnswerFixed(bytes).Ok? <==> ParsedAnswer(bytes).Ok?
    ensures ParsedAnswer(bytes).Ok? ==> ParsedAnswerFixed(bytes).value.item == ParsedAnswer(bytes).value.item
    ensures ParsedAnswer(bytes).Err? ==> ParsedAnswerFixed(bytes) == ParsedAnswer(bytes)
  {
  }

  /** The corrected decoder consumes exactly the record it reads back. */
  lemma {:induction false} AnswerRecordFixed(a: Answer, rest: seq<byte>)
    requires ValidAnswer(a)
    ensures ParsedAnswerFixed(AnswerBytes(a) + rest) == Ok(Parsed(a, ANSWER_RECORD_SIZE))
    ensures ANSWER_RECORD_SIZE == |AnswerBytes(a)|
  {
    AnswerRecordAsWritten(a, rest);
  }

  /** The answer loop of `recieve_ans` over the corrected record decoder. */
  function ParsedAnswersFixed(bytes: seq<byte>, off: nat, n: nat): (r: Result<Walk<Answer>>)
    requires off <= |bytes|
    ensures r.Ok? ==> |r.value.items| == n && r.value.end == off + 16 * n <= |bytes|
  {
    AnswerFixedSize();
    var r := Records(ParsedAnswerFixed, bytes, off, n);
    if r.Err? then r
    else
      RecordsAtStride(ParsedAnswerFixed, ANSWER_RECORD_SIZE, bytes, off, n);
      StrideOffsetIsProduct(off, ANSWER_RECORD_SIZE, n);
      r
  }

  /** The corrected decoder always reports 16 bytes consumed. */
  lemma {:induction false} AnswerFixedSize()
    ensures Bounded(ParsedAnswerFixed) && FixedSize(ParsedAnswerFixed, ANSWER_RECORD_SIZE)
  {
  }

  /** Records written one after another. */
  function AnswersBytes(answers: seq<Answer>): (r: seq<byte>)
    requires forall j :: 0 <= j < |answers| ==> ValidAnswer(answers[j])
    ensures |r| == 16 * |answers|
  {
    if answers == [] then [] else AnswersBytes(answers[..|answers| - 1]) + AnswerBytes(answers[|answers| - 1])
  }

  /** Records written one after another, anywhere in a buffer, are read back in order by the corrected loop. */
  lemma {:induction false} AnswersRoundTripFixed(bytes: seq<byte>, off: nat, answers: seq<Answer>, enc: seq<byte>)
    requires forall j :: 0 <= j < |answers| ==> ValidAnswer(answers[j])
    requires enc == AnswersBytes(answers)
    requires off + |enc| <= |bytes| && bytes[off .. off + |enc|] == enc
    ensures ParsedAnswersFixed(bytes, off, |answers|) == Ok(Walk(answers, off + |enc|))
    decreases |answers|
  {
    if answers != [] {
      var init, a := answers[..|answers| - 1], answers[|answers| - 1];
      var before := AnswersBytes(init);
      AnswersEncodedSplit(bytes, off, answers, enc, init, a, before);
      AnswersRoundTripFixed(bytes, off, init, before);
      var w := Walk(init, off + |before|);
      AnswerFixedAt(bytes[w.end..], a, bytes[off + |enc|..]);
      AnswersFixedStep(bytes, off, |init|, |answers|, w, a, Walk(answers, off + |enc|));
    }
  }

  /** A record followed by anything is read back by the corrected decoder. */
  lemma {:induction false} AnswerFixedAt(tail: seq<byte>, a: Answer, rest: seq<byte>)
    requires ValidAnswer(a) && tail == AnswerBytes(a) + rest
    ensures ParsedAnswerFixed(tail) == Ok(Parsed(a, ANSWER_RECORD_SIZE))
  {
    AnswerRecordFixed(a, rest);
  }

  /** The records in a buffer: all but the last, then the last one. */
  lemma {:induction false} AnswersEncodedSplit(bytes: seq<byte>, off: nat, answers: seq<Answer>, enc: seq<byte>,
                                               init: seq<Answer>, a: Answer, before: seq<byte>)
    requires answers != [] && init == answers[..|answers| - 1] && a == answers[|answers| - 1]
    requires forall j :: 0 <= j < |answers| ==> ValidAnswer(answers[j])
    requires enc == AnswersBytes(answers) && before == AnswersBytes(init)
    requires off + |enc| <= |bytes| && bytes[off .. off + |enc|] == enc
    ensures answers == init + [a]
    ensures |enc| == |before| + ANSWER_RECORD_SIZE
    ensures bytes[off .. off + |before|] == before
    ensures bytes[off + |before|..] == AnswerBytes(a) + bytes[off + |enc|..]
  {
    assert answers == init + [a];
    assert enc == before + AnswerBytes(a);
    SliceSplit(bytes, off, before, AnswerBytes(a));
  }

  /** One more record read by the corrected loop. */
  lemma {:induction false} AnswersFixedStep(bytes: seq<byte>, off: nat, k: nat, n: nat, w: Walk<Answer>, a: Answer, r: Walk<Answer>)
    requires n == k + 1 && off <= |bytes| && w.end <= |bytes|
    requires ParsedAnswersFixed(bytes, off, k) == Ok(w)
    requires ParsedAnswerFixed(bytes[w.end..]) == Ok(Parsed(a, ANSWER_RECORD_SIZE))
    requires r == Walk(w.items + [a], w.end + ANSWER_RECORD_SIZE)
    ensures ParsedAnswersFixed(bytes, off, n) == Ok(r)
  {
    AnswersFixedUnfold(bytes, off, k, w);
  }

  /** One more turn of the corrected loop, after `k` records have been read into `w`. */
  lemma {:induction false} AnswersFixedUnfold(bytes: seq<byte>, off: nat, k: nat, w: Walk<Answer>)
    requires off <= |bytes|
    requires ParsedAnswersFixed(bytes, off, k) == Ok(w)
    ensures w.end <= |bytes|
    ensures ParsedAnswersFixed(bytes, off, k + 1) ==
      match ParsedAnswerFixed(bytes[w.end..])
      case Err(e) => Err(e)
      case Ok(p) => Ok(Walk(w.items + [p.item], w.end + p.consumed))
  {
    RecordsStep(ParsedAnswerFixed, bytes, off, k, w);
  }

  /** `recieve_ans` with the corrected answer loop. */
  function ParsedResponseFixed(bytes: seq<byte>, utf8: Label -> bool): (r: Result<Packet>)
    ensures |bytes| < HEADER_SIZE ==> r == Err(IndexOutOfBounds)
    ensures |bytes| >= HEADER_SIZE && ParseHeader(bytes[..HEADER_SIZE]).Err? ==>
      r == Err(ParseHeader(bytes[..HEADER_SIZE]).error)
    ensures r.Ok? ==>
      && |bytes| >= HEADER_SIZE
      && ParseHeader(bytes[..HEADER_SIZE]) == Ok(r.value.header)
      && |r.value.questions| == r.value.header.qdcount
      && |r.value.answers| == r.value.header.ancount
  {
    ParsedResponseWith(bytes, utf8, ParsedAnswerFixed)
  }

  /** A response as a server writes it: the header, the questions, then the answer records. */
  function ResponseBytes(p: Packet): (r: seq<byte>)
    requires forall j :: 0 <= j < |p.answers| ==> ValidAnswer(p.answers[j])
    ensures |r| == |PacketBytes(p)| + ANSWER_RECORD_SIZE * |p.answers|
  {
    PacketBytes(p) + AnswersBytes(p.answers)
  }

  /**
   * Corrected: a response whose header counts its questions and answers
   * decodes back to those questions and answers, whatever their number.
   */
  lemma {:induction false} ResponseRoundTripFixed(p: Packet, utf8: Label -> bool)
    requires p.header.qdcount == |p.questions| && p.header.ancount == |p.answers|
    requires forall j :: 0 <= j < |p.questions| ==> ValidName(p.questions[j].name, utf8)
    requires forall j :: 0 <= j < |p.answers| ==> ValidAnswer(p.answers[j])
    ensures ParsedResponseFixed(ResponseBytes(p), utf8)
      == Ok(Packet(p.header.(qr := false, aa := false, tc := false, rd := false, ra := false), p.questions, p.answers))
  {
    var hb, qenc, aenc := HeaderBytes(p.header), QuestionsBytes(p.questions), AnswersBytes(p.answers);
    assert ResponseBytes(p) == hb + qenc + aenc;
    ResponsePartsFixed(ResponseBytes(p), p, utf8, hb, qenc, aenc);
  }

  /** The round trip above, on a buffer given as its three parts. */
  lemma {:induction false} ResponsePartsFixed(bytes: seq<byte>, p: Packet, utf8: Label -> bool, hb: seq<byte>, qenc: seq<byte>, aenc: seq<byte>)
    requires p.header.qdcount == |p.questions| && p.header.ancount == |p.answers|
    requires forall j :: 0 <= j < |p.questions| ==> ValidName(p.questions[j].name, utf8)
    requires forall j :: 0 <= j < |p.answers| ==> ValidAnswer(p.answers[j])
    requires hb == HeaderBytes(p.header) && qenc == QuestionsBytes(p.questions) && aenc == AnswersBytes(p.answers)
    requires bytes == hb + qenc + aenc
    ensures ParsedResponseFixed(bytes, utf8)
      == Ok(Packet(p.header.(qr := false, aa := false, tc := false, rd := false, ra := false), p.questions, p.answers))
  {
    var aoff := HEADER_SIZE + |qenc|;
    ResponseLayout(bytes, hb, qenc, aenc);
    var header := p.header.(qr := false, aa := false, tc := false, rd := false, ra := false);
    assert ParseHeader(bytes[..HEADER_SIZE]) == Ok(header) by {
      ParseHeaderBytes(p.header);
    }
    assert ParsedQuestions(bytes, HEADER_SIZE, header.qdcount, utf8) == Ok(Walk(p.questions, aoff)) by {
      QuestionsRoundTrip(bytes, HEADER_SIZE, p.questions, qenc, utf8);
    }
    assert Records(ParsedAnswerFixed, bytes, aoff, header.ancount) == Ok(Walk(p.answers, aoff + |aenc|)) by {
      AnswersRoundTripFixed(bytes, aoff, p.answers, aenc);
    }
    ParsedResponseWithParts(bytes, utf8, ParsedAnswerFixed, header, Walk(p.questions, aoff), Walk(p.answers, aoff + |aenc|));
  }

  /** Where the three parts of a response sit in it. */
  lemma {:induction false} ResponseLayout(bytes: seq<byte>, hb: seq<byte>, qenc: seq<byte>, aenc: seq<byte>)
    requires bytes == hb + qenc + aenc
    ensures bytes[..|hb|] == hb
    ensures bytes[|hb| .. |hb| + |qenc|] == qenc
    ensures bytes[|hb| + |qenc| .. |hb| + |qenc| + |aenc|] == aenc
  {
    MiddleOf(hb, qenc, aenc);
    MiddleOf(hb + qenc, aenc, []);
    assert hb + qenc + aenc == (hb + qenc) + aenc + [];
  }

  /** A response to a query for nothing, holding two A records: 1.2.3.4 and 5.6.7.8. */
  function TwoAnswerResponse(): Packet {
    Packet(Header(0x1337, false, Standard, false, false, false, false, NoError, 0, 2, 0, 0), [],
           [Answer(A, Internet, 60, 4, [1, 2, 3, 4]), Answer(A, Internet, 60, 4, [5, 6, 7, 8])])
  }

  /**
   * As written: the second record is looked for 14 bytes after the first,
   * where the first one's address bytes 3 and 4 sit; 3 is not a name
   * pointer, so the whole response is rejected as a bad answer packet. The
   * corrected loop reads both records.
   */
  lemma {:induction false} TwoAnswersAsWritten(utf8: Label -> bool)
    ensures ParsedResponse(ResponseBytes(TwoAnswerResponse()), utf8) == Err(BadAnswerPacket)
    ensures ParsedResponseFixed(ResponseBytes(TwoAnswerResponse()), utf8).Ok?
  {
    var p := TwoAnswerResponse();
    var bytes := ResponseBytes(p);
    TwoAnswerBytes();
    ParseHeaderBytes(p.header);
    assert bytes[..HEADER_SIZE] == HeaderBytes(p.header);
    assert ParsedQuestions(bytes, HEADER_SIZE, 0, utf8) == Ok(Walk([], HEADER_SIZE));
    TwoAnswersSecondRead(bytes);
    AnswersStep(bytes, HEADER_SIZE, 1, Walk([p.answers[0]], HEADER_SIZE + ANSWER_CONSUMED));
    ResponseRoundTripFixed(p, utf8);
  }

  /** The loop as written reads the first record, then looks for the second at the first one's address bytes. */
  lemma {:induction false} TwoAnswersSecondRead(bytes: seq<byte>)
    requires bytes == HeaderBytes(TwoAnswerResponse().header)
      + AnswerBytes(TwoAnswerResponse().answers[0]) + AnswerBytes(TwoAnswerResponse().answers[1])
    ensures ParsedAnswers(bytes, HEADER_SIZE, 1) == Ok(Walk([TwoAnswerResponse().answers[0]], HEADER_SIZE + ANSWER_CONSUMED))
    ensures ParsedAnswer(bytes[HEADER_SIZE + ANSWER_CONSUMED..]) == Err(BadAnswerPacket)
  {
    var a1, a2 := TwoAnswerResponse().answers[0], TwoAnswerResponse().answers[1];
    assert bytes[HEADER_SIZE..] == AnswerBytes(a1) + AnswerBytes(a2);
    AnswerRecordAsWritten(a1, AnswerBytes(a2));
    AnswersStep(bytes, HEADER_SIZE, 0, Walk([], HEADER_SIZE));
    assert [] + [a1] == [a1];
    assert bytes[HEADER_SIZE + ANSWER_CONSUMED] == 3;
  }

  /** The two-record response is its header followed by the two records. */
  lemma {:induction false} TwoAnswerBytes()
    ensures var p := TwoAnswerResponse();
      ResponseBytes(p) == HeaderBytes(p.header) + AnswerBytes(p.answers[0]) + AnswerBytes(p.answers[1])
  {
    var p := TwoAnswerResponse();
    assert p.answers[..1] == [p.answers[0]] && [p.answers[0]][..0] == [];
    assert AnswersBytes(p.answers) == AnswerBytes(p.answers[0]) + AnswerBytes(p.answers[1]);
  }

  // ---------------------------------------------------------------------
  // Query labels without the empty pieces
  // ---------------------------------------------------------------------

  /** The non-empty pieces, in order. */
  function NonEmpty(parts: seq<Label>): (r: seq<Label>)
    ensures forall k :: 0 <= k < |r| ==> r[k] != []
    ensures |r| <= |parts|
  {
    if parts == [] then []
    else if parts[0] == [] then NonEmpty(parts[1..])
    else [parts[0]] + NonEmpty(parts[1..])
  }

  /** Dropping empty pieces keeps exactly the non-empty ones, and changes nothing when there are none. */
  lemma {:induction false} NonEmptyKeeps(parts: seq<Label>)
    ensures forall l :: l in NonEmpty(parts) <==> l in parts && l != []
    ensures (forall k :: 0 <= k < |parts| ==> parts[k] != []) ==> NonEmpty(parts) == parts
  {
    if parts != [] {
      NonEmptyKeeps(parts[1..]);
      assert parts == [parts[0]] + parts[1..];
    }
  }

  /** Dropping the empty pieces of two lists one after the other is dropping them from each, in order. */
  lemma {:induction false} NonEmptyAppend(a: seq<Label>, b: seq<Label>)
    ensures NonEmpty(a + b) == NonEmpty(a) + NonEmpty(b)
    decreases |a|
  {
    if a == [] {
      assert a + b == b;
    } else {
      assert (a + b)[0] == a[0] && (a + b)[1..] == a[1..] + b;
      NonEmptyAppend(a[1..], b);
    }
  }

  /** The labels of a domain: its dot-separated pieces without the empty ones. */
  function Labels(domain: seq<byte>): seq<Label> {
    NonEmpty(Split(domain))
  }

  /** `create_question` over the non-empty pieces of the domain. */
  function CreateQuestionFixed(domain: seq<byte>): (p: Packet)
    ensures p.header == CreateQuestion(domain).header && p.answers == []
    ensures |p.questions| == 1 && p.questions[0].qtype == AA && p.questions[0].qclass == Internet
    ensures forall k :: 0 <= k < |p.questions[0].name| ==> p.questions[0].name[k] != []
    ensures forall l :: l in p.questions[0].name <==> l in Split(domain) && l != []
  {
    NonEmptyKeeps(Split(domain));
    CreateQuestion(domain).(questions := [Question(Labels(domain), AA, Internet)])
  }

  /** A trailing dot adds only an empty last piece. */
  lemma {:induction false} SplitTrailingDot(domain: seq<byte>)
    ensures Split(domain + [DOT]) == Split(domain) + [[]]
  {
    SplitConcat(domain, []);
    assert domain + [DOT] + [] == domain + [DOT];
  }

  /**
   * Corrected: a domain names the same labels, and gets the same query,
   * with or without its trailing root dot.
   */
  lemma {:induction false} TrailingDotFixed(domain: seq<byte>)
    ensures Labels(domain + [DOT]) == Labels(domain)
    ensures CreateQuestionFixed(domain + [DOT]) == CreateQuestionFixed(domain)
  {
    SplitTrailingDot(domain);
    NonEmptyAppend(Split(domain), [[]]);
    assert NonEmpty([[]]) == [];
    assert Labels(domain) + [] == Labels(domain);
  }

  /** The corrected query for "a." names the single label "a", as for "a". */
  lemma {:induction false} TrailingDotLabelA()
    ensures CreateQuestionFixed([0x61, DOT]).questions[0].name == [[0x61]]
  {
    TrailingDotFixed([0x61]);
    assert [0x61] + [DOT] == [0x61, DOT];
    var one: seq<byte> := [0x61];
    assert one[1..] == [];
    assert Split(one) == [[0x61]];
    assert NonEmpty([[0x61]]) == [[0x61]] by {
      NonEmptyKeeps([[0x61]]);
    }
  }

  /**
   * As written: for the domain "a." the query's name is ["a", ""], whose
   * empty label writes a zero byte that ends the name; the next zero byte
   * is then read as the type code 0, which panics.
   */
  lemma {:induction false} TrailingDotAsWritten(utf8: Label -> bool)
    requires utf8([0x61])
    ensures CreateQuestion([0x61, DOT]).questions[0].name == [[0x61], []]
    ensures ParsedResponse(PacketBytes(CreateQuestion([0x61, DOT])), utf8) == Err(BadQType(0))
  {
    var p := CreateQuestion([0x61, DOT]);
    var bytes := PacketBytes(p);
    TrailingDotPieces();
    TrailingDotBytes();
    ParseHeaderBytes(p.header);
    assert bytes[HEADER_SIZE..] == TRAILING_DOT_QUESTION;
    TrailingDotQuestion(bytes[HEADER_SIZE..], utf8);
    assert ParsedQuestions(bytes, HEADER_SIZE, 0, utf8) == Ok(Walk([], HEADER_SIZE));
    QuestionsStep(bytes, HEADER_SIZE, 0, utf8, Walk([], HEADER_SIZE));
  }

  /** "a." splits into "a" and an empty piece. */
  lemma {:induction false} TrailingDotPieces()
    ensures Split([0x61, DOT]) == [[0x61], []]
  {
    var domain: seq<byte> := [0x61, DOT];
    assert domain[1..] == [DOT] && [DOT][1..] == [];
    assert Split([DOT]) == [[], []] by {
      SplitAtDot([]);
    }
    assert [0x61] + Split([DOT])[0] == [0x61];
  }

  /** The question the query for "a." carries on the wire: label "a", the empty label, type 1, class 1. */
  const TRAILING_DOT_QUESTION: seq<byte> := [1, 0x61, 0, 0, 0, 1, 0, 1]

  /** The query for "a." is its header followed by that question. */
  lemma {:induction false} TrailingDotBytes()
    ensures PacketBytes(CreateQuestion([0x61, DOT])) == HeaderBytes(QueryHeader()) + TRAILING_DOT_QUESTION
  {
    TrailingDotPieces();
    var p := CreateQuestion([0x61, DOT]);
    var q := p.questions[0];
    assert QuestionsBytes(p.questions) == QuestionBytes(q) by {
      QuestionsBytesSingle(q);
    }
    assert NameBytes(q.name) == [1, 0x61, 0] by {
      assert q.name[1..] == [[]] && q.name[1..][1..] == [];
    }
  }

  /** Reading that question: the name ends at the empty label, and the zero after it is no known type. */
  lemma {:induction false} TrailingDotQuestion(tail: seq<byte>, utf8: Label -> bool)
    requires tail == TRAILING_DOT_QUESTION && utf8([0x61])
    ensures ParsedQuestion(tail, utf8) == Err(BadQType(0))
  {
    assert LabelsFrom(tail, 2, utf8) == Ok(Walk([], 3));
    assert tail[0] == 1 && tail[1 .. 2] == [0x61];
    assert [tail[1 .. 2]] + [] == [[0x61]];
    assert LabelsFrom(tail, 0, utf8) == Ok(Walk([[0x61]], 3));
    assert U16At(tail, 3) == 0;
  }

  /**
   * Corrected: a query whose non-empty pieces are all at most 255 bytes of
   * UTF-8 reads back as one question naming exactly those pieces, trailing
   * dot or not.
   */
  lemma {:induction false} QueryRoundTripFixed(domain: seq<byte>, utf8: Label -> bool)
    requires forall k :: 0 <= k < |Split(domain)| && Split(domain)[k] != [] ==>
      |Split(domain)[k]| <= 0xFF && utf8(Split(domain)[k])
    ensures ParsedResponse(PacketBytes(CreateQuestionFixed(domain)), utf8)
      == Ok(Packet(QueryHeader().(qr := false, rd := false), [Question(Labels(domain), AA, Internet)], []))
  {
    var p := CreateQuestionFixed(domain);
    var name := Labels(domain);
    NonEmptyKeeps(Split(domain));
    forall k | 0 <= k < |name|
      ensures ValidLabel(name[k], utf8)
    {
      assert name[k] in name;
    }
    assert p.header.(qr := false, aa := false, tc := false, rd := false, ra := false) == QueryHeader().(qr := false, rd := false);
    SerializedPacketParsesBack(p, utf8);
  }
}
