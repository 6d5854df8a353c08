/**
 * The query side: `create_question` builds the message the client sends
 * for a domain name.
 *
 * The domain arrives as text and its labels are written with
 * `as_bytes()`, so the model takes the domain as its UTF-8 bytes. Splitting
 * those bytes at the byte 0x2E gives the encodings of the pieces of the
 * text split at '.', because 0x2E never occurs inside the encoding of
 * another character.
 */
module Query {
  import opened Wire
  import opened PacketCodec
  import opened Response

  /** The byte of '.'. */
  const DOT: byte := 0x2E

  /** The fixed message id of every query. */
  const QUERY_ID: u16 := 0x1337

  /**
   * `domain.split(".")`: the pieces between the dots, in order. Empty
   * pieces are kept, so `n` dots always give `n + 1` pieces.
   */
  function Split(s: seq<byte>): (parts: seq<Label>)
    ensures |parts| >= 1
    ensures forall k :: 0 <= k < |parts| ==> DOT !in parts[k]
    decreases |s|
  {
    if s == [] then [[]]
    else
      var rest := Split(s[1..]);
      assert s == [s[0]] + s[1..];
      if s[0] == DOT then [[]] + rest
      else [[s[0]] + rest[0]] + rest[1..]
  }

  /** There is one piece more than there are dots. */
  lemma {:induction false} SplitCount(s: seq<byte>)
    ensures |Split(s)| == multiset(s)[DOT] + 1
    decreases |s|
  {
    if s != [] {
      SplitCount(s[1..]);
      assert s == [s[0]] + s[1..];
      assert multiset(s) == multiset([s[0]]) + multiset(s[1..]);
    }
  }

  /** The pieces put back together with a dot between each two. */
  function Join(parts: seq<Label>): seq<byte>
    requires |parts| >= 1
    decreases |parts|
  {
    if |parts| == 1 then parts[0] else parts[0] + [DOT] + Join(parts[1..])
  }

  /** Joining the pieces of a domain gives the domain back. */
  lemma {:induction false} JoinSplit(s: seq<byte>)
    ensures Join(Split(s)) == s
    decreases |s|
  {
    if s != [] {
      var rest, parts := Split(s[1..]), Split(s);
      JoinSplit(s[1..]);
      assert s == [s[0]] + s[1..];
      if s[0] == DOT {
        assert parts == [[]] + rest && parts[1..] == rest;
        assert Join(parts) == [] + [DOT] + Join(rest);
      } else if |rest| == 1 {
        assert parts == [[s[0]] + rest[0]];
      } else {
        assert parts == [[s[0]] + rest[0]] + rest[1..] && parts[1..] == rest[1..];
        assert Join(rest) == rest[0] + [DOT] + Join(rest[1..]);
        assert Join(parts) == ([s[0]] + rest[0]) + [DOT] + Join(rest[1..]);
      }
    }
  }

  /** Splitting a dot-free prefix followed by anything extends the first piece. */
  lemma {:induction false} SplitDotFreePrefix(a: seq<byte>, t: seq<byte>)
    requires DOT !in a
    ensures Split(a + t) == [a + Split(t)[0]] + Split(t)[1..]
    decreases |a|
  {
    if a == [] {
      var parts := Split(t);
      assert a + t == t;
      assert a + parts[0] == parts[0];
      assert parts == [parts[0]] + parts[1..];
    } else {
      assert (a + t)[0] == a[0] && (a + t)[1..] == a[1..] + t;
      SplitDotFreePrefix(a[1..], t);
      var rest := Split(a[1..] + t);
      assert rest[0] == a[1..] + Split(t)[0];
      assert rest[1..] == Split(t)[1..];
      assert [a[0]] + (a[1..] + Split(t)[0]) == a + Split(t)[0];
    }
  }

  /** Splitting joined dot-free pieces gives the pieces back. */
  lemma {:induction false} SplitJoin(parts: seq<Label>)
    requires |parts| >= 1
    requires forall k :: 0 <= k < |parts| ==> DOT !in parts[k]
    ensures Split(Join(parts)) == parts
    decreases |parts|
  {
    if |parts| == 1 {
      SplitDotFreePrefix(parts[0], []);
      assert parts[0] + [] == parts[0];
    } else {
      var tail := [DOT] + Join(parts[1..]);
      assert Split(tail) == [[]] + parts[1..] by {
        SplitJoin(parts[1..]);
        SplitAtDot(Join(parts[1..]));
      }
      assert Split(Join(parts)) == [parts[0] + []] + parts[1..] by {
        assert Join(parts) == parts[0] + tail;
        SplitDotFreePrefix(parts[0], tail);
      }
      assert parts[0] + [] == parts[0];
      assert [parts[0]] + parts[1..] == parts;
    }
  }

  /** A leading dot ends an empty first piece. */
  lemma {:induction false} SplitAtDot(t: seq<byte>)
    ensures Split([DOT] + t) == [[]] + Split(t)
  {
    assert ([DOT] + t)[1..] == t;
  }

  /** A dot between two texts splits into the pieces of the first followed by those of the second. */
  lemma {:induction false} SplitConcat(a: seq<byte>, t: seq<byte>)
    ensures Split(a + [DOT] + t) == Split(a) + Split(t)
    decreases |a|
  {
    if a == [] {
      assert a + [DOT] + t == [DOT] + t;
      SplitAtDot(t);
    } else {
      SplitConcat(a[1..], t);
      SplitConcatCons(a[0], a[1..], t);
      assert a == [a[0]] + a[1..];
      assert a + [DOT] + t == [a[0]] + (a[1..] + [DOT] + t);
    }
  }

  /** The step of the induction above: one more byte in front of the dot. */
  lemma {:induction false} SplitConcatCons(c: byte, a: seq<byte>, t: seq<byte>)
    requires Split(a + [DOT] + t) == Split(a) + Split(t)
    ensures Split([c] + (a + [DOT] + t)) == Split([c] + a) + Split(t)
  {
    var left, right := Split(a), Split(t);
    SplitCons(c, a + [DOT] + t);
    SplitCons(c, a);
    if c == DOT {
      assert [[]] + (left + right) == ([[]] + left) + right;
    } else {
      FirstPieceAppend(c, left, right);
    }
  }

  /** Splitting a text with one more byte in front: a dot starts a new piece, any other byte joins the first. */
  lemma {:induction false} SplitCons(c: byte, u: seq<byte>)
    ensures Split([c] + u) == if c == DOT then [[]] + Split(u) else [[c] + Split(u)[0]] + Split(u)[1..]
  {
    assert ([c] + u)[0] == c && ([c] + u)[1..] == u;
  }

  /** Extending the first of some pieces commutes with appending more pieces after them. */
  lemma {:induction false} FirstPieceAppend(c: byte, left: seq<Label>, right: seq<Label>)
    requires |left| >= 1
    ensures [[c] + (left + right)[0]] + (left + right)[1..] == ([[c] + left[0]] + left[1..]) + right
  {
    assert (left + right)[1..] == left[1..] + right;
  }

  /** The header of every query. */
  function QueryHeader(): Header {
    Header(QUERY_ID, true, Standard, false, false, true, false, NoError, 1, 0, 0, 0)
  }

  /**
   * `create_question`: one question for the domain's pieces, of type A and
   * class IN, under a header with the fixed id, QR and RD set, and counts
   * one question and nothing else.
   */
  function CreateQuestion(domain: seq<byte>): (p: Packet)
    ensures p.header.id == QUERY_ID && p.header.opcode == Standard && p.header.rcode == NoError
    ensures p.header.qr && p.header.rd && !p.header.aa && !p.header.tc && !p.header.ra
    ensures p.header.qdcount as int == |p.questions| == 1
    ensures p.header.ancount == p.header.nscount == p.header.arcount == 0 && p.answers == []
    ensures p.questions[0].qtype == AA && p.questions[0].qclass == Internet
    ensures |p.questions[0].name| >= 1 && Join(p.questions[0].name) == domain
    ensures forall k :: 0 <= k < |p.questions[0].name| ==> DOT !in p.questions[0].name[k]
  {
    JoinSplit(domain);
    Packet(QueryHeader(), [Question(Split(domain), AA, Internet)], [])
  }

  /** The first twelve bytes of every query: id 0x1337, RD set, one question. */
  lemma {:induction false} QueryHeaderBytes(domain: seq<byte>)
    ensures PacketBytes(CreateQuestion(domain))[..HEADER_SIZE]
      == [0x13, 0x37, 0x01, 0x00, 0x00, 0x01, 0x00, 0x00, 0x00, 0x00, 0x00, 0x00]
  {
    var h := QueryHeader();
    assert FlagsByte(h) == 0x01;
    assert Octet(0x01) == 1;
  }

  /**
   * A query whose pieces are all labels the decoder accepts reads back as
   * the same single question; the header comes back with the flags the
   * decoder does not read cleared, so QR and RD are lost.
   */
  lemma {:induction false} QueryParsesBack(domain: seq<byte>, utf8: Label -> bool)
    requires ValidName(Split(domain), utf8)
    ensures ParsedResponse(PacketBytes(CreateQuestion(domain)), utf8)
      == Ok(Packet(QueryHeader().(qr := false, rd := false), CreateQuestion(domain).questions, []))
  {
    var p := CreateQuestion(domain);
    assert p.header.(qr := false, aa := false, tc := false, rd := false, ra := false) == QueryHeader().(qr := false, rd := false);
    SerializedPacketParsesBack(p, utf8);
  }

  /**
   * A domain with an empty piece: an empty domain, a leading or trailing
   * dot, or two dots in a row, is not a valid name.
   */
  lemma {:induction false} EmptyPieceInvalid(domain: seq<byte>, utf8: Label -> bool)
    requires || domain == [] || domain[0] == DOT || domain[|domain| - 1] == DOT
             || exists k :: 0 <= k && k + 1 < |domain| && domain[k] == DOT && domain[k + 1] == DOT
    ensures !ValidName(Split(domain), utf8)
  {
    var parts := Split(domain);
    if domain == [] {
      assert parts[0] == [];
    } else if domain[0] == DOT {
      assert parts[0] == [];
    } else if domain[|domain| - 1] == DOT {
      JoinSplit(domain);
      LastPieceOfTrailingDot(domain);
      assert parts[|parts| - 1] == [];
    } else {
      var k :| 0 <= k && k + 1 < |domain| && domain[k] == DOT && domain[k + 1] == DOT;
      var a, t := domain[..k], domain[k + 2..];
      assert domain == a + [DOT] + ([DOT] + t);
      SplitConcat(a, [DOT] + t);
      SplitAtDot(t);
      assert parts[|Split(a)|] == [];
    }
  }

  /** A domain ending in a dot ends in an empty piece. */
  lemma {:induction false} LastPieceOfTrailingDot(domain: seq<byte>)
    requires domain != [] && domain[|domain| - 1] == DOT
    ensures Split(domain)[|Split(domain)| - 1] == []
    decreases |domain|
  {
    if |domain| > 1 {
      LastPieceOfTrailingDot(domain[1..]);
    }
  }

  /** The UTF-8 bytes of "example" and of "com". */
  const EXAMPLE: seq<byte> := [0x65, 0x78, 0x61, 0x6D, 0x70, 0x6C, 0x65]
  const COM: seq<byte> := [0x63, 0x6F, 0x6D]

  /** The query for "example.com" asks for the labels "example" and "com": `07 example 03 com 00 00 01 00 01`. */
  lemma {:induction false} ExampleComQuestion()
    ensures CreateQuestion(EXAMPLE + [DOT] + COM).questions[0].name == [EXAMPLE, COM]
    ensures QuestionBytes(CreateQuestion(EXAMPLE + [DOT] + COM).questions[0])
      == [7] + EXAMPLE + [3] + COM + [0, 0, 1, 0, 1]
  {
    var parts: seq<Label> := [EXAMPLE, COM];
    assert Join(parts) == EXAMPLE + [DOT] + COM by {
      assert parts[1..] == [COM];
    }
    SplitJoin(parts);
    assert NameBytes(parts) == [7] + EXAMPLE + [3] + COM by {
      assert parts[1..] == [COM] && |parts[1..][1..]| == 0;
    }
  }
}
