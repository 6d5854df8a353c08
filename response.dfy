/**
 * The response parser of `src/answer.rs` (`recieve_ans`), taken over a
 * byte buffer already received: the header from the first 12 bytes, then
 * `qdcount` questions from offset 12, each starting where the previous one's
 * consumed count ends, then `ancount` answers, each starting where the
 * previous answer's consumed count (always 14) ends. The first failure ends
 * the parse.
 *
 * Both loops are one counted loop over a record decoder, `Records`; its
 * properties are proved once for any decoder and then read off for the
 * question decoder and the answer decoder.
 */
module Response {
  import opened Wire
  import opened PacketCodec

  // ---------------------------------------------------------------------
  // The counted loop, for any record decoder
  // ---------------------------------------------------------------------

  /** Decodes the record at the front of a buffer, with the number of bytes it reports consumed. */
  type Decoder<T> = seq<byte> -> Result<Parsed<T>>

  /** A decoder that never reports more bytes consumed than it was given. */
  ghost predicate Bounded<T>(dec: Decoder<T>) {
    forall s :: dec(s).Ok? ==> dec(s).value.consumed <= |s|
  }

  /**
   * `n` records decoded one after another from `off`, each from the offset
   * where the previous one's consumed count ends; the first failure is the
   * result.
   */
  function Records<T>(dec: Decoder<T>, bytes: seq<byte>, off: nat, n: nat): (r: Result<Walk<T>>)
    requires Bounded(dec) && off <= |bytes|
    ensures r.Ok? ==> |r.value.items| == n && off <= r.value.end <= |bytes|
    decreases n
  {
    if n == 0 then Ok(Walk([], off))
    else
      match Records(dec, bytes, off, n - 1)
      case Err(e) => Err(e)
      case Ok(w) =>
        match dec(bytes[w.end..])
        case Err(e) => Err(e)
        case Ok(p) => Ok(Walk(w.items + [p.item], w.end + p.consumed))
  }

  /** One more turn of the loop, after `k` records have been read into `w`. */
  lemma {:induction false} RecordsStep<T>(dec: Decoder<T>, bytes: seq<byte>, off: nat, k: nat, w: Walk<T>)
    requires Bounded(dec) && off <= |bytes|
    requires Records(dec, bytes, off, k) == Ok(w)
    ensures w.end <= |bytes|
    ensures Records(dec, bytes, off, k + 1) ==
      match dec(bytes[w.end..])
      case Err(e) => Err(e)
      case Ok(p) => Ok(Walk(w.items + [p.item], w.end + p.consumed))
  {
  }

  /** Once the loop has failed, running it for more records fails with the same error. */
  lemma {:induction false} RecordsErrorPersists<T>(dec: Decoder<T>, bytes: seq<byte>, off: nat, k: nat, n: nat)
    requires Bounded(dec) && off <= |bytes| && k <= n
    requires Records(dec, bytes, off, k).Err?
    ensures Records(dec, bytes, off, n) == Records(dec, bytes, off, k)
    decreases n
  {
    if n > k {
      RecordsErrorPersists(dec, bytes, off, k, n - 1);
    }
  }

  /** A run of records that decodes decodes without its last record too, as a prefix ending no later. */
  lemma {:induction false} RecordsOkBefore<T>(dec: Decoder<T>, bytes: seq<byte>, off: nat, n: nat)
    requires Bounded(dec) && 0 < n && off <= |bytes|
    requires Records(dec, bytes, off, n).Ok?
    ensures Records(dec, bytes, off, n - 1).Ok?
    ensures Records(dec, bytes, off, n - 1).value.items == Records(dec, bytes, off, n).value.items[..n - 1]
    ensures Records(dec, bytes, off, n - 1).value.end <= Records(dec, bytes, off, n).value.end
  {
    var prev := Records(dec, bytes, off, n - 1);
    RecordsStep(dec, bytes, off, n - 1, prev.value);
    var all := Records(dec, bytes, off, n).value.items;
    assert all == prev.value.items + [all[n - 1]];
  }

  /** Reading more records only extends the list read so far, and ends no earlier. */
  lemma {:induction false} RecordsPrefix<T>(dec: Decoder<T>, bytes: seq<byte>, off: nat, k: nat, n: nat)
    requires Bounded(dec) && off <= |bytes| && k <= n
    requires Records(dec, bytes, off, n).Ok?
    ensures Records(dec, bytes, off, k).Ok?
    ensures Records(dec, bytes, off, k).value.items == Records(dec, bytes, off, n).value.items[..k]
    ensures Records(dec, bytes, off, k).value.end <= Records(dec, bytes, off, n).value.end
    decreases n
  {
    if k < n {
      RecordsOkBefore(dec, bytes, off, n);
      RecordsPrefix(dec, bytes, off, k, n - 1);
      var all := Records(dec, bytes, off, n).value.items;
      assert all[..k] == all[..n - 1][..k];
    }
  }

  /**
   * Record `k` is decoded from the offset where the first `k` records end
   * (`off` itself for `k == 0`) and consumes up to where the first `k + 1`
   * end.
   */
  lemma {:induction false} RecordAt<T>(dec: Decoder<T>, bytes: seq<byte>, off: nat, k: nat, n: nat)
    requires Bounded(dec) && off <= |bytes| && k < n
    requires Records(dec, bytes, off, n).Ok?
    ensures Records(dec, bytes, off, k).Ok? && Records(dec, bytes, off, k + 1).Ok?
    ensures var start := Records(dec, bytes, off, k).value.end;
      var next := Records(dec, bytes, off, k + 1).value.end;
      dec(bytes[start..]) == Ok(Parsed(Records(dec, bytes, off, n).value.items[k], next - start))
  {
    RecordsPrefix(dec, bytes, off, k + 1, n);
    RecordsOkBefore(dec, bytes, off, k + 1);
    var w := Records(dec, bytes, off, k).value;
    RecordsStep(dec, bytes, off, k, w);
    var all := Records(dec, bytes, off, n).value.items;
    assert Records(dec, bytes, off, k + 1).value.items == all[..k + 1];
  }

  /**
   * A failing run fails with the error of the first record that does not
   * decode, every record before it having decoded.
   */
  lemma {:induction false} RecordsFirstError<T>(dec: Decoder<T>, bytes: seq<byte>, off: nat, n: nat)
    requires Bounded(dec) && off <= |bytes|
    requires Records(dec, bytes, off, n).Err?
    ensures exists k ::
      && 0 <= k < n
      && Records(dec, bytes, off, k).Ok?
      && dec(bytes[Records(dec, bytes, off, k).value.end..]) == Err(Records(dec, bytes, off, n).error)
    decreases n
  {
    var prev := Records(dec, bytes, off, n - 1);
    if prev.Err? {
      RecordsFirstError(dec, bytes, off, n - 1);
      RecordsErrorPersists(dec, bytes, off, n - 1, n);
    } else {
      RecordsStep(dec, bytes, off, n - 1, prev.value);
    }
  }

  // ---------------------------------------------------------------------
  // Records of one fixed size
  // ---------------------------------------------------------------------

  /** A decoder that always reports `m` bytes consumed. */
  ghost predicate FixedSize<T>(dec: Decoder<T>, m: nat) {
    forall s :: dec(s).Ok? ==> dec(s).value.consumed == m
  }

  /** `j` strides of `m` bytes past `off`, one stride at a time. */
  function StrideOffset(off: nat, m: nat, j: nat): (r: nat)
    decreases j
  {
    if j == 0 then off else StrideOffset(off, m, j - 1) + m
  }

  /** Stepping `j` strides of `m` bytes is moving `m * j` bytes. */
  lemma {:induction false} StrideOffsetIsProduct(off: nat, m: nat, j: nat)
    ensures StrideOffset(off, m, j) == off + m * j
    decreases j
  {
    if j > 0 {
      StrideOffsetIsProduct(off, m, j - 1);
      assert m * (j - 1) + m == m * j;
    }
  }

  /** The record decoded at index `j` of a run of `m`-byte records: the one starting `j` strides past `off`. */
  function RecordAtStride<T>(dec: Decoder<T>, bytes: seq<byte>, off: nat, m: nat, j: nat): Result<Parsed<T>> {
    var start := StrideOffset(off, m, j);
    if start <= |bytes| then dec(bytes[start..]) else Err(IndexOutOfBounds)
  }

  /**
   * With `m`-byte records, a decoded run ends `m` bytes per record past its
   * start, and record `j` is the one `j` strides past `off`.
   */
  lemma {:induction false} RecordsAtStride<T>(dec: Decoder<T>, m: nat, bytes: seq<byte>, off: nat, n: nat)
    requires Bounded(dec) && FixedSize(dec, m) && off <= |bytes|
    requires Records(dec, bytes, off, n).Ok?
    ensures Records(dec, bytes, off, n).value.end == StrideOffset(off, m, n)
    ensures forall j :: 0 <= j < n ==>
      RecordAtStride(dec, bytes, off, m, j) == Ok(Parsed(Records(dec, bytes, off, n).value.items[j], m))
    decreases n
  {
    if n > 0 {
      RecordsOkBefore(dec, bytes, off, n);
      var w := Records(dec, bytes, off, n - 1).value;
      RecordsAtStride(dec, m, bytes, off, n - 1);
      RecordsLastAtStride(dec, m, bytes, off, n, w);
      var all := Records(dec, bytes, off, n).value.items;
      forall j | 0 <= j < n
        ensures RecordAtStride(dec, bytes, off, m, j) == Ok(Parsed(all[j], m))
      {
        if j < n - 1 {
          assert all[j] == w.items[j];
        }
      }
    }
  }

  /** The last record of a decoded run of `m`-byte records sits `m` bytes past the others. */
  lemma {:induction false} RecordsLastAtStride<T>(dec: Decoder<T>, m: nat, bytes: seq<byte>, off: nat, n: nat, w: Walk<T>)
    requires Bounded(dec) && FixedSize(dec, m) && 0 < n && off <= |bytes|
    requires Records(dec, bytes, off, n - 1) == Ok(w) && w.end == StrideOffset(off, m, n - 1)
    requires Records(dec, bytes, off, n).Ok?
    ensures Records(dec, bytes, off, n).value.items[..n - 1] == w.items
    ensures Records(dec, bytes, off, n).value.end == StrideOffset(off, m, n)
    ensures RecordAtStride(dec, bytes, off, m, n - 1) == Ok(Parsed(Records(dec, bytes, off, n).value.items[n - 1], m))
  {
    RecordsStep(dec, bytes, off, n - 1, w);
    var all := Records(dec, bytes, off, n).value.items;
    assert all == w.items + [all[n - 1]];
  }

  /**
   * With `m`-byte records, a failing run fails with the error of the first
   * record on the stride that does not decode, every record before it
   * having decoded.
   */
  lemma {:induction false} RecordsFirstErrorAtStride<T>(dec: Decoder<T>, m: nat, bytes: seq<byte>, off: nat, n: nat)
    requires Bounded(dec) && FixedSize(dec, m) && off <= |bytes|
    requires Records(dec, bytes, off, n).Err?
    ensures exists j ::
      && 0 <= j < n
      && RecordAtStride(dec, bytes, off, m, j) == Err(Records(dec, bytes, off, n).error)
      && forall i :: 0 <= i < j ==> RecordAtStride(dec, bytes, off, m, i).Ok?
    decreases n
  {
    var prev := Records(dec, bytes, off, n - 1);
    if prev.Err? {
      RecordsFirstErrorAtStride(dec, m, bytes, off, n - 1);
      RecordsErrorPersists(dec, bytes, off, n - 1, n);
    } else {
      RecordsFailAtStride(dec, m, bytes, off, n, prev.value);
    }
  }

  /** A run of `m`-byte records that fails right after `n - 1` decoded ones fails at the record on the stride after them. */
  lemma {:induction false} RecordsFailAtStride<T>(dec: Decoder<T>, m: nat, bytes: seq<byte>, off: nat, n: nat, w: Walk<T>)
    requires Bounded(dec) && FixedSize(dec, m) && 0 < n && off <= |bytes|
    requires Records(dec, bytes, off, n - 1) == Ok(w)
    requires Records(dec, bytes, off, n).Err?
    ensures RecordAtStride(dec, bytes, off, m, n - 1) == Err(Records(dec, bytes, off, n).error)
    ensures forall i :: 0 <= i < n - 1 ==> RecordAtStride(dec, bytes, off, m, i).Ok?
  {
    RecordsAtStride(dec, m, bytes, off, n - 1);
    RecordsStep(dec, bytes, off, n - 1, w);
  }

  /** With `m`-byte records, a run decodes exactly when every record on the stride decodes. */
  lemma {:induction false} RecordsOkIffAtStride<T>(dec: Decoder<T>, m: nat, bytes: seq<byte>, off: nat, n: nat)
    requires Bounded(dec) && FixedSize(dec, m) && off <= |bytes|
    ensures Records(dec, bytes, off, n).Ok? <==> forall j :: 0 <= j < n ==> RecordAtStride(dec, bytes, off, m, j).Ok?
  {
    if Records(dec, bytes, off, n).Ok? {
      RecordsAtStride(dec, m, bytes, off, n);
    } else {
      RecordsFirstErrorAtStride(dec, m, bytes, off, n);
    }
  }

  // ---------------------------------------------------------------------
  // Bytes after the records
  // ---------------------------------------------------------------------

  /** A decoder whose successful reads do not depend on the bytes after the record. */
  ghost predicate IgnoresTrailingBytes<T>(dec: Decoder<T>) {
    forall s, e {:trigger dec(s + e)} :: dec(s).Ok? ==> dec(s + e) == dec(s)
  }

  /** A run of records that decodes decodes the same way with bytes appended to the buffer. */
  lemma {:induction false} RecordsIgnoreTrailingBytes<T>(dec: Decoder<T>, bytes: seq<byte>, extra: seq<byte>, off: nat, n: nat)
    requires Bounded(dec) && IgnoresTrailingBytes(dec) && off <= |bytes|
    requires Records(dec, bytes, off, n).Ok?
    ensures Records(dec, bytes + extra, off, n) == Records(dec, bytes, off, n)
    decreases n
  {
    if n > 0 {
      assert Records(dec, bytes, off, n - 1).Ok? by {
        RecordsOkBefore(dec, bytes, off, n);
      }
      RecordsIgnoreTrailingBytes(dec, bytes, extra, off, n - 1);
      RecordsExtendTrailing(dec, bytes, extra, off, n, Records(dec, bytes, off, n - 1).value);
    }
  }

  /** The step of the induction above: record `n` reads the same with or without the appended bytes. */
  lemma {:induction false} RecordsExtendTrailing<T>(dec: Decoder<T>, bytes: seq<byte>, extra: seq<byte>, off: nat, n: nat, w: Walk<T>)
    requires Bounded(dec) && IgnoresTrailingBytes(dec) && 0 < n && off <= |bytes|
    requires Records(dec, bytes, off, n - 1) == Ok(w)
    requires Records(dec, bytes + extra, off, n - 1) == Ok(w)
    requires Records(dec, bytes, off, n).Ok?
    ensures Records(dec, bytes + extra, off, n) == Records(dec, bytes, off, n)
  {
    assert w.end <= |bytes| && dec(bytes[w.end..]).Ok? by {
      RecordsStep(dec, bytes, off, n - 1, w);
    }
    assert dec((bytes + extra)[w.end..]) == dec(bytes[w.end..]) by {
      SuffixOfAppend(bytes, extra, w.end);
    }
    RecordsCongruent(dec, bytes, bytes + extra, off, n, w);
  }

  /** Two buffers whose first `n - 1` records agree and whose next record decodes the same agree on `n` records. */
  lemma {:induction false} RecordsCongruent<T>(dec: Decoder<T>, b1: seq<byte>, b2: seq<byte>, off: nat, n: nat, w: Walk<T>)
    requires Bounded(dec) && 0 < n && off <= |b1| && off <= |b2|
    requires Records(dec, b1, off, n - 1) == Ok(w) && Records(dec, b2, off, n - 1) == Ok(w)
    requires w.end <= |b1| && w.end <= |b2|
    requires dec(b1[w.end..]) == dec(b2[w.end..])
    ensures Records(dec, b1, off, n) == Records(dec, b2, off, n)
  {
  }

  // ---------------------------------------------------------------------
  // The question loop
  // ---------------------------------------------------------------------

  /**
   * The question loop: `n` questions decoded one after another from `off`,
   * each from the offset where the previous one's consumed count ends; the
   * first failure is the result. (Questions are variable-length and are
   * decoded under the caller's label check, so this loop is written out
   * rather than run through `Records`.)
   */
  function ParsedQuestions(bytes: seq<byte>, off: nat, n: nat, utf8: Label -> bool): (r: Result<Walk<Question>>)
    requires off <= |bytes|
    ensures r.Ok? ==> |r.value.items| == n && off <= r.value.end <= |bytes|
    decreases n
  {
    if n == 0 then Ok(Walk([], off))
    else
      match ParsedQuestions(bytes, off, n - 1, utf8)
      case Err(e) => Err(e)
      case Ok(w) =>
        match ParsedQuestion(bytes[w.end..], utf8)
        case Err(e) => Err(e)
        case Ok(p) => Ok(Walk(w.items + [p.item], w.end + p.consumed))
  }

  /** One more turn of the question loop, after `k` questions have been read into `w`. */
  lemma {:induction false} QuestionsStep(bytes: seq<byte>, off: nat, k: nat, utf8: Label -> bool, w: Walk<Question>)
    requires off <= |bytes|
    requires ParsedQuestions(bytes, off, k, utf8) == Ok(w)
    ensures w.end <= |bytes|
    ensures ParsedQuestions(bytes, off, k + 1, utf8) ==
      match ParsedQuestion(bytes[w.end..], utf8)
      case Err(e) => Err(e)
      case Ok(p) => Ok(Walk(w.items + [p.item], w.end + p.consumed))
  {
  }

  /** A question that decodes where the first `k` end extends the section by one. */
  lemma {:induction false} QuestionsStepOk(bytes: seq<byte>, off: nat, k: nat, utf8: Label -> bool, w: Walk<Question>, p: Parsed<Question>)
    requires off <= |bytes| && w.end <= |bytes|
    requires ParsedQuestions(bytes, off, k, utf8) == Ok(w)
    requires ParsedQuestion(bytes[w.end..], utf8) == Ok(p)
    ensures ParsedQuestions(bytes, off, k + 1, utf8) == Ok(Walk(w.items + [p.item], w.end + p.consumed))
  {
    QuestionsStep(bytes, off, k, utf8, w);
  }

  /**
   * A serialized question where the first `k` end extends the section by
   * exactly that question: the walk after `n = k + 1` questions is `r`.
   */
  lemma {:induction false} QuestionsStepEncoded(bytes: seq<byte>, off: nat, k: nat, n: nat, utf8: Label -> bool, w: Walk<Question>, q: Question, tail: seq<byte>, r: Walk<Question>)
    requires n == k + 1 && off <= |bytes| && w.end <= |bytes|
    requires ParsedQuestions(bytes, off, k, utf8) == Ok(w)
    requires bytes[w.end..] == QuestionBytes(q) + tail && ValidName(q.name, utf8)
    requires r == Walk(w.items + [q], w.end + |QuestionBytes(q)|)
    ensures ParsedQuestions(bytes, off, n, utf8) == Ok(r)
  {
    QuestionRoundTrip(q, tail, utf8);
    QuestionsStepOk(bytes, off, k, utf8, w, Parsed(q, |QuestionBytes(q)|));
  }

  /** Once the question loop has failed, running it for more questions fails with the same error. */
  lemma {:induction false} QuestionsErrorPersists(bytes: seq<byte>, off: nat, k: nat, n: nat, utf8: Label -> bool)
    requires off <= |bytes| && k <= n
    requires ParsedQuestions(bytes, off, k, utf8).Err?
    ensures ParsedQuestions(bytes, off, n, utf8) == ParsedQuestions(bytes, off, k, utf8)
    decreases n
  {
    if n > k {
      QuestionsErrorPersists(bytes, off, k, n - 1, utf8);
    }
  }

  /** A question section that decodes decodes without its last question too, as a prefix ending no later. */
  lemma {:induction false} QuestionsOkBefore(bytes: seq<byte>, off: nat, n: nat, utf8: Label -> bool)
    requires 0 < n && off <= |bytes|
    requires ParsedQuestions(bytes, off, n, utf8).Ok?
    ensures ParsedQuestions(bytes, off, n - 1, utf8).Ok?
    ensures ParsedQuestions(bytes, off, n - 1, utf8).value.items == ParsedQuestions(bytes, off, n, utf8).value.items[..n - 1]
    ensures ParsedQuestions(bytes, off, n - 1, utf8).value.end <= ParsedQuestions(bytes, off, n, utf8).value.end
  {
    var prev := ParsedQuestions(bytes, off, n - 1, utf8);
    assert prev.Ok?;
    QuestionsStep(bytes, off, n - 1, utf8, prev.value);
    var all := ParsedQuestions(bytes, off, n, utf8).value.items;
    assert all == prev.value.items + [all[n - 1]];
  }

  /** Reading more questions only extends the list read so far, and ends no earlier. */
  lemma {:induction false} QuestionsPrefix(bytes: seq<byte>, off: nat, k: nat, n: nat, utf8: Label -> bool)
    requires off <= |bytes| && k <= n
    requires ParsedQuestions(bytes, off, n, utf8).Ok?
    ensures ParsedQuestions(bytes, off, k, utf8).Ok?
    ensures ParsedQuestions(bytes, off, k, utf8).value.items == ParsedQuestions(bytes, off, n, utf8).value.items[..k]
    ensures ParsedQuestions(bytes, off, k, utf8).value.end <= ParsedQuestions(bytes, off, n, utf8).value.end
    decreases n
  {
    if k < n {
      var all := ParsedQuestions(bytes, off, n, utf8).value.items;
      assert ParsedQuestions(bytes, off, n - 1, utf8).Ok?
        && ParsedQuestions(bytes, off, n - 1, utf8).value.items == all[..n - 1]
        && ParsedQuestions(bytes, off, n - 1, utf8).value.end <= ParsedQuestions(bytes, off, n, utf8).value.end by {
        QuestionsOkBefore(bytes, off, n, utf8);
      }
      QuestionsPrefix(bytes, off, k, n - 1, utf8);
      assert all[..n - 1][..k] == all[..k];
    }
  }

  /**
   * Question `k` of the section is decoded from the offset where the first
   * `k` questions end (`off` itself for `k == 0`) and consumes up to where
   * the first `k + 1` end.
   */
  lemma {:induction false} QuestionAt(bytes: seq<byte>, off: nat, k: nat, n: nat, utf8: Label -> bool)
    requires off <= |bytes| && k < n
    requires ParsedQuestions(bytes, off, n, utf8).Ok?
    ensures ParsedQuestions(bytes, off, k, utf8).Ok? && ParsedQuestions(bytes, off, k + 1, utf8).Ok?
    ensures var start := ParsedQuestions(bytes, off, k, utf8).value.end;
      var next := ParsedQuestions(bytes, off, k + 1, utf8).value.end;
      ParsedQuestion(bytes[start..], utf8) == Ok(Parsed(ParsedQuestions(bytes, off, n, utf8).value.items[k], next - start))
  {
    QuestionsPrefix(bytes, off, k, n, utf8);
    QuestionsPrefix(bytes, off, k + 1, n, utf8);
    var w, v := ParsedQuestions(bytes, off, k, utf8).value, ParsedQuestions(bytes, off, k + 1, utf8).value;
    QuestionLast(bytes, off, k, utf8, w, v);
    var all := ParsedQuestions(bytes, off, n, utf8).value.items;
    assert v.items[k] == all[k] by {
      assert v.items == all[..k + 1];
    }
  }

  /** The question read after the first `k` is the last of the first `k + 1`, from where the `k` end to where the `k + 1` end. */
  lemma {:induction false} QuestionLast(bytes: seq<byte>, off: nat, k: nat, utf8: Label -> bool, w: Walk<Question>, v: Walk<Question>)
    requires off <= |bytes|
    requires ParsedQuestions(bytes, off, k, utf8) == Ok(w)
    requires ParsedQuestions(bytes, off, k + 1, utf8) == Ok(v)
    ensures w.end <= v.end <= |bytes|
    ensures ParsedQuestion(bytes[w.end..], utf8) == Ok(Parsed(v.items[k], v.end - w.end))
  {
    QuestionsStep(bytes, off, k, utf8, w);
  }

  /**
   * A failing question section fails with the error of the first question
   * that does not decode, every question before it having decoded.
   */
  lemma {:induction false} QuestionsFirstError(bytes: seq<byte>, off: nat, n: nat, utf8: Label -> bool)
    requires off <= |bytes|
    requires ParsedQuestions(bytes, off, n, utf8).Err?
    ensures exists k ::
      && 0 <= k < n
      && ParsedQuestions(bytes, off, k, utf8).Ok?
      && ParsedQuestion(bytes[ParsedQuestions(bytes, off, k, utf8).value.end..], utf8)
         == Err(ParsedQuestions(bytes, off, n, utf8).error)
    decreases n
  {
    var e := ParsedQuestions(bytes, off, n, utf8).error;
    var prev := ParsedQuestions(bytes, off, n - 1, utf8);
    if prev.Err? {
      assert prev.error == e by {
        QuestionsErrorPersists(bytes, off, n - 1, n, utf8);
      }
      QuestionsFirstError(bytes, off, n - 1, utf8);
      var k :|
        && 0 <= k < n - 1
        && ParsedQuestions(bytes, off, k, utf8).Ok?
        && ParsedQuestion(bytes[ParsedQuestions(bytes, off, k, utf8).value.end..], utf8) == Err(prev.error);
      assert 0 <= k < n;
    } else {
      QuestionsFailAfter(bytes, off, n, utf8, prev.value);
      assert ParsedQuestion(bytes[ParsedQuestions(bytes, off, n - 1, utf8).value.end..], utf8) == Err(e);
    }
  }

  /** A question section that fails right after `n - 1` decoded questions fails at the question where they end. */
  lemma {:induction false} QuestionsFailAfter(bytes: seq<byte>, off: nat, n: nat, utf8: Label -> bool, w: Walk<Question>)
    requires 0 < n && off <= |bytes|
    requires ParsedQuestions(bytes, off, n - 1, utf8) == Ok(w)
    requires ParsedQuestions(bytes, off, n, utf8).Err?
    ensures w.end <= |bytes|
    ensures ParsedQuestion(bytes[w.end..], utf8) == Err(ParsedQuestions(bytes, off, n, utf8).error)
  {
    QuestionsStep(bytes, off, n - 1, utf8, w);
  }

  /** A question that decodes decodes the same way whatever follows it. */
  lemma {:induction false} QuestionIgnoresTrailingBytes(bytes: seq<byte>, extra: seq<byte>, utf8: Label -> bool)
    requires ParsedQuestion(bytes, utf8).Ok?
    ensures ParsedQuestion(bytes + extra, utf8) == ParsedQuestion(bytes, utf8)
  {
    var p := ParsedQuestion(bytes, utf8).value;
    ParsedQuestionDecodes(bytes, utf8);
    var rest := bytes[p.consumed..];
    assert bytes == QuestionBytes(p.item) + rest;
    assert bytes + extra == QuestionBytes(p.item) + (rest + extra);
    QuestionRoundTrip(p.item, rest, utf8);
    QuestionRoundTrip(p.item, rest + extra, utf8);
  }

  /** A question section that decodes decodes the same way with bytes appended to the buffer. */
  lemma {:induction false} QuestionsIgnoreTrailingBytes(bytes: seq<byte>, extra: seq<byte>, off: nat, n: nat, utf8: Label -> bool)
    requires off <= |bytes|
    requires ParsedQuestions(bytes, off, n, utf8).Ok?
    ensures ParsedQuestions(bytes + extra, off, n, utf8) == ParsedQuestions(bytes, off, n, utf8)
    decreases n
  {
    if n > 0 {
      assert ParsedQuestions(bytes, off, n - 1, utf8).Ok? by {
        QuestionsOkBefore(bytes, off, n, utf8);
      }
      QuestionsIgnoreTrailingBytes(bytes, extra, off, n - 1, utf8);
      QuestionsExtendTrailing(bytes, extra, off, n, utf8, ParsedQuestions(bytes, off, n - 1, utf8).value);
    }
  }

  /** The step of the induction above: the `n`-th question reads the same with or without the appended bytes. */
  lemma {:induction false} QuestionsExtendTrailing(bytes: seq<byte>, extra: seq<byte>, off: nat, n: nat, utf8: Label -> bool, w: Walk<Question>)
    requires 0 < n && off <= |bytes|
    requires ParsedQuestions(bytes, off, n - 1, utf8) == Ok(w)
    requires ParsedQuestions(bytes + extra, off, n - 1, utf8) == Ok(w)
    requires ParsedQuestions(bytes, off, n, utf8).Ok?
    ensures ParsedQuestions(bytes + extra, off, n, utf8) == ParsedQuestions(bytes, off, n, utf8)
  {
    assert w.end <= |bytes| && ParsedQuestion(bytes[w.end..], utf8).Ok? by {
      QuestionsStep(bytes, off, n - 1, utf8, w);
    }
    assert ParsedQuestion((bytes + extra)[w.end..], utf8) == ParsedQuestion(bytes[w.end..], utf8) by {
      SuffixOfAppend(bytes, extra, w.end);
      QuestionIgnoresTrailingBytes(bytes[w.end..], extra, utf8);
    }
    QuestionsCongruent(bytes, bytes + extra, off, n, utf8, w);
  }

  /** Two buffers whose first `n - 1` questions agree and whose next question decodes the same agree on `n` questions. */
  lemma {:induction false} QuestionsCongruent(b1: seq<byte>, b2: seq<byte>, off: nat, n: nat, utf8: Label -> bool, w: Walk<Question>)
    requires 0 < n && off <= |b1| && off <= |b2|
    requires ParsedQuestions(b1, off, n - 1, utf8) == Ok(w) && ParsedQuestions(b2, off, n - 1, utf8) == Ok(w)
    requires w.end <= |b1| && w.end <= |b2|
    requires ParsedQuestion(b1[w.end..], utf8) == ParsedQuestion(b2[w.end..], utf8)
    ensures ParsedQuestions(b1, off, n, utf8) == ParsedQuestions(b2, off, n, utf8)
  {
  }

  // ---------------------------------------------------------------------
  // The answer loop
  // ---------------------------------------------------------------------

  /**
   * The answer loop: `n` answers decoded one after another from `off`, each
   * from the offset where the previous one's consumed count ends.
   */
  function ParsedAnswers(bytes: seq<byte>, off: nat, n: nat): (r: Result<Walk<Answer>>)
    requires off <= |bytes|
    ensures r.Ok? ==> |r.value.items| == n && off <= r.value.end <= |bytes|
  {
    Records(ParsedAnswer, bytes, off, n)
  }

  /** `Answer::parse` always reports 14 bytes consumed. */
  lemma {:induction false} AnswerSizeFixed()
    ensures Bounded(ParsedAnswer) && FixedSize(ParsedAnswer, ANSWER_CONSUMED)
  {
  }

  /** One more turn of the answer loop, after `k` answers have been read into `w`. */
  lemma {:induction false} AnswersStep(bytes: seq<byte>, off: nat, k: nat, w: Walk<Answer>)
    requires off <= |bytes|
    requires ParsedAnswers(bytes, off, k) == Ok(w)
    ensures w.end <= |bytes|
    ensures ParsedAnswers(bytes, off, k + 1) ==
      match ParsedAnswer(bytes[w.end..])
      case Err(e) => Err(e)
      case Ok(p) => Ok(Walk(w.items + [p.item], w.end + p.consumed))
  {
    RecordsStep(ParsedAnswer, bytes, off, k, w);
  }

  /** Once the answer loop has failed, running it for more answers fails with the same error. */
  lemma {:induction false} AnswersErrorPersists(bytes: seq<byte>, off: nat, k: nat, n: nat)
    requires off <= |bytes| && k <= n
    requires ParsedAnswers(bytes, off, k).Err?
    ensures ParsedAnswers(bytes, off, n) == ParsedAnswers(bytes, off, k)
  {
    RecordsErrorPersists(ParsedAnswer, bytes, off, k, n);
  }

  /** The answer read at index `j`: the record starting 14 * j bytes past `off`. */
  function AnswerAt(bytes: seq<byte>, off: nat, j: nat): (r: Result<Parsed<Answer>>)
    ensures off + 14 * j <= |bytes| ==> r == ParsedAnswer(bytes[off + 14 * j..])
    ensures off + 14 * j > |bytes| ==> r == Err(IndexOutOfBounds)
  {
    StrideOffsetIsProduct(off, ANSWER_CONSUMED, j);
    RecordAtStride(ParsedAnswer, bytes, off, ANSWER_CONSUMED, j)
  }

  /**
   * A decoded answer section ends 14 bytes per answer past its start, and
   * answer `j` is the record at `off + 14 * j`.
   */
  lemma {:induction false} AnswersAtStride(bytes: seq<byte>, off: nat, n: nat)
    requires off <= |bytes|
    requires ParsedAnswers(bytes, off, n).Ok?
    ensures ParsedAnswers(bytes, off, n).value.end == off + 14 * n
    ensures forall j :: 0 <= j < n ==>
      AnswerAt(bytes, off, j) == Ok(Parsed(ParsedAnswers(bytes, off, n).value.items[j], ANSWER_CONSUMED))
  {
    AnswerSizeFixed();
    RecordsAtStride(ParsedAnswer, ANSWER_CONSUMED, bytes, off, n);
    StrideOffsetIsProduct(off, ANSWER_CONSUMED, n);
  }

  /**
   * A failing answer section fails with the error of the first record at
   * the 14-byte stride that does not decode, every record before it having
   * decoded.
   */
  lemma {:induction false} AnswersFirstError(bytes: seq<byte>, off: nat, n: nat)
    requires off <= |bytes|
    requires ParsedAnswers(bytes, off, n).Err?
    ensures exists j ::
      && 0 <= j < n
      && AnswerAt(bytes, off, j) == Err(ParsedAnswers(bytes, off, n).error)
      && forall i :: 0 <= i < j ==> AnswerAt(bytes, off, i).Ok?
  {
    AnswerSizeFixed();
    RecordsFirstErrorAtStride(ParsedAnswer, ANSWER_CONSUMED, bytes, off, n);
    var e := ParsedAnswers(bytes, off, n).error;
    var j :|
      && 0 <= j < n
      && RecordAtStride(ParsedAnswer, bytes, off, ANSWER_CONSUMED, j) == Err(e)
      && forall i :: 0 <= i < j ==> RecordAtStride(ParsedAnswer, bytes, off, ANSWER_CONSUMED, i).Ok?;
    assert AnswerAt(bytes, off, j) == Err(e);
    assert forall i :: 0 <= i < j ==> AnswerAt(bytes, off, i).Ok?;
  }

  /** The answer section decodes exactly when every record at the 14-byte stride decodes. */
  lemma {:induction false} AnswersOkIff(bytes: seq<byte>, off: nat, n: nat)
    requires off <= |bytes|
    ensures ParsedAnswers(bytes, off, n).Ok? <==> forall j :: 0 <= j < n ==> AnswerAt(bytes, off, j).Ok?
  {
    AnswerSizeFixed();
    RecordsOkIffAtStride(ParsedAnswer, ANSWER_CONSUMED, bytes, off, n);
    assert forall j :: AnswerAt(bytes, off, j) == RecordAtStride(ParsedAnswer, bytes, off, ANSWER_CONSUMED, j);
  }

  /** An answer record that decodes reads only its first 16 bytes. */
  lemma {:induction false} AnswerIgnoresTrailingBytes(bytes: seq<byte>, extra: seq<byte>)
    requires ParsedAnswer(bytes).Ok?
    ensures ParsedAnswer(bytes + extra) == ParsedAnswer(bytes)
  {
    var b := bytes + extra;
    U16AtShift(b, bytes, 2, 2);
    U16AtShift(b, bytes, 4, 4);
    U16AtShift(b, bytes, 6, 6);
    U16AtShift(b, bytes, 8, 8);
    U16AtShift(b, bytes, 10, 10);
    assert b[12..16] == bytes[12..16];
  }

  /** An answer section that decodes decodes the same way with bytes appended to the buffer. */
  lemma {:induction false} AnswersIgnoreTrailingBytes(bytes: seq<byte>, extra: seq<byte>, off: nat, n: nat)
    requires off <= |bytes|
    requires ParsedAnswers(bytes, off, n).Ok?
    ensures ParsedAnswers(bytes + extra, off, n) == ParsedAnswers(bytes, off, n)
  {
    forall s, e | ParsedAnswer(s).Ok?
      ensures ParsedAnswer(s + e) == ParsedAnswer(s)
    {
      AnswerIgnoresTrailingBytes(s, e);
    }
    RecordsIgnoreTrailingBytes(ParsedAnswer, bytes, extra, off, n);
  }

  // ---------------------------------------------------------------------
  // The whole response
  // ---------------------------------------------------------------------

  /**
   * `recieve_ans` over a given answer decoder. Slicing the first 12 bytes of
   * a shorter buffer panics; otherwise the header, question and answer
   * sections are read in turn and the first failure is the result.
   */
  function ParsedResponseWith(bytes: seq<byte>, utf8: Label -> bool, answer: Decoder<Answer>): (r: Result<Packet>)
    requires Bounded(answer)
    ensures |bytes| < HEADER_SIZE ==> r == Err(IndexOutOfBounds)
    ensures |bytes| >= HEADER_SIZE && ParseHeader(bytes[..HEADER_SIZE]).Err? ==>
      r == Err(ParseHeader(bytes[..HEADER_SIZE]).error)
    ensures r.Ok? ==>
      && |bytes| >= HEADER_SIZE
      && ParseHeader(bytes[..HEADER_SIZE]) == Ok(r.value.header)
      && |r.value.questions| == r.value.header.qdcount
      && |r.value.answers| == r.value.header.ancount
  {
    if |bytes| < HEADER_SIZE then Err(IndexOutOfBounds)
    else
      match ParseHeader(bytes[..HEADER_SIZE])
      case Err(e) => Err(e)
      case Ok(header) =>
        match ParsedQuestions(bytes, HEADER_SIZE, header.qdcount, utf8)
        case Err(e) => Err(e)
        case Ok(qs) =>
          match Records(answer, bytes, qs.end, header.ancount)
          case Err(e) => Err(e)
          case Ok(ans) => Ok(Packet(header, qs.items, ans.items))
  }

  /** A header, a question section and an answer section that each decode make a decoded response. */
  lemma {:induction false} ParsedResponseWithParts(bytes: seq<byte>, utf8: Label -> bool, answer: Decoder<Answer>,
                                                   header: Header, qs: Walk<Question>, ans: Walk<Answer>)
    requires Bounded(answer) && |bytes| >= HEADER_SIZE
    requires ParseHeader(bytes[..HEADER_SIZE]) == Ok(header)
    requires ParsedQuestions(bytes, HEADER_SIZE, header.qdcount, utf8) == Ok(qs)
    requires Records(answer, bytes, qs.end, header.ancount) == Ok(ans)
    ensures ParsedResponseWith(bytes, utf8, answer) == Ok(Packet(header, qs.items, ans.items))
  {
  }

  /** What `recieve_ans` returns for a received buffer: the response read with `Answer::parse`. */
  function ParsedResponse(bytes: seq<byte>, utf8: Label -> bool): (r: Result<Packet>)
    ensures |bytes| < HEADER_SIZE ==> r == Err(IndexOutOfBounds)
    ensures |bytes| >= HEADER_SIZE && ParseHeader(bytes[..HEADER_SIZE]).Err? ==>
      r == Err(ParseHeader(bytes[..HEADER_SIZE]).error)
    ensures r.Ok? ==>
      && |bytes| >= HEADER_SIZE
      && ParseHeader(bytes[..HEADER_SIZE]) == Ok(r.value.header)
      && |r.value.questions| == r.value.header.qdcount
      && |r.value.answers| == r.value.header.ancount
  {
    ParsedResponseWith(bytes, utf8, ParsedAnswer)
  }

  /** The question loop of `recieve_ans`: advances `q_index` by each question's consumed count. */
  method ReadQuestions(bytes: seq<byte>, off: nat, n: nat, utf8: Label -> bool) returns (r: Result<Walk<Question>>)
    requires off <= |bytes|
    ensures r == ParsedQuestions(bytes, off, n, utf8)
  {
    var qs: seq<Question> := [];
    var qIndex: nat := off;
    for k := 0 to n
      invariant ParsedQuestions(bytes, off, k, utf8) == Ok(Walk(qs, qIndex))
    {
      assert qIndex <= |bytes| by {
        QuestionsStep(bytes, off, k, utf8, Walk(qs, qIndex));
      }
      var q := ParseQuestion(bytes[qIndex..], utf8);
      if q.Err? {
        assert ParsedQuestions(bytes, off, k + 1, utf8) == Err(q.error) by {
          QuestionsStep(bytes, off, k, utf8, Walk(qs, qIndex));
        }
        QuestionsErrorPersists(bytes, off, k + 1, n, utf8);
        return Err(q.error);
      }
      QuestionsStepOk(bytes, off, k, utf8, Walk(qs, qIndex), q.value);
      qs := qs + [q.value.item];
      qIndex := qIndex + q.value.consumed;
    }
    r := Ok(Walk(qs, qIndex));
  }

  /** The answer loop of `recieve_ans`: advances `a_index` by each answer's consumed count. */
  method ReadAnswers(bytes: seq<byte>, off: nat, n: nat) returns (r: Result<Walk<Answer>>)
    requires off <= |bytes|
    ensures r == ParsedAnswers(bytes, off, n)
  {
    var ans: seq<Answer> := [];
    var aIndex: nat := off;
    for k := 0 to n
      invariant ParsedAnswers(bytes, off, k) == Ok(Walk(ans, aIndex))
    {
      AnswersStep(bytes, off, k, Walk(ans, aIndex));
      var a := ParseAnswer(bytes[aIndex..]);
      if a.Err? {
        AnswersErrorPersists(bytes, off, k + 1, n);
        return Err(a.error);
      }
      ans := ans + [a.value.item];
      aIndex := aIndex + a.value.consumed;
    }
    r := Ok(Walk(ans, aIndex));
  }

  /**
   * `recieve_ans` after the receive: parses the header from the first 12
   * bytes, then the questions from offset 12, then the answers from where
   * the questions end.
   */
  method ReceiveAnswer(bytes: seq<byte>, utf8: Label -> bool) returns (r: Result<Packet>)
    ensures r == ParsedResponse(bytes, utf8)
  {
    if |bytes| < HEADER_SIZE {
      return Err(IndexOutOfBounds);
    }
    var parsedHeader := ParseHeader(bytes[0..HEADER_SIZE]);
    if parsedHeader.Err? {
      return Err(parsedHeader.error);
    }
    var header := parsedHeader.value;
    var qs := ReadQuestions(bytes, HEADER_SIZE, header.qdcount, utf8);
    if qs.Err? {
      return Err(qs.error);
    }
    var ans := ReadAnswers(bytes, qs.value.end, header.ancount);
    if ans.Err? {
      return Err(ans.error);
    }
    r := Ok(Packet(header, qs.value.items, ans.value.items));
  }

  // ---------------------------------------------------------------------
  // Bytes after the message
  // ---------------------------------------------------------------------

  /** A response that decodes decodes the same way with any bytes appended to it. */
  lemma {:induction false} ResponseIgnoresTrailingBytes(bytes: seq<byte>, extra: seq<byte>, utf8: Label -> bool)
    requires ParsedResponse(bytes, utf8).Ok?
    ensures ParsedResponse(bytes + extra, utf8) == ParsedResponse(bytes, utf8)
  {
    assert (bytes + extra)[..HEADER_SIZE] == bytes[..HEADER_SIZE];
    var header := ParseHeader(bytes[..HEADER_SIZE]).value;
    QuestionsIgnoreTrailingBytes(bytes, extra, HEADER_SIZE, header.qdcount, utf8);
    var qs := ParsedQuestions(bytes, HEADER_SIZE, header.qdcount, utf8).value;
    AnswersIgnoreTrailingBytes(bytes, extra, qs.end, header.ancount);
  }

  /** The size of the zero-filled receive buffer. */
  const BUFFER_SIZE := 512

  /**
   * The receive buffer after a datagram was received into it: as much of
   * the datagram as fits, copied into the front of 512 zero bytes; the rest
   * of a longer datagram is discarded.
   */
  function ReceiveBuffer(datagram: seq<byte>): (buf: seq<byte>)
    ensures |buf| == BUFFER_SIZE
    ensures |datagram| <= BUFFER_SIZE ==> buf[..|datagram|] == datagram
    ensures |datagram| > BUFFER_SIZE ==> buf == datagram[..BUFFER_SIZE]
    ensures forall k :: |datagram| <= k < BUFFER_SIZE ==> buf[k] == 0
  {
    if |datagram| > BUFFER_SIZE then datagram[..BUFFER_SIZE]
    else datagram + seq(BUFFER_SIZE - |datagram|, _ => 0)
  }

  /** A datagram that decodes on its own decodes the same way from the zero-filled receive buffer. */
  lemma {:induction false} ReceiveBufferParse(datagram: seq<byte>, utf8: Label -> bool)
    requires |datagram| <= BUFFER_SIZE
    requires ParsedResponse(datagram, utf8).Ok?
    ensures ParsedResponse(ReceiveBuffer(datagram), utf8) == ParsedResponse(datagram, utf8)
  {
    var zeros := seq(BUFFER_SIZE - |datagram|, _ => 0);
    assert ReceiveBuffer(datagram) == datagram + zeros;
    ResponseIgnoresTrailingBytes(datagram, zeros, utf8);
  }

  // ---------------------------------------------------------------------
  // Decoding what Packet::serialize wrote
  // ---------------------------------------------------------------------

  /** Serialized questions `enc`, found anywhere in a buffer, read back in order. */
  lemma {:induction false} QuestionsRoundTrip(bytes: seq<byte>, off: nat, qs: seq<Question>, enc: seq<byte>, utf8: Label -> bool)
    requires enc == QuestionsBytes(qs)
    requires off + |enc| <= |bytes| && bytes[off .. off + |enc|] == enc
    requires forall j :: 0 <= j < |qs| ==> ValidName(qs[j].name, utf8)
    ensures ParsedQuestions(bytes, off, |qs|, utf8) == Ok(Walk(qs, off + |enc|))
    decreases |qs|
  {
    if qs != [] {
      var ws, q := qs[..|qs| - 1], qs[|qs| - 1];
      QuestionsEncodedSplit(bytes, off, qs);
      var before := QuestionsBytes(ws);
      QuestionsRoundTrip(bytes, off, ws, before, utf8);
      QuestionsStepEncoded(bytes, off, |ws|, |qs|, utf8, Walk(ws, off + |before|), q, bytes[off + |enc|..], Walk(qs, off + |enc|));
    }
  }

  /** Where the last of a run of serialized questions sits, and the run before it. */
  lemma {:induction false} QuestionsEncodedSplit(bytes: seq<byte>, off: nat, qs: seq<Question>)
    requires qs != []
    requires off + |QuestionsBytes(qs)| <= |bytes|
    requires bytes[off .. off + |QuestionsBytes(qs)|] == QuestionsBytes(qs)
    ensures var ws, q := qs[..|qs| - 1], qs[|qs| - 1];
      && qs == ws + [q]
      && |QuestionsBytes(qs)| == |QuestionsBytes(ws)| + |QuestionBytes(q)|
      && bytes[off .. off + |QuestionsBytes(ws)|] == QuestionsBytes(ws)
      && bytes[off + |QuestionsBytes(ws)|..] == QuestionBytes(q) + bytes[off + |QuestionsBytes(qs)|..]
  {
    var ws, q := qs[..|qs| - 1], qs[|qs| - 1];
    assert qs == ws + [q];
    assert QuestionsBytes(qs) == QuestionsBytes(ws) + QuestionBytes(q) by {
      QuestionsBytesAppend(ws, [q]);
      QuestionsBytesSingle(q);
    }
    SliceSplit(bytes, off, QuestionsBytes(ws), QuestionBytes(q));
  }

  /**
   * Decoding a serialized message whose header counts its questions and no
   * answers gives back its questions, under a header with the flags the
   * decoder does not read (qr, aa, tc, rd, ra) all false.
   */
  lemma {:induction false} SerializedPacketParsesBack(p: Packet, utf8: Label -> bool)
    requires p.header.qdcount == |p.questions| && p.header.ancount == 0
    requires forall j :: 0 <= j < |p.questions| ==> ValidName(p.questions[j].name, utf8)
    ensures ParsedResponse(PacketBytes(p), utf8)
      == Ok(Packet(p.header.(qr := false, aa := false, tc := false, rd := false, ra := false), p.questions, []))
  {
    var hb := HeaderBytes(p.header);
    var bytes := PacketBytes(p);
    ParseHeaderBytes(p.header);
    var enc := QuestionsBytes(p.questions);
    assert bytes[12 .. 12 + |enc|] == enc;
    QuestionsRoundTrip(bytes, 12, p.questions, enc, utf8);
  }
}
