/** The response encoder and the request parser read against each other:
    the first question the encoder writes is the one the parser reads. */
module DnsRoundTrip {
  import opened Wire
  import opened DnsBasic
  import opened DnsRequest
  import opened DnsResponse

  /** A question whose encoding the parser can read back: its name encodes
      without wrap-around, and its type and class are keys of enumerations
      whose two tables agree. */
  ghost predicate Recoverable(types: Enum, classes: Enum, q: Question)
  {
    && Consistent(types) && Consistent(classes) && NameEncodable(q.name)
    && q.qtype.Some? && q.qtype.value in types.codes
    && q.rClass.Some? && q.rClass.value in classes.codes
  }

  /** What the parser makes of an encoded question: the name's non-empty
      labels joined by dots, the same type and class, and a reported length
      one byte short of the record's size. */
  function Reread(q: Question): Question
  {
    Question(Join(NonEmpty(Split(q.name))), q.qtype, q.rClass, |EncodeName(q.name)| + 3)
  }

  /** A question record made of the name bytes `nb`, then a type and a
      class code, written after any bytes `p` and followed by any bytes `t`,
      parses from offset `|p|` with the decoded name and the two codes
      looked up in the enumerations. */
  lemma ParseQuestionFields(types: Enum, classes: Enum, p: seq<uint8>, rec: seq<uint8>, t: seq<uint8>,
                            nb: seq<uint8>, tc: uint16, cc: uint16, name: string)
    requires rec == nb + BE16(tc) + BE16(cc) && |nb| > 0
    requires DecodeName(nb + (BE16(tc) + BE16(cc) + t)) == Some((name, |nb| - 1))
    ensures ParseQuestion(p + rec + t, |p|, types, classes)
            == Success(Question(name, NameOf(types, tc), NameOf(classes, cc), |nb| + 3))
  {
    var data := p + rec + t;
    assert data[|p|..] == nb + (BE16(tc) + BE16(cc) + t);
    assert data == (p + nb) + BE16(tc) + (BE16(cc) + t);
    ReadField16(p + nb, tc, BE16(cc) + t);
    assert data == (p + nb + BE16(tc)) + BE16(cc) + t;
    ReadField16(p + nb + BE16(tc), cc, t);
  }

  /** A question record written after any bytes `p` and followed by any
      bytes `t` parses back from offset `|p|`. */
  lemma QuestionRoundTrip(types: Enum, classes: Enum, q: Question, p: seq<uint8>, t: seq<uint8>)
    requires Recoverable(types, classes, q)
    ensures ParseQuestion(p + QuestionWire(types, classes, q) + t, |p|, types, classes) == Success(Reread(q))
  {
    var nb, tc, cc := EncodeName(q.name), CodeOf(types, q.qtype), CodeOf(classes, q.rClass);
    DecodeEncodeName(q.name, BE16(tc) + BE16(cc) + t);
    ParseQuestionFields(types, classes, p, QuestionWire(types, classes, q), t, nb, tc, cc, Join(NonEmpty(Split(q.name))));
  }

  /** A message whose body starts with the record `x` is the header, `x`,
      and the rest. */
  lemma Regroup(h: seq<uint8>, x: seq<uint8>, q: seq<uint8>, a: seq<uint8>, b: seq<uint8>, c: seq<uint8>)
    ensures h + ((x + q) + a + b + c) == h + x + (q + a + b + c)
  {
  }

  /** The first question of an encoded response parses back from byte 12,
      whatever follows it. */
  lemma FirstQuestionRoundTrip(types: Enum, classes: Enum, r: Response)
    requires Overfull(r).None? && |r.questions| > 0 && Recoverable(types, classes, r.questions[0])
    ensures EncodeResponse(types, classes, r).Success?
    ensures ParseQuestion(EncodeResponse(types, classes, r).value, 12, types, classes) == Success(Reread(r.questions[0]))
  {
    var q, w := r.questions[0], QuestionEncoder(types, classes);
    var x, qs := QuestionWire(types, classes, q), Concat(r.questions[1..], w);
    var an, ns, ar := Concat(r.answers, AnswerWire), Concat(r.authorities, AuthorityWire), Concat(r.additional, AuthorityWire);
    assert Concat(r.questions, w) == x + qs;
    Regroup(HeaderWire(r), x, qs, an, ns, ar);
    QuestionRoundTrip(types, classes, q, HeaderWire(r), qs + an + ns + ar);
  }

  /** A response with a single question, read by the request parser, gives
      back its identifier, its flag word and that question. */
  lemma ResponseAsRequest(types: Enum, classes: Enum, r: Response)
    requires Overfull(r).None? && |r.questions| == 1 && Recoverable(types, classes, r.questions[0])
    ensures EncodeResponse(types, classes, r).Success?
    ensures ParseRequest(EncodeResponse(types, classes, r).value, types, classes)
            == Success(Request(r.transactionId, r.flags, [Reread(r.questions[0])]))
  {
    ResponseHeader(types, classes, r);
    FirstQuestionRoundTrip(types, classes, r);
    SingleQuestion(EncodeResponse(types, classes, r).value, types, classes, Reread(r.questions[0]));
  }
}
