/** The request parser: the 12-byte header's first three fields and the
    question section that follows it. */
module DnsRequest {
  import opened Wire
  import opened DnsBasic

  /** A parsed request: identifier, raw flag word and the questions. */
  datatype Request = Request(transactionId: uint16, flags: uint16, questions: seq<Question>)

  // ---------------------------------------------------------------------
  // Specification
  // ---------------------------------------------------------------------

  /** `parseDNSQuestion`: the name read from `offset` on, then the type and
      the class codes that follow it, turned into their enumeration keys.
      The reported length is the name's length plus 4, the name's length
      being the one `uint8ArrayToDomain` reports (terminator not counted). */
  function ParseQuestion(data: seq<uint8>, offset: nat, types: Enum, classes: Enum): Result<Question>
  {
    if offset > |data| then Failure(OutOfBounds)
    else match DecodeName(data[offset..])
      case None => Failure(UnterminatedName)
      case Some((name, n)) =>
        if offset + n + 5 > |data| then Failure(OutOfBounds)
        else Success(Question(name,
                              NameOf(types, ReadU16(data, offset + n + 1)),
                              NameOf(classes, ReadU16(data, offset + n + 3)),
                              n + 4))
  }

  /** The question loop of `parseDNSRequest`: after the questions `parsed`
      so far, `count` more, each one starting where the previous one's
      reported length ends. */
  function ParseQuestions(data: seq<uint8>, offset: nat, count: nat, types: Enum, classes: Enum, parsed: seq<Question>): Result<seq<Question>>
    decreases count
  {
    if count == 0 then Success(parsed)
    else match ParseQuestion(data, offset, types, classes)
      case Failure(e) => Failure(e)
      case Success(q) => ParseQuestions(data, offset + q.length, count - 1, types, classes, parsed + [q])
  }

  /** `parseDNSRequest`: identifier, flags and question count are the
      big-endian words at 0, 2 and 4; the questions start at byte 12. */
  function ParseRequest(data: seq<uint8>, types: Enum, classes: Enum): Result<Request>
  {
    if |data| < 6 then Failure(OutOfBounds)
    else match ParseQuestions(data, 12, ReadU16(data, 4), types, classes, [])
      case Failure(e) => Failure(e)
      case Success(qs) => Success(Request(ReadU16(data, 0), ReadU16(data, 2), qs))
  }

  // ---------------------------------------------------------------------
  // Implementation
  // ---------------------------------------------------------------------

  /** `parseDNSQuestion`, decoding the name with `uint8ArrayToDomain`. */
  method ParseDNSQuestion(data: seq<uint8>, offset: nat, types: Enum, classes: Enum) returns (r: Result<Question>)
    ensures r == ParseQuestion(data, offset, types, classes)
  {
    if offset > |data| {
      return Failure(OutOfBounds);
    }
    var decoded := Uint8ArrayToDomain(data[offset..]);
    if decoded.None? {
      return Failure(UnterminatedName);
    }
    var (name, nameLength) := decoded.value;
    if offset + nameLength + 5 > |data| {
      return Failure(OutOfBounds);
    }
    var qtype := NameOf(types, ReadU16(data, offset + nameLength + 1));
    var rClass := NameOf(classes, ReadU16(data, offset + nameLength + 3));
    r := Success(Question(name, qtype, rClass, nameLength + 4));
  }

  /** `parseDNSRequest`: read the header words, then parse the announced
      number of questions. */
  method ParseDNSRequest(data: seq<uint8>, types: Enum, classes: Enum) returns (r: Result<Request>)
    ensures r == ParseRequest(data, types, classes)
  {
    if |data| < 6 {
      return Failure(OutOfBounds);
    }
    var transactionId := ReadU16(data, 0);
    var flags := ReadU16(data, 2);
    var questionCount := ReadU16(data, 4);
    var questions := ParseDNSQuestions(data, questionCount, types, classes);
    if questions.Failure? {
      return Failure(questions.error);
    }
    r := Success(Request(transactionId, flags, questions.value));
  }

  /** The question loop of `parseDNSRequest`: from byte 12 on, parse
      `count` questions, advancing the cursor by each reported length. */
  method ParseDNSQuestions(data: seq<uint8>, count: nat, types: Enum, classes: Enum) returns (r: Result<seq<Question>>)
    ensures r == ParseQuestions(data, 12, count, types, classes, [])
  {
    var questions: seq<Question> := [];
    var offset: nat := 12;
    for i := 0 to count
      invariant ParseQuestions(data, 12, count, types, classes, [])
             == ParseQuestions(data, offset, count - i, types, classes, questions)
    {
      var question := ParseDNSQuestion(data, offset, types, classes);
      if question.Failure? {
        return Failure(question.error);
      }
      questions := questions + [question.value];
      offset := offset + question.value.length;
    }
    r := Success(questions);
  }

  // ---------------------------------------------------------------------
  // Properties
  // ---------------------------------------------------------------------

  /** A parsed request has exactly as many questions as its header
      announces, and carries the header's identifier and flags. */
  lemma ParseRequestHeader(data: seq<uint8>, types: Enum, classes: Enum)
    requires ParseRequest(data, types, classes).Success?
    ensures |data| >= 6
    ensures ParseRequest(data, types, classes).value.transactionId == ReadU16(data, 0)
    ensures ParseRequest(data, types, classes).value.flags == ReadU16(data, 2)
    ensures |ParseRequest(data, types, classes).value.questions| == ReadU16(data, 4)
  {
    ParseQuestionsCount(data, 12, ReadU16(data, 4), types, classes, []);
  }

  lemma {:induction false} ParseQuestionsCount(data: seq<uint8>, offset: nat, count: nat, types: Enum, classes: Enum, parsed: seq<Question>)
    requires ParseQuestions(data, offset, count, types, classes, parsed).Success?
    ensures |ParseQuestions(data, offset, count, types, classes, parsed).value| == |parsed| + count
    decreases count
  {
    if count > 0 {
      var q := ParseQuestion(data, offset, types, classes).value;
      ParseQuestionsCount(data, offset + q.length, count - 1, types, classes, parsed + [q]);
    }
  }

  /** A header announcing no question is a whole request, even when it is
      cut short after the count: bytes 6 to 11 are never read. */
  lemma ZeroQuestions(data: seq<uint8>, types: Enum, classes: Enum)
    requires |data| >= 6 && ReadU16(data, 4) == 0
    ensures ParseRequest(data, types, classes) == Success(Request(ReadU16(data, 0), ReadU16(data, 2), []))
  {
  }

  /** The answer, authority and additional counts (bytes 6 to 11) are
      never read: replacing them leaves the outcome unchanged. */
  lemma ParseRequestIgnoresCounts(data: seq<uint8>, x: seq<uint8>, types: Enum, classes: Enum)
    requires |data| >= 12 && |x| == 6
    ensures ParseRequest(data[..6] + x + data[12..], types, classes) == ParseRequest(data, types, classes)
  {
    var d := data[..6] + x + data[12..];
    assert d[..6] == data[..6] && d[12..] == data[12..];
    assert ReadU16(d, 0) == ReadU16(data, 0);
    assert ReadU16(d, 2) == ReadU16(data, 2);
    assert ReadU16(d, 4) == ReadU16(data, 4);
    var n := ReadU16(data, 4);
    QuestionsFromTail(d, data[12..], 12, 0, n, types, classes, []);
    QuestionsFromTail(data, data[12..], 12, 0, n, types, classes, []);
  }

  /** The question loop never looks behind its cursor: run from `offset`
      it gives the same outcome, questions or error, as run from `cut` on
      the input with its first `offset - cut` bytes cut off. */
  lemma {:induction false} QuestionsFromTail(data: seq<uint8>, tail: seq<uint8>, offset: nat, cut: nat, count: nat, types: Enum, classes: Enum, parsed: seq<Question>)
    requires cut <= offset && offset - cut <= |data| && tail == data[offset - cut..]
    ensures ParseQuestions(data, offset, count, types, classes, parsed)
      == ParseQuestions(tail, cut, count, types, classes, parsed)
    decreases count
  {
    if count > 0 {
      var parses, q, next, nextCut, rest := QuestionsStepFromTail(data, tail, offset, cut, count, types, classes, parsed);
      if parses {
        QuestionsFromTail(data, tail, next, nextCut, rest, types, classes, parsed + [q]);
      }
    }
  }

  /** One turn of the question loop, run on the whole input and on its
      cut tail: either both stop with the same outcome, or both read the
      same question `q` and go on, from `next` and `nextCut`, with `rest`
      questions left. */
  lemma QuestionsStepFromTail(data: seq<uint8>, tail: seq<uint8>, offset: nat, cut: nat, count: nat, types: Enum, classes: Enum, parsed: seq<Question>)
      returns (parses: bool, q: Question, next: nat, nextCut: nat, rest: nat)
    requires count > 0
    requires cut <= offset && offset - cut <= |data| && tail == data[offset - cut..]
    ensures rest < count
    ensures nextCut <= next && next - nextCut == offset - cut
    ensures parses ==>
      && ParseQuestions(data, offset, count, types, classes, parsed)
        == ParseQuestions(data, next, rest, types, classes, parsed + [q])
      && ParseQuestions(tail, cut, count, types, classes, parsed)
        == ParseQuestions(tail, nextCut, rest, types, classes, parsed + [q])
    ensures !parses ==>
      ParseQuestions(data, offset, count, types, classes, parsed)
        == ParseQuestions(tail, cut, count, types, classes, parsed)
  {
    QuestionFromTail(data, tail, offset, cut, types, classes);
    var r := ParseQuestion(data, offset, types, classes);
    parses, next, nextCut, rest := r.Success?, offset, cut, count - 1;
    if r.Success? {
      q, next, nextCut := r.value, offset + r.value.length, cut + r.value.length;
      ParseQuestionsStepTo(data, offset, count, types, classes, parsed, q, next, rest);
      ParseQuestionsStepTo(tail, cut, count, types, classes, parsed, q, nextCut, rest);
    } else {
      q := Question([], None, None, 0);
      ParseQuestionsFail(data, offset, count, types, classes, parsed);
      ParseQuestionsFail(tail, cut, count, types, classes, parsed);
    }
  }

  /** A question depends only on the bytes from its own offset on. */
  lemma QuestionFromTail(data: seq<uint8>, tail: seq<uint8>, offset: nat, cut: nat, types: Enum, classes: Enum)
    requires cut <= offset && offset - cut <= |data| && tail == data[offset - cut..]
    ensures ParseQuestion(data, offset, types, classes) == ParseQuestion(tail, cut, types, classes)
  {
    if offset <= |data| {
      assert tail[cut..] == data[offset..];
      match DecodeName(data[offset..])
      case None =>
      case Some((name, n)) =>
        if offset + n + 5 <= |data| {
          assert tail[cut + n + 1] == data[offset + n + 1] && tail[cut + n + 2] == data[offset + n + 2];
          assert tail[cut + n + 3] == data[offset + n + 3] && tail[cut + n + 4] == data[offset + n + 4];
        }
    }
  }

  /** A question that parses ends within the input, and its reported
      length falls one byte short of the bytes it occupies: the name with
      its terminator, then four bytes of type and class. The cursor thus
      stops on the last byte of the class field, which is the low byte of
      the class word at `offset + length - 1`. */
  lemma QuestionCursor(data: seq<uint8>, offset: nat, types: Enum, classes: Enum)
    requires ParseQuestion(data, offset, types, classes).Success?
    ensures var q := ParseQuestion(data, offset, types, classes).value;
      && offset + q.length < |data|
      && data[offset + q.length - 4] == 0
      && q.rClass == NameOf(classes, ReadU16(data, offset + q.length - 1))
      && q.qtype == NameOf(types, ReadU16(data, offset + q.length - 3))
  {
    DecodeNameTerminator(data[offset..]);
  }

  /** Parsing never looks past the bytes it uses: appending bytes to a
      request that parses does not change the outcome. */
  lemma ParseRequestIgnoresSuffix(data: seq<uint8>, t: seq<uint8>, types: Enum, classes: Enum)
    requires ParseRequest(data, types, classes).Success?
    ensures ParseRequest(data + t, types, classes) == ParseRequest(data, types, classes)
  {
    assert (data + t)[..6] == data[..6];
    assert ReadU16(data + t, 0) == ReadU16(data, 0);
    assert ReadU16(data + t, 2) == ReadU16(data, 2);
    assert ReadU16(data + t, 4) == ReadU16(data, 4);
    ParseQuestionsIgnoresSuffix(data, t, 12, ReadU16(data, 4), types, classes, []);
  }

  lemma {:induction false} ParseQuestionsIgnoresSuffix(data: seq<uint8>, t: seq<uint8>, offset: nat, count: nat, types: Enum, classes: Enum, parsed: seq<Question>)
    requires ParseQuestions(data, offset, count, types, classes, parsed).Success?
    ensures ParseQuestions(data + t, offset, count, types, classes, parsed) == ParseQuestions(data, offset, count, types, classes, parsed)
    decreases count
  {
    if count > 0 {
      ParseQuestionsHead(data, offset, count, types, classes, parsed);
      ParseQuestionIgnoresSuffix(data, t, offset, types, classes);
      var q := ParseQuestion(data, offset, types, classes).value;
      ParseQuestionsIgnoresSuffix(data, t, offset + q.length, count - 1, types, classes, parsed + [q]);
      ParseQuestionsStep(data, offset, count, types, classes, parsed, q);
      ParseQuestionsStep(data + t, offset, count, types, classes, parsed, q);
    }
  }

  /** A question loop that succeeds parses its first question. */
  lemma ParseQuestionsHead(data: seq<uint8>, offset: nat, count: nat, types: Enum, classes: Enum, parsed: seq<Question>)
    requires count > 0 && ParseQuestions(data, offset, count, types, classes, parsed).Success?
    ensures ParseQuestion(data, offset, types, classes).Success?
  {
  }

  /** One turn of the question loop, for a question that parses. */
  lemma ParseQuestionsStep(data: seq<uint8>, offset: nat, count: nat, types: Enum, classes: Enum, parsed: seq<Question>, q: Question)
    requires count > 0 && ParseQuestion(data, offset, types, classes) == Success(q)
    ensures ParseQuestions(data, offset, count, types, classes, parsed)
      == ParseQuestions(data, offset + q.length, count - 1, types, classes, parsed + [q])
  {
  }

  /** The same turn, with the next cursor and the questions left given
      by name. */
  lemma ParseQuestionsStepTo(data: seq<uint8>, offset: nat, count: nat, types: Enum, classes: Enum, parsed: seq<Question>, q: Question, next: nat, rest: nat)
    requires ParseQuestion(data, offset, types, classes) == Success(q)
    requires next == offset + q.length && rest + 1 == count
    ensures ParseQuestions(data, offset, count, types, classes, parsed)
      == ParseQuestions(data, next, rest, types, classes, parsed + [q])
  {
  }

  /** A turn of the question loop whose question fails ends the loop
      with that failure. */
  lemma ParseQuestionsFail(data: seq<uint8>, offset: nat, count: nat, types: Enum, classes: Enum, parsed: seq<Question>)
    requires count > 0 && ParseQuestion(data, offset, types, classes).Failure?
    ensures ParseQuestions(data, offset, count, types, classes, parsed)
      == Failure(ParseQuestion(data, offset, types, classes).error)
  {
  }

  lemma ParseQuestionIgnoresSuffix(data: seq<uint8>, t: seq<uint8>, offset: nat, types: Enum, classes: Enum)
    requires ParseQuestion(data, offset, types, classes).Success?
    ensures ParseQuestion(data + t, offset, types, classes) == ParseQuestion(data, offset, types, classes)
  {
    assert (data + t)[offset..] == data[offset..] + t;
    DecodeNameIgnoresSuffix(data[offset..], t);
    var n := DecodeName(data[offset..]).value.1;
    assert ReadU16(data + t, offset + n + 1) == ReadU16(data, offset + n + 1);
    assert ReadU16(data + t, offset + n + 3) == ReadU16(data, offset + n + 3);
  }

  /** A header announcing one question, followed by a question that
      parses, is a request with that question. */
  lemma SingleQuestion(data: seq<uint8>, types: Enum, classes: Enum, q: Question)
    requires |data| >= 6 && ReadU16(data, 4) == 1 && ParseQuestion(data, 12, types, classes) == Success(q)
    ensures ParseRequest(data, types, classes) == Success(Request(ReadU16(data, 0), ReadU16(data, 2), [q]))
  {
    ParseQuestionsStep(data, 12, 1, types, classes, [], q);
    assert [] + [q] == [q];
  }

  /** Because the cursor stops on the class word's last byte, a request
      with two identical well-formed questions fails: the second parse
      starts on byte 18 (the first class's low byte, 1), takes it for a
      one-byte label and then finds no reachable terminator, although the
      second question, read from where it really starts (byte 19), is
      well formed. */
  lemma SecondQuestionMisread(types: Enum, classes: Enum)
    ensures var q := [1, 97, 0, 0, 1, 0, 1];
      var data := [0, 7, 0, 0, 0, 2, 0, 0, 0, 0, 0, 0] + q + q;
      && ParseQuestion(data, 12, types, classes).Success?
      && ParseQuestion(data, 12, types, classes).value.length == 6
      && ParseQuestion(data, 19, types, classes).Success?
      && ParseQuestion(data, 19, types, classes).value.name == "a"
      && ParseRequest(data, types, classes) == Failure(UnterminatedName)
  {
    var q: seq<uint8> := [1, 97, 0, 0, 1, 0, 1];
    var data: seq<uint8> := [0, 7, 0, 0, 0, 2, 0, 0, 0, 0, 0, 0] + q + q;
    NameA(data[12..]);
    assert data[19..] == q;
    NameA(q);
    var s := data[18..];
    assert s[0] == 1 && s[2] == 97 && |s| == 8;
    assert ReadLabels(s, 2) == None;
    assert ReadLabels(s, 0) == None;
    assert ReadU16(data, 4) == 2;
  }

  /** The misaligned second parse does not always fail: with class code
      0x0100 instead of 1, the low class byte read as the second question's
      start is 0, an empty name; its type is read from the first name's
      bytes 1 and 97 (0x0161) and its class from bytes 0 and 0, so the
      request parses with a second question nobody sent. */
  lemma SecondQuestionShifted(types: Enum, classes: Enum)
    ensures var q := [1, 97, 0, 0, 1, 1, 0];
      var data := [0, 7, 0, 0, 0, 2, 0, 0, 0, 0, 0, 0] + q + q;
      ParseRequest(data, types, classes)
        == Success(Request(7, 0, [Question("a", NameOf(types, 1), NameOf(classes, 0x0100), 6),
                                  Question("", NameOf(types, 0x0161), NameOf(classes, 0), 4)]))
  {
    var q: seq<uint8> := [1, 97, 0, 0, 1, 1, 0];
    var data: seq<uint8> := [0, 7, 0, 0, 0, 2, 0, 0, 0, 0, 0, 0] + q + q;
    NameA(data[12..]);
    var q1 := Question("a", NameOf(types, 1), NameOf(classes, 0x0100), 6);
    assert ReadU16(data, 15) == 1 && ReadU16(data, 17) == 0x0100;
    assert ParseQuestion(data, 12, types, classes) == Success(q1);
    var s := data[18..];
    assert s[0] == 0;
    assert ReadLabels(s, 0) == Some([]);
    assert DecodeName(s) == Some(("", 0));
    var q2 := Question("", NameOf(types, 0x0161), NameOf(classes, 0), 4);
    assert ReadU16(data, 19) == 0x0161 && ReadU16(data, 21) == 0;
    assert ParseQuestion(data, 18, types, classes) == Success(q2);
    assert ReadU16(data, 4) == 2;
    ParseQuestionsStep(data, 12, 2, types, classes, [], q1);
    ParseQuestionsStep(data, 18, 1, types, classes, [q1], q2);
    assert [] + [q1] + [q2] == [q1, q2];
  }

  /** The encoding of the one-label name "a", at the head of `a`. */
  lemma NameA(a: seq<uint8>)
    requires |a| >= 3 && a[0] == 1 && a[1] == 97 && a[2] == 0
    ensures DecodeName(a) == Some(("a", 2))
  {
    assert ReadLabels(a, 2) == Some([]);
    assert Chars(a, 1, 1) == "a";
    assert ReadLabels(a, 0) == Prepend(["a"], Some([]));
    assert ["a"] + [] == ["a"];
    assert Join(["a"]) == "a";
  }
}
