/** The response encoder: a 12-byte header, then the question, answer,
    authority and additional sections, each record written field by field
    into a buffer sized by a first pass over the section. */
module DnsResponse {
  import opened Wire
  import opened DnsBasic

  /** A response as the resolver builds it. */
  datatype Response = Response(
    transactionId: uint16,
    flags: uint16,
    questions: seq<Question>,
    answers: seq<Answer>,
    authorities: seq<Authority>,
    additional: seq<Additional>)

  /** The largest count a 16-bit header field holds. */
  const MaxCount := 0xFFFF

  // ---------------------------------------------------------------------
  // Specification
  // ---------------------------------------------------------------------

  /** `Enum[key]` passed to `setUint16`: the key's code, or 0 for a missing
      or unmapped key (the `undefined` that `setUint16` stores as 0). In a
      consistent enumeration the reverse lookup of a key's code is the key. */
  function CodeOf(e: Enum, key: Option<string>): (c: uint16)
    ensures Consistent(e) && key.Some? && key.value in e.codes ==> NameOf(e, c) == key
    ensures key.None? || key.value !in e.codes ==> c == 0
  {
    if key.Some? && key.value in e.codes then e.codes[key.value] else 0
  }

  /** A question record: the name, then its type and class codes. */
  function QuestionWire(types: Enum, classes: Enum, q: Question): seq<uint8>
  {
    EncodeName(q.name) + BE16(CodeOf(types, q.qtype)) + BE16(CodeOf(classes, q.rClass))
  }

  /** An answer's data as written: raw bytes as they are, a string one
      `charCodeAt` per byte, kept modulo 256 by `setUint8`. */
  function Payload(d: RData): (p: seq<uint8>)
    ensures d.Binary? ==> p == d.bytes
    ensures d.Text? ==> |p| == |d.text|
  {
    match d
    case Binary(bytes) => bytes
    case Text(text) => ToUint8Array(Codes(text))
  }

  /** The 16-bit length field `setUint16` stores for a payload of `n`
      bytes: `n` modulo 65536. */
  function Length16(n: nat): (r: uint16)
    ensures n < 0x1_0000 ==> r == n
    ensures (n - r) % 0x1_0000 == 0
  {
    n % 0x1_0000
  }

  /** An answer record: name, type, class, time to live, data length, data. */
  function AnswerWire(a: Answer): seq<uint8>
  {
    EncodeName(a.name) + BE16(a.rtype) + BE16(a.rClass) + BE32(a.ttl)
      + BE16(Length16(|Payload(a.data)|)) + Payload(a.data)
  }

  /** An authority (or additional) record: the class is always 1 and the
      data is the record's `data` string encoded as a domain name. */
  function AuthorityWire(r: Authority): seq<uint8>
  {
    EncodeName(r.name) + BE16(r.rtype) + BE16(1) + BE32(r.ttl)
      + BE16(Length16(|EncodeName(r.data)|)) + EncodeName(r.data)
  }

  /** The records of one section, written one after the other. */
  function Concat<T>(xs: seq<T>, w: T -> seq<uint8>): seq<uint8>
  {
    if xs == [] then [] else w(xs[0]) + Concat(xs[1..], w)
  }

  /** `QuestionWire` for fixed enumerations, as a function value. */
  function QuestionEncoder(types: Enum, classes: Enum): Question -> seq<uint8>
  {
    q => QuestionWire(types, classes, q)
  }

  /** The first section, in the order the header checks them, holding
      more records than its count field can say. */
  function Overfull(r: Response): Option<Section>
  {
    if |r.questions| > MaxCount then Some(Questions)
    else if |r.answers| > MaxCount then Some(Answers)
    else if |r.authorities| > MaxCount then Some(Authorities)
    else if |r.additional| > MaxCount then Some(Additional)
    else None
  }

  /** The number of records in a section. */
  function Count(r: Response, s: Section): nat
  {
    match s
    case Questions => |r.questions|
    case Answers => |r.answers|
    case Authorities => |r.authorities|
    case Additional => |r.additional|
  }

  /** The header: identifier, flags and the four section counts. */
  function HeaderWire(r: Response): (h: seq<uint8>)
    requires Overfull(r).None?
    ensures |h| == 12
  {
    BE16(r.transactionId) + BE16(r.flags) + BE16(|r.questions|) + BE16(|r.answers|)
      + BE16(|r.authorities|) + BE16(|r.additional|)
  }

  /** `encodeDNSResponse`: the count checks in source order, then the
      header and the four sections back to back. */
  function EncodeResponse(types: Enum, classes: Enum, r: Response): Result<seq<uint8>>
  {
    if Overfull(r).Some? then Failure(TooManyRecords(Overfull(r).value))
    else Success(HeaderWire(r) + Body(types, classes, r))
  }

  /** The four sections of a message, one after the other. */
  function Body(types: Enum, classes: Enum, r: Response): seq<uint8>
  {
    Concat(r.questions, QuestionEncoder(types, classes)) + Concat(r.answers, AnswerWire)
      + Concat(r.authorities, AuthorityWire) + Concat(r.additional, AuthorityWire)
  }

  // ---------------------------------------------------------------------
  // Section concatenation
  // ---------------------------------------------------------------------

  /** Adding a record at the end of a section appends its bytes. */
  lemma {:induction false} ConcatSnoc<T>(xs: seq<T>, x: T, w: T -> seq<uint8>)
    ensures Concat(xs + [x], w) == Concat(xs, w) + w(x)
  {
    if xs == [] {
      assert [x][1..] == [];
    } else {
      assert (xs + [x])[1..] == xs[1..] + [x];
      ConcatSnoc(xs[1..], x, w);
      Assoc(w(xs[0]), Concat(xs[1..], w), w(x));
    }
  }

  lemma ConcatStep<T>(xs: seq<T>, i: nat, w: T -> seq<uint8>)
    requires i < |xs|
    ensures Concat(xs[..i + 1], w) == Concat(xs[..i], w) + w(xs[i])
  {
    assert xs[..i + 1] == xs[..i] + [xs[i]];
    ConcatSnoc(xs[..i], xs[i], w);
  }

  /** One turn of a section's fill loop: the buffer held the first `i`
      records, and record `i` was written right after them. */
  lemma SectionStep<T>(before: seq<uint8>, after: seq<uint8>, xs: seq<T>, i: nat, w: T -> seq<uint8>, at: nat, rec: seq<uint8>)
    requires i < |xs| && w(xs[i]) == rec
    requires at == |Concat(xs[..i], w)| <= |before| && before[..at] == Concat(xs[..i], w)
    requires at + |rec| <= |after| && after[..at] == before[..at] && after[at..at + |rec|] == rec
    ensures at + |rec| == |Concat(xs[..i + 1], w)|
    ensures after[..at + |rec|] == Concat(xs[..i + 1], w)
  {
    ConcatStep(xs, i, w);
    PrefixExtend(before, after, at, rec);
  }

  /** Record `i` fits in the section's buffer after the records before it. */
  lemma SectionRoom<T>(xs: seq<T>, i: nat, w: T -> seq<uint8>, rec: seq<uint8>)
    requires i < |xs| && w(xs[i]) == rec
    ensures |Concat(xs[..i], w)| + |rec| <= |Concat(xs, w)|
  {
    ConcatStep(xs, i, w);
    ConcatPrefix(xs, i + 1, w);
  }

  /** The bytes of a section's first records are a prefix of the section's. */
  lemma {:induction false} ConcatPrefix<T>(xs: seq<T>, i: nat, w: T -> seq<uint8>)
    requires i <= |xs|
    ensures Concat(xs[..i], w) <= Concat(xs, w)
  {
    if i > 0 {
      assert xs[..i][1..] == xs[1..][..i - 1];
      ConcatPrefix(xs[1..], i - 1, w);
    }
  }

  // ---------------------------------------------------------------------
  // Implementation
  // ---------------------------------------------------------------------

  /** `encodeHeader`: the count checks, then six big-endian words written
      into a fresh 12-byte buffer. */
  method EncodeHeader(response: Response) returns (r: Result<seq<uint8>>)
    ensures Overfull(response).Some? ==> r == Failure(TooManyRecords(Overfull(response).value))
    ensures Overfull(response).None? ==> r == Success(HeaderWire(response))
  {
    if |response.questions| > MaxCount {
      return Failure(TooManyRecords(Questions));
    }
    if |response.answers| > MaxCount {
      return Failure(TooManyRecords(Answers));
    }
    if |response.authorities| > MaxCount {
      return Failure(TooManyRecords(Authorities));
    }
    if |response.additional| > MaxCount {
      return Failure(TooManyRecords(Additional));
    }
    var buffer := new uint8[12](_ => 0);
    ghost var header := BE16(response.transactionId);
    WriteBytes(buffer, 0, BE16(response.transactionId));
    assert buffer[..2] == header;
    header := header + BE16(response.flags);
    WriteBytes(buffer, 2, BE16(response.flags));
    assert buffer[..4] == header;
    header := header + BE16(|response.questions|);
    WriteBytes(buffer, 4, BE16(|response.questions|));
    assert buffer[..6] == header;
    header := header + BE16(|response.answers|);
    WriteBytes(buffer, 6, BE16(|response.answers|));
    assert buffer[..8] == header;
    header := header + BE16(|response.authorities|);
    WriteBytes(buffer, 8, BE16(|response.authorities|));
    assert buffer[..10] == header;
    header := header + BE16(|response.additional|);
    WriteBytes(buffer, 10, BE16(|response.additional|));
    assert buffer[..12] == header;
    assert buffer[..] == buffer[..12];
    r := Success(buffer[..]);
  }

  /** Writes record `i` of a section, given as its three fields, right
      after the records before it, and returns the offset past it; the
      bytes after the record are left as they were. */
  method AppendRecord3<T>(buffer: array<uint8>, at: nat, xs: seq<T>, i: nat, w: T -> seq<uint8>,
                          a: seq<uint8>, b: seq<uint8>, c: seq<uint8>) returns (next: nat)
    requires i < |xs| && w(xs[i]) == a + b + c
    requires buffer.Length == |Concat(xs, w)|
    requires at == |Concat(xs[..i], w)| <= buffer.Length && buffer[..at] == Concat(xs[..i], w)
    modifies buffer
    ensures next == |Concat(xs[..i + 1], w)| <= buffer.Length
    ensures buffer[..next] == Concat(xs[..i + 1], w)
    ensures buffer[next..] == old(buffer[next..])
  {
    SectionRoom(xs, i, w, a + b + c);
    ghost var before := buffer[..];
    Write3(buffer, at, a, b, c);
    SectionStep(before, buffer[..], xs, i, w, at, a + b + c);
    next := at + |a| + |b| + |c|;
  }

  /** Writes record `i` of a section, given as its six fields, right
      after the records before it, and returns the offset past it; the
      bytes after the record are left as they were. */
  method AppendRecord6<T>(buffer: array<uint8>, at: nat, xs: seq<T>, i: nat, w: T -> seq<uint8>,
                          a: seq<uint8>, b: seq<uint8>, c: seq<uint8>, d: seq<uint8>, e: seq<uint8>, f: seq<uint8>)
    returns (next: nat)
    requires i < |xs| && w(xs[i]) == a + b + c + d + e + f
    requires buffer.Length == |Concat(xs, w)|
    requires at == |Concat(xs[..i], w)| <= buffer.Length && buffer[..at] == Concat(xs[..i], w)
    modifies buffer
    ensures next == |Concat(xs[..i + 1], w)| <= buffer.Length
    ensures buffer[..next] == Concat(xs[..i + 1], w)
    ensures buffer[next..] == old(buffer[next..])
  {
    ghost var rec := a + b + c + d + e + f;
    SectionRoom(xs, i, w, rec);
    ghost var before := buffer[..];
    Write6(buffer, at, rec, a, b, c, d, e, f);
    SectionStep(before, buffer[..], xs, i, w, at, rec);
    next := at + |a| + |b| + |c| + |d| + |e| + |f|;
  }

  /** The loop body of `encodeQuestions`: with the first `i` questions in
      place, write question `i` after them (the name's bytes, then the type
      and class codes) and move the offset past it. */
  method AppendQuestion(buffer: array<uint8>, currentOffset: nat, types: Enum, classes: Enum, questions: seq<Question>, i: nat)
    returns (nextOffset: nat)
    requires i < |questions| && SingleUnits(questions[i].name)
    requires buffer.Length == |Concat(questions, QuestionEncoder(types, classes))|
    requires currentOffset == |Concat(questions[..i], QuestionEncoder(types, classes))| <= buffer.Length
    requires buffer[..currentOffset] == Concat(questions[..i], QuestionEncoder(types, classes))
    modifies buffer
    ensures nextOffset == |Concat(questions[..i + 1], QuestionEncoder(types, classes))| <= buffer.Length
    ensures buffer[..nextOffset] == Concat(questions[..i + 1], QuestionEncoder(types, classes))
    ensures buffer[nextOffset..] == old(buffer[nextOffset..])
  {
    var question := questions[i];
    var domainBytes, _ := DomainToUint8Array(question.name);
    var qtype, rClass := BE16(CodeOf(types, question.qtype)), BE16(CodeOf(classes, question.rClass));
    nextOffset := AppendRecord3(buffer, currentOffset, questions, i, QuestionEncoder(types, classes), domainBytes, qtype, rClass);
  }

  /** The first pass of `encodeQuestions`: each question adds its encoded
      name's length plus 4. */
  method QuestionsLength(types: Enum, classes: Enum, questions: seq<Question>) returns (totalLength: nat)
    requires forall i :: 0 <= i < |questions| ==> SingleUnits(questions[i].name)
    ensures totalLength == |Concat(questions, QuestionEncoder(types, classes))|
  {
    var w := QuestionEncoder(types, classes);
    totalLength := 0;
    for i := 0 to |questions|
      invariant totalLength == |Concat(questions[..i], w)|
    {
      var _, domainLength := DomainToUint8Array(questions[i].name);
      ConcatStep(questions, i, w);
      totalLength := totalLength + domainLength + 4;
    }
    assert questions[..|questions|] == questions;
  }

  /** `encodeQuestions`: a first pass adds up the record sizes, a second
      writes each record into a buffer of that size. */
  method EncodeQuestions(types: Enum, classes: Enum, questions: seq<Question>) returns (bytes: seq<uint8>)
    requires forall i :: 0 <= i < |questions| ==> SingleUnits(questions[i].name)
    ensures bytes == Concat(questions, QuestionEncoder(types, classes))
  {
    var w := QuestionEncoder(types, classes);
    var totalLength := QuestionsLength(types, classes, questions);
    var buffer := new uint8[totalLength](_ => 0);
    var currentOffset := 0;
    for i := 0 to |questions|
      invariant currentOffset == |Concat(questions[..i], w)| <= buffer.Length
      invariant buffer[..currentOffset] == Concat(questions[..i], w)
    {
      currentOffset := AppendQuestion(buffer, currentOffset, types, classes, questions, i);
    }
    assert questions[..|questions|] == questions;
    assert buffer[..] == buffer[..currentOffset];
    bytes := buffer[..];
  }

  /** The string branch of the answer data loop: each `charCodeAt(i)`,
      kept modulo 256 by `setUint8`. */
  method CharCodes(text: string) returns (bytes: seq<uint8>)
    ensures bytes == Payload(Text(text))
  {
    bytes := [];
    for i := 0 to |text|
      invariant bytes == ToUint8Array(Codes(text[..i]))
    {
      bytes := bytes + [Byte(text[i] as int)];
    }
    assert text[..|text|] == text;
  }

  /** The loop body of `encodeAnswers`: with the first `i` records in
      place, write record `i` after them (name, type, class, time to live,
      data length, data) and move the offset past it. */
  method AppendAnswer(buffer: array<uint8>, currentOffset: nat, answers: seq<Answer>, i: nat)
    returns (nextOffset: nat)
    requires i < |answers| && SingleUnits(answers[i].name)
    requires answers[i].data.Text? ==> SingleUnits(answers[i].data.text)
    requires buffer.Length == |Concat(answers, AnswerWire)|
    requires currentOffset == |Concat(answers[..i], AnswerWire)| <= buffer.Length
    requires buffer[..currentOffset] == Concat(answers[..i], AnswerWire)
    modifies buffer
    ensures nextOffset == |Concat(answers[..i + 1], AnswerWire)| <= buffer.Length
    ensures buffer[..nextOffset] == Concat(answers[..i + 1], AnswerWire)
    ensures buffer[nextOffset..] == old(buffer[nextOffset..])
  {
    var answer := answers[i];
    var domainBytes, _ := DomainToUint8Array(answer.name);
    var data: seq<uint8>;
    if answer.data.Binary? {
      data := answer.data.bytes;
    } else {
      data := CharCodes(answer.data.text);
    }
    var rtype, rClass, ttl := BE16(answer.rtype), BE16(answer.rClass), BE32(answer.ttl);
    var rdLength := BE16(Length16(|data|));
    AnswerFields(answer, domainBytes, data);
    nextOffset := AppendRecord6(buffer, currentOffset, answers, i, AnswerWire, domainBytes, rtype, rClass, ttl, rdLength, data);
  }

  /** An answer record is its six fields in order. */
  lemma AnswerFields(a: Answer, domainBytes: seq<uint8>, data: seq<uint8>)
    requires domainBytes == EncodeName(a.name) && data == Payload(a.data)
    ensures AnswerWire(a) == domainBytes + BE16(a.rtype) + BE16(a.rClass) + BE32(a.ttl)
                             + BE16(Length16(|data|)) + data
  {
  }

  /** The first pass of `encodeAnswers`: each answer adds its encoded
      name's length, 10, and its data length. */
  method AnswersLength(answers: seq<Answer>) returns (totalLength: nat)
    requires forall i :: 0 <= i < |answers| ==> SingleUnits(answers[i].name)
    ensures totalLength == |Concat(answers, AnswerWire)|
  {
    totalLength := 0;
    for i := 0 to |answers|
      invariant totalLength == |Concat(answers[..i], AnswerWire)|
    {
      var _, domainLength := DomainToUint8Array(answers[i].name);
      ConcatStep(answers, i, AnswerWire);
      totalLength := totalLength + domainLength + 10 + DataLength(answers[i].data);
    }
    assert answers[..|answers|] == answers;
  }

  /** `answer.data.length`: the byte count, or the string's length. */
  function DataLength(d: RData): (n: nat)
    ensures n == |Payload(d)|
  {
    match d
    case Binary(bytes) => |bytes|
    case Text(text) => |text|
  }

  /** `encodeAnswers`: a first pass adds up the record sizes, a second
      writes each record into a buffer of that size. */
  method EncodeAnswers(answers: seq<Answer>) returns (bytes: seq<uint8>)
    requires forall i :: 0 <= i < |answers| ==> SingleUnits(answers[i].name)
    requires forall i :: 0 <= i < |answers| && answers[i].data.Text? ==> SingleUnits(answers[i].data.text)
    ensures bytes == Concat(answers, AnswerWire)
  {
    var totalLength := AnswersLength(answers);
    var buffer := new uint8[totalLength](_ => 0);
    var currentOffset := 0;
    for i := 0 to |answers|
      invariant currentOffset == |Concat(answers[..i], AnswerWire)| <= buffer.Length
      invariant buffer[..currentOffset] == Concat(answers[..i], AnswerWire)
    {
      currentOffset := AppendAnswer(buffer, currentOffset, answers, i);
    }
    assert answers[..|answers|] == answers;
    assert buffer[..] == buffer[..currentOffset];
    bytes := buffer[..];
  }

  /** The loop body of `encodeAuthorities`: with the first `i` records in
      place, write record `i` after them (name, type, class 1, time to
      live, data length, data encoded as a name) and move the offset past it. */
  method AppendAuthority(buffer: array<uint8>, currentOffset: nat, authorities: seq<Authority>, i: nat)
    returns (nextOffset: nat)
    requires i < |authorities| && SingleUnits(authorities[i].name) && SingleUnits(authorities[i].data)
    requires buffer.Length == |Concat(authorities, AuthorityWire)|
    requires currentOffset == |Concat(authorities[..i], AuthorityWire)| <= buffer.Length
    requires buffer[..currentOffset] == Concat(authorities[..i], AuthorityWire)
    modifies buffer
    ensures nextOffset == |Concat(authorities[..i + 1], AuthorityWire)| <= buffer.Length
    ensures buffer[..nextOffset] == Concat(authorities[..i + 1], AuthorityWire)
    ensures buffer[nextOffset..] == old(buffer[nextOffset..])
  {
    var authority := authorities[i];
    var domainBytes, _ := DomainToUint8Array(authority.name);
    var dataBytes, dataLength := DomainToUint8Array(authority.data);
    var rtype, rClass, ttl := BE16(authority.rtype), BE16(1), BE32(authority.ttl);
    var rdLength := BE16(Length16(dataLength));
    AuthorityFields(authority, domainBytes, dataBytes);
    nextOffset := AppendRecord6(buffer, currentOffset, authorities, i, AuthorityWire, domainBytes, rtype, rClass, ttl, rdLength, dataBytes);
  }

  /** An authority record is its six fields in order. */
  lemma AuthorityFields(r: Authority, domainBytes: seq<uint8>, dataBytes: seq<uint8>)
    requires domainBytes == EncodeName(r.name) && dataBytes == EncodeName(r.data)
    ensures AuthorityWire(r) == domainBytes + BE16(r.rtype) + BE16(1) + BE32(r.ttl)
                                + BE16(Length16(|dataBytes|)) + dataBytes
  {
  }

  /** The first pass of `encodeAuthorities`: each record adds its encoded
      name's length, 10, and its encoded data's length. */
  method AuthoritiesLength(authorities: seq<Authority>) returns (totalLength: nat)
    requires forall i :: 0 <= i < |authorities| ==> SingleUnits(authorities[i].name) && SingleUnits(authorities[i].data)
    ensures totalLength == |Concat(authorities, AuthorityWire)|
  {
    totalLength := 0;
    for i := 0 to |authorities|
      invariant totalLength == |Concat(authorities[..i], AuthorityWire)|
    {
      var _, domainLength := DomainToUint8Array(authorities[i].name);
      var _, dataLength := DomainToUint8Array(authorities[i].data);
      ConcatStep(authorities, i, AuthorityWire);
      totalLength := totalLength + domainLength + 10 + dataLength;
    }
    assert authorities[..|authorities|] == authorities;
  }

  /** `encodeAuthorities`: a first pass adds up the record sizes, a second
      writes each record into a buffer of that size. */
  method EncodeAuthorities(authorities: seq<Authority>) returns (bytes: seq<uint8>)
    requires forall i :: 0 <= i < |authorities| ==> SingleUnits(authorities[i].name) && SingleUnits(authorities[i].data)
    ensures bytes == Concat(authorities, AuthorityWire)
  {
    var totalLength := AuthoritiesLength(authorities);
    var buffer := new uint8[totalLength](_ => 0);
    var currentOffset := 0;
    for i := 0 to |authorities|
      invariant currentOffset == |Concat(authorities[..i], AuthorityWire)| <= buffer.Length
      invariant buffer[..currentOffset] == Concat(authorities[..i], AuthorityWire)
    {
      currentOffset := AppendAuthority(buffer, currentOffset, authorities, i);
    }
    assert authorities[..|authorities|] == authorities;
    assert buffer[..] == buffer[..currentOffset];
    bytes := buffer[..];
  }

  /** `encodeAdditional`: the same code as `encodeAuthorities`, applied to
      the additional section. */
  method EncodeAdditional(additional: seq<Additional>) returns (bytes: seq<uint8>)
    requires forall i :: 0 <= i < |additional| ==> SingleUnits(additional[i].name) && SingleUnits(additional[i].data)
    ensures bytes == Concat(additional, AuthorityWire)
  {
    bytes := EncodeAuthorities(additional);
  }

  /** Every string the encoder walks character by character is made of
      single UTF-16 code units. */
  predicate Writable(r: Response)
  {
    && (forall i :: 0 <= i < |r.questions| ==> SingleUnits(r.questions[i].name))
    && (forall i :: 0 <= i < |r.answers| ==> SingleUnits(r.answers[i].name))
    && (forall i :: 0 <= i < |r.answers| && r.answers[i].data.Text? ==> SingleUnits(r.answers[i].data.text))
    && (forall i :: 0 <= i < |r.authorities| ==> SingleUnits(r.authorities[i].name) && SingleUnits(r.authorities[i].data))
    && (forall i :: 0 <= i < |r.additional| ==> SingleUnits(r.additional[i].name) && SingleUnits(r.additional[i].data))
  }

  /** `encodeDNSResponse`: the header (or the error it throws), the four
      sections, then all five copied one after the other into a buffer of
      their total length. */
  method EncodeDNSResponse(types: Enum, classes: Enum, response: Response) returns (r: Result<seq<uint8>>)
    requires Writable(response)
    ensures r == EncodeResponse(types, classes, response)
  {
    var header := EncodeHeader(response);
    if header.Failure? {
      return Failure(header.error);
    }
    var headerBytes := header.value;
    var questionBytes := EncodeQuestions(types, classes, response.questions);
    var answerBytes := EncodeAnswers(response.answers);
    var authorityBytes := EncodeAuthorities(response.authorities);
    var additionalBytes := EncodeAdditional(response.additional);
    var bytes := Assemble(headerBytes, questionBytes, answerBytes, authorityBytes, additionalBytes);
    r := Success(bytes);
  }

  /** The final copy of `encodeDNSResponse`: a buffer of the total length,
      each part `set` at the offset where the previous one ended. */
  method Assemble(headerBytes: seq<uint8>, questionBytes: seq<uint8>, answerBytes: seq<uint8>,
                  authorityBytes: seq<uint8>, additionalBytes: seq<uint8>) returns (bytes: seq<uint8>)
    ensures bytes == headerBytes + (questionBytes + answerBytes + authorityBytes + additionalBytes)
  {
    var totalLength := |headerBytes| + |questionBytes| + |answerBytes| + |authorityBytes| + |additionalBytes|;
    var result := new uint8[totalLength](_ => 0);
    Write5(result, 0, headerBytes, questionBytes, answerBytes, authorityBytes, additionalBytes);
    assert result[..] == result[0..totalLength];
    bytes := result[..];
    Assoc(headerBytes, questionBytes + answerBytes + authorityBytes, additionalBytes);
  }

  // ---------------------------------------------------------------------
  // Properties
  // ---------------------------------------------------------------------

  /** The position of a section in the order the header checks them. */
  function Rank(s: Section): nat
  {
    match s
    case Questions => 0
    case Answers => 1
    case Authorities => 2
    case Additional => 3
  }

  /** Encoding fails exactly when some section holds more than 65535
      records, and the error names the first such section. */
  lemma EncodeResponseFailure(types: Enum, classes: Enum, r: Response)
    ensures EncodeResponse(types, classes, r).Failure? <==> exists s :: Count(r, s) > MaxCount
    ensures EncodeResponse(types, classes, r).Failure? ==>
              && EncodeResponse(types, classes, r).error.TooManyRecords?
              && Count(r, EncodeResponse(types, classes, r).error.section) > MaxCount
              && forall s :: Rank(s) < Rank(EncodeResponse(types, classes, r).error.section) ==> Count(r, s) <= MaxCount
  {
    if Overfull(r).Some? {
      assert Count(r, Overfull(r).value) > MaxCount;
    } else {
      forall s ensures Count(r, s) <= MaxCount {
        match s
        case Questions =>
        case Answers =>
        case Authorities =>
        case Additional =>
      }
    }
  }

  /** A 16-bit field placed after the bytes `p` reads back at offset `|p|`. */
  lemma ReadField16(p: seq<uint8>, v: uint16, s: seq<uint8>)
    ensures ReadU16(p + BE16(v) + s, |p|) == v
  {
    var a := p + BE16(v) + s;
    assert a[|p|] == BE16(v)[0] && a[|p| + 1] == BE16(v)[1];
  }

  /** A 32-bit field placed after the bytes `p` reads back at offset `|p|`. */
  lemma ReadField32(p: seq<uint8>, v: uint32, s: seq<uint8>)
    ensures ReadU32(p + BE32(v) + s, |p|) == v
  {
    var a := p + BE32(v) + s;
    var hi, lo := BE16(v / 0x1_0000), BE16(v % 0x1_0000);
    assert a == p + hi + (lo + s);
    ReadField16(p, v / 0x1_0000, lo + s);
    assert a == (p + hi) + lo + s;
    ReadField16(p + hi, v % 0x1_0000, s);
  }

  /** The header, followed by anything, holds the identifier, the flags
      and the four section counts as big-endian words at offsets 0, 2, 4,
      6, 8 and 10. */
  lemma HeaderLayout(r: Response, rest: seq<uint8>)
    requires Overfull(r).None?
    ensures ReadU16(HeaderWire(r) + rest, 0) == r.transactionId
    ensures ReadU16(HeaderWire(r) + rest, 2) == r.flags
    ensures ReadU16(HeaderWire(r) + rest, 4) == |r.questions|
    ensures ReadU16(HeaderWire(r) + rest, 6) == |r.answers|
    ensures ReadU16(HeaderWire(r) + rest, 8) == |r.authorities|
    ensures ReadU16(HeaderWire(r) + rest, 10) == |r.additional|
  {
    var m := HeaderWire(r) + rest;
    var id, fl := BE16(r.transactionId), BE16(r.flags);
    var qd, an, ns, ar := BE16(|r.questions|), BE16(|r.answers|), BE16(|r.authorities|), BE16(|r.additional|);
    assert m == [] + id + (fl + qd + an + ns + ar + rest);
    ReadField16([], r.transactionId, fl + qd + an + ns + ar + rest);
    assert m == id + fl + (qd + an + ns + ar + rest);
    ReadField16(id, r.flags, qd + an + ns + ar + rest);
    assert m == id + fl + qd + (an + ns + ar + rest);
    ReadField16(id + fl, |r.questions|, an + ns + ar + rest);
    assert m == id + fl + qd + an + (ns + ar + rest);
    ReadField16(id + fl + qd, |r.answers|, ns + ar + rest);
    assert m == id + fl + qd + an + ns + (ar + rest);
    ReadField16(id + fl + qd + an, |r.authorities|, ar + rest);
    assert m == id + fl + qd + an + ns + ar + rest;
    ReadField16(id + fl + qd + an + ns, |r.additional|, rest);
  }

  /** A successfully encoded message is its header followed by its
      sections, so the header words read back from the message itself. */
  lemma ResponseHeader(types: Enum, classes: Enum, r: Response)
    requires EncodeResponse(types, classes, r).Success?
    ensures |EncodeResponse(types, classes, r).value| >= 12
    ensures ReadU16(EncodeResponse(types, classes, r).value, 0) == r.transactionId
    ensures ReadU16(EncodeResponse(types, classes, r).value, 2) == r.flags
    ensures ReadU16(EncodeResponse(types, classes, r).value, 4) == |r.questions|
    ensures ReadU16(EncodeResponse(types, classes, r).value, 6) == |r.answers|
    ensures ReadU16(EncodeResponse(types, classes, r).value, 8) == |r.authorities|
    ensures ReadU16(EncodeResponse(types, classes, r).value, 10) == |r.additional|
  {
    HeaderLayout(r, Body(types, classes, r));
  }

  /** Six fields laid out one after the other, followed by anything: the
      four fixed-width words sit at 0, 2, 4 and 8 bytes past the first
      field, and the last field 10 bytes past it. */
  lemma RecordLayout(name: seq<uint8>, rtype: uint16, rClass: uint16, ttl: uint32, size: uint16, data: seq<uint8>, rest: seq<uint8>)
    ensures var m, n := name + BE16(rtype) + BE16(rClass) + BE32(ttl) + BE16(size) + data + rest, |name|;
      && m[..n] == name
      && ReadU16(m, n) == rtype && ReadU16(m, n + 2) == rClass && ReadU32(m, n + 4) == ttl
      && ReadU16(m, n + 8) == size
      && m[n + 10..] == data + rest
      && m == name + (BE16(rtype) + BE16(rClass) + BE32(ttl) + BE16(size) + data + rest)
  {
    var t, c, l, z := BE16(rtype), BE16(rClass), BE32(ttl), BE16(size);
    var m := name + t + c + l + z + data + rest;
    assert m == name + t + (c + l + z + data + rest);
    ReadField16(name, rtype, c + l + z + data + rest);
    assert m == name + t + c + (l + z + data + rest);
    ReadField16(name + t, rClass, l + z + data + rest);
    assert m == name + t + c + l + (z + data + rest);
    ReadField32(name + t + c, ttl, z + data + rest);
    assert m == name + t + c + l + z + (data + rest);
    ReadField16(name + t + c + l, size, data + rest);
    assert m == name + (t + c + l + z + data + rest);
  }

  /** An answer record, followed by anything, starts with the encoded owner
      name, which decodes back to the name's non-empty labels; type, class,
      time to live and data length follow at fixed offsets, the length
      being the data's size modulo 65536; then comes the data itself. */
  lemma AnswerLayout(a: Answer, rest: seq<uint8>)
    ensures var m, n := AnswerWire(a) + rest, |EncodeName(a.name)|;
      && |AnswerWire(a)| == n + 10 + |Payload(a.data)|
      && m[..n] == EncodeName(a.name)
      && ReadU16(m, n) == a.rtype && ReadU16(m, n + 2) == a.rClass && ReadU32(m, n + 4) == a.ttl
      && ReadU16(m, n + 8) == |Payload(a.data)| % 0x1_0000
      && m[n + 10..n + 10 + |Payload(a.data)|] == Payload(a.data)
    ensures NameEncodable(a.name) ==>
      DecodeName(AnswerWire(a) + rest) == Some((Join(NonEmpty(Split(a.name))), |EncodeName(a.name)| - 1))
  {
    var name, p := EncodeName(a.name), Payload(a.data);
    RecordLayout(name, a.rtype, a.rClass, a.ttl, Length16(|p|), p, rest);
    assert (p + rest)[..|p|] == p;
    if NameEncodable(a.name) {
      DecodeEncodeName(a.name, BE16(a.rtype) + BE16(a.rClass) + BE32(a.ttl) + BE16(Length16(|p|)) + p + rest);
    }
  }

  /** An authority or additional record, followed by anything: the owner
      name first, then type, class 1, time to live and data length at fixed
      offsets, then the data string encoded as a domain name, which decodes
      back to that string's non-empty labels. */
  lemma AuthorityLayout(r: Authority, rest: seq<uint8>)
    ensures var m, n := AuthorityWire(r) + rest, |EncodeName(r.name)|;
      && |AuthorityWire(r)| == n + 10 + |EncodeName(r.data)|
      && m[..n] == EncodeName(r.name)
      && ReadU16(m, n) == r.rtype && ReadU16(m, n + 2) == 1 && ReadU32(m, n + 4) == r.ttl
      && ReadU16(m, n + 8) == |EncodeName(r.data)| % 0x1_0000
      && m[n + 10..n + 10 + |EncodeName(r.data)|] == EncodeName(r.data)
    ensures NameEncodable(r.name) ==>
      DecodeName(AuthorityWire(r) + rest) == Some((Join(NonEmpty(Split(r.name))), |EncodeName(r.name)| - 1))
    ensures NameEncodable(r.data) ==>
      DecodeName((AuthorityWire(r) + rest)[|EncodeName(r.name)| + 10..])
        == Some((Join(NonEmpty(Split(r.data))), |EncodeName(r.data)| - 1))
  {
    var name, d := EncodeName(r.name), EncodeName(r.data);
    RecordLayout(name, r.rtype, 1, r.ttl, Length16(|d|), d, rest);
    assert (d + rest)[..|d|] == d;
    if NameEncodable(r.name) {
      DecodeEncodeName(r.name, BE16(r.rtype) + BE16(1) + BE32(r.ttl) + BE16(Length16(|d|)) + d + rest);
    }
    if NameEncodable(r.data) {
      DecodeEncodeName(r.data, rest);
    }
  }

  /** Record `i` of a section sits right after the records before it. */
  lemma RecordAt<T>(xs: seq<T>, i: nat, w: T -> seq<uint8>)
    requires i < |xs|
    ensures |Concat(xs[..i], w)| + |w(xs[i])| <= |Concat(xs, w)|
    ensures Concat(xs, w)[|Concat(xs[..i], w)|..|Concat(xs[..i], w)| + |w(xs[i])|] == w(xs[i])
  {
    ConcatStep(xs, i, w);
    ConcatPrefix(xs, i + 1, w);
    var k, c := |Concat(xs[..i], w)|, Concat(xs, w);
    assert c[..k + |w(xs[i])|] == Concat(xs[..i], w) + w(xs[i]);
    assert c[k..k + |w(xs[i])|] == c[..k + |w(xs[i])|][k..];
  }

  /** Encoding two lists of records back to back is encoding their
      concatenation. */
  lemma {:induction false} ConcatAppend<T>(xs: seq<T>, ys: seq<T>, w: T -> seq<uint8>)
    ensures Concat(xs + ys, w) == Concat(xs, w) + Concat(ys, w)
  {
    if xs == [] {
      assert xs + ys == ys;
    } else {
      assert (xs + ys)[1..] == xs[1..] + ys;
      ConcatAppend(xs[1..], ys, w);
      Assoc(w(xs[0]), Concat(xs[1..], w), Concat(ys, w));
    }
  }

  /** Section sizes counted record by record from the label-by-label name
      size: name + 4 for a question, name + 10 + data for the others. */
  function QuestionsSize(qs: seq<Question>): nat
  {
    if qs == [] then 0 else NameSize(qs[0].name) + 4 + QuestionsSize(qs[1..])
  }

  function AnswersSize(rs: seq<Answer>): nat
  {
    if rs == [] then 0 else NameSize(rs[0].name) + 10 + DataLength(rs[0].data) + AnswersSize(rs[1..])
  }

  function AuthoritiesSize(rs: seq<Authority>): nat
  {
    if rs == [] then 0 else NameSize(rs[0].name) + 10 + NameSize(rs[0].data) + AuthoritiesSize(rs[1..])
  }

  /** The question section is as long as the sizes of its records add up to. */
  lemma {:induction false} QuestionsLengthSum(types: Enum, classes: Enum, qs: seq<Question>)
    ensures |Concat(qs, QuestionEncoder(types, classes))| == QuestionsSize(qs)
  {
    if qs != [] {
      EncodeNameSize(qs[0].name);
      QuestionsLengthSum(types, classes, qs[1..]);
    }
  }

  /** The answer section is as long as the sizes of its records add up to. */
  lemma {:induction false} AnswersLengthSum(rs: seq<Answer>)
    ensures |Concat(rs, AnswerWire)| == AnswersSize(rs)
  {
    if rs != [] {
      EncodeNameSize(rs[0].name);
      AnswersLengthSum(rs[1..]);
    }
  }

  /** An authority or additional section is as long as the sizes of its
      records add up to. */
  lemma {:induction false} AuthoritiesLengthSum(rs: seq<Authority>)
    ensures |Concat(rs, AuthorityWire)| == AuthoritiesSize(rs)
  {
    if rs != [] {
      EncodeNameSize(rs[0].name);
      EncodeNameSize(rs[0].data);
      AuthoritiesLengthSum(rs[1..]);
    }
  }

  /** An encoded message is the 12 header bytes plus the sizes of all its
      records. */
  lemma ResponseLength(types: Enum, classes: Enum, r: Response)
    requires EncodeResponse(types, classes, r).Success?
    ensures |EncodeResponse(types, classes, r).value|
            == 12 + QuestionsSize(r.questions) + AnswersSize(r.answers)
               + AuthoritiesSize(r.authorities) + AuthoritiesSize(r.additional)
  {
    QuestionsLengthSum(types, classes, r.questions);
    AnswersLengthSum(r.answers);
    AuthoritiesLengthSum(r.authorities);
    AuthoritiesLengthSum(r.additional);
  }
}
