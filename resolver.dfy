/** `DefaultResolver`: the codec of the header flag word (section 4.1.1 of
    RFC 1035, with the two DNSSEC bits of section 3.2 of RFC 4035) and the
    fixed reply it gives to every request. */
module DefaultResolver {
  import opened Wire
  import opened DnsBasic
  import opened DnsRequest
  import opened DnsResponse
  import opened DnsRoundTrip

  /** The 16-bit flag word, as the bit operations see it. */
  type Word = bv16

  // ---------------------------------------------------------------------
  // Specification
  // ---------------------------------------------------------------------

  /** `flags.x ? mask : 0`: an unset flag counts as false. */
  function Bit(b: Option<bool>, mask: Word): Word
  {
    if b == Some(true) then mask else 0
  }

  /** `(n ?? 0) & 0x0F`: the low four bits of a code, 0 when it is unset.
      For every integer this is its remainder modulo 16. */
  function Nibble(n: Option<int>): (r: Word)
    ensures r < 16
  {
    ((if n.Some? then n.value else 0) % 16) as Word
  }

  /** The word `encodeFlags` builds: QR at bit 15, the operation code at
      bits 11 to 14, AA, TC, RD and RA at bits 10 to 7, the two DNSSEC bits
      at 5 and 4, and the reply code at bits 0 to 3. Bit 6 (Z) is never set. */
  function FlagWord(f: Flags): Word
  {
    Bit(f.isResponse, 0x8000) | (Nibble(f.operationCode) << 11) | Bit(f.isAuthoritative, 0x0400)
      | Bit(f.isTruncated, 0x0200) | Bit(f.recursionDesired, 0x0100) | Bit(f.recursionAvailable, 0x0080)
      | Bit(f.answerAuthenticated, 0x0020) | Bit(f.nonAuthenticatedData, 0x0010) | Nibble(f.replyCode)
  }

  /** `decodeFlags`: each flag tested by its mask, the two codes extracted
      by shift and mask; the result has no `z` field. Every other field is
      present, and each code is a four-bit number. */
  function DecodeFlags(flags: Word): (f: Flags)
    ensures f.z.None?
    ensures f.isResponse == Some(flags >= 0x8000)
    ensures f.operationCode.Some? && 0 <= f.operationCode.value < 16
    ensures f.replyCode.Some? && 0 <= f.replyCode.value < 16
    ensures f.isAuthoritative.Some? && f.isTruncated.Some? && f.recursionDesired.Some?
    ensures f.recursionAvailable.Some? && f.answerAuthenticated.Some? && f.nonAuthenticatedData.Some?
  {
    Flags(
      isResponse := Some(flags & 0x8000 != 0),
      operationCode := Some(((flags >> 11) & 0x0F) as int),
      isAuthoritative := Some(flags & 0x0400 != 0),
      isTruncated := Some(flags & 0x0200 != 0),
      recursionDesired := Some(flags & 0x0100 != 0),
      recursionAvailable := Some(flags & 0x0080 != 0),
      z := None,
      answerAuthenticated := Some(flags & 0x0020 != 0),
      nonAuthenticatedData := Some(flags & 0x0010 != 0),
      replyCode := Some((flags & 0x000F) as int))
  }

  /** What survives encoding: every flag set or not (unset read as false),
      both codes reduced modulo 16, and no `z`. */
  function Normalize(f: Flags): Flags
  {
    Flags(
      isResponse := Some(f.isResponse == Some(true)),
      operationCode := Some(Nibble(f.operationCode) as int),
      isAuthoritative := Some(f.isAuthoritative == Some(true)),
      isTruncated := Some(f.isTruncated == Some(true)),
      recursionDesired := Some(f.recursionDesired == Some(true)),
      recursionAvailable := Some(f.recursionAvailable == Some(true)),
      z := None,
      answerAuthenticated := Some(f.answerAuthenticated == Some(true)),
      nonAuthenticatedData := Some(f.nonAuthenticatedData == Some(true)),
      replyCode := Some(Nibble(f.replyCode) as int))
  }

  /** The flags `resolve` asks for: a response with reply code 0. */
  const ReplyFlags := Flags(Some(true), None, None, None, None, None, None, None, None, Some(0))

  /** The one answer `resolve` gives: the first question's name, type A (1),
      class IN (1), a time to live of 3600 seconds and the address 1.1.1.1. */
  function FixedAnswer(name: string): Answer
  {
    Answer(name, 1, 3600, Binary([1, 1, 1, 1]), 1)
  }

  /** `resolve`: the request's identifier and questions, one fixed answer
      for the first question, no authority or additional records. A request
      without questions has no first question to answer. */
  function Resolve(request: Request): (r: Result<Response>)
    ensures r.Failure? <==> request.questions == []
    ensures r.Failure? ==> r.error == NoQuestion
    ensures r.Success? ==>
      && r.value.transactionId == request.transactionId
      && r.value.questions == request.questions
      && r.value.answers == [FixedAnswer(request.questions[0].name)]
      && r.value.authorities == [] && r.value.additional == []
      && DecodeFlags(r.value.flags as Word) == Normalize(ReplyFlags)
  {
    if request.questions == [] then Failure(NoQuestion)
    else Success(Response(request.transactionId, FlagWord(ReplyFlags) as int, request.questions,
                          [FixedAnswer(request.questions[0].name)], [], []))
  }

  // ---------------------------------------------------------------------
  // Implementation
  // ---------------------------------------------------------------------

  /** `encodeFlags`: starting from 0, each field is or-ed into the word. */
  method EncodeFlags(flags: Flags) returns (word: uint16)
    ensures word as Word == FlagWord(flags)
  {
    var flag: Word := 0;
    flag := flag | Bit(flags.isResponse, 0x8000);
    flag := flag | (Nibble(flags.operationCode) << 11);
    flag := flag | Bit(flags.isAuthoritative, 0x0400);
    flag := flag | Bit(flags.isTruncated, 0x0200);
    flag := flag | Bit(flags.recursionDesired, 0x0100);
    flag := flag | Bit(flags.recursionAvailable, 0x0080);
    flag := flag | Bit(flags.answerAuthenticated, 0x0020);
    flag := flag | Bit(flags.nonAuthenticatedData, 0x0010);
    flag := flag | Nibble(flags.replyCode);
    word := flag as int;
  }

  // ---------------------------------------------------------------------
  // Properties
  // ---------------------------------------------------------------------

  /** In an encoded word each flag's bit is set exactly when the flag is
      true, each code sits in its own four bits, and bit 6 (Z) is clear. */
  lemma EncodedBits(f: Flags)
    ensures FlagWord(f) & 0x8000 != 0 <==> f.isResponse == Some(true)
    ensures (FlagWord(f) >> 11) & 0x0F == Nibble(f.operationCode)
    ensures FlagWord(f) & 0x0400 != 0 <==> f.isAuthoritative == Some(true)
    ensures FlagWord(f) & 0x0200 != 0 <==> f.isTruncated == Some(true)
    ensures FlagWord(f) & 0x0100 != 0 <==> f.recursionDesired == Some(true)
    ensures FlagWord(f) & 0x0080 != 0 <==> f.recursionAvailable == Some(true)
    ensures FlagWord(f) & 0x0040 == 0
    ensures FlagWord(f) & 0x0020 != 0 <==> f.answerAuthenticated == Some(true)
    ensures FlagWord(f) & 0x0010 != 0 <==> f.nonAuthenticatedData == Some(true)
    ensures FlagWord(f) & 0x000F == Nibble(f.replyCode)
  {
  }

  /** Decoding an encoded word gives back every flag (unset read as false)
      and both codes modulo 16; `z` is lost. */
  lemma DecodeEncodeFlags(f: Flags)
    ensures DecodeFlags(FlagWord(f)) == Normalize(f)
  {
    EncodedBits(f);
  }

  /** A four-bit field read out of a word and turned into a number is
      written back unchanged. */
  lemma NibbleOfField(x: Word)
    requires x < 16
    ensures Nibble(Some(x as int)) == x
  {
  }

  /** A flag read out of a word by its one-bit mask is written back as
      that bit. */
  lemma BitOfField(w: Word, mask: Word)
    requires mask in {0x8000, 0x0400, 0x0200, 0x0100, 0x0080, 0x0020, 0x0010}
    ensures Bit(Some(w & mask != 0), mask) == w & mask
  {
  }

  /** Encoding a decoded word gives back the word with bit 6 (Z) cleared. */
  lemma EncodeDecodeFlags(w: Word)
    ensures FlagWord(DecodeFlags(w)) == w & 0xFFBF
  {
    var f := DecodeFlags(w);
    NibbleOfField((w >> 11) & 0x0F);
    NibbleOfField(w & 0x000F);
    BitOfField(w, 0x8000);
    BitOfField(w, 0x0400);
    BitOfField(w, 0x0200);
    BitOfField(w, 0x0100);
    BitOfField(w, 0x0080);
    BitOfField(w, 0x0020);
    BitOfField(w, 0x0010);
    WordOfFields(f, w);
    Fields(w);
  }

  /** The word of some flags whose every field is read out of `w`. */
  lemma WordOfFields(f: Flags, w: Word)
    requires Bit(f.isResponse, 0x8000) == w & 0x8000 && Nibble(f.operationCode) == (w >> 11) & 0x0F
    requires Bit(f.isAuthoritative, 0x0400) == w & 0x0400 && Bit(f.isTruncated, 0x0200) == w & 0x0200
    requires Bit(f.recursionDesired, 0x0100) == w & 0x0100 && Bit(f.recursionAvailable, 0x0080) == w & 0x0080
    requires Bit(f.answerAuthenticated, 0x0020) == w & 0x0020 && Bit(f.nonAuthenticatedData, 0x0010) == w & 0x0010
    requires Nibble(f.replyCode) == w & 0x000F
    ensures FlagWord(f) == (w & 0x8000) | (((w >> 11) & 0x0F) << 11) | (w & 0x0400) | (w & 0x0200) | (w & 0x0100)
                           | (w & 0x0080) | (w & 0x0020) | (w & 0x0010) | (w & 0x000F)
  {
  }

  /** The fields of a word, each kept by its mask, make up the word with
      bit 6 cleared. */
  lemma Fields(w: Word)
    ensures (w & 0x8000) | (((w >> 11) & 0x0F) << 11) | (w & 0x0400) | (w & 0x0200) | (w & 0x0100)
            | (w & 0x0080) | (w & 0x0020) | (w & 0x0010) | (w & 0x000F) == w & 0xFFBF
  {
  }

  /** Bit 6 of an encoded word is always clear, whatever `z` says. */
  lemma ReservedBitClear(f: Flags, z: Option<bool>)
    ensures FlagWord(f) & 0x0040 == 0
    ensures FlagWord(f.(z := z)) == FlagWord(f)
  {
  }

  /** Each code lands in its own four bits: changing the operation code or
      the reply code, to any integer, leaves every other bit as it was. */
  lemma CodesIsolated(f: Flags, op: Option<int>, rc: Option<int>)
    ensures FlagWord(f.(operationCode := op)) & 0x87FF == FlagWord(f) & 0x87FF
    ensures FlagWord(f.(replyCode := rc)) & 0xFFF0 == FlagWord(f) & 0xFFF0
  {
    assert (Nibble(op) << 11) & 0x87FF == 0;
    assert (Nibble(f.operationCode) << 11) & 0x87FF == 0;
  }

  /** The reply flags are the word 0x8000: QR set, everything else clear. */
  lemma ReplyFlagWord()
    ensures FlagWord(ReplyFlags) == 0x8000
  {
  }

  /** A reply to a request with one question, encoded and read back by the
      request parser, carries the request's identifier, the flag word
      0x8000 and the question, its name written in canonical form. */
  lemma ResolveRoundTrip(types: Enum, classes: Enum, request: Request)
    requires |request.questions| == 1 && Recoverable(types, classes, request.questions[0])
    ensures Resolve(request).Success?
    ensures EncodeResponse(types, classes, Resolve(request).value).Success?
    ensures ParseRequest(EncodeResponse(types, classes, Resolve(request).value).value, types, classes)
            == Success(Request(request.transactionId, 0x8000, [Reread(request.questions[0])]))
  {
    ReplyFlagWord();
    ResponseAsRequest(types, classes, Resolve(request).value);
  }
}
