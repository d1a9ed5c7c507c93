/** The record shapes of a DNS message and the domain-name codec of
    section 3.1 of RFC 1035: a dotted name becomes a sequence of
    length-prefixed labels closed by a zero byte. Message compression is
    not supported: a 0xC0 prefix is read as an ordinary label length. */
module DnsBasic {
  import opened Wire

  // ---------------------------------------------------------------------
  // Record shapes
  // ---------------------------------------------------------------------

  /** A question. `qtype` and `rClass` hold the key of the type and class
      enumerations; `None` is the `undefined` an unmapped reverse lookup
      yields. `length` is what the request parser reports as consumed. */
  datatype Question = Question(name: string, qtype: Option<string>, rClass: Option<string>, length: nat)

  /** Answer payload: raw bytes, or a string written one code unit per byte. */
  datatype RData = Binary(bytes: seq<uint8>) | Text(text: string)

  datatype Answer = Answer(name: string, rtype: uint16, ttl: uint32, data: RData, rClass: uint16)

  /** An authority record; its `data` is a domain name. */
  datatype Authority = Authority(name: string, rtype: uint16, ttl: uint32, data: string)

  /** An additional record has exactly the shape of an authority record. */
  type Additional = Authority

  /** The decomposed header flag word; every field is optional. */
  datatype Flags = Flags(
    isResponse: Option<bool>,
    operationCode: Option<int>,
    isAuthoritative: Option<bool>,
    isTruncated: Option<bool>,
    recursionDesired: Option<bool>,
    recursionAvailable: Option<bool>,
    z: Option<bool>,
    answerAuthenticated: Option<bool>,
    nonAuthenticatedData: Option<bool>,
    replyCode: Option<int>)

  /** A numeric TypeScript enumeration (record type or record class): the
      forward table from key to code and the reverse table from code to key. */
  datatype Enum = Enum(codes: map<string, uint16>, names: map<uint16, string>)

  /** The two tables of an enumeration are inverse to each other. */
  ghost predicate Consistent(e: Enum)
  {
    && (forall k :: k in e.codes ==> e.codes[k] in e.names && e.names[e.codes[k]] == k)
    && (forall c :: c in e.names ==> e.names[c] in e.codes && e.codes[e.names[c]] == c)
  }

  /** Reverse lookup `Enum[code]`; `None` stands for `undefined`. In a
      consistent enumeration a key found this way maps back to `code`. */
  function NameOf(e: Enum, code: uint16): (r: Option<string>)
    ensures r.None? <==> code !in e.names
    ensures Consistent(e) && r.Some? ==> r.value in e.codes && e.codes[r.value] == code
  {
    if code in e.names then Some(e.names[code]) else None
  }

  // ---------------------------------------------------------------------
  // Splitting and joining dotted names (`String.split(".")`, `join(".")`)
  // ---------------------------------------------------------------------

  /** `s.split(".")`: the pieces between dots, empty ones included. */
  function Split(s: string): (r: seq<string>)
    ensures |r| >= 1
    ensures forall i, j :: 0 <= i < |r| && 0 <= j < |r[i]| ==> r[i][j] != '.'
  {
    if s == [] then [""]
    else if s[0] == '.' then [""] + Split(s[1..])
    else var rest := Split(s[1..]); [[s[0]] + rest[0]] + rest[1..]
  }

  /** `labels.join(".")`. */
  function Join(ls: seq<string>): string
  {
    if |ls| == 0 then ""
    else if |ls| == 1 then ls[0]
    else ls[0] + "." + Join(ls[1..])
  }

  /** Joining the pieces of a split gives back the original text. */
  lemma {:induction false} JoinSplit(s: string)
    ensures Join(Split(s)) == s
  {
    if s == [] {
    } else if s[0] == '.' {
      JoinSplit(s[1..]);
      assert s == "." + s[1..];
    } else {
      var rest := Split(s[1..]);
      JoinSplit(s[1..]);
      if |rest| == 1 {
        assert Split(s) == [[s[0]] + rest[0]];
      } else {
        assert Split(s)[1..] == rest[1..];
        assert Join(rest) == rest[0] + "." + Join(rest[1..]);
      }
    }
  }

  /** A dot-free label at the head of a text is glued to the first piece
      of the rest. */
  lemma {:induction false} SplitAfterLabel(l: string, rest: string)
    requires forall j :: 0 <= j < |l| ==> l[j] != '.'
    ensures Split(l + rest) == [l + Split(rest)[0]] + Split(rest)[1..]
    decreases |l|
  {
    if l == [] {
      assert l + rest == rest;
      assert l + Split(rest)[0] == Split(rest)[0];
      assert Split(rest) == [Split(rest)[0]] + Split(rest)[1..];
    } else {
      SplitAfterLabel(l[1..], rest);
      assert (l + rest)[1..] == l[1..] + rest;
      assert [l[0]] + (l[1..] + Split(rest)[0]) == l + Split(rest)[0];
    }
  }

  /** Splitting dot-free pieces joined by dots gives the pieces back. */
  lemma {:induction false} SplitJoin(ls: seq<string>)
    requires |ls| >= 1
    requires forall i, j :: 0 <= i < |ls| && 0 <= j < |ls[i]| ==> ls[i][j] != '.'
    ensures Split(Join(ls)) == ls
  {
    if |ls| == 1 {
      SplitAfterLabel(ls[0], "");
      assert ls[0] + "" == ls[0];
    } else {
      SplitJoin(ls[1..]);
      var rest := "." + Join(ls[1..]);
      assert Join(ls) == ls[0] + rest;
      SplitAfterLabel(ls[0], rest);
      assert rest[1..] == Join(ls[1..]);
      assert Split(rest) == [""] + ls[1..];
      assert ls[0] + "" == ls[0];
      assert ls == [ls[0]] + ls[1..];
    }
  }

  /** The labels that survive the encoder: the non-empty ones, in order. */
  function NonEmpty(ls: seq<string>): (r: seq<string>)
    ensures |r| <= |ls|
    ensures forall i :: 0 <= i < |r| ==> r[i] != ""
  {
    if ls == [] then []
    else if ls[0] == "" then NonEmpty(ls[1..])
    else [ls[0]] + NonEmpty(ls[1..])
  }

  // ---------------------------------------------------------------------
  // Encoding (`domainToUint8Array`)
  // ---------------------------------------------------------------------

  /** A label the encoder writes without wrap-around: its length and each of
      its character codes fit in one byte. */
  predicate LabelEncodable(l: string)
  {
    |l| < 0x100 && forall i :: 0 <= i < |l| ==> l[i] as int < 0x100
  }

  predicate LabelsEncodable(ls: seq<string>)
  {
    forall i :: 0 <= i < |ls| ==> LabelEncodable(ls[i])
  }

  /** A name every label of which is `LabelEncodable`. */
  predicate NameEncodable(d: string)
  {
    LabelsEncodable(Split(d))
  }

  /** Every character is one UTF-16 code unit, so that `label.length` and a
      `for...of` walk over the label count the same characters. */
  predicate SingleUnits(s: string)
  {
    forall i :: 0 <= i < |s| ==> s[i] as int < 0x1_0000
  }

  /** The character codes of a label, as `charCodeAt` gives them. */
  function Codes(l: string): (r: seq<int>)
    ensures |r| == |l|
  {
    seq(|l|, i requires 0 <= i < |l| => l[i] as int)
  }

  /** The numbers pushed for one label: nothing for an empty label, else
      its length followed by its character codes. */
  function LabelNumbers(l: string): seq<int>
  {
    if |l| == 0 then [] else [|l|] + Codes(l)
  }

  /** The numbers pushed for all labels, in order, without the terminator. */
  function LabelsNumbers(ls: seq<string>): seq<int>
  {
    if ls == [] then [] else LabelNumbers(ls[0]) + LabelsNumbers(ls[1..])
  }

  /** The number array `domainToUint8Array` builds for `d`. */
  function NameNumbers(d: string): seq<int>
  {
    LabelsNumbers(Split(d)) + [0]
  }

  /** `new Uint8Array(numbers)`: every number kept modulo 256. */
  function ToUint8Array(ns: seq<int>): (r: seq<uint8>)
    ensures |r| == |ns|
  {
    seq(|ns|, i requires 0 <= i < |ns| => Byte(ns[i]))
  }

  /** The bytes `domainToUint8Array` returns for `d`. */
  function EncodeName(d: string): seq<uint8>
  {
    ToUint8Array(NameNumbers(d))
  }

  /** Encoded size computed label by label: one length byte plus the label
      for each non-empty label, plus one terminator byte. */
  function NameSize(d: string): nat
  {
    LabelsSize(Split(d)) + 1
  }

  function LabelsSize(ls: seq<string>): nat
  {
    if ls == [] then 0
    else (if ls[0] == "" then 0 else |ls[0]| + 1) + LabelsSize(ls[1..])
  }

  lemma {:induction false} LabelsNumbersSize(ls: seq<string>)
    ensures |LabelsNumbers(ls)| == LabelsSize(ls)
  {
    if ls != [] {
      LabelsNumbersSize(ls[1..]);
    }
  }

  /** The encoding is as long as the label-by-label count says and ends
      with a zero byte. */
  lemma EncodeNameSize(d: string)
    ensures |EncodeName(d)| == NameSize(d)
    ensures EncodeName(d)[|EncodeName(d)| - 1] == 0
  {
    LabelsNumbersSize(Split(d));
  }

  /** A name with nothing but dots (or nothing at all) encodes to the bare
      terminator. */
  lemma EmptyNames()
    ensures EncodeName("") == [0]
    ensures EncodeName(".") == [0]
  {
    assert Split(".") == ["", ""];
    assert NameNumbers(".") == [0];
  }

  /** A label pushed after some labels comes last. */
  lemma {:induction false} LabelsNumbersSnoc(ls: seq<string>, l: string)
    ensures LabelsNumbers(ls + [l]) == LabelsNumbers(ls) + LabelNumbers(l)
  {
    if ls == [] {
      assert [l][1..] == [];
    } else {
      assert (ls + [l])[1..] == ls[1..] + [l];
      LabelsNumbersSnoc(ls[1..], l);
    }
  }

  lemma LabelsNumbersStep(ls: seq<string>, i: nat)
    requires i < |ls|
    ensures LabelsNumbers(ls[..i + 1]) == LabelsNumbers(ls[..i]) + LabelNumbers(ls[i])
  {
    assert ls[..i + 1] == ls[..i] + [ls[i]];
    LabelsNumbersSnoc(ls[..i], ls[i]);
  }

  /** `domainToUint8Array`: split on dots, then for each non-empty label
      push its length and its character codes, then push the terminator;
      the number array becomes a `Uint8Array`, returned with its length. */
  method DomainToUint8Array(domain: string) returns (bytes: seq<uint8>, length: nat)
    requires SingleUnits(domain)
    ensures bytes == EncodeName(domain)
    ensures length == |bytes|
  {
    var labels := Split(domain);
    var result: seq<int> := [];
    for i := 0 to |labels|
      invariant result == LabelsNumbers(labels[..i])
    {
      LabelsNumbersStep(labels, i);
      result := PushLabel(result, labels[i]);
    }
    assert labels[..|labels|] == labels;
    result := result + [0];
    var uint8Array := ToUint8Array(result);
    bytes, length := uint8Array, |uint8Array|;
  }

  /** The body of the label loop of `domainToUint8Array`: a non-empty label
      pushes its length, then its character codes one by one. */
  method PushLabel(result: seq<int>, lbl: string) returns (r: seq<int>)
    ensures r == result + LabelNumbers(lbl)
  {
    r := result;
    if |lbl| > 0 {
      r := r + [|lbl|];
      for j := 0 to |lbl|
        invariant r == result + [|lbl|] + Codes(lbl)[..j]
      {
        r := r + [lbl[j] as int];
      }
      assert Codes(lbl)[..|lbl|] == Codes(lbl);
    }
  }

  // ---------------------------------------------------------------------
  // Decoding (`uint8ArrayToDomain`)
  // ---------------------------------------------------------------------

  /** The characters `String.fromCharCode` makes of the `count` bytes of
      `a` from `start` on. */
  function Chars(a: seq<uint8>, start: nat, count: nat): (r: string)
    requires start + count <= |a|
    ensures |r| == count
  {
    seq(count, i requires 0 <= i < count => a[start + i] as char)
  }

  function Prepend(p: seq<string>, r: Option<seq<string>>): Option<seq<string>>
  {
    match r
    case None => None
    case Some(s) => Some(p + s)
  }

  /** The labels read from offset `k` of `a` up to the first zero length
      byte found at a label boundary, or `None` when that terminator cannot
      be reached inside `a` (where the implementation reads past the end). */
  function ReadLabels(a: seq<uint8>, k: nat): Option<seq<string>>
    decreases |a| - k
  {
    if k >= |a| then None
    else if a[k] == 0 then Some([])
    else if k + a[k] >= |a| then None
    else Prepend([Chars(a, k + 1, a[k])], ReadLabels(a, k + a[k] + 1))
  }

  /** Bytes consumed by some labels: each label plus its length byte. */
  function LabelsLength(ls: seq<string>): nat
  {
    if ls == [] then 0 else |ls[0]| + 1 + LabelsLength(ls[1..])
  }

  /** What `uint8ArrayToDomain` returns: the labels joined by dots and the
      bytes they take, the terminator not counted. */
  function DecodeName(a: seq<uint8>): Option<(string, nat)>
  {
    match ReadLabels(a, 0)
    case None => None
    case Some(ls) => Some((Join(ls), LabelsLength(ls)))
  }

  lemma PrependPrepend(p: seq<string>, q: seq<string>, r: Option<seq<string>>)
    ensures Prepend(p, Prepend(q, r)) == Prepend(p + q, r)
  {
    if r.Some? {
      assert p + (q + r.value) == p + q + r.value;
    }
  }

  lemma {:induction false} LabelsLengthAppend(ls: seq<string>, l: string)
    ensures LabelsLength(ls + [l]) == LabelsLength(ls) + |l| + 1
  {
    if ls == [] {
      assert [l][1..] == [];
    } else {
      assert (ls + [l])[1..] == ls[1..] + [l];
      LabelsLengthAppend(ls[1..], l);
    }
  }

  /** `uint8ArrayToDomain`: from index 0, read a length byte; stop at zero;
      otherwise read that many bytes as one label and move past it. */
  method Uint8ArrayToDomain(a: seq<uint8>) returns (r: Option<(string, nat)>)
    ensures r == DecodeName(a)
  {
    var labels: seq<string> := [];
    var length: nat := 0;
    var offset: nat := 0;
    if ReadLabels(a, 0).Some? {
      assert [] + ReadLabels(a, 0).value == ReadLabels(a, 0).value;
    }
    while true
      invariant offset <= |a|
      invariant length == LabelsLength(labels)
      invariant ReadLabels(a, 0) == Prepend(labels, ReadLabels(a, offset))
      decreases |a| - offset
    {
      if offset == |a| {
        return None;
      }
      var labelLength: nat := a[offset];
      if labelLength == 0 {
        break;
      }
      length := length + labelLength + 1;
      if offset + labelLength >= |a| {
        return None;
      }
      var lbl := ReadLabel(a, offset + 1, labelLength);
      PrependPrepend(labels, [lbl], ReadLabels(a, offset + labelLength + 1));
      LabelsLengthAppend(labels, lbl);
      labels := labels + [lbl];
      offset := offset + labelLength + 1;
    }
    assert labels + [] == labels;
    r := Some((Join(labels), length));
  }

  /** The inner loop of `uint8ArrayToDomain`: the `count` bytes from
      `start` on, each turned into the character with that code. */
  method ReadLabel(a: seq<uint8>, start: nat, count: nat) returns (lbl: string)
    requires start + count <= |a|
    ensures lbl == Chars(a, start, count)
  {
    lbl := "";
    for i := 0 to count
      invariant lbl == Chars(a, start, count)[..i]
    {
      lbl := lbl + [a[start + i] as char];
    }
  }

  // ---------------------------------------------------------------------
  // The decoder's loop as written, past the end of the input
  // ---------------------------------------------------------------------

  /** The loop cursor of `uint8ArrayToDomain` under JavaScript's rules: an
      index, or NaN once a read past the end has returned `undefined` and
      `offset += labelLength + 1` has turned the offset into NaN. */
  datatype Cursor = At(i: nat) | NotANumber

  /** One turn of the loop as written: `None` when it reaches `break`,
      else the next cursor. A read at NaN or past the end is `undefined`,
      which is not 0, so the loop goes on, with the offset NaN for good. */
  function SourceTurn(a: seq<uint8>, c: Cursor): Option<Cursor>
  {
    match c
    case NotANumber => Some(NotANumber)
    case At(i) =>
      if i >= |a| then Some(NotANumber)
      else if a[i] == 0 then None
      else Some(At(i + a[i] + 1))
  }

  /** Whether the loop as written reaches `break` within `fuel` turns. */
  function BreaksWithin(a: seq<uint8>, c: Cursor, fuel: nat): bool
    decreases fuel
  {
    if fuel == 0 then false
    else match SourceTurn(a, c)
      case None => true
      case Some(next) => BreaksWithin(a, next, fuel - 1)
  }

  /** Once the offset is NaN the loop never breaks. */
  lemma {:induction false} NaNNeverBreaks(a: seq<uint8>, fuel: nat)
    ensures !BreaksWithin(a, NotANumber, fuel)
  {
    if fuel > 0 {
      NaNNeverBreaks(a, fuel - 1);
    }
  }

  /** The loop as written breaks only where the labels reach a terminator
      inside the input: for every input the model decodes to `None`, it
      runs forever. */
  lemma {:induction false} SourceLoopHangs(a: seq<uint8>, k: nat, fuel: nat)
    requires ReadLabels(a, k).None?
    ensures !BreaksWithin(a, At(k), fuel)
    decreases fuel
  {
    if fuel > 0 {
      if k >= |a| {
        NaNNeverBreaks(a, fuel - 1);
      } else {
        SourceLoopHangs(a, k + a[k] + 1, fuel - 1);
      }
    }
  }

  /** Where the labels reach a terminator inside the input, the loop as
      written breaks within `|a| - k` turns. */
  lemma {:induction false} SourceLoopBreaks(a: seq<uint8>, k: nat, fuel: nat)
    requires ReadLabels(a, k).Some? && fuel >= |a| - k
    ensures BreaksWithin(a, At(k), fuel)
    decreases |a| - k
  {
    if a[k] != 0 {
      SourceLoopBreaks(a, k + a[k] + 1, fuel - 1);
    }
  }

  /** A two-byte input holding a one-byte label and no terminator: the
      decoder as written never returns. */
  lemma UnterminatedNameHangs(fuel: nat)
    ensures !BreaksWithin([1, 97], At(0), fuel)
  {
    assert ReadLabels([1, 97], 2) == None;
    SourceLoopHangs([1, 97], 0, fuel);
  }

  // ---------------------------------------------------------------------
  // Properties of the decoder and the round trip
  // ---------------------------------------------------------------------

  /** A successful decode stopped on a zero byte at the reported length:
      the terminator is inside the input and is not counted. */
  lemma DecodeNameTerminator(a: seq<uint8>)
    requires DecodeName(a).Some?
    ensures DecodeName(a).value.1 < |a|
    ensures a[DecodeName(a).value.1] == 0
  {
    ReadLabelsTerminator(a, 0);
  }

  lemma {:induction false} ReadLabelsTerminator(a: seq<uint8>, k: nat)
    requires ReadLabels(a, k).Some?
    ensures k + LabelsLength(ReadLabels(a, k).value) < |a|
    ensures a[k + LabelsLength(ReadLabels(a, k).value)] == 0
    decreases |a| - k
  {
    if a[k] != 0 {
      var next := k + a[k] + 1;
      ReadLabelsTerminator(a, next);
      assert ReadLabels(a, k).value[1..] == ReadLabels(a, next).value;
    }
  }

  /** Decoding never looks past the terminator: appending bytes to an input
      that decodes does not change the result. */
  lemma DecodeNameIgnoresSuffix(a: seq<uint8>, t: seq<uint8>)
    requires DecodeName(a).Some?
    ensures DecodeName(a + t) == DecodeName(a)
  {
    ReadLabelsIgnoresSuffix(a, t, 0);
  }

  lemma {:induction false} ReadLabelsIgnoresSuffix(a: seq<uint8>, t: seq<uint8>, k: nat)
    requires ReadLabels(a, k).Some?
    ensures ReadLabels(a + t, k) == ReadLabels(a, k)
    decreases |a| - k
  {
    if a[k] != 0 {
      ReadLabelsIgnoresSuffix(a, t, k + a[k] + 1);
      assert Chars(a + t, k + 1, a[k]) == Chars(a, k + 1, a[k]);
    }
  }

  /** `x` holds, at offset `k`, the length of `l` and then its codes. */
  predicate StoredAt(x: seq<int>, k: nat, l: string)
  {
    k + |l| < |x| && x[k] == |l| && forall i :: 0 <= i < |l| ==> x[k + 1 + i] == l[i] as int
  }

  /** `x` holds, from offset `k` on, the non-empty labels of `ls` each
      after its length, then a zero. */
  predicate EncodedAt(x: seq<int>, k: nat, ls: seq<string>)
    decreases |ls|
  {
    if ls == [] then k < |x| && x[k] == 0
    else if ls[0] == "" then EncodedAt(x, k, ls[1..])
    else StoredAt(x, k, ls[0]) && EncodedAt(x, k + |ls[0]| + 1, ls[1..])
  }

  /** Bytes equal to the codes of a string read back as that string. */
  lemma CharsOfCodes(a: seq<uint8>, start: nat, l: string)
    requires start + |l| <= |a|
    requires forall i :: 0 <= i < |l| ==> a[start + i] == l[i] as int
    ensures Chars(a, start, |l|) == l
  {
  }

  /** Reading labels where they are encoded gives back the non-empty ones. */
  lemma {:induction false} ReadLabelsEncoded(a: seq<uint8>, k: nat, ls: seq<string>)
    requires EncodedAt(a, k, ls)
    ensures ReadLabels(a, k) == Some(NonEmpty(ls))
    decreases |ls|
  {
    if ls != [] {
      if ls[0] == "" {
        ReadLabelsEncoded(a, k, ls[1..]);
      } else {
        ReadLabelsEncoded(a, k + |ls[0]| + 1, ls[1..]);
        CharsOfCodes(a, k + 1, ls[0]);
      }
    }
  }

  /** Numbers put in front move an encoding without changing it. */
  lemma {:induction false} EncodedAtShift(p: seq<int>, x: seq<int>, k: nat, ls: seq<string>)
    requires EncodedAt(x, k, ls)
    ensures EncodedAt(p + x, |p| + k, ls)
    decreases |ls|
  {
    if ls == [] {
      assert (p + x)[|p| + k] == x[k];
    } else if ls[0] == "" {
      EncodedAtShift(p, x, k, ls[1..]);
    } else {
      EncodedAtShift(p, x, k + |ls[0]| + 1, ls[1..]);
      assert (p + x)[|p| + k] == x[k];
      forall i | 0 <= i < |ls[0]|
        ensures (p + x)[|p| + k + 1 + i] == ls[0][i] as int
      {
        assert (p + x)[|p| + (k + 1 + i)] == x[k + 1 + i];
      }
    }
  }

  /** Numbers put after an encoding leave it as it is. */
  lemma {:induction false} EncodedAtAppend(x: seq<int>, t: seq<int>, k: nat, ls: seq<string>)
    requires EncodedAt(x, k, ls)
    ensures EncodedAt(x + t, k, ls)
    decreases |ls|
  {
    if ls == [] {
      assert (x + t)[k] == x[k];
    } else if ls[0] == "" {
      EncodedAtAppend(x, t, k, ls[1..]);
    } else {
      EncodedAtAppend(x, t, k + |ls[0]| + 1, ls[1..]);
      assert (x + t)[k] == x[k];
      forall i | 0 <= i < |ls[0]|
        ensures (x + t)[k + 1 + i] == ls[0][i] as int
      {
        assert (x + t)[k + 1 + i] == x[k + 1 + i];
      }
    }
  }

  /** The numbers pushed for some labels, followed by the terminator, are
      where those labels are encoded. */
  lemma {:induction false} NumbersEncoded(ls: seq<string>)
    ensures EncodedAt(LabelsNumbers(ls) + [0], 0, ls)
    decreases |ls|
  {
    if ls == [] {
      assert LabelsNumbers(ls) + [0] == [0];
    } else {
      NumbersEncoded(ls[1..]);
      NumbersEncodedStep(ls);
    }
  }

  lemma NumbersEncodedStep(ls: seq<string>)
    requires ls != []
    requires EncodedAt(LabelsNumbers(ls[1..]) + [0], 0, ls[1..])
    ensures EncodedAt(LabelsNumbers(ls) + [0], 0, ls)
  {
    var x := LabelsNumbers(ls[1..]) + [0];
    Assoc(LabelNumbers(ls[0]), LabelsNumbers(ls[1..]), [0]);
    EncodedAtPrepend(x, ls);
  }

  lemma Assoc<T>(a: seq<T>, b: seq<T>, c: seq<T>)
    ensures a + b + c == a + (b + c)
  {
  }

  /** The numbers of a label put in front of the encoding of more labels
      encode the whole list. */
  lemma EncodedAtPrepend(x: seq<int>, ls: seq<string>)
    requires ls != [] && EncodedAt(x, 0, ls[1..])
    ensures EncodedAt(LabelNumbers(ls[0]) + x, 0, ls)
  {
    var l := ls[0];
    if l == "" {
      assert LabelNumbers(l) + x == x;
    } else {
      EncodedAtShift(LabelNumbers(l), x, 0, ls[1..]);
      var y := [|l|] + Codes(l) + x;
      assert LabelNumbers(l) + x == y;
      forall i | 0 <= i < |l|
        ensures y[1 + i] == l[i] as int
      {
        assert y[1 + i] == Codes(l)[i];
      }
    }
  }

  /** Every number below 256: what `new Uint8Array` keeps unchanged. */
  predicate Octets(ns: seq<int>)
  {
    forall i :: 0 <= i < |ns| ==> 0 <= ns[i] < 0x100
  }

  lemma ToUint8ArrayOctets(ns: seq<int>)
    requires Octets(ns)
    ensures ToUint8Array(ns) == ns
  {
  }

  lemma OctetsConcat(a: seq<int>, b: seq<int>)
    requires Octets(a) && Octets(b)
    ensures Octets(a + b)
  {
  }

  lemma {:induction false} LabelsNumbersOctets(ls: seq<string>)
    requires LabelsEncodable(ls)
    ensures Octets(LabelsNumbers(ls))
  {
    if ls != [] {
      LabelsNumbersOctets(ls[1..]);
      assert Octets(LabelNumbers(ls[0]));
      OctetsConcat(LabelNumbers(ls[0]), LabelsNumbers(ls[1..]));
    }
  }

  /** Without wrap-around, the bytes are the numbers pushed. */
  lemma EncodeNameNumbers(d: string)
    requires NameEncodable(d)
    ensures EncodeName(d) == NameNumbers(d)
  {
    LabelsNumbersOctets(Split(d));
    OctetsConcat(LabelsNumbers(Split(d)), [0]);
    ToUint8ArrayOctets(NameNumbers(d));
  }

  lemma {:induction false} LabelsLengthNumbers(ls: seq<string>)
    ensures LabelsLength(NonEmpty(ls)) == |LabelsNumbers(ls)|
  {
    if ls != [] {
      LabelsLengthNumbers(ls[1..]);
    }
  }

  /** Round trip: decoding the encoding of a name (followed by anything)
      gives its non-empty labels joined by dots, and a length one less than
      the encoded length. */
  lemma DecodeEncodeName(d: string, t: seq<uint8>)
    requires NameEncodable(d)
    ensures DecodeName(EncodeName(d) + t) == Some((Join(NonEmpty(Split(d))), |EncodeName(d)| - 1))
  {
    var ls, n := Split(d), NameNumbers(d);
    NumbersEncoded(ls);
    EncodeNameNumbers(d);
    EncodedAtAppend(n, t, 0, ls);
    ReadLabelsEncoded(EncodeName(d) + t, 0, ls);
    LabelsLengthNumbers(ls);
  }

  lemma {:induction false} NonEmptyIdentity(ls: seq<string>)
    requires forall i :: 0 <= i < |ls| ==> ls[i] != ""
    ensures NonEmpty(ls) == ls
  {
    if ls != [] {
      NonEmptyIdentity(ls[1..]);
    }
  }

  /** For a name without empty labels (no leading, trailing or doubled
      dot), decoding its encoding gives the name itself back. */
  lemma DecodeEncodeCanonicalName(d: string, t: seq<uint8>)
    requires NameEncodable(d)
    requires forall i :: 0 <= i < |Split(d)| ==> Split(d)[i] != ""
    ensures DecodeName(EncodeName(d) + t) == Some((d, |EncodeName(d)| - 1))
  {
    DecodeEncodeName(d, t);
    NonEmptyIdentity(Split(d));
    JoinSplit(d);
  }
}
