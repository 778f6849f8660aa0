/**
 The protobuf reader of the Android artifact check, against the encoder of the Protocol Buffers
 encoding (sections "Base 128 Varints" and "Message Structure").
 */
module Protobuf {
  import opened Wrappers

  type Byte = n: nat | n < 256
  type Bytes = seq<Byte>

  datatype ProtoError = MalformedVarint | UnsupportedWireType(wireType: nat)

  /** The bytes a varint may take before the reader gives up: shifts 0, 7, ..., 49. */
  const MAX_VARINT_BYTES := 8

  const TWO_53: nat := 0x20_0000_0000_0000
  const TWO_56: nat := 0x100_0000_0000_0000

  /** Nearest multiple of `ulp`, ties to the even multiple. */
  function NearestEven(n: nat, ulp: nat): nat
    requires ulp > 0
  {
    var q, r := n / ulp, n % ulp;
    if 2 * r < ulp || (2 * r == ulp && q % 2 == 0) then q * ulp else (q + 1) * ulp
  }

  /** The JavaScript number nearest to an integer below 2^56: exact up to 2^53, then steps of 2, 4 and 8. */
  function ToNumber(n: nat): nat {
    if n < TWO_53 then n
    else if n < 2 * TWO_53 then NearestEven(n, 2)
    else if n < 4 * TWO_53 then NearestEven(n, 4)
    else NearestEven(n, 8)
  }

  function Power128(k: nat): (r: nat)
    ensures r > 0
  {
    if k == 0 then 1 else 128 * Power128(k - 1)
  }

  /** `value` with `digit` added `k` varint digits up. */
  function Place(value: nat, digit: nat, k: nat): nat {
    value + digit * Power128(k)
  }

  /** The standard encoder: seven bits a byte, least significant first. */
  ghost function EncodeVarint(n: nat): (r: Bytes)
    ensures r != []
  {
    if n < 128 then [n] else [n % 128 + 128] + EncodeVarint(n / 128)
  }

  /** The exact value of the varint that starts at `at`, with `room` bytes left, and the offset after it. */
  ghost function Decode(bytes: Bytes, at: nat, room: nat): (r: Option<(nat, nat)>)
    ensures r.Some? ==> at < r.value.1 <= |bytes| && r.value.1 - at <= room && r.value.0 < Power128(r.value.1 - at)
    decreases room
  {
    if at >= |bytes| || room == 0 then None
    else if bytes[at] < 128 then Some((bytes[at], at + 1))
    else
      var rest := Decode(bytes, at + 1, room - 1);
      if rest.None? then None else Some((bytes[at] - 128 + 128 * rest.value.0, rest.value.1))
  }

  ghost function AsNumber(exact: Option<(nat, nat)>): Result<(nat, nat), ProtoError> {
    if exact.Some? then Ok((ToNumber(exact.value.0), exact.value.1)) else Err(MalformedVarint)
  }

  /** The varint as a whole is `value` followed, `k` digits up, by what remains; at eight digits nothing may. */
  ghost predicate Continues(all: Option<(nat, nat)>, value: nat, k: nat, rest: Option<(nat, nat)>) {
    && all.Some? == rest.Some?
    && (all.Some? ==> all.value.1 == rest.value.1 && all.value.0 == Place(value, rest.value.0, k))
  }

  /** After `k` bytes of the varint at `start` the sum is `value`. */
  ghost predicate SumAt(bytes: Bytes, start: nat, value: nat, k: nat) {
    && k <= MAX_VARINT_BYTES && (k < MAX_VARINT_BYTES ==> value < Power128(k))
    && Continues(Decode(bytes, start, MAX_VARINT_BYTES), value, k, Decode(bytes, start + k, MAX_VARINT_BYTES - k))
  }

  ghost function Reading(bytes: Bytes, start: nat): (nat, nat) -> bool {
    (value: nat, k: nat) => SumAt(bytes, start, value, k)
  }

  /** Reads one varint; only the eighth byte can push the sum past what a number holds exactly. */
  method ReadVarint(bytes: Bytes, start: nat) returns (r: Result<(nat, nat), ProtoError>)
    ensures r == AsNumber(Decode(bytes, start, MAX_VARINT_BYTES))
  {
    var value: nat, offset: nat, k: nat := 0, start, 0;
    ghost var reading := Reading(bytes, start);
    ReadingStarts(bytes, start);
    while true
      invariant k <= MAX_VARINT_BYTES && offset == start + k && reading(value, k)
      decreases MAX_VARINT_BYTES - k
    {
      if offset >= |bytes| || k >= MAX_VARINT_BYTES {
        ReadingFails(bytes, start, value, k);
        return Err(MalformedVarint);
      }
      value := Accumulate(reading, bytes, start, value, k);
      offset := offset + 1;
      assert bytes[offset - 1] == bytes[start + k];
      if bytes[offset - 1] < 128 { return Ok((value, offset)); }
      k := k + 1;
    }
  }

  /** `value += (byte & 0x7f) * 2 ** shift`, rounded as JavaScript addition rounds. */
  method Accumulate(ghost reading: (nat, nat) -> bool, bytes: Bytes, start: nat, value: nat, k: nat)
    returns (sum: nat)
    requires reading == Reading(bytes, start) && reading(value, k)
    requires start + k < |bytes| && k < MAX_VARINT_BYTES
    ensures bytes[start + k] < 128 ==>
      AsNumber(Decode(bytes, start, MAX_VARINT_BYTES)) == Ok((sum, start + k + 1))
    ensures bytes[start + k] >= 128 ==> reading(sum, k + 1)
  {
    assert SumAt(bytes, start, value, k);
    SumNext(bytes, start, value, k);
    sum := ToNumber(Place(value, bytes[start + k] % 128, k));
  }

  lemma {:induction false} SumNext(bytes: Bytes, start: nat, value: nat, k: nat)
    requires SumAt(bytes, start, value, k) && start + k < |bytes| && k < MAX_VARINT_BYTES
    ensures
      var sum := ToNumber(Place(value, bytes[start + k] % 128, k));
      && (bytes[start + k] < 128 ==> AsNumber(Decode(bytes, start, MAX_VARINT_BYTES)) == Ok((sum, start + k + 1)))
      && (bytes[start + k] >= 128 ==> SumAt(bytes, start, sum, k + 1))
  {
    var digit := bytes[start + k] % 128;
    SumIsBounded(value, digit, k);
    SevenBytesAreExact(k, Place(value, digit, k));
    VarintStep(Decode(bytes, start, MAX_VARINT_BYTES), bytes, start + k, value, k);
  }

  lemma {:induction false} ReadingStarts(bytes: Bytes, start: nat)
    ensures Reading(bytes, start)(0, 0)
  {}

  lemma {:induction false} ReadingFails(bytes: Bytes, start: nat, value: nat, k: nat)
    requires Reading(bytes, start)(value, k) && (start + k >= |bytes| || k == MAX_VARINT_BYTES)
    ensures AsNumber(Decode(bytes, start, MAX_VARINT_BYTES)) == Err(MalformedVarint)
  {}

  lemma {:induction false} SevenBytesAreExact(k: nat, sum: nat)
    requires sum < Power128(k + 1)
    ensures k < 7 ==> ToNumber(sum) == sum
  {
    if k < 7 {
      PowerGrows(k + 1, 7);
      assert Power128(7) < TWO_53 by { PowerValues(); }
    }
  }

  lemma {:induction false} PowerValues()
    ensures Power128(4) == 0x1000_0000 && Power128(7) == 0x2_0000_0000_0000 && Power128(8) == TWO_56
  {}

  lemma {:induction false} PowerGrows(a: nat, b: nat)
    requires a <= b
    ensures Power128(a) <= Power128(b)
    decreases b
  {
    if a < b { PowerGrows(a, b - 1); }
  }

  /** One byte of the varint: it ends here, or goes on one digit up. */
  lemma {:induction false} VarintStep(all: Option<(nat, nat)>, bytes: Bytes, at: nat, value: nat, k: nat)
    requires at < |bytes| && k < MAX_VARINT_BYTES
    requires Continues(all, value, k, Decode(bytes, at, MAX_VARINT_BYTES - k))
    ensures bytes[at] < 128 ==> AsNumber(all) == Ok((ToNumber(Place(value, bytes[at] % 128, k)), at + 1))
    ensures bytes[at] >= 128 ==>
      Continues(all, Place(value, bytes[at] % 128, k), k + 1, Decode(bytes, at + 1, MAX_VARINT_BYTES - k - 1))
  {
    var next := Decode(bytes, at + 1, MAX_VARINT_BYTES - k - 1);
    if bytes[at] >= 128 && next.Some? {
      PlaceTwice(value, bytes[at] % 128, next.value.0, k);
    }
  }

  lemma {:induction false} PlaceTwice(value: nat, digit: nat, n: nat, k: nat)
    ensures Place(value, digit + 128 * n, k) == Place(Place(value, digit, k), n, k + 1)
  {}

  lemma {:induction false} SumIsBounded(value: nat, d: nat, k: nat)
    requires value < Power128(k) && d < 128
    ensures Place(value, d, k) < Power128(k + 1)
  {}

  /** The decoder inverts the encoder wherever the encoding stands, as long as it has room for it. */
  lemma {:induction false} DecodeEncoded(bytes: Bytes, at: nat, n: nat, room: nat)
    requires at + |EncodeVarint(n)| <= |bytes| && bytes[at..at + |EncodeVarint(n)|] == EncodeVarint(n)
    ensures Decode(bytes, at, room) ==
      if room > 0 && n < Power128(room) then Some((n, at + |EncodeVarint(n)|)) else None
    decreases n
  {
    var code := EncodeVarint(n);
    assert bytes[at] == code[0];
    if n >= 128 && room > 0 {
      assert code[1..] == EncodeVarint(n / 128);
      assert bytes[at + 1..at + |code|] == code[1..];
      DecodeEncoded(bytes, at + 1, n / 128, room - 1);
      assert n / 128 < Power128(room - 1) <==> n < 128 * Power128(room - 1);
    } else if room > 0 {
      assert Power128(room) >= 128;
    }
  }

  /** The reader returns the encoded integer, rounded as a JavaScript number, and refuses 2^56 and above. */
  lemma {:induction false} ReadInvertsEncode(n: nat)
    ensures AsNumber(Decode(EncodeVarint(n), 0, MAX_VARINT_BYTES)) ==
      if n < TWO_56 then Ok((ToNumber(n), |EncodeVarint(n)|)) else Err(MalformedVarint)
    ensures n <= TWO_53 ==> ToNumber(n) == n
    ensures n < TWO_56 ==> (ToNumber(n) == n <==>
      if n < TWO_53 then true
      else if n < 2 * TWO_53 then n % 2 == 0 else if n < 4 * TWO_53 then n % 4 == 0 else n % 8 == 0)
  {
    assert EncodeVarint(n)[0..|EncodeVarint(n)|] == EncodeVarint(n);
    DecodeEncoded(EncodeVarint(n), 0, n, MAX_VARINT_BYTES);
    PowerValues();
  }

  // ---------------------------------------------------------------- messages

  /** `bytes.subarray(from, from + length)`: clipped at the end of the buffer. */
  function Subarray(bytes: Bytes, from: nat, length: nat): Bytes
    requires from <= |bytes|
  {
    if from + length <= |bytes| then bytes[from..from + length] else bytes[from..]
  }

  /** What the reader makes of the field at an offset. */
  datatype Head = Skip(next: nat) | Take(field: (nat, Bytes), next: nat) | Stop(error: ProtoError)

  ghost function HeadAfterTag(bytes: Bytes, tag: nat, next: nat): (h: Head)
    ensures !h.Stop? ==> h.next >= next
  {
    if tag % 8 == 0 then
      var skipped := AsNumber(Decode(bytes, next, MAX_VARINT_BYTES));
      if skipped.Err? then Stop(skipped.error) else Skip(skipped.value.1)
    else if tag % 8 == 1 then Skip(next + 8)
    else if tag % 8 == 5 then Skip(next + 4)
    else if tag % 8 == 2 then
      var length := AsNumber(Decode(bytes, next, MAX_VARINT_BYTES));
      if length.Err? then Stop(length.error)
      else Take((tag / 8, Subarray(bytes, length.value.1, length.value.0)), length.value.1 + length.value.0)
    else Stop(UnsupportedWireType(tag % 8))
  }

  ghost function ReadHead(bytes: Bytes, at: nat): (h: Head)
    ensures !h.Stop? ==> h.next > at
  {
    var key := AsNumber(Decode(bytes, at, MAX_VARINT_BYTES));
    if key.Err? then Stop(key.error) else HeadAfterTag(bytes, key.value.0, key.value.1)
  }

  /** What one pass over a message from `at` yields: its length-delimited fields as (number, bytes). */
  ghost function Fields(bytes: Bytes, at: nat): Result<seq<(nat, Bytes)>, ProtoError>
    decreases if at < |bytes| then |bytes| - at else 0
  {
    if at >= |bytes| then Ok([])
    else match ReadHead(bytes, at)
      case Skip(next) => Fields(bytes, next)
      case Take(field, next) => Prepend([field], Fields(bytes, next))
      case Stop(error) => Err(error)
  }

  ghost function Prepend(head: seq<(nat, Bytes)>, tail: Result<seq<(nat, Bytes)>, ProtoError>)
    : Result<seq<(nat, Bytes)>, ProtoError>
  {
    if tail.Err? then tail else Ok(head + tail.value)
  }

  /** Reads the field at `at`. */
  method ReadField(bytes: Bytes, at: nat) returns (h: Head)
    ensures h == ReadHead(bytes, at)
  {
    var key := ReadVarint(bytes, at);
    if key.Err? { return Stop(key.error); }
    var tag, next := key.value.0, key.value.1;
    var wireType := tag % 8;
    if wireType == 0 {
      var skipped := ReadVarint(bytes, next);
      if skipped.Err? { return Stop(skipped.error); }
      h := Skip(skipped.value.1);
    } else if wireType == 1 {
      h := Skip(next + 8);
    } else if wireType == 5 {
      h := Skip(next + 4);
    } else if wireType == 2 {
      var length := ReadVarint(bytes, next);
      if length.Err? { return Stop(length.error); }
      h := Take((tag / 8, Subarray(bytes, length.value.1, length.value.0)), length.value.1 + length.value.0);
    } else {
      h := Stop(UnsupportedWireType(wireType));
    }
  }

  method ProtoFields(bytes: Bytes) returns (r: Result<seq<(nat, Bytes)>, ProtoError>)
    ensures r == Fields(bytes, 0)
  {
    var fields: seq<(nat, Bytes)> := [];
    var offset: nat := 0;
    PrependNothing(Fields(bytes, 0));
    while offset < |bytes|
      invariant Prepend(fields, Fields(bytes, offset)) == Fields(bytes, 0)
      decreases if offset < |bytes| then |bytes| - offset else 0
    {
      var head := ReadField(bytes, offset);
      if head.Stop? { return Err(head.error); }
      if head.Take? {
        PrependTwice(fields, [head.field], Fields(bytes, head.next));
        fields := fields + [head.field];
      }
      offset := head.next;
    }
    assert fields + [] == fields;
    r := Ok(fields);
  }

  lemma {:induction false} PrependNothing(tail: Result<seq<(nat, Bytes)>, ProtoError>)
    ensures Prepend([], tail) == tail
  {
    if tail.Ok? { assert [] + tail.value == tail.value; }
  }

  lemma {:induction false} PrependTwice(
      a: seq<(nat, Bytes)>, b: seq<(nat, Bytes)>, tail: Result<seq<(nat, Bytes)>, ProtoError>)
    ensures Prepend(a, Prepend(b, tail)) == Prepend(a + b, tail)
  {
    if tail.Ok? { assert a + (b + tail.value) == (a + b) + tail.value; }
  }

  // ---------------------------------------------------------------- the encoder of messages

  datatype Field =
    | Varint(number: nat, value: nat)
    | Fixed64(number: nat, data: Bytes)
    | Delimited(number: nat, data: Bytes)
    | Fixed32(number: nat, data: Bytes)

  type Message = seq<Field>

  ghost function WireType(f: Field): nat {
    match f
    case Varint(_, _) => 0
    case Fixed64(_, _) => 1
    case Delimited(_, _) => 2
    case Fixed32(_, _) => 5
  }

  ghost function Payload(f: Field): Bytes {
    match f
    case Varint(_, value) => EncodeVarint(value)
    case Fixed64(_, data) => data
    case Fixed32(_, data) => data
    case Delimited(_, data) => EncodeVarint(|data|) + data
  }

  ghost function EncodeField(f: Field): (r: Bytes)
    ensures r != []
  {
    EncodeVarint(f.number * 8 + WireType(f)) + Payload(f)
  }

  ghost function EncodeMessage(m: Message): Bytes {
    if m == [] then [] else EncodeField(m[0]) + EncodeMessage(m[1..])
  }

  /** Sizes and numbers a JavaScript number holds exactly. */
  ghost predicate WellFormedField(f: Field) {
    && f.number * 8 + 7 < TWO_53
    && (f.Fixed64? ==> |f.data| == 8)
    && (f.Fixed32? ==> |f.data| == 4)
    && (f.Delimited? ==> |f.data| < TWO_53)
  }

  ghost predicate WellFormed(m: Message) {
    forall i | 0 <= i < |m| :: WellFormedField(m[i])
  }

  /** The reader can skip every varint field of the message. */
  ghost predicate Skippable(m: Message) {
    forall i | 0 <= i < |m| :: m[i].Varint? ==> m[i].value < TWO_56
  }

  ghost function DelimitedFields(m: Message): seq<(nat, Bytes)> {
    if m == [] then []
    else (if m[0].Delimited? then [(m[0].number, m[0].data)] else []) + DelimitedFields(m[1..])
  }

  /** What the reader must return for an encoded message. */
  ghost function Expected(m: Message): Result<seq<(nat, Bytes)>, ProtoError> {
    if Skippable(m) then Ok(DelimitedFields(m)) else Err(MalformedVarint)
  }

  /** `part` stands in `bytes` at `at`. */
  ghost predicate StandsAt(bytes: Bytes, at: nat, part: Bytes) {
    at + |part| <= |bytes| && bytes[at..at + |part|] == part
  }

  lemma {:induction false} StandsSplit(bytes: Bytes, at: nat, a: Bytes, b: Bytes)
    requires StandsAt(bytes, at, a + b)
    ensures StandsAt(bytes, at, a) && StandsAt(bytes, at + |a|, b)
  {
    assert bytes[at..at + |a|] == (a + b)[..|a|];
    assert bytes[at + |a|..at + |a| + |b|] == (a + b)[|a|..];
  }

  lemma {:induction false} ReadSmall(bytes: Bytes, at: nat, n: nat)
    requires StandsAt(bytes, at, EncodeVarint(n)) && n < TWO_53
    ensures AsNumber(Decode(bytes, at, MAX_VARINT_BYTES)) == Ok((n, at + |EncodeVarint(n)|))
  {
    ReadInteger(bytes, at, n);
  }

  lemma {:induction false} HeadFrom(bytes: Bytes, at: nat, tag: nat, next: nat)
    requires AsNumber(Decode(bytes, at, MAX_VARINT_BYTES)) == Ok((tag, next))
    ensures ReadHead(bytes, at) == HeadAfterTag(bytes, tag, next)
  {}

  lemma {:induction false} ReadInteger(bytes: Bytes, at: nat, n: nat)
    requires StandsAt(bytes, at, EncodeVarint(n))
    ensures n < TWO_53 ==> AsNumber(Decode(bytes, at, MAX_VARINT_BYTES)) == Ok((n, at + |EncodeVarint(n)|))
    ensures AsNumber(Decode(bytes, at, MAX_VARINT_BYTES)) ==
      if n < TWO_56 then Ok((ToNumber(n), at + |EncodeVarint(n)|)) else Err(MalformedVarint)
  {
    DecodeEncoded(bytes, at, n, MAX_VARINT_BYTES);
    PowerValues();
  }

  /** The reader's view of one encoded field that ends at `next`. */
  ghost function HeadOf(f: Field, next: nat): Head {
    if f.Varint? && f.value >= TWO_56 then Stop(MalformedVarint)
    else if f.Delimited? then Take((f.number, f.data), next)
    else Skip(next)
  }

  /** One encoded field at `at` is read as one field, wherever it stands. */
  lemma {:induction false} ReadOneField(bytes: Bytes, at: nat, f: Field)
    requires WellFormedField(f) && StandsAt(bytes, at, EncodeField(f))
    ensures ReadHead(bytes, at) == HeadOf(f, at + |EncodeField(f)|)
  {
    TagParts(f.number, WireType(f));
    ReadKeyed(bytes, at, f, f.number * 8 + WireType(f), EncodeVarint(f.number * 8 + WireType(f)), Payload(f));
  }

  lemma {:induction false} ReadKeyed(bytes: Bytes, at: nat, f: Field, tag: nat, key: Bytes, payload: Bytes)
    requires WellFormedField(f) && tag < TWO_53 && tag % 8 == WireType(f) && tag / 8 == f.number
    requires key == EncodeVarint(tag) && payload == Payload(f) && StandsAt(bytes, at, key + payload)
    ensures ReadHead(bytes, at) == HeadOf(f, at + |key + payload|)
  {
    StandsSplit(bytes, at, key, payload);
    ReadTagged(bytes, at, f, tag, at + |key|, payload);
  }

  lemma {:induction false} ReadTagged(bytes: Bytes, at: nat, f: Field, tag: nat, body: nat, payload: Bytes)
    requires WellFormedField(f) && tag < TWO_53 && tag % 8 == WireType(f) && tag / 8 == f.number
    requires StandsAt(bytes, at, EncodeVarint(tag)) && body == at + |EncodeVarint(tag)|
    requires payload == Payload(f) && StandsAt(bytes, body, payload)
    ensures ReadHead(bytes, at) == HeadOf(f, body + |payload|)
  {
    ReadSmall(bytes, at, tag);
    HeadFrom(bytes, at, tag, body);
    ReadPayload(bytes, body, tag, f);
  }

  lemma {:induction false} TagParts(number: nat, wireType: nat)
    requires wireType < 8
    ensures (number * 8 + wireType) % 8 == wireType && (number * 8 + wireType) / 8 == number
  {}

  lemma {:induction false} ReadPayload(bytes: Bytes, body: nat, tag: nat, f: Field)
    requires WellFormedField(f) && StandsAt(bytes, body, Payload(f))
    requires tag % 8 == WireType(f) && tag / 8 == f.number
    ensures HeadAfterTag(bytes, tag, body) == HeadOf(f, body + |Payload(f)|)
  {
    if f.Varint? {
      ReadVarintPayload(bytes, body, tag, f.value);
    } else if f.Delimited? {
      ReadDelimitedPayload(bytes, body, tag, f.data);
    }
  }

  lemma {:induction false} ReadVarintPayload(bytes: Bytes, body: nat, tag: nat, n: nat)
    requires tag % 8 == 0 && StandsAt(bytes, body, EncodeVarint(n))
    ensures HeadAfterTag(bytes, tag, body) ==
      if n >= TWO_56 then Stop(MalformedVarint) else Skip(body + |EncodeVarint(n)|)
  {
    ReadInteger(bytes, body, n);
  }

  lemma {:induction false} ReadDelimitedPayload(bytes: Bytes, body: nat, tag: nat, data: Bytes)
    requires tag % 8 == 2 && |data| < TWO_53 && StandsAt(bytes, body, EncodeVarint(|data|) + data)
    ensures HeadAfterTag(bytes, tag, body) == Take((tag / 8, data), body + |EncodeVarint(|data|) + data|)
  {
    StandsSplit(bytes, body, EncodeVarint(|data|), data);
    ReadSmall(bytes, body, |data|);
    ReadDelimited(bytes, body, tag, body + |EncodeVarint(|data|)|, data);
  }

  lemma {:induction false} ReadDelimited(bytes: Bytes, body: nat, tag: nat, start: nat, data: Bytes)
    requires tag % 8 == 2 && AsNumber(Decode(bytes, body, MAX_VARINT_BYTES)) == Ok((|data|, start))
    requires StandsAt(bytes, start, data)
    ensures HeadAfterTag(bytes, tag, body) == Take((tag / 8, data), start + |data|)
  {}

  lemma {:induction false} ReadMessageFrom(bytes: Bytes, at: nat, m: Message)
    requires WellFormed(m) && StandsAt(bytes, at, EncodeMessage(m)) && at + |EncodeMessage(m)| == |bytes|
    ensures Fields(bytes, at) == Expected(m)
    decreases |m|
  {
    if m != [] {
      StandsSplit(bytes, at, EncodeField(m[0]), EncodeMessage(m[1..]));
      TailIsWellFormed(m);
      var next, tail := at + |EncodeField(m[0])|, m[1..];
      ReadMessageFrom(bytes, next, tail);
      ReadFirst(bytes, at, m, next, tail, Fields(bytes, next));
    }
  }

  lemma {:induction false} TailIsWellFormed(m: Message)
    requires WellFormed(m) && m != []
    ensures WellFormedField(m[0]) && WellFormed(m[1..])
  {}

  lemma {:induction false} ReadFirst(bytes: Bytes, at: nat, m: Message, next: nat, tail: Message,
                                     rest: Result<seq<(nat, Bytes)>, ProtoError>)
    requires m != [] && WellFormedField(m[0]) && at < |bytes| && tail == m[1..]
    requires StandsAt(bytes, at, EncodeField(m[0])) && next == at + |EncodeField(m[0])|
    requires rest == Fields(bytes, next) && rest == Expected(tail)
    ensures Fields(bytes, at) == Expected(m)
  {
    ReadOneField(bytes, at, m[0]);
    FieldsUnfold(bytes, at, HeadOf(m[0], next), next);
    ExpectedSplits(m, next);
  }

  lemma {:induction false} FieldsUnfold(bytes: Bytes, at: nat, h: Head, next: nat)
    requires at < |bytes| && ReadHead(bytes, at) == h && (h.Stop? || h.next == next)
    ensures Fields(bytes, at) == Combine(h, Fields(bytes, next))
  {}

  ghost function Combine(h: Head, tail: Result<seq<(nat, Bytes)>, ProtoError>): Result<seq<(nat, Bytes)>, ProtoError> {
    match h
    case Skip(_) => tail
    case Take(field, _) => Prepend([field], tail)
    case Stop(error) => Err(error)
  }

  lemma {:induction false} ExpectedSplits(m: Message, next: nat)
    requires m != []
    ensures Expected(m) == Combine(HeadOf(m[0], next), Expected(m[1..]))
  {
    SkippableSplits(m);
    assert [] + DelimitedFields(m[1..]) == DelimitedFields(m[1..]);
  }

  lemma {:induction false} SkippableSplits(m: Message)
    requires m != []
    ensures Skippable(m) <==> (m[0].Varint? ==> m[0].value < TWO_56) && Skippable(m[1..])
  {}

  /**
   Reading an encoded message gives back exactly its length-delimited fields, in order, when and only
   when every varint in it is below 2^56; a longer one (a negative int32, say) makes the reader throw.
   */
  lemma {:induction false} ReadInvertsEncodeMessage(m: Message)
    requires WellFormed(m)
    ensures Fields(EncodeMessage(m), 0) == Expected(m)
    ensures Fields(EncodeMessage(m), 0) == Ok(DelimitedFields(m)) <==> Skippable(m)
  {
    assert EncodeMessage(m)[0..|EncodeMessage(m)|] == EncodeMessage(m);
    ReadMessageFrom(EncodeMessage(m), 0, m);
  }

  // ---------------------------------------------------------------- rounding and clipping

  /** The distance between neighbouring JavaScript numbers around an integer below 2^56. */
  ghost function Spacing(n: nat): nat {
    if n < 0x20_0000_0000_0000 then 1
    else if n < 0x40_0000_0000_0000 then 2
    else if n < 0x80_0000_0000_0000 then 4
    else 8
  }

  /** The nearest of those numbers, and of two that are equally near the even multiple of the distance. */
  ghost predicate IsNearest(n: nat, r: nat) {
    && r % Spacing(n) == 0
    && 2 * (r - n) <= Spacing(n) && 2 * (n - r) <= Spacing(n)
    && (2 * (r - n) == Spacing(n) || 2 * (n - r) == Spacing(n) ==> r / Spacing(n) % 2 == 0)
  }

  lemma {:induction false} NearestByTwo(n: nat)
    ensures var r := NearestEven(n, 2); r % 2 == 0 && r - n <= 1 && n - r <= 1 && (r != n ==> r / 2 % 2 == 0)
  {}

  lemma {:induction false} NearestByFour(n: nat)
    ensures var r := NearestEven(n, 4);
      r % 4 == 0 && r - n <= 2 && n - r <= 2 && (r - n == 2 || n - r == 2 ==> r / 4 % 2 == 0)
  {}

  lemma {:induction false} NearestByEight(n: nat)
    ensures var r := NearestEven(n, 8);
      r % 8 == 0 && r - n <= 4 && n - r <= 4 && (r - n == 4 || n - r == 4 ==> r / 8 % 2 == 0)
  {}

  /** A sum is rounded to the nearest JavaScript number. */
  lemma {:induction false} RoundsToNearest(n: nat)
    requires n < TWO_56
    ensures IsNearest(n, ToNumber(n))
  {
    NearestByTwo(n);
    NearestByFour(n);
    NearestByEight(n);
  }

  /** A field longer than the rest of the message is cut at its end. */
  lemma {:induction false} ClippedAtEnd(number: nat, length: nat, data: Bytes)
    requires number * 8 + 7 < TWO_53 && |data| <= length < TWO_53
    ensures Fields(EncodeVarint(number * 8 + 2) + EncodeVarint(length) + data, 0) == Ok([(number, data)])
  {
    var tag, size := EncodeVarint(number * 8 + 2), EncodeVarint(length);
    var bytes := tag + size + data;
    assert bytes[0..|tag|] == tag && bytes[|tag|..|tag| + |size|] == size && bytes[|tag| + |size|..] == data;
    TagParts(number, 2);
    ClippedField(bytes, number, number * 8 + 2, length, data, tag, size);
  }

  lemma {:induction false} ClippedField(
      bytes: Bytes, number: nat, key: nat, length: nat, data: Bytes, tag: Bytes, size: Bytes)
    requires key < TWO_53 && key % 8 == 2 && key / 8 == number && |data| <= length < TWO_53
    requires tag == EncodeVarint(key) && size == EncodeVarint(length)
    requires StandsAt(bytes, 0, tag) && StandsAt(bytes, |tag|, size) && bytes[|tag| + |size|..] == data
    ensures Fields(bytes, 0) == Ok([(number, data)])
  {
    assert |bytes| == |tag| + |size| + |data|;
    ReadSmall(bytes, 0, key);
    ReadSmall(bytes, |tag|, length);
    ClippedHead(bytes, key, |tag|, |tag| + |size|, length, data);
    LastField(bytes, number, data, |tag| + |size| + length);
  }

  lemma {:induction false} ClippedHead(bytes: Bytes, tag: nat, body: nat, start: nat, length: nat, data: Bytes)
    requires AsNumber(Decode(bytes, 0, MAX_VARINT_BYTES)) == Ok((tag, body)) && tag % 8 == 2
    requires AsNumber(Decode(bytes, body, MAX_VARINT_BYTES)) == Ok((length, start))
    requires start <= |bytes| && bytes[start..] == data && |data| <= length
    ensures ReadHead(bytes, 0) == Take((tag / 8, data), start + length)
  {
    HeadFrom(bytes, 0, tag, body);
    assert Subarray(bytes, start, length) == data;
  }

  lemma {:induction false} LastField(bytes: Bytes, number: nat, data: Bytes, next: nat)
    requires bytes != [] && ReadHead(bytes, 0) == Take((number, data), next) && next >= |bytes|
    ensures Fields(bytes, 0) == Ok([(number, data)])
  {
    assert [(number, data)] + [] == [(number, data)];
  }
}
