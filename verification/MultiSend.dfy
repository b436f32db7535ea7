/**
 The packed transactions of a Safe `multiSend` (src/domain/contracts/decoders/multi-send-decoder.helper.ts).
 Each is one byte of operation, 20 bytes of address, 32 bytes of value, 32 bytes of data length
 and the data, with no padding.
 */
module MultiSend {
  import opened Prelude

  datatype Transaction = Transaction(operation: nat, to: Bytes, value: nat, data: Bytes)

  const OPERATION_SIZE: nat := 1
  const TO_SIZE: nat := 20
  const VALUE_SIZE: nat := 32
  const DATA_LENGTH_SIZE: nat := 32
  const HEADER_SIZE: nat := OPERATION_SIZE + TO_SIZE + VALUE_SIZE + DATA_LENGTH_SIZE

  /** viem's `slice`: out of bounds when it starts past the end, otherwise cut off at the end. */
  function Slice(b: Bytes, start: nat, end: nat): Option<Bytes>
    requires start <= end
  {
    if start > 0 && start >= |b| then None
    else Some(b[(if start < |b| then start else |b|)..(if end < |b| then end else |b|)])
  }

  /** `hexToNumber` / `hexToBigInt`: big-endian. */
  function ToNumber(b: Bytes): nat {
    if b == [] then 0 else 256 * ToNumber(b[..|b| - 1]) + b[|b| - 1]
  }

  /** `n` in exactly `width` big-endian bytes (its remainder modulo 256 to the power of `width`). */
  function ToBytes(n: nat, width: nat): (b: Bytes)
    ensures |b| == width
  {
    if width == 0 then [] else ToBytes(n / 256, width - 1) + [n % 256]
  }

  function Pow256(k: nat): (p: nat)
    ensures p > 0
  {
    if k == 0 then 1 else 256 * Pow256(k - 1)
  }

  // ---- the encoder ----

  predicate WellFormed(t: Transaction) {
    t.operation < Pow256(OPERATION_SIZE) && |t.to| == TO_SIZE && t.value < Pow256(VALUE_SIZE) && |t.data| < Pow256(DATA_LENGTH_SIZE)
  }

  ghost predicate AllWellFormed(ts: seq<Transaction>) {
    forall i :: 0 <= i < |ts| ==> WellFormed(ts[i])
  }

  function EncodeOne(t: Transaction): Bytes {
    ToBytes(t.operation, OPERATION_SIZE) + t.to + ToBytes(t.value, VALUE_SIZE)
    + ToBytes(|t.data|, DATA_LENGTH_SIZE) + t.data
  }

  function Encode(ts: seq<Transaction>): Bytes {
    if ts == [] then [] else EncodeOne(ts[0]) + Encode(ts[1..])
  }

  // ---- the decoder ----

  /** One round of the loop on the bytes not yet read: a transaction and how far it advances, or an error. */
  function DecodeOne(b: Bytes): (r: Option<(Transaction, nat)>)
    ensures r.Some? ==> r.value.1 >= HEADER_SIZE
  {
    var operation, to, value, length := Slice(b, 0, 1), Slice(b, 1, 21), Slice(b, 21, 53), Slice(b, 53, 85);
    if operation.None? || to.None? || value.None? || length.None? then None
    else
      var dataLength := ToNumber(length.value);
      var data := if dataLength == 0 then Some([]) else Slice(b, 85, 85 + dataLength);
      if data.None? || |to.value| != TO_SIZE then None    // slice or getAddress throws
      else Some((Transaction(ToNumber(operation.value), to.value, ToNumber(value.value), data.value), 85 + dataLength))
  }

  /** The bytes from a position on, none when it is past the end. */
  function From(b: Bytes, n: nat): Bytes {
    if n <= |b| then b[n..] else []
  }

  /** What the loop yields: it keeps what it has when a round throws. */
  function Decode(b: Bytes): seq<Transaction>
    decreases |b|
  {
    if b == [] then []
    else
      match DecodeOne(b)
      case None => []
      case Some((t, n)) => [t] + Decode(From(b, n))
  }

  /** What a round at `start` does: `None` is where it throws. */
  ghost predicate IsRound(b: Bytes, start: nat, transaction: Option<Transaction>, cursor: nat)
    requires start < |b|
  {
    match DecodeOne(b[start..])
    case None => transaction.None?
    case Some((t, n)) => transaction == Some(t) && cursor == start + n
  }

  /** One round at a cursor; `None` where the source throws. */
  method DecodeRound(transactions: Bytes, start: nat) returns (transaction: Option<Transaction>, cursor: nat)
    requires start < |transactions|
    ensures IsRound(transactions, start, transaction, cursor)
  {
    cursor := start;
    SliceFrom(transactions, start, 0, 1);
    var operation := Slice(transactions, cursor, cursor + OPERATION_SIZE);
    if operation.None? { return None, cursor; }
    cursor := cursor + OPERATION_SIZE;
    SliceFrom(transactions, start, 1, 21);
    var to := Slice(transactions, cursor, cursor + TO_SIZE);
    if to.None? { return None, cursor; }
    cursor := cursor + TO_SIZE;
    SliceFrom(transactions, start, 21, 53);
    var value := Slice(transactions, cursor, cursor + VALUE_SIZE);
    if value.None? { return None, cursor; }
    cursor := cursor + VALUE_SIZE;
    SliceFrom(transactions, start, 53, 85);
    var dataLength := Slice(transactions, cursor, cursor + DATA_LENGTH_SIZE);
    if dataLength.None? { return None, cursor; }
    cursor := cursor + DATA_LENGTH_SIZE;
    var dataLengthNumber := ToNumber(dataLength.value);
    var data: Bytes := [];
    if dataLengthNumber != 0 {
      SliceFrom(transactions, start, 85, 85 + dataLengthNumber);
      var sliced := Slice(transactions, cursor, cursor + dataLengthNumber);
      if sliced.None? { return None, cursor; }
      data := sliced.value;
      cursor := cursor + dataLengthNumber;
    }
    if |to.value| != TO_SIZE { return None, cursor; }
    transaction := Some(Transaction(ToNumber(operation.value), to.value, ToNumber(value.value), data));
  }

  /** The same round, told by what is left to decode before and after it. */
  method Advance(transactions: Bytes, start: nat) returns (transaction: Option<Transaction>, cursor: nat)
    requires start < |transactions|
    ensures transaction.Some? ==> cursor > start
    ensures Decode(From(transactions, start)) ==
            if transaction.None? then [] else [transaction.value] + Decode(From(transactions, cursor))
  {
    transaction, cursor := DecodeRound(transactions, start);
    DecodeUnfolds(transactions, start, transaction, cursor);
  }

  /** `mapMultiSendTransactions`; `args` is the bytes argument, if the calldata is that of `multiSend`. */
  method MapMultiSendTransactions(args: Option<Bytes>) returns (mapped: seq<Transaction>)
    ensures mapped == if args.None? then [] else Decode(args.value)
  {
    mapped := [];
    if args.None? {
      return;
    }
    var transactions := args.value;
    var cursor: nat := 0;
    assert From(transactions, 0) == transactions;
    while cursor < |transactions|
      invariant mapped + Decode(From(transactions, cursor)) == Decode(transactions)
      decreases |transactions| - cursor
    {
      var transaction, next := Advance(transactions, cursor);
      if transaction.None? { return; }
      PushMoves(mapped, transaction.value, Decode(From(transactions, next)));
      mapped, cursor := mapped + [transaction.value], next;
    }
  }

  /** A slice of what follows a position is the slice that much further on. */
  lemma SliceFrom(b: Bytes, start: nat, from: nat, to: nat)
    requires start < |b| && from <= to
    ensures Slice(b, start + from, start + to) == Slice(b[start..], from, to)
  {
    var rest := b[start..];
    if from < |rest| {
      var stop := if to < |rest| then to else |rest|;
      assert b[start + from..start + stop] == rest[from..stop];
    }
  }

  lemma PushMoves(mapped: seq<Transaction>, t: Transaction, left: seq<Transaction>)
    ensures mapped + ([t] + left) == mapped + [t] + left
  {
  }

  lemma DecodeUnfolds(b: Bytes, start: nat, transaction: Option<Transaction>, cursor: nat)
    requires start < |b| && IsRound(b, start, transaction, cursor)
    ensures transaction.Some? ==> cursor > start
    ensures Decode(From(b, start)) ==
            if transaction.None? then [] else [transaction.value] + Decode(From(b, cursor))
  {
    hide ToNumber;
    if transaction.Some? {
      assert From(b[start..], cursor - start) == From(b, cursor);
    }
  }

  // ---- numbers ----

  lemma {:induction false} ToNumberToBytes(n: nat, width: nat)
    requires n < Pow256(width)
    ensures ToNumber(ToBytes(n, width)) == n
    decreases width
  {
    if width > 0 {
      ToNumberToBytes(n / 256, width - 1);
      assert ToBytes(n, width)[..width - 1] == ToBytes(n / 256, width - 1);
    }
  }

  lemma {:induction false} ToBytesToNumber(b: Bytes)
    ensures ToNumber(b) < Pow256(|b|)
    ensures ToBytes(ToNumber(b), |b|) == b
    decreases b
  {
    if b != [] {
      ToBytesToNumber(b[..|b| - 1]);
      var q, r := ToNumber(b[..|b| - 1]), b[|b| - 1];
      assert (256 * q + r) / 256 == q && (256 * q + r) % 256 == r;
      assert b == b[..|b| - 1] + [r];
    }
  }

  // ---- round trip ----

  /** The bytes at the start of `b` are those of a whole transaction. */
  predicate StartsWith(b: Bytes, op: Bytes, to: Bytes, value: Bytes, length: Bytes, data: Bytes) {
    && |op| == OPERATION_SIZE && |to| == TO_SIZE && |value| == VALUE_SIZE && |length| == DATA_LENGTH_SIZE
    && HEADER_SIZE + |data| <= |b|
    && b[..1] == op && b[1..21] == to && b[21..53] == value && b[53..85] == length && b[85..85 + |data|] == data
  }

  lemma PartsStart(op: Bytes, to: Bytes, value: Bytes, length: Bytes, data: Bytes, rest: Bytes)
    requires |op| == OPERATION_SIZE && |to| == TO_SIZE && |value| == VALUE_SIZE && |length| == DATA_LENGTH_SIZE
    ensures StartsWith(op + to + value + length + data + rest, op, to, value, length, data)
  {
  }

  lemma DecodeParts(b: Bytes, op: Bytes, to: Bytes, value: Bytes, length: Bytes, data: Bytes)
    requires StartsWith(b, op, to, value, length, data) && |data| == ToNumber(length)
    ensures DecodeOne(b) == Some((Transaction(ToNumber(op), to, ToNumber(value), data), HEADER_SIZE + |data|))
  {
    assert Slice(b, 0, 1) == Some(op);
    assert Slice(b, 1, 21) == Some(to);
    assert Slice(b, 21, 53) == Some(value);
    assert Slice(b, 53, 85) == Some(length);
    assert data != [] ==> Slice(b, 85, 85 + |data|) == Some(data);
  }

  lemma DecodeFirst(t: Transaction, rest: Bytes)
    requires WellFormed(t)
    ensures DecodeOne(EncodeOne(t) + rest) == Some((t, |EncodeOne(t)|))
  {
    ToNumberToBytes(t.operation, OPERATION_SIZE);
    ToNumberToBytes(t.value, VALUE_SIZE);
    ToNumberToBytes(|t.data|, DATA_LENGTH_SIZE);
    var op := ToBytes(t.operation, OPERATION_SIZE);
    var value := ToBytes(t.value, VALUE_SIZE);
    var length := ToBytes(|t.data|, DATA_LENGTH_SIZE);
    PartsStart(op, t.to, value, length, t.data, rest);
    DecodeParts(EncodeOne(t) + rest, op, t.to, value, length, t.data);
  }

  lemma DecodeCons(e: Bytes, t: Transaction, tail: Bytes)
    requires e != [] && DecodeOne(e + tail) == Some((t, |e|))
    ensures Decode(e + tail) == [t] + Decode(tail)
  {
    assert From(e + tail, |e|) == tail;
  }

  /** Decoding an encoded list followed by any bytes gives the list, then the decoding of those bytes. */
  lemma {:induction false} DecodeEncode(ts: seq<Transaction>, rest: Bytes)
    requires AllWellFormed(ts)
    ensures Decode(Encode(ts) + rest) == ts + Decode(rest)
    decreases |ts|
  {
    if ts == [] {
      assert Encode(ts) + rest == rest;
    } else {
      DecodeEncodeFirst(ts, rest);
      DecodeEncode(ts[1..], rest);
      HeadAndTail(ts, Decode(rest));
    }
  }

  lemma HeadAndTail(ts: seq<Transaction>, rest: seq<Transaction>)
    requires ts != []
    ensures [ts[0]] + (ts[1..] + rest) == ts + rest
  {
  }

  lemma DecodeEncodeFirst(ts: seq<Transaction>, rest: Bytes)
    requires ts != [] && WellFormed(ts[0])
    ensures Decode(Encode(ts) + rest) == [ts[0]] + Decode(Encode(ts[1..]) + rest)
  {
    EncodeCons(ts, rest);
    DecodeFirst(ts[0], Encode(ts[1..]) + rest);
    DecodeCons(EncodeOne(ts[0]), ts[0], Encode(ts[1..]) + rest);
  }

  lemma EncodeCons(ts: seq<Transaction>, rest: Bytes)
    requires ts != []
    ensures Encode(ts) + rest == EncodeOne(ts[0]) + (Encode(ts[1..]) + rest)
    ensures EncodeOne(ts[0]) != []
  {
    ConcatAssociates(EncodeOne(ts[0]), Encode(ts[1..]), rest);
  }

  lemma ConcatAssociates(a: Bytes, b: Bytes, c: Bytes)
    ensures a + b + c == a + (b + c)
  {
  }

  /** Two different lists never have the same encoding, nor is one encoding a prefix of the other unless the lists are. */
  lemma EncodeInjective(a: seq<Transaction>, b: seq<Transaction>, rest: Bytes)
    requires AllWellFormed(a) && AllWellFormed(b)
    requires Encode(a) + rest == Encode(b)
    ensures a <= b
    ensures rest == [] ==> a == b
  {
    DecodeEncode(a, rest);
    DecodeEncode(b, []);
    assert Encode(b) + [] == Encode(b);
    assert b == a + Decode(rest);
  }

  // ---- what any decoding says about its bytes ----

  /**
   * One round against the bytes themselves, cut off or not. There is an entry exactly when the bytes
   * reach into the data length and, unless that says zero, beyond it; a cut-off data length counts as
   * far as it goes, and cut-off data is what is left.
   */
  lemma RoundAgainstBytes(b: Bytes)
    requires b != []
    ensures |b| <= 53 ==> DecodeOne(b) == None
    ensures |b| > 53 ==>
              var length := ToNumber(b[53..if |b| < 85 then |b| else 85]);
              if length == 0 then DecodeOne(b) == Some((Transaction(b[0], b[1..21], ToNumber(b[21..53]), []), 85))
              else if |b| <= 85 then DecodeOne(b) == None
              else DecodeOne(b) == Some((Transaction(b[0], b[1..21], ToNumber(b[21..53]),
                                                     b[85..if |b| < 85 + length then |b| else 85 + length]), 85 + length))
  {
    assert b[..1] == b[0..1] && ToNumber([b[0]]) == b[0] by { assert [b[0]][..0] == []; }
    assert b[0..1] == [b[0]];
  }

  /** The loop makes at most one round per started header. */
  lemma {:induction false} AtMostOnePerHeader(b: Bytes)
    ensures |Decode(b)| <= (|b| + HEADER_SIZE - 1) / HEADER_SIZE
    decreases |b|
  {
    if Decode(b) != [] {
      var rest := RoundAdvances(b);
      AtMostOnePerHeader(rest);
      OneMoreHeader(|b|, |rest|);
    }
  }

  lemma RoundAdvances(b: Bytes) returns (rest: Bytes)
    requires Decode(b) != []
    ensures |rest| < |b| && (rest == [] || |rest| + HEADER_SIZE <= |b|)
    ensures |Decode(b)| == 1 + |Decode(rest)|
  {
    var t;
    t, rest := FirstRound(b);
  }

  lemma OneMoreHeader(n: nat, m: nat)
    requires m < n && (m == 0 || m + HEADER_SIZE <= n)
    ensures 1 + (m + HEADER_SIZE - 1) / HEADER_SIZE <= (n + HEADER_SIZE - 1) / HEADER_SIZE
  {
  }

  /** Every transaction but the last is well-formed and stands in the bytes exactly as the encoder would write it. */
  lemma {:induction false} DecodedIsEncoded(b: Bytes)
    requires Decode(b) != []
    ensures var whole := Decode(b)[..|Decode(b)| - 1];
            AllWellFormed(whole) && Encode(whole) <= b
    decreases |b|
  {
    var t, rest := FirstRound(b);
    if Decode(rest) != [] {
      DecodedIsEncoded(rest);
      WholeOnes(t, Decode(rest), b, rest);
    }
  }

  lemma FirstRound(b: Bytes) returns (t: Transaction, rest: Bytes)
    requires Decode(b) != []
    ensures |rest| < |b| && (rest == [] || |rest| + HEADER_SIZE <= |b|)
    ensures Decode(b) == [t] + Decode(rest)
    ensures Decode(rest) != [] ==> WellFormed(t) && b == EncodeOne(t) + rest
  {
    var first := DecodeOne(b).value;
    t := first.0;
    rest := From(b, first.1);
    if rest != [] {
      FullRoundIsEncoded(b);
    }
  }

  lemma WholeOnes(t: Transaction, ts: seq<Transaction>, b: Bytes, rest: Bytes)
    requires ts != [] && WellFormed(t) && b == EncodeOne(t) + rest
    requires AllWellFormed(ts[..|ts| - 1]) && Encode(ts[..|ts| - 1]) <= rest
    ensures var whole := ([t] + ts)[..|ts|];
            AllWellFormed(whole) && Encode(whole) <= b
  {
    var whole := ([t] + ts)[..|ts|];
    assert whole[0] == t && whole[1..] == ts[..|ts| - 1];
    PrefixConcat(EncodeOne(t), Encode(whole[1..]), rest);
  }

  lemma PrefixConcat(a: Bytes, b: Bytes, c: Bytes)
    requires b <= c
    ensures a + b <= a + c
  {
  }

  /** A round that stays inside the bytes reads exactly one encoded, well-formed transaction. */
  lemma FullRoundIsEncoded(b: Bytes)
    requires DecodeOne(b).Some? && DecodeOne(b).value.1 <= |b|
    ensures var (t, n) := DecodeOne(b).value;
            WellFormed(t) && b == EncodeOne(t) + From(b, n) && n == |EncodeOne(t)|
  {
    var op, to, value, length, data := FullRoundParts(b);
    ToBytesToNumber(op);
    ToBytesToNumber(value);
    ToBytesToNumber(length);
  }

  lemma FullRoundParts(b: Bytes) returns (op: Bytes, to: Bytes, value: Bytes, length: Bytes, data: Bytes)
    requires DecodeOne(b).Some? && DecodeOne(b).value.1 <= |b|
    ensures |op| == OPERATION_SIZE && |to| == TO_SIZE && |value| == VALUE_SIZE && |length| == DATA_LENGTH_SIZE
    ensures |data| == ToNumber(length)
    ensures var (t, n) := DecodeOne(b).value;
            && t == Transaction(ToNumber(op), to, ToNumber(value), data)
            && n == HEADER_SIZE + |data|
            && b == op + to + value + length + data + From(b, n)
  {
    var (t, n) := DecodeOne(b).value;
    op, to, value, length, data := b[..1], b[1..21], b[21..53], b[53..85], b[85..n];
    assert Slice(b, 0, 1) == Some(op) && Slice(b, 1, 21) == Some(to);
    assert Slice(b, 21, 53) == Some(value) && Slice(b, 53, 85) == Some(length);
    PartsJoin(b, n);
  }

  lemma PartsJoin(b: Bytes, n: nat)
    requires 85 <= n <= |b|
    ensures b == b[..1] + b[1..21] + b[21..53] + b[53..85] + b[85..n] + From(b, n)
  {
  }
}
