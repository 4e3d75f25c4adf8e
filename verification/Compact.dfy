/** The compact binary form of a block: 193 bytes. */
module Compact {
  import opened Common
  import opened Bytes
  import Hex
  import opened Blocks

  const COMPACT_BLOCK_SIZE: nat := 193

  /** The fields of the compact form, in order. */
  datatype Wire = Wire(
    tag: byte, account: Bytes32, previous: Bytes32, balance: u64, nonce: u64, timestamp: u64, amount: u64,
    reference: Bytes32, signature: Bytes)

  function Layout(w: Wire): Bytes {
    [w.tag] + w.account + w.previous + Be8(w.balance) + Be8(w.nonce) + Be8(w.timestamp) + Be8(w.amount)
    + w.reference + w.signature
  }

  function Split(data: Bytes): Wire
    requires |data| >= COMPACT_BLOCK_SIZE
  {
    Wire(data[0], data[1..33], data[33..65], FromBe8(data[65..73]), FromBe8(data[73..81]), FromBe8(data[81..89]),
         FromBe8(data[89..97]), data[97..129], data[129..193])
  }
  lemma LayoutLength(w: Wire)
    ensures |Layout(w)| == 129 + |w.signature|
  {
  }

  lemma SplitLayout(w: Wire)
    requires |w.signature| == 64
    ensures |Layout(w)| == COMPACT_BLOCK_SIZE && Split(Layout(w)) == w
  {
    LayoutBytes(w);
  }

  lemma LayoutSplit(data: Bytes)
    requires |data| >= COMPACT_BLOCK_SIZE
    ensures Layout(Split(data)) == data[..COMPACT_BLOCK_SIZE]
  {
    var w := Split(data);
    assert Be8(w.balance) == data[65..73] && Be8(w.nonce) == data[73..81];
    assert Be8(w.timestamp) == data[81..89] && Be8(w.amount) == data[89..97];
  }

  /** `hex_decode_32`. */
  function HexDecode32(s: string): Result<Bytes32, Error> {
    match Hex.Decode(s)
    case None => Err(HexDecode)
    case Some(v) => if |v| == 32 then Ok(v) else Err(InvalidKey)
  }

  function TagOf(kind: BlockType): byte {
    match kind
    case Open(_) => 0
    case Send(_, _) => 1
    case Receive(_) => 2
    case Revoke(_) => 3
  }

  function AmountOf(kind: BlockType): u64 {
    match kind
    case Open(initialBalance) => initialBalance
    case Send(_, amount) => amount
    case _ => 0
  }

  /** The hexadecimal field a block type carries, if any. */
  function ReferenceText(kind: BlockType): Option<string> {
    match kind
    case Open(_) => None
    case Send(destination, _) => Some(destination)
    case Receive(sourceHash) => Some(sourceHash)
    case Revoke(credentialHash) => Some(credentialHash)
  }

  function PreviousBytes(previous: string): Result<Bytes32, Error> {
    if previous == "" then Ok(Zeros(32)) else HexDecode32(previous)
  }

  function ReferenceBytes(kind: BlockType): Result<Bytes32, Error> {
    match ReferenceText(kind)
    case None => Ok(Zeros(32))
    case Some(s) => HexDecode32(s)
  }

  /** The compact form of a block: the first field that is not the text of 32 bytes decides the error, and a
      signature of the wrong length becomes zeros. */
  function ToWire(b: Block): Result<Wire, Error>
    requires b.nonce <= U64_MAX
  {
    match HexDecode32(b.account)
    case Err(e) => Err(e)
    case Ok(account) =>
      match PreviousBytes(b.previous)
      case Err(e) => Err(e)
      case Ok(previous) =>
        match ReferenceBytes(b.kind)
        case Err(e) => Err(e)
        case Ok(reference) =>
          Ok(Wire(TagOf(b.kind), account, previous, b.balance, b.nonce, b.timestamp, AmountOf(b.kind), reference,
                  if |b.signature| == 64 then b.signature else Zeros(64)))
  }

  function Printed(b: Block): Result<Bytes, Error>
    requires b.nonce <= U64_MAX
  {
    match ToWire(b)
    case Err(e) => Err(e)
    case Ok(w) => Ok(Layout(w))
  }

  /** Appending the hexadecimal field of a block type, or zeros. */
  method AppendReference(buf: Bytes, kind: BlockType) returns (r: Result<Bytes, Error>)
    ensures match ReferenceBytes(kind)
      case Err(e) => r == Err(e)
      case Ok(reference) => r == Ok(buf + reference)
  {
    var reference: Result<Bytes32, Error> := Ok(Zeros(32));
    match kind {
      case Send(destination, _) => reference := HexDecode32(destination);
      case Receive(sourceHash) => reference := HexDecode32(sourceHash);
      case Revoke(credentialHash) => reference := HexDecode32(credentialHash);
      case Open(_) =>
    }
    if reference.Err? {
      return Err(reference.error);
    }
    r := Ok(buf + reference.value);
  }

  /** `to_compact_bytes`, appending field by field. */
  method ToCompactBytes(b: Block) returns (r: Result<Bytes, Error>)
    requires b.nonce <= U64_MAX
    ensures r == Printed(b)
    ensures r.Ok? ==> |r.value| == COMPACT_BLOCK_SIZE
  {
    var buf: Bytes := [TagOf(b.kind)];
    var account := HexDecode32(b.account);
    if account.Err? {
      return Err(account.error);
    }
    buf := buf + account.value;
    if b.previous == "" {
      buf := buf + Zeros(32);
    } else {
      var previous := HexDecode32(b.previous);
      if previous.Err? {
        return Err(previous.error);
      }
      buf := buf + previous.value;
    }
    buf := buf + Be8(b.balance);
    buf := buf + Be8(b.nonce);
    buf := buf + Be8(b.timestamp);
    var amount: u64 := 0;
    match b.kind {
      case Open(initialBalance) => amount := initialBalance;
      case Send(_, sent) => amount := sent;
      case _ =>
    }
    buf := buf + Be8(amount);
    r := AppendReference(buf, b.kind);
    if r.Err? {
      return;
    }
    buf := r.value;
    if |b.signature| == 64 {
      buf := buf + b.signature;
    } else {
      buf := buf + Zeros(64);
    }
    LayoutLength(ToWire(b).value);
    r := Ok(buf);
  }

  predicate IsText(s: string, bytes: Bytes) {
    Hex.Decode(s) == Some(bytes)
  }

  predicate IsTextOf32(s: string) {
    Hex.Decode(s).Some? && |Hex.Decode(s).value| == 32
  }

  /** Which byte of a printed block says what. */
  lemma PrintedBytes(b: Block)
    requires b.nonce <= U64_MAX
    ensures Printed(b).Ok? <==>
      && IsTextOf32(b.account) && (b.previous == "" || IsTextOf32(b.previous))
      && (b.kind.Send? ==> IsTextOf32(b.kind.destination)) && (b.kind.Receive? ==> IsTextOf32(b.kind.sourceHash))
      && (b.kind.Revoke? ==> IsTextOf32(b.kind.credentialHash))
    ensures Printed(b).Ok? ==>
      var data := Printed(b).value;
      && |data| == 193
      && data[0] == (match b.kind case Open(_) => 0 case Send(_, _) => 1 case Receive(_) => 2 case Revoke(_) => 3)
      && IsText(b.account, data[1..33])
      && (if b.previous == "" then data[33..65] == Zeros(32) else IsText(b.previous, data[33..65]))
      && FromBigEndian(data[65..73]) == b.balance && FromBigEndian(data[73..81]) == b.nonce
      && FromBigEndian(data[81..89]) == b.timestamp
      && FromBigEndian(data[89..97]) ==
         (match b.kind case Open(initial) => initial case Send(_, amount) => amount case _ => 0)
      && (match b.kind
          case Open(_) => data[97..129] == Zeros(32)
          case Send(destination, _) => IsText(destination, data[97..129])
          case Receive(source) => IsText(source, data[97..129])
          case Revoke(credential) => IsText(credential, data[97..129]))
      && data[129..193] == (if |b.signature| == 64 then b.signature else Zeros(64))
  {
    if ToWire(b).Ok? {
      LayoutBytes(ToWire(b).value);
    }
  }

  /** Why a block cannot be printed: the first of account, predecessor and reference that is not the text of 32 bytes.
      */
  lemma PrintRefusals(b: Block)
    requires b.nonce <= U64_MAX
    ensures !IsTextOf32(b.account) ==> Printed(b) == Err(TextFault(b.account))
    ensures IsTextOf32(b.account) && b.previous != "" && !IsTextOf32(b.previous) ==>
      Printed(b) == Err(TextFault(b.previous))
    ensures IsTextOf32(b.account) && (b.previous == "" || IsTextOf32(b.previous)) && Printed(b).Err? ==>
      !b.kind.Open? && Printed(b) == Err(TextFault(
        match b.kind case Send(to, _) => to case Receive(source) => source case Revoke(id) => id case _ => ""))
  {
  }

  function TextFault(s: string): Error {
    if Hex.Decode(s).None? then HexDecode else InvalidKey
  }

  lemma LayoutBytes(w: Wire)
    requires |w.signature| == 64
    ensures var data := Layout(w);
      && |data| == 193 && data[0] == w.tag && data[1..33] == w.account && data[33..65] == w.previous
      && data[65..73] == Be8(w.balance) && data[73..81] == Be8(w.nonce) && data[81..89] == Be8(w.timestamp)
      && data[89..97] == Be8(w.amount) && data[97..129] == w.reference && data[129..193] == w.signature
  {
  }

  /** An all-zero predecessor is the empty text of a first block. */
  function PreviousText(previous: Bytes32): string {
    if previous == Zeros(32) then "" else Hex.Encode(previous)
  }

  function KindOf(w: Wire): Result<BlockType, Error> {
    if w.tag == 0 then Ok(Open(w.amount))
    else if w.tag == 1 then Ok(Send(Hex.Encode(w.reference), w.amount))
    else if w.tag == 2 then Ok(Receive(Hex.Encode(w.reference)))
    else if w.tag == 3 then Ok(Revoke(Hex.Encode(w.reference)))
    else Err(InvalidBlockType(w.tag))
  }

  /** The block of a compact form; its hash is recomputed. */
  function FromWire(c: Crypto, w: Wire): Result<Block, Error> {
    match KindOf(w)
    case Err(e) => Err(e)
    case Ok(kind) =>
      var body := Content(Hex.Encode(w.account), PreviousText(w.previous), kind, w.balance, w.nonce, w.timestamp);
      match c.ComputeHash(body)
      case Err(e) => Err(e)
      case Ok(hash) =>
        Ok(Block(body.account, body.previous, kind, w.balance, w.nonce, w.timestamp, hash, w.signature))
  }

  /** `from_compact_bytes`. */
  function FromCompactBytes(c: Crypto, data: Bytes): Result<Block, Error> {
    if |data| < COMPACT_BLOCK_SIZE then Err(DataTooShort(|data|, COMPACT_BLOCK_SIZE)) else FromWire(c, Split(data))
  }

  /** What can be parsed: at least 193 bytes, of which the first is a known tag and the next 32 are a valid key. */
  lemma ParsesExactly(c: Crypto, data: Bytes)
    ensures FromCompactBytes(c, data).Ok? <==>
            |data| >= 193 && data[0] <= 3 && c.validKey(Hex.Encode(data[1..33]))
    ensures FromCompactBytes(c, data).Err? ==>
      FromCompactBytes(c, data) ==
      if |data| < 193 then Err(DataTooShort(|data|, 193))
      else if data[0] > 3 then Err(InvalidBlockType(data[0]))
      else Err(InvalidKey)
  {
  }

  /** Lower-case hexadecimal text of 32 bytes. */
  predicate IsKeyText(s: string) {
    |s| == 64 && Hex.IsLowerHex(s)
  }

  /** The blocks that the compact form can carry. */
  predicate Canonical(c: Crypto, b: Block) {
    && IsKeyText(b.account) && c.validKey(b.account)
    && (b.previous == "" || (IsKeyText(b.previous) && b.previous != Hex.Encode(Zeros(32))))
    && (ReferenceText(b.kind).Some? ==> IsKeyText(ReferenceText(b.kind).value))
    && |b.signature| == 64
    && b.hash == c.digest(b.Body())
  }

  /** The text of 32 bytes survives decoding and encoding exactly when it is lower case. */
  lemma KeyTextRoundTrip(s: string)
    ensures IsKeyText(s) ==> HexDecode32(s).Ok?
    ensures HexDecode32(s).Ok? ==> (Hex.Encode(HexDecode32(s).value) == s <==> IsKeyText(s))
  {
    if IsKeyText(s) {
      Hex.EncodeDecode(s);
    }
    if HexDecode32(s).Ok? {
      Hex.EncodeIsLowerHex(HexDecode32(s).value);
    }
  }

  lemma KeyBytesRoundTrip(v: Bytes32)
    ensures HexDecode32(Hex.Encode(v)) == Ok(v) && IsKeyText(Hex.Encode(v))
  {
    Hex.DecodeEncode(v);
    Hex.EncodeIsLowerHex(v);
  }

  lemma PreviousRoundTrip(previous: string)
    requires PreviousBytes(previous).Ok?
    ensures PreviousText(PreviousBytes(previous).value) == previous <==>
            previous == "" || (IsKeyText(previous) && previous != Hex.Encode(Zeros(32)))
  {
    if previous != "" {
      KeyTextRoundTrip(previous);
      KeyBytesRoundTrip(Zeros(32));
    }
  }

  lemma KindRoundTrip(b: Block, w: Wire)
    requires b.nonce <= U64_MAX && ToWire(b) == Ok(w)
    ensures KindOf(w) == Ok(b.kind) <==> (ReferenceText(b.kind).Some? ==> IsKeyText(ReferenceText(b.kind).value))
    ensures KindOf(w).Ok?
  {
    if ReferenceText(b.kind).Some? {
      KeyTextRoundTrip(ReferenceText(b.kind).value);
    }
  }
  lemma ToWireFields(b: Block, w: Wire)
    requires b.nonce <= U64_MAX && ToWire(b) == Ok(w)
    ensures HexDecode32(b.account) == Ok(w.account) && PreviousBytes(b.previous) == Ok(w.previous)
    ensures w.balance == b.balance && w.nonce == b.nonce && w.timestamp == b.timestamp
    ensures |w.signature| == 64 && (w.signature == b.signature <==> |b.signature| == 64)
  {
  }

  lemma CanonicalHasWire(c: Crypto, b: Block)
    requires b.nonce <= U64_MAX && Canonical(c, b)
    ensures ToWire(b).Ok?
  {
    KeyTextRoundTrip(b.account);
    KeyTextRoundTrip(b.previous);
    if ReferenceText(b.kind).Some? {
      KeyTextRoundTrip(ReferenceText(b.kind).value);
    }
  }

  /** Printing and parsing give a block back, hash included, exactly when the block is canonical. */
  lemma PrintThenParse(c: Crypto, b: Block)
    requires b.nonce <= U64_MAX
    ensures Canonical(c, b) <==> Printed(b).Ok? && FromCompactBytes(c, Printed(b).value) == Ok(b)
  {
    if Canonical(c, b) {
      CanonicalHasWire(c, b);
    }
    if ToWire(b).Ok? {
      WireThenBlock(c, b, ToWire(b).value);
      SplitLayout(ToWire(b).value);
    }
  }

  lemma WireThenBlock(c: Crypto, b: Block, w: Wire)
    requires b.nonce <= U64_MAX && ToWire(b) == Ok(w)
    ensures |w.signature| == 64
    ensures FromWire(c, w) == Ok(b) <==> Canonical(c, b)
  {
    ToWireFields(b, w);
    KeyTextRoundTrip(b.account);
    PreviousRoundTrip(b.previous);
    KindRoundTrip(b, w);
  }

  /** The bytes that the block's tag leaves unused are zero. */
  predicate UnusedIsZero(data: Bytes)
    requires |data| >= COMPACT_BLOCK_SIZE
  {
    && (data[0] == 0 ==> data[97..129] == Zeros(32))
    && (data[0] == 2 || data[0] == 3 ==> data[89..97] == Zeros(8))
  }

  lemma EightZeros()
    ensures Be8(0) == Zeros(8)
  {
    assert FromBigEndian(Zeros(8)) == 0 by {
      ZerosAreZero(8);
    }
    assert Be8(FromBe8(Zeros(8))) == Zeros(8);
  }

  lemma {:induction false} ZerosAreZero(k: nat)
    ensures FromBigEndian(Zeros(k)) == 0
  {
    if k > 0 {
      ZerosAreZero(k - 1);
      assert Zeros(k)[..k - 1] == Zeros(k - 1);
    }
  }

  /** The wire form after a parse and a print: unused fields become zero. */
  function Normalized(w: Wire): Wire {
    w.(amount := if w.tag == 2 || w.tag == 3 then 0 else w.amount,
       reference := if w.tag == 0 then Zeros(32) else w.reference)
  }

  lemma PreviousBytesRoundTrip(previous: Bytes32)
    ensures PreviousBytes(PreviousText(previous)) == Ok(previous)
  {
    KeyBytesRoundTrip(previous);
  }

  lemma KindBytesRoundTrip(w: Wire, kind: BlockType)
    requires KindOf(w) == Ok(kind)
    ensures TagOf(kind) == w.tag && AmountOf(kind) == Normalized(w).amount
    ensures ReferenceBytes(kind) == Ok(Normalized(w).reference)
  {
    KeyBytesRoundTrip(w.reference);
  }

  lemma BlockThenWire(c: Crypto, w: Wire, b: Block)
    requires FromWire(c, w) == Ok(b) && |w.signature| == 64
    ensures b.nonce <= U64_MAX && ToWire(b) == Ok(Normalized(w))
  {
    KeyBytesRoundTrip(w.account);
    PreviousBytesRoundTrip(w.previous);
    KindBytesRoundTrip(w, b.kind);
  }

  lemma NormalizedIff(data: Bytes)
    requires |data| >= COMPACT_BLOCK_SIZE
    ensures Normalized(Split(data)) == Split(data) <==> UnusedIsZero(data)
  {
    EightZeros();
  }

  /** Parsing and printing give the first 193 bytes back exactly when the unused bytes are zero. */
  lemma ParseThenPrint(c: Crypto, data: Bytes)
    requires FromCompactBytes(c, data).Ok?
    ensures var b := FromCompactBytes(c, data).value;
      && b.nonce <= U64_MAX
      && Printed(b).Ok?
      && (Printed(b).value == data[..COMPACT_BLOCK_SIZE] <==> UnusedIsZero(data))
  {
    var w := Split(data);
    BlockThenWire(c, w, FromCompactBytes(c, data).value);
    LayoutSplit(data);
    SplitLayout(w);
    SplitLayout(Normalized(w));
    NormalizedIff(data);
  }
}
