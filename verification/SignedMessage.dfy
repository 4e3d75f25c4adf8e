/** Gossip messages and the bytes their sender signs. */
module SignedMessage {
  import opened Common
  import opened Bytes
  import Domains

  const GOSSIP_MESSAGE_DOMAIN: Bytes := Domains.Prefix(Domains.Gossip)
  const BLOCK_ANNOUNCE: byte := 1
  const NONCE_SYNC_REQUEST: byte := 2
  const NONCE_SYNC_RESPONSE: byte := 3
  const PING: byte := 4
  const ENTRY_SIZE: nat := 72

  /** One nonce registry entry on the wire. */
  datatype Entry = Entry(hash: Bytes32, nonce: u64, account: Bytes32)

  datatype GossipMessage =
    | BlockAnnounce(blockData: Bytes, hops: byte)
    | NonceSyncRequest(from: Bytes)
    | NonceSyncResponse(entries: seq<Entry>)
    | Ping(nodeId: Bytes, timestamp: u64)
  {
    /** Every length fits the `u64` it is written as. */
    predicate Fits() {
      match this
      case BlockAnnounce(blockData, _) => |blockData| <= U64_MAX
      case NonceSyncRequest(from) => |from| <= U64_MAX
      case NonceSyncResponse(entries) => |entries| <= U64_MAX
      case Ping(nodeId, _) => |nodeId| <= U64_MAX
    }
  }

  function Blob(s: Bytes): Bytes
    requires |s| <= U64_MAX
  {
    Be8(|s|) + s
  }

  function EntryBytes(e: Entry): (s: Bytes)
    ensures |s| == ENTRY_SIZE
  {
    e.hash + Be8(e.nonce) + e.account
  }

  function EntriesBytes(entries: seq<Entry>): (s: Bytes)
    ensures |s| == |entries| * ENTRY_SIZE
  {
    if entries == [] then [] else EntryBytes(entries[0]) + EntriesBytes(entries[1..])
  }

  /** The tag and fields of a message. */
  function Encoding(m: GossipMessage): Bytes
    requires m.Fits()
  {
    match m
    case BlockAnnounce(blockData, hops) => [BLOCK_ANNOUNCE, hops] + Blob(blockData)
    case NonceSyncRequest(from) => [NONCE_SYNC_REQUEST] + Blob(from)
    case NonceSyncResponse(entries) => [NONCE_SYNC_RESPONSE] + Be8(|entries|) + EntriesBytes(entries)
    case Ping(nodeId, timestamp) => [PING] + Be8(timestamp) + Blob(nodeId)
  }

  /** `canonical_bytes`. */
  function CanonicalBytes(m: GossipMessage, sender: Bytes32): Bytes
    requires m.Fits()
  {
    GOSSIP_MESSAGE_DOMAIN + sender + Encoding(m)
  }

  /** `estimate_message_size`. */
  function EstimateMessageSize(m: GossipMessage): nat {
    match m
    case BlockAnnounce(blockData, _) => 1 + 1 + 8 + |blockData|
    case NonceSyncRequest(from) => 1 + 8 + |from|
    case NonceSyncResponse(entries) => 1 + 8 + |entries| * (32 + 8 + 32)
    case Ping(nodeId, _) => 1 + 8 + 8 + |nodeId|
  }

  /** Appending the entries in order. */
  method EncodeEntriesInto(buf: Bytes, entries: seq<Entry>) returns (out: Bytes)
    ensures out == buf + EntriesBytes(entries)
  {
    out := buf;
    for i := 0 to |entries|
      invariant out + EntriesBytes(entries[i..]) == buf + EntriesBytes(entries)
    {
      var e := entries[i];
      assert EntriesBytes(entries[i..]) == EntryBytes(e) + EntriesBytes(entries[i + 1..]);
      out := out + e.hash;
      out := out + Be8(e.nonce);
      out := out + e.account;
    }
  }

  /** Appending a byte string behind its length. */
  method AppendBlob(buf: Bytes, s: Bytes) returns (out: Bytes)
    requires |s| <= U64_MAX
    ensures out == buf + Blob(s)
  {
    out := buf + Be8(|s|);
    out := out + s;
  }

  lemma Regroup(a: Bytes, b: Bytes, c: Bytes)
    ensures a + b + c == a + (b + c)
  {
  }

  /** `encode_message_into`: appends exactly the message's encoding, which is exactly as long as estimated. */
  method EncodeMessageInto(buf: Bytes, m: GossipMessage) returns (out: Bytes)
    requires m.Fits()
    ensures out == buf + Encoding(m)
    ensures |out| == |buf| + EstimateMessageSize(m)
  {
    out := buf;
    match m {
      case BlockAnnounce(blockData, hops) =>
        out := out + [BLOCK_ANNOUNCE];
        out := out + [hops];
        Regroup(buf, [BLOCK_ANNOUNCE], [hops]);
        out := AppendBlob(out, blockData);
        Regroup(buf, [BLOCK_ANNOUNCE, hops], Blob(blockData));
      case NonceSyncRequest(from) =>
        out := out + [NONCE_SYNC_REQUEST];
        out := AppendBlob(out, from);
        Regroup(buf, [NONCE_SYNC_REQUEST], Blob(from));
      case NonceSyncResponse(entries) =>
        out := out + [NONCE_SYNC_RESPONSE];
        out := out + Be8(|entries|);
        Regroup(buf, [NONCE_SYNC_RESPONSE], Be8(|entries|));
        out := EncodeEntriesInto(out, entries);
        Regroup(buf, [NONCE_SYNC_RESPONSE] + Be8(|entries|), EntriesBytes(entries));
      case Ping(nodeId, timestamp) =>
        out := out + [PING];
        out := out + Be8(timestamp);
        Regroup(buf, [PING], Be8(timestamp));
        out := AppendBlob(out, nodeId);
        Regroup(buf, [PING] + Be8(timestamp), Blob(nodeId));
    }
  }

  method SignedBytes(m: GossipMessage, sender: Bytes32) returns (out: Bytes)
    requires m.Fits()
    ensures out == CanonicalBytes(m, sender)
  {
    out := GOSSIP_MESSAGE_DOMAIN;
    out := out + sender;
    out := EncodeMessageInto(out, m);
  }

  // ---- Reading an encoding back ----

  function TakeBlob(s: Bytes): Option<(Bytes, Bytes)> {
    if |s| < 8 then None
    else
      var n := FromBe8(s[..8]);
      if |s| < 8 + n then None else Some((s[8..8 + n], s[8 + n..]))
  }

  function TakeEntries(s: Bytes, n: nat): Option<(seq<Entry>, Bytes)> {
    if n == 0 then Some(([], s))
    else if |s| < ENTRY_SIZE then None
    else
      match TakeEntries(s[ENTRY_SIZE..], n - 1)
      case None => None
      case Some((entries, rest)) => Some(([Entry(s[..32], FromBe8(s[32..40]), s[40..72])] + entries, rest))
  }

  function TakeFields(tag: byte, s: Bytes): Option<(GossipMessage, Bytes)> {
    if tag == BLOCK_ANNOUNCE && s != [] then
      match TakeBlob(s[1..])
      case None => None
      case Some((blockData, rest)) => Some((BlockAnnounce(blockData, s[0]), rest))
    else if tag == NONCE_SYNC_REQUEST then
      match TakeBlob(s)
      case None => None
      case Some((from, rest)) => Some((NonceSyncRequest(from), rest))
    else if tag == NONCE_SYNC_RESPONSE && |s| >= 8 then
      match TakeEntries(s[8..], FromBe8(s[..8]))
      case None => None
      case Some((entries, rest)) => Some((NonceSyncResponse(entries), rest))
    else if tag == PING && |s| >= 8 then
      match TakeBlob(s[8..])
      case None => None
      case Some((nodeId, rest)) => Some((Ping(nodeId, FromBe8(s[..8])), rest))
    else
      None
  }

  /** Reads one message off the front of a byte string. */
  function Parse(s: Bytes): Option<(GossipMessage, Bytes)> {
    if s == [] then None else TakeFields(s[0], s[1..])
  }

  lemma BlobRoundTrip(s: Bytes, rest: Bytes)
    requires |s| <= U64_MAX
    ensures TakeBlob(Blob(s) + rest) == Some((s, rest))
  {
    var t := Blob(s) + rest;
    assert t[..8] == Be8(|s|);
    assert FromBe8(t[..8]) == |s|;
    assert t[8..8 + |s|] == s && t[8 + |s|..] == rest;
  }

  lemma TakenBlob(t: Bytes)
    requires TakeBlob(t).Some?
    ensures var (s, rest) := TakeBlob(t).value; |s| <= U64_MAX && t == Blob(s) + rest
  {
  }

  lemma {:induction false} EntriesRoundTrip(entries: seq<Entry>, rest: Bytes)
    ensures TakeEntries(EntriesBytes(entries) + rest, |entries|) == Some((entries, rest))
  {
    var t := EntriesBytes(entries) + rest;
    if entries == [] {
      assert t == rest;
    } else {
      var e := entries[0];
      assert t == EntryBytes(e) + (EntriesBytes(entries[1..]) + rest);
      EntriesRoundTrip(entries[1..], rest);
      assert t[..32] == e.hash && t[32..40] == Be8(e.nonce) && t[40..72] == e.account;
      assert FromBe8(t[32..40]) == e.nonce;
      assert t[ENTRY_SIZE..] == EntriesBytes(entries[1..]) + rest;
      assert [e] + entries[1..] == entries;
    }
  }

  lemma {:induction false} TakenEntries(t: Bytes, n: nat)
    requires TakeEntries(t, n).Some?
    ensures var (entries, rest) := TakeEntries(t, n).value; |entries| == n && t == EntriesBytes(entries) + rest
  {
    if n > 0 {
      TakenEntries(t[ENTRY_SIZE..], n - 1);
      var (more, rest) := TakeEntries(t[ENTRY_SIZE..], n - 1).value;
      var (entries, _) := TakeEntries(t, n).value;
      assert entries[1..] == more;
      assert EntryBytes(entries[0]) == t[..ENTRY_SIZE];
      assert t == t[..ENTRY_SIZE] + t[ENTRY_SIZE..];
    }
  }

  lemma AfterTag(tag: byte, body: Bytes, rest: Bytes)
    ensures var t := [tag] + body + rest; t != [] && t[0] == tag && t[1..] == body + rest
  {
  }

  lemma AfterTagAndHops(tag: byte, hops: byte, body: Bytes, rest: Bytes)
    ensures var t := [tag, hops] + body + rest;
      |t| >= 2 && t[0] == tag && t[1..][0] == hops && t[1..][1..] == body + rest
  {
  }

  lemma ParseBlockAnnounce(blockData: Bytes, hops: byte, rest: Bytes)
    requires |blockData| <= U64_MAX
    ensures Parse(Encoding(BlockAnnounce(blockData, hops)) + rest) == Some((BlockAnnounce(blockData, hops), rest))
  {
    BlobRoundTrip(blockData, rest);
    AfterTagAndHops(BLOCK_ANNOUNCE, hops, Blob(blockData), rest);
  }

  lemma ParseNonceSyncRequest(from: Bytes, rest: Bytes)
    requires |from| <= U64_MAX
    ensures Parse(Encoding(NonceSyncRequest(from)) + rest) == Some((NonceSyncRequest(from), rest))
  {
    BlobRoundTrip(from, rest);
    AfterTag(NONCE_SYNC_REQUEST, Blob(from), rest);
  }

  /** What follows the tag of a message whose first field is a number. */
  lemma NumberAfterTag(tag: byte, n: u64, body: Bytes, rest: Bytes)
    ensures var s := ([tag] + Be8(n) + body + rest)[1..];
      |s| >= 8 && FromBe8(s[..8]) == n && s[8..] == body + rest
  {
    var s := ([tag] + Be8(n) + body + rest)[1..];
    assert s[..8] == Be8(n);
  }

  lemma ParseNonceSyncResponse(entries: seq<Entry>, rest: Bytes)
    requires |entries| <= U64_MAX
    ensures Parse(Encoding(NonceSyncResponse(entries)) + rest) == Some((NonceSyncResponse(entries), rest))
  {
    EntriesRoundTrip(entries, rest);
    NumberAfterTag(NONCE_SYNC_RESPONSE, |entries|, EntriesBytes(entries), rest);
  }

  lemma ParsePing(nodeId: Bytes, timestamp: u64, rest: Bytes)
    requires |nodeId| <= U64_MAX
    ensures Parse(Encoding(Ping(nodeId, timestamp)) + rest) == Some((Ping(nodeId, timestamp), rest))
  {
    BlobRoundTrip(nodeId, rest);
    NumberAfterTag(PING, timestamp, Blob(nodeId), rest);
  }

  /** Reading back an encoding, whatever follows it. */
  lemma ParseEncoding(m: GossipMessage, rest: Bytes)
    requires m.Fits()
    ensures Parse(Encoding(m) + rest) == Some((m, rest))
  {
    match m
    case BlockAnnounce(blockData, hops) => ParseBlockAnnounce(blockData, hops, rest);
    case NonceSyncRequest(from) => ParseNonceSyncRequest(from, rest);
    case NonceSyncResponse(entries) => ParseNonceSyncResponse(entries, rest);
    case Ping(nodeId, timestamp) => ParsePing(nodeId, timestamp, rest);
  }

  lemma TakenBlockAnnounce(s: Bytes)
    requires TakeFields(BLOCK_ANNOUNCE, s).Some?
    ensures var (m, rest) := TakeFields(BLOCK_ANNOUNCE, s).value;
      m.BlockAnnounce? && m.Fits() && s == [m.hops] + (Blob(m.blockData) + rest)
  {
    TakenBlob(s[1..]);
    assert s == [s[0]] + s[1..];
  }

  lemma TakenNonceSyncResponse(s: Bytes)
    requires TakeFields(NONCE_SYNC_RESPONSE, s).Some?
    ensures var (m, rest) := TakeFields(NONCE_SYNC_RESPONSE, s).value;
      m.NonceSyncResponse? && m.Fits() && s == Be8(|m.entries|) + (EntriesBytes(m.entries) + rest)
  {
    TakenEntries(s[8..], FromBe8(s[..8]));
    assert s == s[..8] + s[8..];
  }

  lemma TakenPing(s: Bytes)
    requires TakeFields(PING, s).Some?
    ensures var (m, rest) := TakeFields(PING, s).value;
      m.Ping? && m.Fits() && s == Be8(m.timestamp) + (Blob(m.nodeId) + rest)
  {
    TakenBlob(s[8..]);
    assert s == s[..8] + s[8..];
  }

  lemma RegroupFour(a: Bytes, b: Bytes, c: Bytes, d: Bytes)
    ensures a + (b + (c + d)) == a + b + c + d
  {
  }

  /** Whatever can be read was an encoding. */
  lemma ParsedIsEncoding(t: Bytes)
    requires Parse(t).Some?
    ensures var (m, rest) := Parse(t).value; m.Fits() && t == Encoding(m) + rest
  {
    var (m, rest) := Parse(t).value;
    var s := t[1..];
    assert t == [t[0]] + s;
    match m {
      case BlockAnnounce(blockData, hops) =>
        TakenBlockAnnounce(s);
        RegroupFour([BLOCK_ANNOUNCE], [hops], Blob(blockData), rest);
      case NonceSyncRequest(from) =>
        TakenBlob(s);
        Regroup([NONCE_SYNC_REQUEST], Blob(from), rest);
      case NonceSyncResponse(entries) =>
        TakenNonceSyncResponse(s);
        RegroupFour([NONCE_SYNC_RESPONSE], Be8(|entries|), EntriesBytes(entries), rest);
      case Ping(nodeId, timestamp) =>
        TakenPing(s);
        RegroupFour([PING], Be8(timestamp), Blob(nodeId), rest);
    }
  }

  /** No encoding is the beginning of another one: a byte string starts with at most one message. */
  lemma EncodingIsPrefixFree(m: GossipMessage, n: GossipMessage, rest: Bytes, more: Bytes)
    requires m.Fits() && n.Fits() && Encoding(m) + rest == Encoding(n) + more
    ensures m == n && rest == more
  {
    ParseEncoding(m, rest);
    ParseEncoding(n, more);
  }

  /** A signature binds the sender and every field of the message: different messages sign different bytes. */
  lemma CanonicalBytesAreInjective(m: GossipMessage, sender: Bytes32, n: GossipMessage, other: Bytes32)
    requires m.Fits() && n.Fits()
    requires CanonicalBytes(m, sender) == CanonicalBytes(n, other)
    ensures m == n && sender == other
  {
    var d := |GOSSIP_MESSAGE_DOMAIN|;
    var x, y := CanonicalBytes(m, sender), CanonicalBytes(n, other);
    assert sender == x[d..d + 32] == y[d..d + 32] == other;
    assert Encoding(m) == x[d + 32..] == y[d + 32..] == Encoding(n);
    assert Encoding(m) + [] == Encoding(n) + [];
    EncodingIsPrefixFree(m, n, [], []);
  }

  /** What the encoding of a message says where: its tag, from 1 to 4, and its fields. */
  ghost predicate LaidOut(m: GossipMessage, s: Bytes) {
    match m
    case BlockAnnounce(blockData, hops) =>
      && |s| == 10 + |blockData| && s[0] == 1 && s[1] == hops
      && FromBigEndian(s[2..10]) == |blockData| && s[10..] == blockData
    case NonceSyncRequest(from) =>
      |s| == 9 + |from| && s[0] == 2 && FromBigEndian(s[1..9]) == |from| && s[9..] == from
    case NonceSyncResponse(entries) =>
      && |s| == 9 + 72 * |entries| && s[0] == 3 && FromBigEndian(s[1..9]) == |entries|
      && forall i {:trigger entries[i]} :: 0 <= i < |entries| ==> IsEntry(entries[i], s[9 + 72 * i..81 + 72 * i])
    case Ping(nodeId, timestamp) =>
      && |s| == 17 + |nodeId| && s[0] == 4 && FromBigEndian(s[1..9]) == timestamp
      && FromBigEndian(s[9..17]) == |nodeId| && s[17..] == nodeId
  }

  ghost predicate IsEntry(e: Entry, s: Bytes) {
    |s| == 72 && s[..32] == e.hash && FromBigEndian(s[32..40]) == e.nonce && s[40..] == e.account
  }

  /** The signed bytes are the domain, the sender and the message laid out. */
  lemma SignedLayout(m: GossipMessage, sender: Bytes32)
    requires m.Fits()
    ensures var s, d := CanonicalBytes(m, sender), |GOSSIP_MESSAGE_DOMAIN|;
      |s| >= d + 32 && s[..d] == GOSSIP_MESSAGE_DOMAIN && s[d..d + 32] == sender && LaidOut(m, s[d + 32..])
  {
    ThreeParts(GOSSIP_MESSAGE_DOMAIN, sender, Encoding(m));
    EncodingIsLaidOut(m, Encoding(m));
  }

  lemma ThreeParts(domain: Bytes, sender: Bytes32, body: Bytes)
    ensures var s, d := domain + sender + body, |domain|;
      |s| >= d + 32 && s[..d] == domain && s[d..d + 32] == sender && s[d + 32..] == body
  {
  }

  lemma EncodingIsLaidOut(m: GossipMessage, s: Bytes)
    requires m.Fits() && s == Encoding(m)
    ensures LaidOut(m, s)
  {
    match m {
      case BlockAnnounce(blockData, _) => assert s[2..10] == Be8(|blockData|);
      case NonceSyncRequest(from) => assert s[1..9] == Be8(|from|);
      case NonceSyncResponse(entries) =>
        ResponseIsLaidOut(entries, s);
      case Ping(nodeId, timestamp) => assert s[1..9] == Be8(timestamp) && s[9..17] == Be8(|nodeId|);
    }
  }

  lemma ResponseIsLaidOut(entries: seq<Entry>, s: Bytes)
    requires |entries| <= U64_MAX && s == Encoding(NonceSyncResponse(entries))
    ensures LaidOut(NonceSyncResponse(entries), s)
  {
    assert s[1..9] == Be8(|entries|) && s[9..] == EntriesBytes(entries);
    forall i | 0 <= i < |entries|
      ensures IsEntry(entries[i], s[9 + 72 * i..81 + 72 * i])
    {
      EntryBehind(s, 9, entries, i);
    }
  }

  lemma {:induction false} EntryBehind(s: Bytes, d: nat, entries: seq<Entry>, i: nat)
    requires d <= |s| && s[d..] == EntriesBytes(entries) && i < |entries|
    ensures d + 72 * i + 72 <= |s| && IsEntry(entries[i], s[d + 72 * i..d + 72 * i + 72])
    decreases i
  {
    FirstEntry(s, d, EntryBytes(entries[0]), EntriesBytes(entries[1..]));
    if i == 0 {
      EntryLayout(entries[0]);
    } else {
      EntryBehind(s, d + 72, entries[1..], i - 1);
    }
  }

  lemma FirstEntry(s: Bytes, d: nat, first: Bytes, more: Bytes)
    requires d <= |s| && s[d..] == first + more && |first| == 72
    ensures d + 72 <= |s| && s[d..d + 72] == first && s[d + 72..] == more
  {
    assert s[d..][..72] == first && s[d..][72..] == more;
  }

  /** An entry is its hash, its nonce and its account. */
  lemma EntryLayout(e: Entry)
    ensures IsEntry(e, EntryBytes(e))
  {
    assert EntryBytes(e)[32..40] == Be8(e.nonce);
  }
}
