/** The domain prefixes in front of what is signed. Block hashes and the hashes of consensus votes are signed bare. */
module Domains {
  import opened Bytes

  datatype Domain =
    | TransportFragment
    | TransportMessage
    | FinalityConfirmation
    | ValidatorVote
    | DelegationRevocation
    | RelaySlash
    | RelayReceipt
    | Gossip
    | EscrowRelease
    | EscrowRefund

  function Prefix(d: Domain): Bytes {
    match d
    case TransportFragment => Label("arxia-transport-fragment-v1")
    case TransportMessage => Label("arxia-transport-msg-v1")
    case FinalityConfirmation => Label("arxia-finality-confirmation-v1")
    case ValidatorVote => Label("arxia-finality-validator-vote-v1")
    case DelegationRevocation => Label("arxia-delegation-revocation-v1")
    case RelaySlash => Label("arxia-relay-slash-v1")
    case RelayReceipt => Label("arxia-relay-receipt-v1")
    case Gossip => Label("arxia-gossip-msg-v1")
    case EscrowRelease => Label("arxia-escrow-release-v1")
    case EscrowRefund => Label("arxia-escrow-refund-v1")
  }

  /** Reading the domain off signed bytes: the letter after "arxia-" and, where that is shared, a later one. */
  function DomainOf(s: Bytes): Domain
    requires |s| > 16
  {
    if s[6] == 't' as int then (if s[16] == 'f' as int then TransportFragment else TransportMessage)
    else if s[6] == 'f' as int then (if s[15] == 'c' as int then FinalityConfirmation else ValidatorVote)
    else if s[6] == 'd' as int then DelegationRevocation
    else if s[6] == 'r' as int then (if s[12] == 's' as int then RelaySlash else RelayReceipt)
    else if s[6] == 'e' as int then (if s[15] == 'l' as int then EscrowRelease else EscrowRefund)
    else Gossip
  }

  lemma TransportAndFinality(d: Domain)
    requires d.TransportFragment? || d.TransportMessage? || d.FinalityConfirmation? || d.ValidatorVote?
    ensures |Prefix(d)| > 16 && DomainOf(Prefix(d)) == d
  {
  }

  lemma DelegationAndRelay(d: Domain)
    requires d.DelegationRevocation? || d.RelaySlash? || d.RelayReceipt?
    ensures |Prefix(d)| > 16 && DomainOf(Prefix(d)) == d
  {
  }

  lemma GossipAndEscrow(d: Domain)
    requires d.Gossip? || d.EscrowRelease? || d.EscrowRefund?
    ensures |Prefix(d)| > 16 && DomainOf(Prefix(d)) == d
  {
  }

  lemma PrefixIsReadable(d: Domain)
    ensures |Prefix(d)| > 16 && DomainOf(Prefix(d)) == d
  {
    if d.TransportFragment? || d.TransportMessage? || d.FinalityConfirmation? || d.ValidatorVote? {
      TransportAndFinality(d);
    } else if d.DelegationRevocation? || d.RelaySlash? || d.RelayReceipt? {
      DelegationAndRelay(d);
    } else {
      GossipAndEscrow(d);
    }
  }

  lemma DomainIsReadable(d: Domain, rest: Bytes)
    ensures |Prefix(d) + rest| > 16 && DomainOf(Prefix(d) + rest) == d
  {
    PrefixIsReadable(d);
    var p, s := Prefix(d), Prefix(d) + rest;
    assert s[6] == p[6] && s[12] == p[12] && s[15] == p[15] && s[16] == p[16];
  }

  /** What is signed in one domain is never what is signed in another, whatever follows the prefixes: no signature
      can be taken from one of these protocols to another. */
  lemma DomainsAreSeparate(d: Domain, e: Domain, rest: Bytes, more: Bytes)
    requires d != e
    ensures Prefix(d) + rest != Prefix(e) + more
  {
    DomainIsReadable(d, rest);
    DomainIsReadable(e, more);
  }
}
