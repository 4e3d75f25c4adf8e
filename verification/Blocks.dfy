/** Blocks of the lattice, the errors of the workspace, and the cryptography the model takes as given. */
module Blocks {
  import opened Common

  const ONE_ARX: int := 1_000_000
  const TOTAL_SUPPLY_MICRO_ARX: u64 := 1_000_000_000 * ONE_ARX
  const MAX_INITIAL_BALANCE_PER_ACCOUNT: u64 := 100_000_000 * ONE_ARX

  datatype BlockType =
    | Open(initialBalance: u64)
    | Send(destination: string, amount: u64)
    | Receive(sourceHash: string)
    | Revoke(credentialHash: string)

  /** The fields a block's hash is computed from. */
  datatype Content = Content(
    account: string, previous: string, kind: BlockType, balance: u64, nonce: nat, timestamp: u64)

  datatype Block = Block(
    account: string, previous: string, kind: BlockType, balance: u64, nonce: nat, timestamp: u64,
    hash: string, signature: seq<byte>)
  {
    function Body(): Content {
      Content(account, previous, kind, balance, nonce, timestamp)
    }
  }

  datatype Error =
    | InvalidKey
    | HashMismatch
    | SignatureInvalid
    | AccountAlreadyOpen
    | SupplyCapExceeded(requested: u64, max: u64)
    | ZeroAmount
    | SelfSendNotAllowed
    | InsufficientBalance(available: u64, required: u64)
    | NotSendBlock
    | WrongDestination
    | DuplicateReceive(sourceHash: string)
    | BalanceOverflow(current: u64, incoming: u64)
    | UnknownSourceSend(sourceHash: string)
    | NonceGap(index: nat, expected: nat, got: nat)
    | HashChainBroken(index: nat)
    | InvalidGenesis
    | NegativeBalance(account: string, balance: int)
    | DoubleSpend(nonce: nat)
    | HexDecode
    | DataTooShort(got: nat, expected: nat)
    | InvalidBlockType(tag: byte)

  /** Foreign cryptography: key validation, Blake3 over block contents, and Ed25519 over block hashes
      (section 5.1 of RFC 8032). `sign` stands for the signer that owns the account's private key. */
  datatype Crypto = Crypto(
    validKey: string -> bool,
    digest: Content -> string,
    sign: (string, string) -> seq<byte>,
    verifies: (string, string, seq<byte>) -> bool)
  {
    /** What the protocol relies on: valid account names are 64 characters long, different contents have
        different hashes, and the owner of a valid key produces 64-byte signatures that verify. */
    ghost predicate Sound() {
      && (forall k :: validKey(k) ==> |k| == 64)
      && (forall x, y :: digest(x) == digest(y) ==> x == y)
      && (forall k, h :: validKey(k) ==> |sign(k, h)| == 64 && verifies(k, h, sign(k, h)))
    }

    /** `Block::compute_hash`. */
    function ComputeHash(x: Content): Result<string, Error> {
      if validKey(x.account) then Ok(digest(x)) else Err(InvalidKey)
    }

    /** The block an account's owner makes from the given contents. */
    function Seal(x: Content): Block {
      var h := digest(x);
      Block(x.account, x.previous, x.kind, x.balance, x.nonce, x.timestamp, h, sign(x.account, h))
    }

    predicate IsSealed(b: Block) {
      b == Seal(b.Body())
    }
  }
}
