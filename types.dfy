/**
 * Values shared by the miner and the host database: transactions, blocks,
 * block headers, host announcements and the constant specifiers that tag
 * arbitrary data. Hashing is not modelled; it is an oracle (`Hashing`) that
 * callers supply.
 */
module Types {

  newtype byte = x: int | 0 <= x < 256

  datatype Option<T> = None | Some(value: T)

  datatype Result<T, E> = Ok(value: T) | Err(error: E)

  /** A Go `error`: `None` is `nil`. */
  type Error = string

  type Hash = seq<byte>
  type BlockID = seq<byte>
  type UnlockHash = seq<byte>
  type Target = seq<byte>
  type Nonce = seq<byte>
  type Timestamp = nat
  /** Currency is a big integer in the source; it never wraps. */
  type Currency = nat

  /** Length of a `types.Specifier`. */
  const SpecifierLen: nat := 16

  /** The zero specifier, the value of a freshly declared `types.Specifier`. */
  const ZeroSpecifier: seq<byte> := [0, 0, 0, 0, 0, 0, 0, 0, 0, 0, 0, 0, 0, 0, 0, 0]

  /** A specifier literal: the given bytes, padded with zero bytes to a specifier. */
  function Spell(bytes: seq<byte>): (r: seq<byte>)
    requires |bytes| <= SpecifierLen
    ensures |r| == SpecifierLen
  {
    bytes + ZeroSpecifier[|bytes|..]
  }

  /** The eight-byte zero nonce of a freshly assembled block. */
  const ZeroNonce: Nonce := [0, 0, 0, 0, 0, 0, 0, 0]

  /** "NonSia". */
  const PrefixNonSia: seq<byte> := Spell([78, 111, 110, 83, 105, 97])

  /** "HostAnnouncement", a full specifier. */
  const PrefixHostAnnouncement: seq<byte> :=
    Spell([72, 111, 115, 116, 65, 110, 110, 111, 117, 110, 99, 101, 109, 101, 110, 116])

  /** "ed25519". */
  const SignatureEd25519: seq<byte> := Spell([101, 100, 50, 53, 53, 49, 57])

  /** Size in bytes of an Ed25519 public key. */
  const PublicKeySize: nat := 32

  datatype SiacoinOutput = SiacoinOutput(value: Currency, unlockHash: UnlockHash)

  /** The parts of a transaction the core reads; its inputs, outputs and signatures are not modelled. */
  datatype Transaction = Transaction(minerFees: seq<Currency>, arbitraryData: seq<seq<byte>>)

  datatype Block = Block(
    parentID: BlockID,
    nonce: Nonce,
    timestamp: Timestamp,
    minerPayouts: seq<SiacoinOutput>,
    transactions: seq<Transaction>)

  datatype BlockHeader = BlockHeader(parentID: BlockID, nonce: Nonce, timestamp: Timestamp, merkleRoot: Hash)

  /**
   * The hashing the core relies on, as opaque functions: the Merkle root of a
   * block's payouts and transactions, and the ID of a block header.
   */
  datatype Hashing = Hashing(
    merkleRoot: (seq<SiacoinOutput>, seq<Transaction>) -> Hash,
    headerID: BlockHeader -> BlockID)

  /** `Block.Header()`: the nonce is carried over, the payload is summarised by its Merkle root. */
  function Header(hashing: Hashing, b: Block): BlockHeader
  {
    BlockHeader(b.parentID, b.nonce, b.timestamp, hashing.merkleRoot(b.minerPayouts, b.transactions))
  }

  /** `Block.ID()`: the ID of the block's header. */
  function ID(hashing: Hashing, b: Block): BlockID
  {
    hashing.headerID(Header(hashing, b))
  }

  datatype SiaPublicKey = SiaPublicKey(algorithm: seq<byte>, key: seq<byte>)

  /** What a host publishes in arbitrary data after the announcement prefix. */
  datatype HostAnnouncement = HostAnnouncement(ipAddress: string, publicKey: SiaPublicKey)

  /** A host database entry; the fields the core leaves at their zero value are not modelled. */
  datatype HostDBEntry = HostDBEntry(netAddress: string, publicKey: SiaPublicKey)

  /** A batch of reverted and applied blocks delivered by the consensus set, in order. */
  datatype ConsensusChange = ConsensusChange(revertedBlocks: seq<Block>, appliedBlocks: seq<Block>)
}
