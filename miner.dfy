/**
 * The miner's block manager: assembling a candidate block, handing out
 * headers for external nonce grinding while remembering, in a bounded ring,
 * how to rebuild the block behind each header, and submitting solved
 * headers and blocks.
 */
module Miner {
  import opened Types

  /** Sum of the fees of one transaction. */
  function SumFees(fees: seq<Currency>): Currency
  {
    if |fees| == 0 then 0 else SumFees(fees[..|fees| - 1]) + fees[|fees| - 1]
  }

  /** Sum of every miner fee of every transaction. */
  function TotalFees(txns: seq<Transaction>): Currency
  {
    if |txns| == 0 then 0 else TotalFees(txns[..|txns| - 1]) + SumFees(txns[|txns| - 1].minerFees)
  }

  /** The fees of two batches of transactions add up. */
  lemma {:induction false} TotalFeesAppend(a: seq<Transaction>, b: seq<Transaction>)
    ensures TotalFees(a + b) == TotalFees(a) + TotalFees(b)
    decreases |b|
  {
    if |b| == 0 {
      assert a + b == a;
    } else {
      var n := |b| - 1;
      assert (a + b)[..|a + b| - 1] == a + b[..n];
      assert (a + b)[|a + b| - 1] == b[n];
      TotalFeesAppend(a, b[..n]);
    }
  }

  /** The transaction that makes every handed-out block unique. */
  function RandTxn(randBytes: seq<byte>): Transaction
  {
    Transaction([], [PrefixNonSia + randBytes])
  }

  /** The random transaction carries no fees and one arbitrary-data entry: "NonSia", then the random bytes. */
  lemma RandTxnShape(randBytes: seq<byte>)
    ensures |RandTxn(randBytes).arbitraryData| == 1 && RandTxn(randBytes).minerFees == []
    ensures |RandTxn(randBytes).arbitraryData[0]| == SpecifierLen + |randBytes|
    ensures RandTxn(randBytes).arbitraryData[0][..SpecifierLen] == PrefixNonSia
    ensures RandTxn(randBytes).arbitraryData[0][SpecifierLen..] == randBytes
  {
  }

  /** Different random draws give different random transactions. */
  lemma RandTxnInjective(r1: seq<byte>, r2: seq<byte>)
    requires RandTxn(r1) == RandTxn(r2)
    ensures r1 == r2
  {
    assert (PrefixNonSia + r1)[|PrefixNonSia|..] == r1;
    assert (PrefixNonSia + r2)[|PrefixNonSia|..] == r2;
  }

  /**
   * The block rebuilt from a remembered block and a random transaction:
   * transaction 0 replaced, everything else but the nonce copied.
   */
  function Rebuild(b: Block, randTxn: Transaction): (r: Block)
    requires |b.transactions| >= 1
  {
    Block(b.parentID, ZeroNonce, b.timestamp, b.minerPayouts, [randTxn] + b.transactions[1..])
  }

  /** Rebuilding an unsolved block with its own random transaction gives the block back. */
  lemma RebuildOwnRandTxn(b: Block)
    requires |b.transactions| >= 1 && b.nonce == ZeroNonce
    ensures Rebuild(b, b.transactions[0]) == b
  {
    assert [b.transactions[0]] + b.transactions[1..] == b.transactions;
  }

  /** A set of the elements of a sequence is no larger than the sequence. */
  lemma {:induction false} ElementsBound<T>(s: seq<T>)
    ensures |set x | x in s| <= |s|
  {
    if |s| > 0 {
      var n := |s| - 1;
      ElementsBound(s[..n]);
      assert (set x | x in s) == (set x | x in s[..n]) + {s[n]} by {
        forall x | x in s ensures x in s[..n] || x == s[n] {
          var i :| 0 <= i < |s| && s[i] == x;
          if i < n { assert s[..n][i] == x; }
        }
      }
    }
  }

  /** The block and random transaction remembered for `h` rebuild a block whose header is `h`. */
  ghost predicate Remembers(hashing: Hashing, h: BlockHeader, b: Block, randTxn: Transaction)
  {
    |b.transactions| >= 1 && Header(hashing, Rebuild(b, randTxn)) == h
  }

  /**
   * The header memory is consistent: both maps have the same keys, every key
   * is a header in the ring, and what is remembered for it rebuilds it.
   */
  ghost predicate MemoryConsistent(hashing: Hashing, ring: seq<BlockHeader>,
                                   blockMem: map<BlockHeader, Block>, randTxnMem: map<BlockHeader, Transaction>)
  {
    && blockMem.Keys == randTxnMem.Keys
    && (forall h :: h in blockMem ==> h in ring)
    && (forall h :: h in blockMem ==> Remembers(hashing, h, blockMem[h], randTxnMem[h]))
  }

  /**
   * Storing a header in slot `p`, after evicting the header that slot held
   * from both maps, keeps the memory consistent.
   */
  lemma StoreKeepsConsistent(hashing: Hashing, ring: seq<BlockHeader>,
                             blockMem: map<BlockHeader, Block>, randTxnMem: map<BlockHeader, Transaction>,
                             p: nat, header: BlockHeader, block: Block, randTxn: Transaction)
    requires MemoryConsistent(hashing, ring, blockMem, randTxnMem)
    requires p < |ring| && Remembers(hashing, header, block, randTxn)
    ensures MemoryConsistent(hashing, ring[p := header],
                             (blockMem - {ring[p]})[header := block], (randTxnMem - {ring[p]})[header := randTxn])
  {
    var blockMem', randTxnMem' := (blockMem - {ring[p]})[header := block], (randTxnMem - {ring[p]})[header := randTxn];
    assert blockMem'.Keys == (blockMem.Keys - {ring[p]}) + {header};
    assert randTxnMem'.Keys == (randTxnMem.Keys - {ring[p]}) + {header};
    forall h | h in blockMem'
      ensures h in ring[p := header] && Remembers(hashing, h, blockMem'[h], randTxnMem'[h])
    {
      if h == header {
        assert ring[p := header][p] == h;
      } else {
        var i :| 0 <= i < |ring| && ring[i] == h;
        assert ring[p := header][i] == h;
      }
    }
  }

  /** A subset is no larger than the set. */
  lemma SubsetBound<T>(a: set<T>, b: set<T>)
    requires a <= b
    ensures |a| <= |b|
  {
    assert b == a + (b - a);
  }

  class Miner {
    const hashing: Hashing
    /** `types.CalculateCoinbase`: the block subsidy at a height. */
    const calculateCoinbase: nat -> Currency
    /** Number of handed-out headers that are remembered. */
    const headerForWorkMemory: nat
    /** Number of headers handed out per freshly assembled block. */
    const headersPerBlockMemory: nat

    var height: nat
    var parent: BlockID
    var target: Target
    var earliestTimestamp: Timestamp
    var address: UnlockHash
    var transactions: seq<Transaction>
    var blocksFound: seq<BlockID>

    /** The ring of the last `headerForWorkMemory` handed-out headers. */
    const headerMem: array<BlockHeader>
    var blockMem: map<BlockHeader, Block>
    var randTxnMem: map<BlockHeader, Transaction>
    /** The ring slot the next handed-out header goes to. */
    var memProgress: nat

    /** Blocks given to the consensus set's `AcceptBlock`, in order. */
    ghost var consensusLog: seq<Block>
    /** Number of calls to the transaction pool's `PurgeTransactionPool`. */
    ghost var purges: nat

    ghost predicate Valid()
      reads this, headerMem
    {
      && headerMem.Length == headerForWorkMemory
      && 0 < headersPerBlockMemory
      && memProgress < headerForWorkMemory
      && MemoryConsistent(hashing, headerMem[..], blockMem, randTxnMem)
      && (memProgress % headersPerBlockMemory != 0 ==> memProgress > 0 && headerMem[memProgress - 1] in blockMem)
    }

    constructor (hashing: Hashing, calculateCoinbase: nat -> Currency,
                 headerForWorkMemory: nat, headersPerBlockMemory: nat,
                 height: nat, parent: BlockID, target: Target, earliestTimestamp: Timestamp,
                 address: UnlockHash, transactions: seq<Transaction>)
      requires 0 < headerForWorkMemory && 0 < headersPerBlockMemory
      ensures Valid() && fresh(headerMem)
      ensures this.hashing == hashing && this.calculateCoinbase == calculateCoinbase
      ensures this.headerForWorkMemory == headerForWorkMemory && this.headersPerBlockMemory == headersPerBlockMemory
      ensures this.height == height && this.parent == parent && this.target == target
      ensures this.earliestTimestamp == earliestTimestamp && this.address == address
      ensures this.transactions == transactions && blocksFound == []
      ensures blockMem == map[] && randTxnMem == map[] && memProgress == 0
      ensures consensusLog == [] && purges == 0
    {
      this.hashing := hashing;
      this.calculateCoinbase := calculateCoinbase;
      this.headerForWorkMemory := headerForWorkMemory;
      this.headersPerBlockMemory := headersPerBlockMemory;
      this.height := height;
      this.parent := parent;
      this.target := target;
      this.earliestTimestamp := earliestTimestamp;
      this.address := address;
      this.transactions := transactions;
      blocksFound := [];
      headerMem := new BlockHeader[headerForWorkMemory];
      blockMem := map[];
      randTxnMem := map[];
      memProgress := 0;
      consensusLog := [];
      purges := 0;
    }

    /** The candidate block for the current chain tip, pool and payout address. */
    function Candidate(now: Timestamp, randBytes: seq<byte>): (b: Block)
      reads this
      ensures b.timestamp >= earliestTimestamp && b.timestamp >= now
      ensures b.timestamp == now || b.timestamp == earliestTimestamp
      ensures b.parentID == parent && b.nonce == ZeroNonce
      ensures |b.minerPayouts| == 1 && b.minerPayouts[0].unlockHash == address
      ensures b.minerPayouts[0].value == calculateCoinbase(height) + TotalFees(transactions)
      ensures |b.transactions| == |transactions| + 1 && b.transactions[1..] == transactions
      ensures b.transactions[0] == RandTxn(randBytes)
    {
      var timestamp := if now < earliestTimestamp then earliestTimestamp else now;
      var payout := SiacoinOutput(calculateCoinbase(height) + TotalFees(transactions), address);
      Block(parent, ZeroNonce, timestamp, [payout], [RandTxn(randBytes)] + transactions)
    }

    /** `blockForWork`: assembles the candidate block; `now` is the clock, `randBytes` the random draw. */
    method BlockForWork(now: Timestamp, randBytes: seq<byte>) returns (b: Block, t: Target)
      ensures b == Candidate(now, randBytes) && t == target
    {
      var blockTimestamp := now;
      if blockTimestamp < earliestTimestamp {
        blockTimestamp := earliestTimestamp;
      }

      var subsidy := calculateCoinbase(height);
      var i := 0;
      while i < |transactions|
        invariant 0 <= i <= |transactions|
        invariant subsidy == calculateCoinbase(height) + TotalFees(transactions[..i])
      {
        var fees := transactions[i].minerFees;
        var j := 0;
        while j < |fees|
          invariant 0 <= j <= |fees|
          invariant subsidy == calculateCoinbase(height) + TotalFees(transactions[..i]) + SumFees(fees[..j])
        {
          subsidy := subsidy + fees[j];
          assert fees[..j + 1][..j] == fees[..j];
          j := j + 1;
        }
        assert fees[..j] == fees;
        assert transactions[..i + 1][..i] == transactions[..i];
        i := i + 1;
      }
      assert transactions[..i] == transactions;
      var blockPayouts := [SiacoinOutput(subsidy, address)];

      var randTxn := RandTxn(randBytes);
      var blockTransactions := [randTxn] + transactions;

      b := Block(parent, ZeroNonce, blockTimestamp, blockPayouts, blockTransactions);
      t := target;
    }

    /** The exported `BlockForWork`: the candidate block together with its Merkle root. */
    method BlockForWorkWithRoot(now: Timestamp, randBytes: seq<byte>) returns (b: Block, merkleRoot: Hash, t: Target)
      ensures b == Candidate(now, randBytes) && t == target
      ensures merkleRoot == Header(hashing, b).merkleRoot
    {
      b, t := BlockForWork(now, randBytes);
      merkleRoot := hashing.merkleRoot(b.minerPayouts, b.transactions);
    }

    /** The block remembered for the header handed out last. */
    ghost function PreviousBlock(): Block
      reads this, headerMem
      requires Valid() && memProgress % headersPerBlockMemory != 0
    {
      blockMem[headerMem[memProgress - 1]]
    }

    /** The block remembered for the next handed-out header. */
    ghost function NextStoredBlock(now: Timestamp, randBytes: seq<byte>): Block
      reads this, headerMem
      requires Valid()
    {
      if memProgress % headersPerBlockMemory == 0 then Candidate(now, randBytes) else PreviousBlock()
    }

    /** The block whose header is handed out next. */
    ghost function NextWorkBlock(now: Timestamp, randBytes: seq<byte>): Block
      reads this, headerMem
      requires Valid()
    {
      if memProgress % headersPerBlockMemory == 0 then Candidate(now, randBytes)
      else Rebuild(PreviousBlock(), RandTxn(randBytes))
    }

    /**
     * Every handed-out block is unique: two different random draws give two
     * different blocks to grind, so every miner may start at the zero nonce.
     */
    lemma NextWorkUnique(now: Timestamp, r1: seq<byte>, r2: seq<byte>)
      requires Valid() && r1 != r2
      ensures NextWorkBlock(now, r1) != NextWorkBlock(now, r2)
    {
      var b1, b2 := NextWorkBlock(now, r1), NextWorkBlock(now, r2);
      assert b1.transactions[0] == RandTxn(r1);
      assert b2.transactions[0] == RandTxn(r2);
      if b1 == b2 {
        RandTxnInjective(r1, r2);
      }
    }

    /**
     * The bookkeeping at the end of `HeaderForWork`: evicts the header held by
     * the current ring slot from both maps, remembers the new header there and
     * advances the cursor, wrapping at the end of the ring.
     */
    method Remember(header: BlockHeader, block: Block, randTxn: Transaction)
      requires Valid() && Remembers(hashing, header, block, randTxn)
      modifies this`blockMem, this`randTxnMem, this`memProgress, headerMem
      ensures Valid()
      ensures memProgress == if old(memProgress) + 1 == headerForWorkMemory then 0 else old(memProgress) + 1
      ensures headerMem[..] == old(headerMem[..])[old(memProgress) := header]
      ensures blockMem == (old(blockMem) - {old(headerMem[memProgress])})[header := block]
      ensures randTxnMem == (old(randTxnMem) - {old(headerMem[memProgress])})[header := randTxn]
    {
      StoreKeepsConsistent(hashing, headerMem[..], blockMem, randTxnMem, memProgress, header, block, randTxn);
      var evicted := headerMem[memProgress];
      blockMem := blockMem - {evicted};
      randTxnMem := randTxnMem - {evicted};
      blockMem := blockMem[header := block];
      randTxnMem := randTxnMem[header := randTxn];
      headerMem[memProgress] := header;

      memProgress := memProgress + 1;
      if memProgress == headerForWorkMemory {
        memProgress := 0;
      }
    }

    /**
     * `HeaderForWork`: hands out the header of a fresh candidate block every
     * `headersPerBlockMemory` calls and otherwise of the previous block with a
     * new random transaction, evicting the header stored in the current ring
     * slot and remembering the new one.
     */
    method HeaderForWork(now: Timestamp, randBytes: seq<byte>) returns (header: BlockHeader, t: Target)
      requires Valid()
      modifies this`blockMem, this`randTxnMem, this`memProgress, headerMem
      ensures Valid()
      ensures header == Header(hashing, old(NextWorkBlock(now, randBytes))) && t == target
      ensures memProgress == if old(memProgress) + 1 == headerForWorkMemory then 0 else old(memProgress) + 1
      ensures headerMem[..] == old(headerMem[..])[old(memProgress) := header]
      ensures blockMem == (old(blockMem) - {old(headerMem[memProgress])})[header := old(NextStoredBlock(now, randBytes))]
      ensures randTxnMem == (old(randTxnMem) - {old(headerMem[memProgress])})[header := RandTxn(randBytes)]
      ensures Remembers(hashing, header, blockMem[header], randTxnMem[header])
    {
      ghost var work := NextWorkBlock(now, randBytes);
      ghost var stored := NextStoredBlock(now, randBytes);
      var block: Block;
      var randTxn: Transaction;
      if memProgress % headersPerBlockMemory == 0 {
        var target0;
        block, target0 := BlockForWork(now, randBytes);
        header := Header(hashing, block);
        randTxn := block.transactions[0];
        RebuildOwnRandTxn(block);
      } else {
        block := blockMem[headerMem[memProgress - 1]];
        randTxn := RandTxn(randBytes);
        header := Header(hashing, Rebuild(block, randTxn));
      }
      assert header == Header(hashing, work) && block == stored && randTxn == RandTxn(randBytes);
      assert Remembers(hashing, header, block, randTxn);

      Remember(header, block, randTxn);
      t := target;
    }

    /** The most headers, blocks and random transactions the miner remembers at once. */
    lemma MemoryBounded()
      requires Valid()
      ensures |blockMem| <= headerForWorkMemory && |randTxnMem| == |blockMem|
    {
      ElementsBound(headerMem[..]);
      SubsetBound(blockMem.Keys, set x | x in headerMem[..]);
      assert |blockMem| == |blockMem.Keys|;
      assert |randTxnMem| == |randTxnMem.Keys|;
    }

    /**
     * The block a solved header `bh` stands for: the remembered block with its
     * remembered random transaction and the solving nonce.
     */
    function SolvedBlock(bh: BlockHeader): (b: Block)
      reads this, headerMem
      requires Valid() && bh.(nonce := ZeroNonce) in blockMem
      ensures Header(hashing, b) == bh
      ensures |b.transactions| >= 1 && b.transactions[0] == randTxnMem[bh.(nonce := ZeroNonce)]
      ensures b.transactions[1..] == blockMem[bh.(nonce := ZeroNonce)].transactions[1..]
    {
      var key := bh.(nonce := ZeroNonce);
      Rebuild(blockMem[key], randTxnMem[key]).(nonce := bh.nonce)
    }

    /** What `SubmitBlock` returns for the outcomes of `AcceptBlock` and `CoinAddress`. */
    static function SubmitError(acceptErr: Option<Error>, coinAddress: Result<UnlockHash, Error>): (err: Option<Error>)
      ensures acceptErr.Some? ==> err == acceptErr
      ensures acceptErr.None? ==> (err.None? <==> coinAddress.Ok?)
    {
      if acceptErr.Some? then acceptErr
      else if coinAddress.Err? then Some(coinAddress.error)
      else None
    }

    /**
     * `SubmitBlock`: gives `b` to the consensus set, whose verdict is
     * `acceptErr`; on acceptance records the block and asks the wallet for a
     * new payout address, whose outcome is `coinAddress`.
     */
    method SubmitBlock(b: Block, acceptErr: Option<Error>, coinAddress: Result<UnlockHash, Error>) returns (err: Option<Error>)
      requires Valid()
      modifies this`blocksFound, this`address, this`consensusLog, this`purges
      ensures Valid()
      ensures consensusLog == old(consensusLog) + [b]
      ensures err == SubmitError(acceptErr, coinAddress)
      ensures acceptErr.Some? ==> blocksFound == old(blocksFound) && address == old(address) && purges == old(purges) + 1
      ensures acceptErr.None? ==> blocksFound == old(blocksFound) + [ID(hashing, b)] && purges == old(purges)
      ensures acceptErr.None? ==> address == if coinAddress.Ok? then coinAddress.value else old(address)
    {
      consensusLog := consensusLog + [b];
      if acceptErr.Some? {
        purges := purges + 1;
        err := acceptErr;
        return;
      }

      blocksFound := blocksFound + [ID(hashing, b)];
      if coinAddress.Ok? {
        address := coinAddress.value;
        err := None;
      } else {
        err := Some(coinAddress.error);
      }
    }

    static const LateHeaderError: Error := "block header returned late - block was cleared from memory"

    /**
     * `SubmitHeader`: looks up the solved header with its nonce zeroed; a
     * header no longer remembered is reported late and changes nothing,
     * otherwise the ring cursor is reset and the rebuilt block, carrying the
     * solving nonce, is submitted.
     */
    method SubmitHeader(bh: BlockHeader, acceptErr: Option<Error>, coinAddress: Result<UnlockHash, Error>) returns (err: Option<Error>)
      requires Valid()
      modifies this`memProgress, this`blocksFound, this`address, this`consensusLog, this`purges
      ensures Valid()
      ensures bh.(nonce := ZeroNonce) !in old(blockMem) ==> err == Some(LateHeaderError) && unchanged(this)
      ensures bh.(nonce := ZeroNonce) in old(blockMem) ==>
        && memProgress == 0
        && consensusLog == old(consensusLog) + [old(SolvedBlock(bh))]
        && Header(hashing, consensusLog[|consensusLog| - 1]) == bh
        && err == SubmitError(acceptErr, coinAddress)
        && (acceptErr.Some? ==> blocksFound == old(blocksFound) && address == old(address) && purges == old(purges) + 1)
        && (acceptErr.None? ==> blocksFound == old(blocksFound) + [hashing.headerID(bh)] && purges == old(purges))
        && (acceptErr.None? ==> address == if coinAddress.Ok? then coinAddress.value else old(address))
    {
      var lookupBH := bh.(nonce := ZeroNonce);
      var bExists := lookupBH in blockMem;
      var txnExists := lookupBH in randTxnMem;
      if !bExists || !txnExists {
        err := Some(LateHeaderError);
        return;
      }
      var b := blockMem[lookupBH];
      var randTxn := randTxnMem[lookupBH];
      memProgress := 0;

      var block := Rebuild(b, randTxn);
      block := block.(nonce := bh.nonce);
      assert block == SolvedBlock(bh);
      err := SubmitBlock(block, acceptErr, coinAddress);
    }
  }
}
