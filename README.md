# Sia miner header memory and host database consensus handler

This project models two small, sequential components of the Sia node.

**The miner's block manager** (`modules/miner/blockmanager.go`):

- `blockForWork` assembles a candidate block:
  - its timestamp is clamped to `earliestTimestamp`;
  - it has a single payout of the coinbase plus every miner fee, to the miner's address;
  - its transactions are a fresh random "NonSia" transaction followed by the pool's transactions.
- `HeaderForWork` hands out block headers for external nonce grinding. It remembers, in a ring of `headerForWorkMemory` slots (`headerMem`, cursor `memProgress`), how to rebuild the block behind each header:
  - `blockMem` maps each header to its block;
  - `randTxnMem` maps each header to its random transaction.

  A fresh block is assembled every `headersPerBlockMemory` calls. In between, the previous block is reused with only its random transaction replaced.
- `SubmitHeader` takes a solved header and looks it up with the nonce zeroed:
  - if the header is no longer remembered, it reports the header as late;
  - otherwise it resets the cursor, rebuilds the block, sets the solving nonce and hands the block to `SubmitBlock`.
- `SubmitBlock` gives the block to the consensus set. On acceptance it records the block's ID and asks the wallet for a new payout address.

The miner is a class (`Miner.Miner`):

- `headerMem` is an array updated in place;
- `blockMem` and `randTxnMem` are maps reassigned on every call;
- `Valid()` is the invariant every method keeps. It says:
  - the cursor is in bounds;
  - both maps have the same keys, and every key is a header in the ring;
  - what is remembered for each key rebuilds a block with exactly that header;
  - the reuse path always finds the previous block.

**The host database's consensus handler** (`modules/renter/hostdb/update.go`):

- `findHostAnnouncements` filters the arbitrary-data entries of a block's transactions. It keeps an entry when:
  - the entry starts with the 16-byte `HostAnnouncement` specifier;
  - the rest decodes;
  - the decoded key is a 32-byte Ed25519 key.
- `ProcessConsensusChange`:
  - moves the block height by the applied minus the reverted blocks, in wrapping 64-bit arithmetic, except on the genesis-only first change;
  - then inserts every announced host of every applied block, in order.

The filter is modelled twice:

- **As written.** A single 16-byte prefix buffer is reused across the entries of a transaction. Go's `copy` overwrites only as many bytes as the entry has, and the payload is sliced without a length check. A Go panic is the `Panicked` outcome.
- **With the length check the comparison needs.** `ProcessConsensusChange` uses this version.

Both are specified by functions over the transaction list, and a lemma proves exactly where the two differ.

Collaborators are modelled as values:

- Hashing is an oracle record (`Types.Hashing`): the Merkle root of payouts and transactions, and the ID of a header.
- The clock and the random bytes are method parameters.
- The verdicts of `AcceptBlock` and `CoinAddress` are parameters.
- Calls to `AcceptBlock` and `PurgeTransactionPool` are recorded in ghost logs.

Files:

- `types.dfy`: blocks, headers, transactions, announcements and the specifier constants.
- `miner.dfy`: the block manager.
- `hostdb.dfy`: the announcement filter and the consensus handler.

## Model

| member | source | states |
|---|---|---|
| Miner.TotalFeesAppend | modules/miner/blockmanager.go:24-29 | the miner fees of two batches of transactions add up, so summing fee by fee in transaction order gives the total of all fees |
| Miner.RandTxnShape | modules/miner/blockmanager.go:39-42 | the random transaction has no fees and exactly one arbitrary-data entry: the "NonSia" specifier followed by the random bytes |
| Miner.RebuildOwnRandTxn | modules/miner/blockmanager.go:76-81 | a freshly assembled block, rebuilt from itself and its own transaction 0, is that block again, so the fresh path remembers what it hands out |
| Miner.RandTxnInjective | modules/miner/blockmanager.go:39-42 | the random transaction determines the random bytes it was built from |
| Miner.StoreKeepsConsistent | modules/miner/blockmanager.go:104-111 | evicting the header in one ring slot from both maps and storing the new header there keeps both maps on the same keys, those keys inside the ring, and every remembered entry rebuilding its header |
| Miner.Miner.Candidate | modules/miner/blockmanager.go:16-53 | the candidate block's timestamp is the larger of the clock and `earliestTimestamp`; its parent is the tip and its nonce zero; it has one payout, to the miner's address, of coinbase plus the sum of all pool fees; its transactions are the random transaction followed by the pool's unchanged |
| Miner.Miner.BlockForWork | modules/miner/blockmanager.go:16-53 | the nested fee loop and the assembly produce exactly the candidate block and the miner's target, and change no miner state |
| Miner.Miner.BlockForWorkWithRoot | modules/miner/blockmanager.go:57-64 | the exported call returns the candidate block, the Merkle root of that block's header, and the target |
| Miner.Miner.HeaderForWork | modules/miner/blockmanager.go:68-119 | returns the header of a fresh candidate every `headersPerBlockMemory` calls, and otherwise of the previous remembered block with a new random transaction; only the current ring slot changes; both maps lose exactly the evicted header and gain the new one; the cursor advances and wraps to 0; the invariant is kept and the new entry rebuilds its header |
| Miner.Miner.NextWorkUnique | modules/miner/blockmanager.go:14-15 | every handed-out block is unique: two different random draws give two different blocks to grind, on the fresh path and on the reuse path |
| Miner.Miner.Remember | modules/miner/blockmanager.go:104-115 | the new header replaces only the current ring slot; both maps lose exactly the header that slot held and map the new header to its block and random transaction; the cursor advances and wraps to 0; the invariant is kept |
| Miner.Miner.MemoryBounded | modules/miner/blockmanager.go:104-111 | the header memory never holds more blocks than ring slots, and holds as many random transactions as blocks |
| Miner.Miner.SolvedBlock | modules/miner/blockmanager.go:146-174 | the block rebuilt for a remembered solved header has exactly that header, including its nonce; its transaction 0 is the remembered random transaction and the rest are the remembered block's |
| Miner.Miner.SubmitError | modules/miner/blockmanager.go:123-142 | an `AcceptBlock` error is returned as is; otherwise the result is an error exactly when `CoinAddress` failed |
| Miner.Miner.SubmitBlock | modules/miner/blockmanager.go:123-142 | the block always reaches the consensus set; on rejection the pool is purged and neither `blocksFound` nor the address changes; on acceptance the block's ID is appended to `blocksFound` and the address is replaced only when `CoinAddress` succeeds |
| Miner.Miner.SubmitHeader | modules/miner/blockmanager.go:146-176 | a header not remembered with its nonce zeroed yields the late-header error and changes nothing, in particular submits nothing; otherwise the cursor is reset, the submitted block has exactly the solved header, the result is `SubmitBlock`'s, a rejection purges the pool and keeps `blocksFound` and the address, and an acceptance appends the header's ID to `blocksFound` and replaces the address only when `CoinAddress` succeeds |
| HostDB.CopyPrefixAt | modules/renter/hostdb/update.go:19 | after `copy`, each buffer byte comes from the entry when the entry is long enough to reach it, and is left over from before otherwise |
| HostDB.EntryAnnouncementIff | modules/renter/hostdb/update.go:17-38 | an entry announces a host if and only if it starts with the announcement specifier, its remainder decodes, and the decoded key is a 32-byte Ed25519 key; the host then has the decoded address and key |
| HostDB.TxnAnnouncementsMembership | modules/renter/hostdb/update.go:18-39 | a host is found in a transaction if and only if one of its entries announces it |
| HostDB.AnnouncementsMembership | modules/renter/hostdb/update.go:14-42 | a host is found in a list of transactions if and only if some entry of some transaction announces it |
| HostDB.AnnouncementsTxnMembership | modules/renter/hostdb/update.go:14-40 | a host is found in a list of transactions if and only if one of the transactions announces it |
| HostDB.AnnouncementsAppend | modules/renter/hostdb/update.go:14-42 | announcements come in transaction order: those of a concatenation are those of the first part followed by those of the second |
| HostDB.ScanTransaction | modules/renter/hostdb/update.go:17-39 | the inner loop, with the length check, returns the announcements of the transaction's entries in entry order, at most one per entry |
| HostDB.FindHostAnnouncements | modules/renter/hostdb/update.go:13-43 | the filter, with the length check, returns the announcements of the block's transactions in transaction order |
| HostDB.TxnScanAgrees | modules/renter/hostdb/update.go:17-39 | the inner loop as written panics if and only if some entry shorter than a specifier leaves the reused buffer equal to the announcement specifier; otherwise it returns exactly what the checked filter returns |
| HostDB.BlockScanAgrees | modules/renter/hostdb/update.go:13-43 | the filter as written panics if and only if some transaction has such a short matching entry; otherwise it returns exactly what the checked filter returns |
| HostDB.ShortEntryPanics | modules/renter/hostdb/update.go:17-26 | a transaction whose entries are the bare announcement specifier and then an empty entry makes the filter as written panic |
| HostDB.ScanTransactionAsWritten | modules/renter/hostdb/update.go:17-39 | the inner loop as written, with its carried-over buffer and unchecked slice, ends as the as-written scan specifies, panic included |
| HostDB.FindHostAnnouncementsAsWritten | modules/renter/hostdb/update.go:13-43 | the filter as written ends as the as-written block scan specifies: the first panicking transaction aborts the whole call |
| HostDB.AppliedAnnouncementsMembership | modules/renter/hostdb/update.go:57-61 | a host is inserted for a consensus change if and only if some applied block announces it |
| HostDB.NextHeightArithmetic | modules/renter/hostdb/update.go:51-54 | the genesis-only first change leaves the height alone; any other change moves it by applied minus reverted blocks modulo 2^64, and by exactly that much when nothing wraps |
| HostDB.HostDB.InsertHosts | modules/renter/hostdb/update.go:58-60 | the hosts of one block are inserted one by one, in order |
| HostDB.HostDB.InsertAnnouncements | modules/renter/hostdb/update.go:57-61 | the inserted hosts grow by the announcements of the applied blocks, block by block in order |
| HostDB.HostDB.ProcessConsensusChange | modules/renter/hostdb/update.go:47-62 | the height becomes its wrapping update, or stays on the genesis-only change; the inserted hosts grow by exactly the announcements of the applied blocks in order; reverted blocks insert and remove nothing |

## Left out

- `siatest/renter/renter_test.go` is not part of this model. It is a multi-node integration test; the renter logic it drives is not among the modelled files.
- The mutexes `m.mu` and `hdb.mu`: each method is one atomic step.
- Hashing is an uninterpreted oracle (`Types.Hashing`).
  - `MerkleRoot` sees only payouts and transactions, as in Sia, so the nonce does not affect it.
  - `Header()` and `ID()` are built on the oracle.
- `crypto.RandBytes` becomes the `randBytes` parameter. Its error is ignored in the source as well.
- `types.CurrentTimestamp` becomes the `now` parameter.
- `types.CalculateCoinbase` is an abstract function fixed at construction.
- `Currency` is an unbounded `nat`; `Currency.Add` is addition on big integers and never overflows.
- `encoding.Unmarshal` is an abstract partial decoder (`HostDB.Decoder`).
- The miner's collaborators become parameters and ghost logs:
  - the verdicts of `cs.AcceptBlock` and `wallet.CoinAddress` are method parameters;
  - the blocks given to `AcceptBlock` are a ghost log, `consensusLog`;
  - calls to `tpool.PurgeTransactionPool` are a ghost counter, `purges`.
- `insertHost` is not part of this model (its body is not shown). `HostDB.HostDB.InsertHost` only records each inserted host in order.
- Logging via `m.log.Println`.
- Transaction fields other than miner fees and arbitrary data are not modelled.
- `HostDBEntry` fields other than the address and key are not modelled; the source leaves them at their zero value.
- The specifier constants are spelled from their names, as the `modules` and `types` packages define them; those packages are not part of this model.
- `headerForWorkMemory` and `headersPerBlockMemory` are package constants defined outside the modelled file. They are constructor parameters, required to be positive.
- Miner fields the modelled file only reads are set by the constructor: `height`, `parent`, `target`, `earliestTimestamp` and `transactions`. The consensus and pool subscribers that update them are not part of this model.
- The source stores `*types.Block` references in `blockMem`. The model stores block values. No modelled code mutates a stored block, so aliasing makes no difference here.
- On the reuse path of `HeaderForWork` the previous block is always remembered: `Valid()` proves this, so the Go nil dereference that a missing entry would cause never arises.
- HostDB.HostDB.ProcessConsensusChange requires a non-empty applied list when the height is 0. With an empty list the source indexes out of range, and the consensus set never delivers such a change.
- HostDB.HostDB.ProcessConsensusChange and HostDB.HostDB.InsertAnnouncements insert the hosts found by the checked filter (`HostDB.FindHostAnnouncements`), not by the filter as written: on a block that makes the as-written filter panic, the source panics where the model inserts the checked filter's hosts. `HostDB.BlockScanAgrees` shows the two agree on every block that does not make the as-written filter panic.

## Findings

| source | as written | input that shows it | evidently intended | confidence | as-written member | corrected member |
|---|---|---|---|---|---|---|
| modules/renter/hostdb/update.go:17-26 | `prefix` is declared once per transaction, and `copy` overwrites only as many bytes as the entry has. An entry shorter than 16 bytes is therefore compared against bytes left over from the previous entry. When that comparison matches, `arb[types.SpecifierLen:]` slices past the end and panics. | a transaction whose arbitrary data is the 16-byte `HostAnnouncement` specifier followed by an empty entry | entries shorter than a specifier are never announcements and are skipped | not executed | HostDB.ShortEntryPanics (with HostDB.FindHostAnnouncementsAsWritten and HostDB.BlockScanAgrees) | HostDB.FindHostAnnouncements (with HostDB.AnnouncementsMembership and HostDB.EntryAnnouncementIff) |
