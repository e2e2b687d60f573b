/**
 * The host database's consensus subscriber: finding host announcements in
 * the arbitrary data of a block's transactions, and processing a consensus
 * change (block height bookkeeping, then inserting every announced host of
 * every applied block).
 */
module HostDB {
  import opened Types

  /** `encoding.Unmarshal` into a host announcement: a partial decoder. */
  type Decoder = seq<byte> -> Option<HostAnnouncement>

  /** How a Go call ends: with a value, or with a runtime panic. */
  datatype Outcome<T> = Returned(value: T) | Panicked

  function AsSeq<T>(o: Option<T>): seq<T>
  {
    if o.Some? then [o.value] else []
  }

  /**
   * Go's `copy(prefix[:], arb)` into a specifier-sized buffer: only the first
   * min(|arb|, 16) bytes are overwritten.
   */
  function CopyPrefix(buf: seq<byte>, arb: seq<byte>): (r: seq<byte>)
    requires |buf| == SpecifierLen
    ensures |r| == SpecifierLen
  {
    if |arb| >= SpecifierLen then arb[..SpecifierLen] else arb + buf[|arb|..]
  }

  /** Byte `i` of the buffer comes from the entry when the entry reaches it, and is left over otherwise. */
  lemma CopyPrefixAt(buf: seq<byte>, arb: seq<byte>, i: nat)
    requires |buf| == SpecifierLen && i < SpecifierLen
    ensures CopyPrefix(buf, arb)[i] == if i < |arb| then arb[i] else buf[i]
  {
  }

  /** The host an announcement payload (the bytes after the prefix) announces, if any. */
  function Decoded(payload: seq<byte>, decode: Decoder): Option<HostDBEntry>
  {
    match decode(payload)
    case None => None
    case Some(ha) =>
      if ha.publicKey.algorithm != SignatureEd25519 || |ha.publicKey.key| != PublicKeySize then None
      else Some(HostDBEntry(ha.ipAddress, ha.publicKey))
  }

  /** The host one arbitrary-data entry announces, judged on the entry's own bytes. */
  function EntryAnnouncement(arb: seq<byte>, decode: Decoder): Option<HostDBEntry>
  {
    if |arb| >= SpecifierLen && arb[..SpecifierLen] == PrefixHostAnnouncement then
      Decoded(arb[SpecifierLen..], decode)
    else
      None
  }

  /**
   * An entry announces a host exactly when it starts with the announcement
   * prefix, the rest decodes, and the decoded key is a 32-byte Ed25519 key;
   * the entry then carries the decoded address and key.
   */
  lemma EntryAnnouncementIff(arb: seq<byte>, decode: Decoder)
    ensures EntryAnnouncement(arb, decode).Some? <==>
      && |arb| >= SpecifierLen
      && arb[..SpecifierLen] == PrefixHostAnnouncement
      && decode(arb[SpecifierLen..]).Some?
      && decode(arb[SpecifierLen..]).value.publicKey.algorithm == SignatureEd25519
      && |decode(arb[SpecifierLen..]).value.publicKey.key| == PublicKeySize
    ensures EntryAnnouncement(arb, decode).Some? ==>
      EntryAnnouncement(arb, decode).value ==
        HostDBEntry(decode(arb[SpecifierLen..]).value.ipAddress, decode(arb[SpecifierLen..]).value.publicKey)
  {
  }

  // ---------------------------------------------------------------------
  // The intended filter: every entry judged on its own first 16 bytes.
  // ---------------------------------------------------------------------

  /** The hosts announced by the entries of one transaction, in entry order. */
  function TxnAnnouncements(arbs: seq<seq<byte>>, decode: Decoder): (r: seq<HostDBEntry>)
    ensures |r| <= |arbs|
  {
    if |arbs| == 0 then []
    else TxnAnnouncements(arbs[..|arbs| - 1], decode) + AsSeq(EntryAnnouncement(arbs[|arbs| - 1], decode))
  }

  /** The hosts announced by a list of transactions, in transaction order. */
  function Announcements(txns: seq<Transaction>, decode: Decoder): seq<HostDBEntry>
  {
    if |txns| == 0 then []
    else Announcements(txns[..|txns| - 1], decode) + TxnAnnouncements(txns[|txns| - 1].arbitraryData, decode)
  }

  lemma {:induction false} TxnAnnouncementsMembership(arbs: seq<seq<byte>>, decode: Decoder, e: HostDBEntry)
    ensures e in TxnAnnouncements(arbs, decode) <==>
      exists j :: 0 <= j < |arbs| && EntryAnnouncement(arbs[j], decode) == Some(e)
  {
    if |arbs| > 0 {
      var n := |arbs| - 1;
      TxnAnnouncementsMembership(arbs[..n], decode, e);
      if e in TxnAnnouncements(arbs, decode) {
        if e in TxnAnnouncements(arbs[..n], decode) {
          var j :| 0 <= j < n && EntryAnnouncement(arbs[..n][j], decode) == Some(e);
          assert arbs[j] == arbs[..n][j];
        }
      } else {
        forall j | 0 <= j < |arbs| ensures EntryAnnouncement(arbs[j], decode) != Some(e) {
          if j < n {
            assert arbs[j] == arbs[..n][j];
          }
        }
      }
    }
  }

  /** A host is announced by a list of transactions exactly when one of them announces it. */
  lemma {:induction false} AnnouncementsTxnMembership(txns: seq<Transaction>, decode: Decoder, e: HostDBEntry)
    ensures e in Announcements(txns, decode) <==>
      exists i :: 0 <= i < |txns| && e in TxnAnnouncements(txns[i].arbitraryData, decode)
  {
    if |txns| > 0 {
      var n := |txns| - 1;
      AnnouncementsTxnMembership(txns[..n], decode, e);
      if e in Announcements(txns[..n], decode) {
        var i :| 0 <= i < n && e in TxnAnnouncements(txns[..n][i].arbitraryData, decode);
        assert txns[i] == txns[..n][i];
      } else if e !in Announcements(txns, decode) {
        forall i | 0 <= i < |txns| ensures e !in TxnAnnouncements(txns[i].arbitraryData, decode) {
          if i < n {
            assert txns[i] == txns[..n][i];
          }
        }
      }
    }
  }

  /**
   * A host is announced by a list of transactions exactly when some entry of
   * some transaction announces it.
   */
  lemma AnnouncementsMembership(txns: seq<Transaction>, decode: Decoder, e: HostDBEntry)
    ensures e in Announcements(txns, decode) <==>
      exists i, j :: 0 <= i < |txns| && 0 <= j < |txns[i].arbitraryData|
        && EntryAnnouncement(txns[i].arbitraryData[j], decode) == Some(e)
  {
    AnnouncementsTxnMembership(txns, decode, e);
    if e in Announcements(txns, decode) {
      var i :| 0 <= i < |txns| && e in TxnAnnouncements(txns[i].arbitraryData, decode);
      TxnAnnouncementsMembership(txns[i].arbitraryData, decode, e);
    } else {
      forall i, j | 0 <= i < |txns| && 0 <= j < |txns[i].arbitraryData|
        ensures EntryAnnouncement(txns[i].arbitraryData[j], decode) != Some(e)
      {
        TxnAnnouncementsMembership(txns[i].arbitraryData, decode, e);
      }
    }
  }

  /**
   * Announcements follow transaction order: those of a list of transactions
   * are those of its first part followed by those of the rest.
   */
  lemma {:induction false} AnnouncementsAppend(a: seq<Transaction>, b: seq<Transaction>, decode: Decoder)
    ensures Announcements(a + b, decode) == Announcements(a, decode) + Announcements(b, decode)
    decreases |b|
  {
    if |b| == 0 {
      assert a + b == a;
    } else {
      var n := |b| - 1;
      SplitLast(a, b);
      AnnouncementsAppend(a, b[..n], decode);
      var x, y, z := Announcements(a, decode), Announcements(b[..n], decode), TxnAnnouncements(b[n].arbitraryData, decode);
      calc {
        Announcements(a + b, decode);
        Announcements(a + b[..n], decode) + z;
        (x + y) + z;
        { assert (x + y) + z == x + (y + z); }
        x + (y + z);
      }
    }
  }

  /** Dropping the last element of a concatenation drops it from its second part. */
  lemma SplitLast<T>(a: seq<T>, b: seq<T>)
    requires |b| > 0
    ensures (a + b)[..|a + b| - 1] == a + b[..|b| - 1] && (a + b)[|a + b| - 1] == b[|b| - 1]
  {
  }

  /** Taking one more element of a sequence extends the shorter prefix by that element. */
  lemma TakeOneMore<T>(s: seq<T>, j: nat)
    requires j < |s|
    ensures s[..j + 1][..j] == s[..j] && s[..j + 1][j] == s[j]
  {
  }

  /** Appending the next element of `s` to `a + s[..m]` gives `a + s[..m + 1]`. */
  lemma AppendOneMore<T>(a: seq<T>, s: seq<T>, m: nat)
    requires m < |s|
    ensures (a + s[..m]) + [s[m]] == a + s[..m + 1]
  {
  }

  lemma AppendAssoc<T>(a: seq<T>, b: seq<T>, c: seq<T>)
    ensures (a + b) + c == a + (b + c)
  {
  }

  /** The inner loop of `findHostAnnouncements`, with the length check, over one transaction. */
  method ScanTransaction(t: Transaction, decode: Decoder) returns (found: seq<HostDBEntry>)
    ensures found == TxnAnnouncements(t.arbitraryData, decode)
  {
    found := [];
    var prefix := ZeroSpecifier;
    var j := 0;
    while j < |t.arbitraryData|
      invariant 0 <= j <= |t.arbitraryData| && |prefix| == SpecifierLen
      invariant found == TxnAnnouncements(t.arbitraryData[..j], decode)
    {
      var arb := t.arbitraryData[j];
      TakeOneMore(t.arbitraryData, j);
      if |arb| >= SpecifierLen {
        prefix := CopyPrefix(prefix, arb);
        if prefix == PrefixHostAnnouncement {
          var entry := Decoded(arb[SpecifierLen..], decode);
          if entry.Some? {
            found := found + [entry.value];
          }
        }
      }
      j := j + 1;
    }
    assert t.arbitraryData[..j] == t.arbitraryData;
  }

  /** `findHostAnnouncements` with the length check the prefix comparison needs. */
  method FindHostAnnouncements(b: Block, decode: Decoder) returns (announcements: seq<HostDBEntry>)
    ensures announcements == Announcements(b.transactions, decode)
  {
    announcements := [];
    var i := 0;
    while i < |b.transactions|
      invariant 0 <= i <= |b.transactions|
      invariant announcements == Announcements(b.transactions[..i], decode)
    {
      TakeOneMore(b.transactions, i);
      var found := ScanTransaction(b.transactions[i], decode);
      announcements := announcements + found;
      i := i + 1;
    }
    assert b.transactions[..i] == b.transactions;
  }

  // ---------------------------------------------------------------------
  // The filter as written: one prefix buffer per transaction, reused across
  // its entries, and the payload sliced after a match without a length check.
  // ---------------------------------------------------------------------

  /** The prefix buffer after copying each entry of a transaction into it in turn. */
  function BufferAfter(arbs: seq<seq<byte>>): (r: seq<byte>)
    ensures |r| == SpecifierLen
  {
    if |arbs| == 0 then ZeroSpecifier else CopyPrefix(BufferAfter(arbs[..|arbs| - 1]), arbs[|arbs| - 1])
  }

  /** Entry `j` of a transaction is shorter than a specifier, yet the buffer matches after copying it. */
  ghost predicate ShortMatch(arbs: seq<seq<byte>>, j: int)
    requires 0 <= j < |arbs|
  {
    |arbs[j]| < SpecifierLen && BufferAfter(arbs[..j + 1]) == PrefixHostAnnouncement
  }

  /** One iteration of the inner loop as written, given the buffer after copying `arb`. */
  function StepAsWritten(prefix: seq<byte>, arb: seq<byte>, decode: Decoder): Outcome<Option<HostDBEntry>>
  {
    if prefix != PrefixHostAnnouncement then Returned(None)
    else if |arb| < SpecifierLen then Panicked
    else Returned(Decoded(arb[SpecifierLen..], decode))
  }

  /** The inner loop as written over the entries of one transaction. */
  function TxnScan(arbs: seq<seq<byte>>, decode: Decoder): Outcome<seq<HostDBEntry>>
  {
    if |arbs| == 0 then Returned([])
    else
      match TxnScan(arbs[..|arbs| - 1], decode)
      case Panicked => Panicked
      case Returned(found) =>
        match StepAsWritten(BufferAfter(arbs), arbs[|arbs| - 1], decode)
        case Panicked => Panicked
        case Returned(entry) => Returned(found + AsSeq(entry))
  }

  /** Both loops as written over the transactions of a block. */
  function BlockScan(txns: seq<Transaction>, decode: Decoder): Outcome<seq<HostDBEntry>>
  {
    if |txns| == 0 then Returned([])
    else
      match BlockScan(txns[..|txns| - 1], decode)
      case Panicked => Panicked
      case Returned(found) =>
        match TxnScan(txns[|txns| - 1].arbitraryData, decode)
        case Panicked => Panicked
        case Returned(more) => Returned(found + more)
  }

  /** Some entry of the transaction is short yet leaves the buffer matching. */
  ghost predicate AnyShortMatch(arbs: seq<seq<byte>>)
  {
    exists j :: 0 <= j < |arbs| && ShortMatch(arbs, j)
  }

  /**
   * The scan as written panics exactly when some short entry leaves the
   * buffer matching; otherwise it finds what the intended filter finds.
   */
  lemma {:induction false} TxnScanAgrees(arbs: seq<seq<byte>>, decode: Decoder)
    ensures TxnScan(arbs, decode) ==
      if AnyShortMatch(arbs) then Panicked else Returned(TxnAnnouncements(arbs, decode))
  {
    if |arbs| > 0 {
      var n := |arbs| - 1;
      var front := arbs[..n];
      TxnScanAgrees(front, decode);
      forall j | 0 <= j < n ensures ShortMatch(front, j) == ShortMatch(arbs, j) {
        TakeOneMore(arbs, j);
        assert front[..j + 1] == arbs[..j + 1];
      }
      assert arbs[..n + 1] == arbs;
      if AnyShortMatch(front) {
        var j :| 0 <= j < n && ShortMatch(front, j);
        assert ShortMatch(arbs, j);
      } else {
        var found := TxnAnnouncements(front, decode);
        var prefix := BufferAfter(arbs);
        assert prefix == CopyPrefix(BufferAfter(front), arbs[n]);
        if |arbs[n]| < SpecifierLen {
          assert EntryAnnouncement(arbs[n], decode) == None;
          assert found + [] == found;
          if prefix == PrefixHostAnnouncement {
            assert ShortMatch(arbs, n);
          } else {
            assert !ShortMatch(arbs, n);
          }
        } else {
          assert prefix == arbs[n][..SpecifierLen];
          assert !ShortMatch(arbs, n);
          assert StepAsWritten(prefix, arbs[n], decode) == Returned(EntryAnnouncement(arbs[n], decode));
        }
      }
    }
  }

  /** Some transaction has an entry that is short yet leaves its buffer matching. */
  ghost predicate AnyTxnShortMatch(txns: seq<Transaction>)
  {
    exists i :: 0 <= i < |txns| && AnyShortMatch(txns[i].arbitraryData)
  }

  /** A short match among some transactions is one among all but the last, or one in the last. */
  lemma AnyTxnShortMatchSplit(txns: seq<Transaction>)
    requires |txns| > 0
    ensures AnyTxnShortMatch(txns) <==>
      AnyTxnShortMatch(txns[..|txns| - 1]) || AnyShortMatch(txns[|txns| - 1].arbitraryData)
  {
    var n := |txns| - 1;
    var front := txns[..n];
    assert forall i :: 0 <= i < n ==> front[i].arbitraryData == txns[i].arbitraryData;
    if AnyTxnShortMatch(txns) && !AnyShortMatch(txns[n].arbitraryData) {
      var i :| 0 <= i < |txns| && AnyShortMatch(txns[i].arbitraryData);
      assert i < n && AnyShortMatch(front[i].arbitraryData);
    }
  }

  /**
   * The block scan as written panics exactly when some transaction has a short
   * entry that leaves its buffer matching; otherwise it finds what the
   * intended filter finds.
   */
  lemma {:induction false} BlockScanAgrees(txns: seq<Transaction>, decode: Decoder)
    ensures BlockScan(txns, decode) ==
      if AnyTxnShortMatch(txns) then Panicked else Returned(Announcements(txns, decode))
  {
    if |txns| > 0 {
      var n := |txns| - 1;
      BlockScanAgrees(txns[..n], decode);
      TxnScanAgrees(txns[n].arbitraryData, decode);
      AnyTxnShortMatchSplit(txns);
    }
  }

  /** Once the scan of some first entries panics, the scan of all of them does. */
  lemma {:induction false} TxnScanPanicSticks(arbs: seq<seq<byte>>, k: nat, decode: Decoder)
    requires k <= |arbs| && TxnScan(arbs[..k], decode) == Panicked
    ensures TxnScan(arbs, decode) == Panicked
    decreases |arbs|
  {
    if k == |arbs| {
      assert arbs[..k] == arbs;
    } else {
      var n := |arbs| - 1;
      assert arbs[..n][..k] == arbs[..k];
      TxnScanPanicSticks(arbs[..n], k, decode);
    }
  }

  /** Once the scan of some first transactions panics, the scan of all of them does. */
  lemma {:induction false} BlockScanPanicSticks(txns: seq<Transaction>, k: nat, decode: Decoder)
    requires k <= |txns| && BlockScan(txns[..k], decode) == Panicked
    ensures BlockScan(txns, decode) == Panicked
    decreases |txns|
  {
    if k == |txns| {
      assert txns[..k] == txns;
    } else {
      var n := |txns| - 1;
      assert txns[..n][..k] == txns[..k];
      BlockScanPanicSticks(txns[..n], k, decode);
    }
  }

  /**
   * A transaction whose entries are a bare announcement prefix followed by an
   * empty entry makes the scan as written panic: the empty entry copies
   * nothing, the buffer still holds the prefix, and slicing past 16 bytes of
   * an empty entry is out of range.
   */
  lemma ShortEntryPanics(decode: Decoder)
    ensures BlockScan([Transaction([], [PrefixHostAnnouncement, []])], decode) == Panicked
  {
    var arbs: seq<seq<byte>> := [PrefixHostAnnouncement, []];
    assert arbs[..1] == [PrefixHostAnnouncement];
    assert [PrefixHostAnnouncement][..0] == [];
    assert BufferAfter([PrefixHostAnnouncement]) == PrefixHostAnnouncement;
    assert BufferAfter(arbs) == PrefixHostAnnouncement;
    var txns := [Transaction([], arbs)];
    assert txns[..0] == [];
  }

  /** The inner loop of `findHostAnnouncements` as written, over one transaction. */
  method ScanTransactionAsWritten(t: Transaction, decode: Decoder) returns (r: Outcome<seq<HostDBEntry>>)
    ensures r == TxnScan(t.arbitraryData, decode)
  {
    var arbs := t.arbitraryData;
    var prefix := ZeroSpecifier;
    var found: seq<HostDBEntry> := [];
    var j := 0;
    while j < |arbs|
      invariant 0 <= j <= |arbs|
      invariant prefix == BufferAfter(arbs[..j])
      invariant TxnScan(arbs[..j], decode) == Returned(found)
    {
      var arb := arbs[j];
      TakeOneMore(arbs, j);
      prefix := CopyPrefix(prefix, arb);
      assert prefix == BufferAfter(arbs[..j + 1]);
      if prefix == PrefixHostAnnouncement {
        if |arb| < SpecifierLen {
          assert TxnScan(arbs[..j + 1], decode) == Panicked;
          TxnScanPanicSticks(arbs, j + 1, decode);
          r := Panicked;
          return;
        }
        var entry := Decoded(arb[SpecifierLen..], decode);
        assert TxnScan(arbs[..j + 1], decode) == Returned(found + AsSeq(entry));
        if entry.Some? {
          found := found + [entry.value];
        } else {
          assert found + [] == found;
        }
      } else {
        assert TxnScan(arbs[..j + 1], decode) == Returned(found + []);
        assert found + [] == found;
      }
      j := j + 1;
    }
    assert arbs[..j] == arbs;
    r := Returned(found);
  }

  /** `findHostAnnouncements` as written, with its out-of-range slice surfacing as a panic. */
  method FindHostAnnouncementsAsWritten(b: Block, decode: Decoder) returns (r: Outcome<seq<HostDBEntry>>)
    ensures r == BlockScan(b.transactions, decode)
  {
    var announcements: seq<HostDBEntry> := [];
    var i := 0;
    while i < |b.transactions|
      invariant 0 <= i <= |b.transactions|
      invariant BlockScan(b.transactions[..i], decode) == Returned(announcements)
    {
      TakeOneMore(b.transactions, i);
      var found := ScanTransactionAsWritten(b.transactions[i], decode);
      if found.Panicked? {
        BlockScanPanicSticks(b.transactions, i + 1, decode);
        r := Panicked;
        return;
      }
      announcements := announcements + found.value;
      i := i + 1;
    }
    assert b.transactions[..i] == b.transactions;
    r := Returned(announcements);
  }

  // ---------------------------------------------------------------------
  // Consensus changes.
  // ---------------------------------------------------------------------

  /** 2^64: `types.BlockHeight` is a uint64. */
  const HeightModulus: int := 0x1_0000_0000_0000_0000

  type BlockHeight = h: int | 0 <= h < HeightModulus

  /** The hosts announced by a list of applied blocks, in block order. */
  function AppliedAnnouncements(blocks: seq<Block>, decode: Decoder): seq<HostDBEntry>
  {
    if |blocks| == 0 then []
    else AppliedAnnouncements(blocks[..|blocks| - 1], decode) + Announcements(blocks[|blocks| - 1].transactions, decode)
  }

  /** A host is inserted for a list of applied blocks exactly when some block announces it. */
  lemma {:induction false} AppliedAnnouncementsMembership(blocks: seq<Block>, decode: Decoder, e: HostDBEntry)
    ensures e in AppliedAnnouncements(blocks, decode) <==>
      exists k :: 0 <= k < |blocks| && e in Announcements(blocks[k].transactions, decode)
  {
    if |blocks| > 0 {
      var n := |blocks| - 1;
      AppliedAnnouncementsMembership(blocks[..n], decode, e);
      if e in AppliedAnnouncements(blocks[..n], decode) {
        var k :| 0 <= k < n && e in Announcements(blocks[..n][k].transactions, decode);
        assert blocks[k] == blocks[..n][k];
      } else if e !in AppliedAnnouncements(blocks, decode) {
        forall k | 0 <= k < |blocks| ensures e !in Announcements(blocks[k].transactions, decode) {
          if k < n {
            assert blocks[k] == blocks[..n][k];
          }
        }
      }
    }
  }

  /** The change leaves the height alone: the first change, which applies only the genesis block. */
  predicate GenesisOnly(height: BlockHeight, cc: ConsensusChange, hashing: Hashing, genesisID: BlockID)
    requires height != 0 || |cc.appliedBlocks| > 0
  {
    height == 0 && ID(hashing, cc.appliedBlocks[|cc.appliedBlocks| - 1]) == genesisID
  }

  /** `x += n` on a uint64. */
  function WrapAdd(x: BlockHeight, n: nat): BlockHeight
  {
    (x + n) % HeightModulus
  }

  /** `x -= n` on a uint64. */
  function WrapSub(x: BlockHeight, n: nat): BlockHeight
  {
    (x - n) % HeightModulus
  }

  /** The height after a consensus change, in the source's wrapping uint64 arithmetic. */
  function NextHeight(height: BlockHeight, cc: ConsensusChange, hashing: Hashing, genesisID: BlockID): BlockHeight
    requires height != 0 || |cc.appliedBlocks| > 0
  {
    if !GenesisOnly(height, cc, hashing, genesisID) then
      WrapSub(WrapAdd(height, |cc.appliedBlocks|), |cc.revertedBlocks|)
    else
      height
  }

  /**
   * A change that is not the genesis-only first change moves the height by
   * the applied minus the reverted blocks, modulo 2^64, and exactly when
   * nothing wraps; the genesis-only change leaves it alone.
   */
  lemma NextHeightArithmetic(height: BlockHeight, cc: ConsensusChange, hashing: Hashing, genesisID: BlockID)
    requires height != 0 || |cc.appliedBlocks| > 0
    ensures GenesisOnly(height, cc, hashing, genesisID) ==> NextHeight(height, cc, hashing, genesisID) == height
    ensures !GenesisOnly(height, cc, hashing, genesisID) ==>
      (NextHeight(height, cc, hashing, genesisID) - (height + |cc.appliedBlocks| - |cc.revertedBlocks|)) % HeightModulus == 0
    ensures (!GenesisOnly(height, cc, hashing, genesisID)
             && |cc.revertedBlocks| <= height + |cc.appliedBlocks| < HeightModulus) ==>
      NextHeight(height, cc, hashing, genesisID) == height + |cc.appliedBlocks| - |cc.revertedBlocks|
  {
  }

  class HostDB {
    const hashing: Hashing
    /** `types.GenesisBlock.ID()`. */
    const genesisID: BlockID
    const decode: Decoder

    var blockHeight: BlockHeight
    /** The hosts handed to `insertHost`, in order. */
    var insertedHosts: seq<HostDBEntry>

    constructor (hashing: Hashing, genesisID: BlockID, decode: Decoder)
      ensures this.hashing == hashing && this.genesisID == genesisID && this.decode == decode
      ensures blockHeight == 0 && insertedHosts == []
    {
      this.hashing := hashing;
      this.genesisID := genesisID;
      this.decode := decode;
      blockHeight := 0;
      insertedHosts := [];
    }

    /** `insertHost`, whose body is not part of this model: the host is recorded. */
    method InsertHost(host: HostDBEntry)
      modifies this`insertedHosts
      ensures insertedHosts == old(insertedHosts) + [host]
    {
      insertedHosts := insertedHosts + [host];
    }

    /**
     * `ProcessConsensusChange`: updates the height (unless the change only
     * applies the genesis block to an empty database) and inserts every host
     * announced in the applied blocks, in block order; reverted blocks
     * insert and remove nothing.
     */
    method ProcessConsensusChange(cc: ConsensusChange)
      requires blockHeight != 0 || |cc.appliedBlocks| > 0
      modifies this`blockHeight, this`insertedHosts
      ensures blockHeight == NextHeight(old(blockHeight), cc, hashing, genesisID)
      ensures insertedHosts == old(insertedHosts) + AppliedAnnouncements(cc.appliedBlocks, decode)
    {
      if blockHeight != 0 || ID(hashing, cc.appliedBlocks[|cc.appliedBlocks| - 1]) != genesisID {
        blockHeight := WrapAdd(blockHeight, |cc.appliedBlocks|);
        blockHeight := WrapSub(blockHeight, |cc.revertedBlocks|);
      }

      InsertAnnouncements(cc.appliedBlocks);
    }

    /** Inserts the hosts of one block's announcements, in order. */
    method InsertHosts(hosts: seq<HostDBEntry>)
      modifies this`insertedHosts
      ensures insertedHosts == old(insertedHosts) + hosts
    {
      var m := 0;
      while m < |hosts|
        invariant 0 <= m <= |hosts|
        invariant insertedHosts == old(insertedHosts) + hosts[..m]
      {
        InsertHost(hosts[m]);
        AppendOneMore(old(insertedHosts), hosts, m);
        m := m + 1;
      }
      assert hosts[..m] == hosts;
    }

    /** The loop of `ProcessConsensusChange` over the applied blocks. */
    method InsertAnnouncements(blocks: seq<Block>)
      modifies this`insertedHosts
      ensures insertedHosts == old(insertedHosts) + AppliedAnnouncements(blocks, decode)
    {
      var k := 0;
      while k < |blocks|
        invariant 0 <= k <= |blocks|
        invariant insertedHosts == old(insertedHosts) + AppliedAnnouncements(blocks[..k], decode)
      {
        TakeOneMore(blocks, k);
        var hosts := FindHostAnnouncements(blocks[k], decode);
        InsertHosts(hosts);
        AppendAssoc(old(insertedHosts), AppliedAnnouncements(blocks[..k], decode), hosts);
        k := k + 1;
      }
      assert blocks[..k] == blocks;
    }
  }
}
