/**
  Properties of the ledger specification: what `new_block`,
  `new_transaction` and `mine()` guarantee one call at a time, and what any
  sequence of calls after construction guarantees.
 */
module LedgerProperties {
  import opened LedgerSpec

  /**
    `new_block` appends exactly one block numbered after the old length,
    moves the whole pool into it in order, empties the pool and leaves every
    earlier block untouched.
   */
  lemma NewBlockSealsPool(s: LedgerState, proof: int, previousHash: Option<HashValue>,
                          timestamp: real, hash: Block -> string)
    requires s.chain != [] || IsTruthy(previousHash)
    ensures var (s', b) := NewBlock(s, proof, previousHash, timestamp, hash);
      && s'.chain == s.chain + [b]
      && b.index == |s.chain| + 1
      && b.transactions == s.pending
      && b.proof == proof
      && b.timestamp == timestamp
      && s'.pending == []
  {
  }

  /**
    The link a block records is the supplied `previous_hash` exactly when
    that argument is truthy, and otherwise the hash of the block that was
    last before the call.
   */
  lemma PreviousHashRule(s: LedgerState, proof: int, previousHash: Option<HashValue>,
                         timestamp: real, hash: Block -> string)
    requires s.chain != [] || IsTruthy(previousHash)
    ensures IsTruthy(previousHash) ==>
      NewBlock(s, proof, previousHash, timestamp, hash).1.previousHash == previousHash.value
    ensures !IsTruthy(previousHash) ==>
      NewBlock(s, proof, previousHash, timestamp, hash).1.previousHash == HashStr(hash(Last(s.chain)))
  {
  }

  /** An absent argument, the empty string and zero all fall back to the hash. */
  lemma FalsyPreviousHashFallsBack(s: LedgerState, proof: int, timestamp: real, hash: Block -> string)
    requires s.chain != []
    ensures forall arg | arg in [None, Some(HashStr("")), Some(HashInt(0))] ::
      NewBlock(s, proof, arg, timestamp, hash).1.previousHash == HashStr(hash(Last(s.chain)))
  {
    PreviousHashRule(s, proof, None, timestamp, hash);
    PreviousHashRule(s, proof, Some(HashStr("")), timestamp, hash);
    PreviousHashRule(s, proof, Some(HashInt(0)), timestamp, hash);
  }

  /**
    `new_transaction` appends exactly its record to the end of the pool and
    leaves the chain unchanged.
   */
  lemma NewTransactionAppendsOne(s: LedgerState, sender: string, recipient: string, amount: int)
    requires s.chain != []
    ensures var (s', _) := NewTransaction(s, sender, recipient, amount);
      s'.chain == s.chain && s'.pending == s.pending + [Transaction(sender, recipient, amount)]
  {
  }

  /**
    The index `new_transaction` returns is the index the next `new_block`
    assigns, and the block it assigns holds the transaction where it was
    submitted in the pool.
   */
  lemma PredictedIndexIsNextIndex(s: LedgerState, tx: Transaction, proof: int,
                                  previousHash: Option<HashValue>, timestamp: real, hash: Block -> string)
    requires Valid(s)
    ensures var (s1, predicted) := NewTransaction(s, tx.sender, tx.recipient, tx.amount);
      var b := NewBlock(s1, proof, previousHash, timestamp, hash).1;
      b.index == predicted && b.transactions[|s.pending|] == tx
  {
  }

  /** Calls that only submit transactions grow the pool by them and change no block. */
  lemma {:induction false} SubmitsOnlyGrowPool(s: LedgerState, ops: seq<Op>, hash: Block -> string)
    requires Valid(s)
    requires forall k :: 0 <= k < |ops| ==> ops[k].SubmitOp?
    ensures Run(s, ops, hash).chain == s.chain
    ensures Run(s, ops, hash).pending == s.pending + Submitted(ops)
    decreases |ops|
  {
    if ops != [] {
      var s1 := Apply(s, ops[0], hash);
      assert s1 == LedgerState(s.chain, s.pending + SubmittedBy(ops[0]));
      SubmitsOnlyGrowPool(s1, ops[1..], hash);
      RunStep(s, ops, hash);
      SubmittedStep(ops);
      ConcatAssoc(s.pending, SubmittedBy(ops[0]), Submitted(ops[1..]));
    }
  }

  /**
    The prediction survives further submissions: a transaction lands in the
    very next sealed block, at the index `new_transaction` returned, however
    many transactions are submitted after it.
   */
  lemma PredictionHolds(s: LedgerState, tx: Transaction, later: seq<Op>, proof: int,
                        previousHash: Option<HashValue>, timestamp: real, hash: Block -> string)
    requires Valid(s)
    requires forall k :: 0 <= k < |later| ==> later[k].SubmitOp?
    ensures var (s1, predicted) := NewTransaction(s, tx.sender, tx.recipient, tx.amount);
      var s2 := Run(s1, later, hash);
      var b := NewBlock(s2, proof, previousHash, timestamp, hash).1;
      b.index == predicted && |s.pending| < |b.transactions| && b.transactions[|s.pending|] == tx
  {
    var (s1, predicted) := NewTransaction(s, tx.sender, tx.recipient, tx.amount);
    SubmitsOnlyGrowPool(s1, later, hash);
  }

  /** The chain is append-only: any sequence of calls keeps it as a prefix and adds one block per seal. */
  lemma {:induction false} RunAppendsOnly(s: LedgerState, ops: seq<Op>, hash: Block -> string)
    requires Valid(s)
    ensures |Run(s, ops, hash).chain| == |s.chain| + Seals(ops)
    ensures Run(s, ops, hash).chain[..|s.chain|] == s.chain
    decreases |ops|
  {
    if ops != [] {
      var s1 := Apply(s, ops[0], hash);
      RunAppendsOnly(s1, ops[1..], hash);
      RunStep(s, ops, hash);
      assert s1.chain[..|s.chain|] == s.chain;
      var c := Run(s, ops, hash).chain;
      assert c[..|s1.chain|] == s1.chain;
      assert c[..|s.chain|] == c[..|s1.chain|][..|s.chain|];
    }
  }

  lemma SealedAppend(chain: seq<Block>, b: Block)
    ensures Sealed(chain + [b]) == Sealed(chain) + b.transactions
  {
    assert (chain + [b])[..|chain|] == chain;
  }

  /** One call never loses, duplicates or reorders a transaction; a submission adds its own at the end. */
  lemma ApplyConservesTransactions(s: LedgerState, op: Op, hash: Block -> string)
    requires Valid(s)
    ensures Recorded(Apply(s, op, hash)) == Recorded(s) + SubmittedBy(op)
  {
    match op
    case SealOp(proof, previousHash, timestamp) =>
      var (s', b) := NewBlock(s, proof, previousHash, timestamp, hash);
      SealedAppend(s.chain, b);
    case SubmitOp(tx) =>
  }

  lemma RunStep(s: LedgerState, ops: seq<Op>, hash: Block -> string)
    requires Valid(s) && ops != []
    ensures Run(s, ops, hash) == Run(Apply(s, ops[0], hash), ops[1..], hash)
  {
  }

  lemma SubmittedStep(ops: seq<Op>)
    requires ops != []
    ensures Submitted(ops) == SubmittedBy(ops[0]) + Submitted(ops[1..])
  {
  }

  lemma ConcatAssoc<T>(a: seq<T>, b: seq<T>, c: seq<T>)
    ensures (a + b) + c == a + (b + c)
  {
  }

  /**
    Over any sequence of calls the sealed blocks followed by the pool hold
    exactly the transactions held before, followed by those submitted, in
    order: the pool is emptied into exactly one block each time.
   */
  lemma {:induction false} RunConservesTransactions(s: LedgerState, ops: seq<Op>, hash: Block -> string)
    requires Valid(s)
    ensures Recorded(Run(s, ops, hash)) == Recorded(s) + Submitted(ops)
    decreases |ops|
  {
    if ops != [] {
      var s1, rest := Apply(s, ops[0], hash), ops[1..];
      RunStep(s, ops, hash);
      ApplyConservesTransactions(s, ops[0], hash);
      RunConservesTransactions(s1, rest, hash);
      SubmittedStep(ops);
      ConcatAssoc(Recorded(s), SubmittedBy(ops[0]), Submitted(rest));
    }
  }

  /** From construction on, the ledger records exactly the submitted transactions, in order. */
  lemma HistoryFromGenesis(timestamp: real, ops: seq<Op>, hash: Block -> string)
    ensures Recorded(Run(Init(timestamp, hash), ops, hash)) == Submitted(ops)
    ensures |Run(Init(timestamp, hash), ops, hash).chain| == 1 + Seals(ops)
    ensures Run(Init(timestamp, hash), ops, hash).chain[0] == Block(1, timestamp, [], GenesisProof, GenesisPreviousHash)
  {
    var s0 := Init(timestamp, hash);
    RunConservesTransactions(s0, ops, hash);
    RunAppendsOnly(s0, ops, hash);
    assert Sealed(s0.chain) == Sealed([]) + s0.chain[0].transactions;
    assert Run(s0, ops, hash).chain[..1][0] == Run(s0, ops, hash).chain[0];
  }

  /**
    `mine()` appends one block whose fields are fixed by the state before
    the call: the proof it was given, the hash of the old last block (even
    if that hash were empty, the fallback hashes the same block), and the
    old pool followed by the reward record.
   */
  lemma MinedBlock(s: LedgerState, proof: int, nodeIdentifier: string, timestamp: real, hash: Block -> string)
    requires Valid(s)
    ensures var (s', b) := Mined(s, proof, nodeIdentifier, timestamp, hash);
      && s'.chain == s.chain + [b]
      && s'.pending == []
      && b.index == |s.chain| + 1
      && b.proof == proof
      && b.previousHash == HashStr(hash(Last(s.chain)))
      && b.transactions == s.pending + [Transaction(RewardSender, nodeIdentifier, RewardAmount)]
  {
    var (s1, _) := NewTransaction(s, RewardSender, nodeIdentifier, RewardAmount);
    PreviousHashRule(s1, proof, Some(HashStr(hash(Last(s.chain)))), timestamp, hash);
  }

  /** Mining is the two ledger calls in the order `mine()` makes them. */
  lemma MinedIsSubmitThenSeal(s: LedgerState, proof: int, nodeIdentifier: string, timestamp: real,
                              hash: Block -> string)
    requires Valid(s)
    ensures Mined(s, proof, nodeIdentifier, timestamp, hash).0 ==
      Run(s, [SubmitOp(Transaction(RewardSender, nodeIdentifier, RewardAmount)),
              SealOp(proof, Some(HashStr(hash(Last(s.chain)))), timestamp)], hash)
  {
    var ops := [SubmitOp(Transaction(RewardSender, nodeIdentifier, RewardAmount)),
                SealOp(proof, Some(HashStr(hash(Last(s.chain)))), timestamp)];
    var s1 := Apply(s, ops[0], hash);
    assert ops[1..][1..] == [];
    assert Run(s, ops, hash) == Run(Apply(s1, ops[1], hash), [], hash);
  }

  /**
    A chain built by mining with least proofs keeps the hash linkage and
    proof validity between neighbours; the genesis block is exempt.
   */
  lemma MiningKeepsChainLinked(s: LedgerState, proof: int, nodeIdentifier: string, timestamp: real,
                               hash: Block -> string, validProof: (int, int) -> bool)
    requires Valid(s) && Linked(s.chain, hash, validProof)
    requires IsLeastProof(validProof, Last(s.chain).proof, proof)
    ensures Linked(Mined(s, proof, nodeIdentifier, timestamp, hash).0.chain, hash, validProof)
  {
    MinedBlock(s, proof, nodeIdentifier, timestamp, hash);
    var (s', b) := Mined(s, proof, nodeIdentifier, timestamp, hash);
    var n := |s.chain|;
    forall i | 0 < i < |s'.chain|
      ensures s'.chain[i].previousHash == HashStr(hash(s'.chain[i - 1]))
      ensures validProof(s'.chain[i - 1].proof, s'.chain[i].proof)
    {
      if i < n {
        assert s'.chain[i] == s.chain[i] && s'.chain[i - 1] == s.chain[i - 1];
      } else {
        assert s'.chain[i] == b && s'.chain[i - 1] == Last(s.chain);
      }
    }
  }

  /** Any number of mining rounds with least proofs keeps a linked chain linked. */
  lemma {:induction false} MineAllKeepsChainLinked(s: LedgerState, calls: seq<MineCall>,
                                                   hash: Block -> string, validProof: (int, int) -> bool)
    requires Valid(s) && Linked(s.chain, hash, validProof)
    requires LeastProofs(s, calls, hash, validProof)
    ensures Linked(MineAll(s, calls, hash).chain, hash, validProof)
    decreases |calls|
  {
    if calls != [] {
      var c := calls[0];
      MiningKeepsChainLinked(s, c.proof, c.nodeIdentifier, c.timestamp, hash, validProof);
      MineAllKeepsChainLinked(Mined(s, c.proof, c.nodeIdentifier, c.timestamp, hash).0, calls[1..], hash, validProof);
    }
  }

  /**
    Every chain this node builds by construction and mining alone satisfies
    the linkage invariant: each non-genesis block records the hash of its
    predecessor and carries a proof accepted against the predecessor's proof.
   */
  lemma MinedChainFromGenesisLinked(timestamp: real, calls: seq<MineCall>,
                                    hash: Block -> string, validProof: (int, int) -> bool)
    requires LeastProofs(Init(timestamp, hash), calls, hash, validProof)
    ensures Linked(MineAll(Init(timestamp, hash), calls, hash).chain, hash, validProof)
  {
    MineAllKeepsChainLinked(Init(timestamp, hash), calls, hash, validProof);
  }
}
