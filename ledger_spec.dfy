/**
  Values of the single-node ledger and the pure specification of its
  operations. The SHA-256 digest of a block's sorted-key JSON text is the
  parameter `hash`, and the proof-of-work acceptance test (the digest of
  the two proofs' decimal texts begins with "1234") is the parameter
  `validProof`: both are arbitrary deterministic functions, and every
  property below holds for all of them.
 */
module LedgerSpec {

  datatype Option<T> = None | Some(value: T)

  /** A pending or sealed transaction record `{sender, recipient, amount}`. */
  datatype Transaction = Transaction(sender: string, recipient: string, amount: int)

  /**
    What a block's `previous_hash` holds: the genesis block stores the
    integer 1, every other block a hex digest string.
   */
  datatype HashValue = HashInt(n: int) | HashStr(s: string)

  datatype Block = Block(
    index: int,
    timestamp: real,
    transactions: seq<Transaction>,
    proof: int,
    previousHash: HashValue)

  /** The two lists the ledger owns: the chain and the pending pool. */
  datatype LedgerState = LedgerState(chain: seq<Block>, pending: seq<Transaction>)

  /** One call a client can make on the ledger after it is built. */
  datatype Op =
    | SealOp(proof: int, previousHash: Option<HashValue>, timestamp: real)
    | SubmitOp(tx: Transaction)

  const GenesisProof: int := 100
  const GenesisPreviousHash: HashValue := HashInt(1)
  const RewardSender: string := "0"
  const RewardAmount: int := 1

  /** Python truthiness of a `previous_hash` argument: `None`, `0` and `""` are false. */
  predicate IsTruthy(arg: Option<HashValue>)
  {
    match arg
    case None => false
    case Some(HashInt(n)) => n != 0
    case Some(HashStr(s)) => s != ""
  }

  /** Block `i` of the chain carries index `i + 1`. */
  predicate Indexed(chain: seq<Block>)
  {
    forall i :: 0 <= i < |chain| ==> chain[i].index == i + 1
  }

  /** What every reachable ledger state satisfies; `last_block` is defined in it. */
  predicate Valid(s: LedgerState)
  {
    s.chain != [] && Indexed(s.chain)
  }

  function Last(chain: seq<Block>): Block
    requires chain != []
  {
    chain[|chain| - 1]
  }

  /**
    `new_block(proof, previous_hash)`: the sealed block and the state after
    it. A falsy `previous_hash` is replaced by the hash of the last block,
    which fails on an empty chain, hence the precondition.
   */
  function NewBlock(s: LedgerState, proof: int, previousHash: Option<HashValue>,
                    timestamp: real, hash: Block -> string): (r: (LedgerState, Block))
    requires s.chain != [] || IsTruthy(previousHash)
    ensures Indexed(s.chain) ==> Valid(r.0)
    ensures |r.0.chain| == |s.chain| + 1 && r.0.chain[..|s.chain|] == s.chain && Last(r.0.chain) == r.1
  {
    var link := if IsTruthy(previousHash) then previousHash.value else HashStr(hash(Last(s.chain)));
    var block := Block(|s.chain| + 1, timestamp, s.pending, proof, link);
    (LedgerState(s.chain + [block], []), block)
  }

  /**
    `new_transaction(sender, recipient, amount)`: the state after it and the
    index it predicts for the block that will hold the transaction.
   */
  function NewTransaction(s: LedgerState, sender: string, recipient: string, amount: int): (r: (LedgerState, int))
    requires s.chain != []
    ensures Valid(s) ==> Valid(r.0) && r.1 == |s.chain| + 1
  {
    (LedgerState(s.chain, s.pending + [Transaction(sender, recipient, amount)]), Last(s.chain).index + 1)
  }

  /** The state `Blockchain()` builds: one genesis block sealed on empty lists. */
  function Init(timestamp: real, hash: Block -> string): (r: LedgerState)
    ensures Valid(r) && r.pending == []
    ensures r.chain == [Block(1, timestamp, [], GenesisProof, GenesisPreviousHash)]
  {
    NewBlock(LedgerState([], []), GenesisProof, Some(GenesisPreviousHash), timestamp, hash).0
  }

  function Apply(s: LedgerState, op: Op, hash: Block -> string): (r: LedgerState)
    requires Valid(s)
    ensures Valid(r)
  {
    match op
    case SealOp(proof, previousHash, timestamp) => NewBlock(s, proof, previousHash, timestamp, hash).0
    case SubmitOp(tx) => NewTransaction(s, tx.sender, tx.recipient, tx.amount).0
  }

  /** The state after a sequence of calls; every intermediate state is valid, so no call fails. */
  function Run(s: LedgerState, ops: seq<Op>, hash: Block -> string): (r: LedgerState)
    requires Valid(s)
    ensures Valid(r)
    decreases |ops|
  {
    if ops == [] then s else Run(Apply(s, ops[0], hash), ops[1..], hash)
  }

  /** `proof` is what `proof_of_work(lastProof)` returns: the least valid nonce. */
  predicate IsLeastProof(validProof: (int, int) -> bool, lastProof: int, proof: int)
  {
    0 <= proof && validProof(lastProof, proof) &&
    forall q :: 0 <= q < proof ==> !validProof(lastProof, q)
  }

  /**
    The body of `mine()` for a given proof: record the reward to
    `nodeIdentifier`, then seal with the hash of the last block before the call.
   */
  function Mined(s: LedgerState, proof: int, nodeIdentifier: string, timestamp: real,
                 hash: Block -> string): (r: (LedgerState, Block))
    requires Valid(s)
    ensures Valid(r.0)
  {
    var last := Last(s.chain);
    var (s1, _) := NewTransaction(s, RewardSender, nodeIdentifier, RewardAmount);
    NewBlock(s1, proof, Some(HashStr(hash(last))), timestamp, hash)
  }

  /** Every transaction the ledger holds, sealed ones in chain order, then the pool. */
  function Sealed(chain: seq<Block>): seq<Transaction>
  {
    if chain == [] then [] else Sealed(chain[..|chain| - 1]) + Last(chain).transactions
  }

  function Recorded(s: LedgerState): seq<Transaction>
  {
    Sealed(s.chain) + s.pending
  }

  /** The transaction one call submits, if any. */
  function SubmittedBy(op: Op): seq<Transaction>
  {
    if op.SubmitOp? then [op.tx] else []
  }

  /** The transactions submitted by a sequence of calls, in order. */
  function Submitted(ops: seq<Op>): seq<Transaction>
  {
    if ops == [] then [] else SubmittedBy(ops[0]) + Submitted(ops[1..])
  }

  /** The number of blocks a sequence of calls seals. */
  function Seals(ops: seq<Op>): nat
  {
    if ops == [] then 0 else (if ops[0].SealOp? then 1 else 0) + Seals(ops[1..])
  }

  /**
    Hash linkage and proof validity between neighbouring blocks, with the
    genesis block exempt.
   */
  predicate Linked(chain: seq<Block>, hash: Block -> string, validProof: (int, int) -> bool)
  {
    forall i :: 0 < i < |chain| ==>
      chain[i].previousHash == HashStr(hash(chain[i - 1])) &&
      validProof(chain[i - 1].proof, chain[i].proof)
  }

  /** One round of `mine()`: the proof its search returned, the node it rewards and its timestamp. */
  datatype MineCall = MineCall(proof: int, nodeIdentifier: string, timestamp: real)

  /** The state after a sequence of mining rounds. */
  function MineAll(s: LedgerState, calls: seq<MineCall>, hash: Block -> string): (r: LedgerState)
    requires Valid(s)
    ensures Valid(r)
    decreases |calls|
  {
    if calls == [] then s
    else MineAll(Mined(s, calls[0].proof, calls[0].nodeIdentifier, calls[0].timestamp, hash).0, calls[1..], hash)
  }

  /** Every round's proof is the least nonce after the proof of the block that was last before it. */
  predicate LeastProofs(s: LedgerState, calls: seq<MineCall>, hash: Block -> string, validProof: (int, int) -> bool)
    requires Valid(s)
    decreases |calls|
  {
    calls == [] ||
    (IsLeastProof(validProof, Last(s.chain).proof, calls[0].proof) &&
     LeastProofs(Mined(s, calls[0].proof, calls[0].nodeIdentifier, calls[0].timestamp, hash).0,
                 calls[1..], hash, validProof))
  }
}
