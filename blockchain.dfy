/**
  The ledger object: the class `Blockchain` with its two in-place lists,
  and the call sequence of the `mine()` route as a ledger method.
 */
module Ledger {
  import opened LedgerSpec
  import LedgerProperties

  class Blockchain {
    var chain: seq<Block>
    var currentTransactions: seq<Transaction>

    /** SHA-256 of the block's sorted-key JSON text, as a hex string. */
    const hash: Block -> string
    /** The proof-of-work acceptance test on (previous proof, candidate). */
    const validProof: (int, int) -> bool

    ghost function Snapshot(): LedgerState
      reads this
    {
      LedgerState(chain, currentTransactions)
    }

    /** The chain is never empty and block `i` carries index `i + 1`. */
    ghost predicate Valid()
      reads this
    {
      LedgerSpec.Valid(Snapshot())
    }

    /** Builds empty lists and seals the genesis block with proof 100 and previous hash 1. */
    constructor (hash: Block -> string, validProof: (int, int) -> bool, timestamp: real)
      ensures Valid()
      ensures Snapshot() == Init(timestamp, hash)
      ensures chain == [Block(1, timestamp, [], GenesisProof, GenesisPreviousHash)]
      ensures currentTransactions == []
      ensures this.hash == hash && this.validProof == validProof
    {
      this.hash := hash;
      this.validProof := validProof;
      chain := [];
      currentTransactions := [];
      new;
      var _ := NewBlock(GenesisProof, Some(GenesisPreviousHash), timestamp);
    }

    /**
      Seals the pending pool into a new block at index `len(chain) + 1`,
      linked by `previousHash` when it is truthy and by the hash of the last
      block otherwise, appends it, and starts a new empty pool.
     */
    method NewBlock(proof: int, previousHash: Option<HashValue>, timestamp: real) returns (block: Block)
      requires Indexed(chain)
      requires chain != [] || IsTruthy(previousHash)
      modifies this
      ensures Valid()
      ensures (Snapshot(), block) == LedgerSpec.NewBlock(old(Snapshot()), proof, previousHash, timestamp, hash)
      ensures chain == old(chain) + [block] && currentTransactions == []
      ensures block.index == |old(chain)| + 1 && block.transactions == old(currentTransactions)
      ensures block.proof == proof && block.timestamp == timestamp
      ensures block.previousHash ==
        if IsTruthy(previousHash) then previousHash.value else HashStr(hash(Last(old(chain))))
    {
      var link: HashValue;
      if IsTruthy(previousHash) {
        link := previousHash.value;
      } else {
        link := HashStr(hash(chain[|chain| - 1]));
      }
      block := Block(|chain| + 1, timestamp, currentTransactions, proof, link);
      currentTransactions := [];
      chain := chain + [block];
    }

    /**
      Appends one transaction record to the pool and returns the index of
      the block that the next seal will create.
     */
    method NewTransaction(sender: string, recipient: string, amount: int) returns (index: int)
      requires Valid()
      modifies this
      ensures Valid()
      ensures (Snapshot(), index) == LedgerSpec.NewTransaction(old(Snapshot()), sender, recipient, amount)
      ensures chain == old(chain)
      ensures currentTransactions == old(currentTransactions) + [Transaction(sender, recipient, amount)]
      ensures index == |chain| + 1
    {
      currentTransactions := currentTransactions + [Transaction(sender, recipient, amount)];
      index := LastBlock().index + 1;
    }

    /** The most recently sealed block; its index is the chain's length. */
    function LastBlock(): (b: Block)
      reads this
      requires Valid()
      ensures b == Last(chain) && b.index == |chain|
    {
      chain[|chain| - 1]
    }

    /**
      Linear search from 0 for the least nonce `proof` with
      `validProof(lastProof, proof)`. The search stops only when such a
      nonce exists, which the precondition states.
     */
    method ProofOfWork(lastProof: int) returns (proof: int)
      requires exists p: nat :: validProof(lastProof, p)
      ensures IsLeastProof(validProof, lastProof, proof)
    {
      ghost var bound: nat :| validProof(lastProof, bound);
      proof := 0;
      var valid := false;
      while !valid
        invariant 0 <= proof <= bound
        invariant forall q :: 0 <= q < proof ==> !validProof(lastProof, q)
        invariant valid ==> validProof(lastProof, proof)
        decreases 2 * (bound - proof) + (if valid then 0 else 1)
      {
        valid := validProof(lastProof, proof);
        if !valid {
          proof := proof + 1;
        }
      }
    }

    /**
      The `mine()` route without its HTTP framing: find the least proof
      after the last block's proof, record the reward to `nodeIdentifier`,
      and seal with the hash of the block that was last before the call.
     */
    method Mine(nodeIdentifier: string, timestamp: real) returns (block: Block)
      requires Valid()
      requires exists p: nat :: validProof(Last(chain).proof, p)
      modifies this
      ensures Valid()
      ensures IsLeastProof(validProof, Last(old(chain)).proof, block.proof)
      ensures (Snapshot(), block) == Mined(old(Snapshot()), block.proof, nodeIdentifier, timestamp, hash)
      ensures chain == old(chain) + [block] && currentTransactions == []
      ensures block.index == |old(chain)| + 1
      ensures block.previousHash == HashStr(hash(Last(old(chain))))
      ensures block.transactions ==
        old(currentTransactions) + [Transaction(RewardSender, nodeIdentifier, RewardAmount)]
    {
      var lastBlock := LastBlock();
      var lastProof := lastBlock.proof;
      var proof := ProofOfWork(lastProof);
      var _ := NewTransaction(RewardSender, nodeIdentifier, RewardAmount);
      var previousHash := hash(lastBlock);
      block := NewBlock(proof, Some(HashStr(previousHash)), timestamp);
      LedgerProperties.MinedBlock(old(Snapshot()), proof, nodeIdentifier, timestamp, hash);
    }
  }

  /**
    A fresh node: one submitted transaction, then one round of mining. The
    second block links to the genesis block, carries the least proof after
    100, and holds the submitted transaction followed by the reward.
   */
  method SubmitThenMine(hash: Block -> string, validProof: (int, int) -> bool, genesisTime: real,
                        tx: Transaction, nodeIdentifier: string, minedTime: real)
    returns (predicted: int, block: Block)
    requires exists p: nat :: validProof(GenesisProof, p)
    ensures predicted == 2 && block.index == predicted
    ensures block.previousHash == HashStr(hash(Block(1, genesisTime, [], GenesisProof, GenesisPreviousHash)))
    ensures IsLeastProof(validProof, GenesisProof, block.proof)
    ensures block.transactions == [tx, Transaction(RewardSender, nodeIdentifier, RewardAmount)]
  {
    var ledger := new Blockchain(hash, validProof, genesisTime);
    predicted := ledger.NewTransaction(tx.sender, tx.recipient, tx.amount);
    block := ledger.Mine(nodeIdentifier, minedTime);
  }
}
