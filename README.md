# Single-node blockchain ledger, modelled in Dafny

This project models the `Blockchain` ledger class of a minimal
proof-of-work blockchain node (`blockchain.py`). A ledger owns two lists:

- the chain of blocks, which only grows;
- the pool of pending transactions, which is emptied into a block when one is sealed.

Construction seals a genesis block with index 1, proof 100 and the integer
`1` as its previous hash. `new_block` seals the pool into the next block.
`new_transaction` adds a record to the pool and predicts the index of the
block that will hold it. `proof_of_work` searches linearly from 0 for the
smallest nonce the difficulty test accepts. The `/mine` route runs a fixed
sequence of ledger calls: find the proof, record a reward of 1 from sender
`"0"` to this node, and seal with the hash of the last block. That sequence
is modelled as the method `Mine`, without the HTTP wrapper.

Files:

- `ledger_spec.dfy`, module `LedgerSpec`: the values and the pure
  specification. It defines transaction, block and ledger state. It defines
  `NewBlock`, `NewTransaction`, `Init` and `Mined` as functions on states.
  `Run` applies any sequence of calls, and `MineAll` any sequence of
  mining rounds. `IsLeastProof` is the proof-of-work result predicate.
- `ledger_properties.dfy`, module `LedgerProperties`: lemmas about single calls
  and about any sequence of calls after construction.
- `blockchain.dfy`, module `Ledger`: the class `Blockchain` and a client scenario.
  Its fields `chain` and `currentTransactions` are reassigned in place.
  Each method is proved to produce the state the matching `LedgerSpec`
  function gives.

The SHA-256 digest of a block's sorted-key JSON text is modelled as `hash`, an
arbitrary deterministic function `Block -> string`. The test "the digest of
`f'{last_proof}{proof}'` starts with `1234`" is modelled as `validProof`, an
arbitrary deterministic function `(int, int) -> bool`. Both are fixed when a
`Blockchain` is constructed. Every property holds for every choice of them.

Python's `previous_hash or self.hash(self.chain[-1])` is modelled exactly.
The argument is an `Option<HashValue>`. A `HashValue` is either an integer
(the genesis sentinel `1`) or a digest string. `None`, `0` and `""` are
falsy and fall back to the hash of the last block. On an empty chain that
fallback would raise `IndexError`, so `NewBlock` requires a non-empty chain
or a truthy argument. Construction meets this: it passes the truthy `1`.

## Model

| member | source | states |
|---|---|---|
| LedgerSpec.Init | blockchain.py:11-15 | the constructed state is valid; its chain is exactly the genesis block with index 1, no transactions, proof 100 and previous hash 1; its pool is empty |
| LedgerSpec.NewBlock | blockchain.py:27-40 | the chain grows by exactly one block; earlier blocks are unchanged; the returned block is the new last element; a chain with consecutive indexes stays valid |
| LedgerSpec.NewTransaction | blockchain.py:53-59 | on a valid ledger the state stays valid, and the returned index is the chain length + 1, which is the index the next seal assigns |
| LedgerSpec.Apply | blockchain.py:27-59 | any single `new_block` or `new_transaction` call keeps the ledger valid |
| LedgerSpec.Run | blockchain.py:27-59 | any sequence of calls on a valid ledger ends valid: the chain is non-empty and block i carries index i + 1, so `last_block` never fails |
| LedgerSpec.Mined | blockchain.py:121-132 | the reward-then-seal sequence of `mine()` keeps the ledger valid |
| LedgerProperties.NewBlockSealsPool | blockchain.py:27-40 | sealing appends one block with index old length + 1; the block holds the whole old pool in order, the given proof and the given timestamp; the pool is then empty |
| LedgerProperties.PreviousHashRule | blockchain.py:32 | the recorded link is the supplied argument when it is truthy, and otherwise the hash of the block that was last before the append |
| LedgerProperties.FalsyPreviousHashFallsBack | blockchain.py:32 | `None`, `""` and `0` all fall back to the hash of the last block |
| LedgerProperties.NewTransactionAppendsOne | blockchain.py:53-57 | exactly one `{sender, recipient, amount}` record is appended to the end of the pool, and the chain is unchanged |
| LedgerProperties.PredictedIndexIsNextIndex | blockchain.py:53-59 | the index `new_transaction` returns equals the index the next `new_block` assigns (line 28), and that block holds the transaction at the position it was submitted |
| LedgerProperties.SubmitsOnlyGrowPool | blockchain.py:53-57 | a run of submissions leaves the chain unchanged and appends the submitted records to the pool in order |
| LedgerProperties.PredictionHolds | blockchain.py:53-59 | later submissions before the next seal do not spoil the prediction: the transaction lands in the very next block, at the predicted index |
| LedgerProperties.RunAppendsOnly | blockchain.py:27-40 | over any sequence of calls the old chain stays a prefix, and the chain grows by exactly one block per seal |
| LedgerProperties.ApplyConservesTransactions | blockchain.py:30-36 | one call neither loses nor duplicates a transaction: sealed blocks plus pool grow only by the submitted record |
| LedgerProperties.RunConservesTransactions | blockchain.py:30-36 | over any sequence of calls, the sealed transactions in chain order followed by the pool are the old ones followed by everything submitted, in order |
| LedgerProperties.HistoryFromGenesis | blockchain.py:11-15 | from construction on, the ledger records exactly the submitted transactions in order; it has 1 + seals blocks; the genesis block stays first |
| LedgerProperties.MinedBlock | blockchain.py:121-132 | mining appends one block with the given proof, previous hash = hash of the old last block, transactions = old pool + reward record; the pool is then empty |
| LedgerProperties.MinedIsSubmitThenSeal | blockchain.py:125-132 | mining is exactly a `new_transaction` of the reward followed by a `new_block` with the old last block's hash |
| LedgerProperties.MiningKeepsChainLinked | blockchain.py:121-132 | mining with the least proof keeps every non-genesis block linked to its predecessor by hash and by a valid proof |
| LedgerSpec.MineAll | blockchain.py:121-132 | any number of mining rounds from a valid ledger ends valid |
| LedgerProperties.MineAllKeepsChainLinked | blockchain.py:121-132 | any number of mining rounds, each with the least proof after the then-last block's proof, keeps a linked chain linked |
| LedgerProperties.MinedChainFromGenesisLinked | blockchain.py:11-132 | every chain built by construction followed by mining rounds with least proofs is linked: each non-genesis block records its predecessor's hash and a proof accepted against the predecessor's proof |
| Ledger.Blockchain.constructor | blockchain.py:11-15 | the new ledger is valid, holds only the genesis block (index 1, proof 100, previous hash 1, no transactions) and has an empty pool |
| Ledger.Blockchain.NewBlock | blockchain.py:17-40 | the new state is `LedgerSpec.NewBlock` of the old one; the chain gains one block after the unchanged old ones; the block holds the old pool; the pool is emptied; the link follows the truthiness rule |
| Ledger.Blockchain.NewTransaction | blockchain.py:42-59 | the chain is unchanged; one record is appended to the pool; the returned index is the chain length + 1 |
| Ledger.Blockchain.LastBlock | blockchain.py:75-83 | returns the chain's last block, whose index equals the chain length |
| Ledger.Blockchain.ProofOfWork | blockchain.py:85-110 | the result is the least nonce p ≥ 0 with `validProof(lastProof, p)`: every q in [0, p) is rejected; the ledger is not touched |
| Ledger.Blockchain.Mine | blockchain.py:119-132 | the block's proof is the least proof after the old last proof; its previous hash is the old last block's hash; its transactions are the old pool + the reward record; the chain grows by that block and the pool is emptied |
| Ledger.SubmitThenMine | blockchain.py:117-132 | on a fresh ledger, a submitted transaction is predicted for block 2; mining then yields block 2, linked to the genesis block, holding that transaction followed by the reward |

## Left out

- Flask app, routes, `request.get_json()`, `jsonify`, status codes and `app.run` (blockchain.py:115-170): these are transport only. `Mine` keeps only the call order of the `/mine` route.
- The missing-field check of the `/transactions/new` handler (blockchain.py:148-150): it only parses the request.
- `uuid4()` node identifier (blockchain.py:116): it is external randomness. `Mine` takes `nodeIdentifier` as a parameter.
- `time()` timestamps (blockchain.py:29): they come from a clock. Each sealing call takes the timestamp as a `real` parameter.
- SHA-256, hex encoding and `json.dumps(sort_keys=True)` (blockchain.py:71-73, 102-104): these are library code. They become the deterministic parameters `hash` and `validProof`. The `"1234"` digest prefix itself is not modelled.
- Ledger.Blockchain.ProofOfWork: termination needs outside knowledge. It depends on the hash, and the source's loop is unbounded. The method therefore requires that some accepted nonce exists. Without one, the source loops forever, and the model does not cover that case.
- Ledger.Blockchain.Mine: it requires that some accepted nonce exists after the last block's proof, for the same reason. It calls `ProofOfWork`, which loops forever without one.
- Ledger.SubmitThenMine: it requires that some accepted nonce exists after the genesis proof 100, for the same reason.
- LedgerSpec.NewBlock: it requires a non-empty chain or a truthy `previous_hash`. Otherwise the source evaluates `self.chain[-1]` on an empty list and raises `IndexError` (blockchain.py:32). No reachable state has an empty chain. Construction seals the genesis block with the truthy `1`, and every later call keeps the chain non-empty.
- LedgerSpec.NewTransaction: it requires a non-empty chain. On an empty chain the source first appends the record (blockchain.py:53) and then raises `IndexError` at `last_block` (blockchain.py:59). That half-done call is not modelled. As with `NewBlock`, no reachable state has an empty chain.
- Ledger.Blockchain.NewBlock: the method requires the class invariant (block i carries index i + 1). The source does not check it, but every reachable state satisfies it.
- Concurrency: the model runs one call at a time, and each call is atomic. `app.run` (blockchain.py:170) serves requests on several threads, and the source takes no lock, so `/mine` and `/transactions/new` can interleave inside the ledger. Three things can then go wrong:
  - two seals both read `len(self.chain)` (blockchain.py:28) before either appends, and get the same index;
  - two `mine()` calls both hash the same last block (blockchain.py:121, 131), so the second mined block is not linked to its real predecessor;
  - a `new_transaction` that fetched the pool list before the rebind (blockchain.py:36) appends into an already sealed block, and its predicted index (blockchain.py:59) is then wrong.

  Every invariant and sequence property here assumes calls do not interleave. That covers `Run`, `PredictionHolds`, `MiningKeepsChainLinked`, `MineAllKeepsChainLinked` and `MinedChainFromGenesisLinked`. A threaded server does not give that guarantee.
- Aliasing: the source's block shares the old pool list object, and the pool is then rebound to a new list. The model uses sequence values instead. The two behave the same only when calls run one at a time: then nothing appends to the old list after the rebind. Under the interleaving above, a late append to that list would change a sealed block, and the model does not capture that.
- Dynamic typing: `amount` is an `int` and `sender`/`recipient` are strings, as the docstrings say. Other JSON values a client might send are not modelled.
