/** The in-memory ledger of main.py: a chain of blocks, a pool of pending
    transactions and a set of peer locations, updated in place by the methods of
    `Blockchain`, and the mining sequence of the `/mine` handler. */
module Ledger {
  import opened ProofCheck

  /** One `{sender, recipient, amount}` record. */
  datatype Transaction = Transaction(sender: string, recipient: string, amount: int)

  /** The block's `hash` key: the genesis block stores the integer 1, mined
      blocks store a hex digest, and `new_block` defaults it to `None`. */
  datatype PreviousHash = NoHash | IntHash(value: int) | DigestHash(hex: string)

  /** A block as `new_block` builds it; `timestamp` is the float `time()` gave. */
  datatype Block = Block(
    index: int,
    timestamp: real,
    transactions: seq<Transaction>,
    proof: int,
    previousHash: PreviousHash)

  const GenesisProof: int := 100
  const GenesisPreviousHash: PreviousHash := IntHash(1)

  /** The sender and amount of the mining reward. */
  const RewardSender: string := "0"
  const RewardAmount: int := 1

  /** Every block after the first stores the digest of its predecessor and a
      proof that is valid against its predecessor's proof. */
  ghost predicate Linked(sha: string -> string, digestBlock: Block -> string, chain: seq<Block>) {
    forall i :: 0 < i < |chain| ==>
      chain[i].previousHash == DigestHash(digestBlock(chain[i - 1])) &&
      ValidProof(sha, chain[i - 1].proof, chain[i].proof)
  }

  class Blockchain {
    var chain: seq<Block>
    var currentTransactions: seq<Transaction>
    var nodes: set<string>

    /** The block at position `i` has index `i + 1`. */
    ghost predicate Indexed()
      reads this
    {
      forall i :: 0 <= i < |chain| ==> chain[i].index == i + 1
    }

    /** The invariant every method keeps once the constructor has run. */
    ghost predicate Valid()
      reads this
    {
      |chain| > 0 && Indexed()
    }

    /** A fresh ledger holds the genesis block alone, no pending transaction
        and no peer. */
    constructor (timestamp: real)
      ensures Valid()
      ensures chain == [Block(1, timestamp, [], GenesisProof, GenesisPreviousHash)]
      ensures currentTransactions == [] && nodes == {}
    {
      chain := [];
      currentTransactions := [];
      new;
      var genesis := NewBlock(GenesisProof, GenesisPreviousHash, timestamp);
      nodes := {};
    }

    /** Adds the network location of `address` to the peer set. */
    method RegisterNode(netloc: string -> string, address: string)
      modifies this
      ensures nodes == old(nodes) + {netloc(address)}
      ensures old(nodes) <= nodes
      ensures netloc(address) in old(nodes) ==> nodes == old(nodes)
      ensures chain == old(chain) && currentTransactions == old(currentTransactions)
    {
      nodes := nodes + {netloc(address)};
    }

    /** Seals the pending pool into a new block with the next index, appends it
        and empties the pool. */
    method NewBlock(proof: int, previousHash: PreviousHash, timestamp: real) returns (block: Block)
      requires Indexed()
      modifies this
      ensures Valid()
      ensures block == Block(|old(chain)| + 1, timestamp, old(currentTransactions), proof, previousHash)
      ensures chain == old(chain) + [block]
      ensures currentTransactions == []
      ensures nodes == old(nodes)
    {
      block := Block(|chain| + 1, timestamp, currentTransactions, proof, previousHash);
      currentTransactions := [];
      chain := chain + [block];
    }

    /** Queues a transaction and returns the index of the block that will hold it. */
    method NewTransaction(sender: string, recipient: string, amount: int) returns (index: int)
      requires Valid()
      modifies this
      ensures Valid()
      ensures currentTransactions == old(currentTransactions) + [Transaction(sender, recipient, amount)]
      ensures chain == old(chain) && nodes == old(nodes)
      ensures index == old(LastBlock()).index + 1 == |chain| + 1
    {
      currentTransactions := currentTransactions + [Transaction(sender, recipient, amount)];
      index := LastBlock().index + 1;
    }

    /** The most recently appended block; its index is the chain length. */
    function LastBlock(): (b: Block)
      reads this
      requires Valid()
      ensures b in chain && b.index == |chain|
    {
      chain[|chain| - 1]
    }

    /** The least non-negative proof that is valid against `lastProof`, found by
        counting up from 0. The loop runs forever when no valid proof exists, so
        the method is defined for the inputs on which one does. */
    method ProofOfWork(sha: string -> string, lastProof: int) returns (proof: nat)
      requires exists p: nat :: ValidProof(sha, lastProof, p)
      ensures ValidProof(sha, lastProof, proof)
      ensures forall q: nat :: q < proof ==> !ValidProof(sha, lastProof, q)
    {
      ghost var bound: nat :| ValidProof(sha, lastProof, bound);
      proof := 0;
      while !ValidProof(sha, lastProof, proof)
        invariant proof <= bound
        invariant forall q: nat :: q < proof ==> !ValidProof(sha, lastProof, q)
        decreases bound - proof
      {
        proof := proof + 1;
      }
    }
  }

  /** The `/mine` sequence: solve the proof of work on the last proof, queue the
      reward for `nodeIdentifier`, then seal a block that stores the digest of
      the previous last block. */
  method Mine(
    bc: Blockchain, sha: string -> string, digestBlock: Block -> string,
    nodeIdentifier: string, timestamp: real)
    returns (block: Block)
    requires bc.Valid()
    requires exists p: nat :: ValidProof(sha, bc.LastBlock().proof, p)
    modifies bc
    ensures bc.Valid()
    ensures bc.chain == old(bc.chain) + [block]
    ensures block.index == |old(bc.chain)| + 1 && block.timestamp == timestamp
    ensures block.transactions ==
      old(bc.currentTransactions) + [Transaction(RewardSender, nodeIdentifier, RewardAmount)]
    ensures block.previousHash == DigestHash(digestBlock(old(bc.LastBlock())))
    ensures block.proof >= 0 && ValidProof(sha, old(bc.LastBlock()).proof, block.proof)
    ensures forall q: nat :: q < block.proof ==> !ValidProof(sha, old(bc.LastBlock()).proof, q)
    ensures bc.currentTransactions == [] && bc.nodes == old(bc.nodes)
    ensures Linked(sha, digestBlock, old(bc.chain)) ==> Linked(sha, digestBlock, bc.chain)
  {
    ghost var before := bc.chain;
    var lastBlock := bc.LastBlock();
    var lastProof := lastBlock.proof;
    var proof := bc.ProofOfWork(sha, lastProof);
    var _ := bc.NewTransaction(RewardSender, nodeIdentifier, RewardAmount);
    var previousHash := DigestHash(digestBlock(lastBlock));
    block := bc.NewBlock(proof, previousHash, timestamp);
    assert lastBlock == before[|before| - 1];
    MinedBlockKeepsLinked(sha, digestBlock, before, block);
  }

  /** Appending a block that stores the digest of the last block and a proof
      valid against it keeps a linked chain linked. */
  lemma MinedBlockKeepsLinked(
    sha: string -> string, digestBlock: Block -> string, chain: seq<Block>, block: Block)
    requires |chain| > 0
    requires block.previousHash == DigestHash(digestBlock(chain[|chain| - 1]))
    requires ValidProof(sha, chain[|chain| - 1].proof, block.proof)
    ensures Linked(sha, digestBlock, chain) ==> Linked(sha, digestBlock, chain + [block])
  {
    if Linked(sha, digestBlock, chain) {
      var grown := chain + [block];
      forall i | 0 < i < |grown|
        ensures grown[i].previousHash == DigestHash(digestBlock(grown[i - 1]))
        ensures ValidProof(sha, grown[i - 1].proof, grown[i].proof)
      {
        if i < |chain| {
          assert grown[i] == chain[i] && grown[i - 1] == chain[i - 1];
        } else {
          assert grown[i] == block && grown[i - 1] == chain[|chain| - 1];
        }
      }
    }
  }

  /** A node's life from start-up to its first mined block: the ledger is
      created, one transaction is submitted and a block is mined. The resulting
      two-block chain holds the submitted transaction before the reward, and the
      new block is linked to the genesis block. */
  method SubmitThenMine(
    sha: string -> string, digestBlock: Block -> string, nodeIdentifier: string,
    sender: string, recipient: string, amount: int, startTime: real, mineTime: real)
    returns (bc: Blockchain, index: int, block: Block)
    requires exists p: nat :: ValidProof(sha, GenesisProof, p)
    ensures fresh(bc) && bc.Valid()
    ensures index == 2 && block.index == index
    ensures bc.chain == [Block(1, startTime, [], GenesisProof, GenesisPreviousHash), block]
    ensures bc.currentTransactions == []
    ensures block.proof >= 0 && ValidProof(sha, GenesisProof, block.proof)
    ensures forall q: nat :: q < block.proof ==> !ValidProof(sha, GenesisProof, q)
    ensures block.transactions ==
      [Transaction(sender, recipient, amount), Transaction(RewardSender, nodeIdentifier, RewardAmount)]
    ensures Linked(sha, digestBlock, bc.chain)
  {
    bc := new Blockchain(startTime);
    index := bc.NewTransaction(sender, recipient, amount);
    assert bc.LastBlock().proof == GenesisProof;
    block := Mine(bc, sha, digestBlock, nodeIdentifier, mineTime);
  }
}
