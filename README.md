# Python-Blockchain ledger core in Dafny

This project models the `Blockchain` class of `main.py`: an in-memory ledger with
three pieces of state, updated in place:

- an append-only chain of blocks;
- a pool of pending transactions;
- a set of peer network locations.

It also models the proof-of-work scheme and the mining sequence run by the
`/mine` handler. The model has three modules:

- `DecimalText` (decimal.dfy): Python's decimal text of an `int`, as the f-string in
  `validate_proof` produces it. It comes with its inverse and a round-trip lemma.
- `ProofCheck` (proof.dfy): `validate_proof` and the text it hashes. The Python slice `h[:4]` is written out as `Take`.
- `Ledger` (ledger.dfy): the `Blockchain` class and the `Mine` sequence.
  - `Blockchain` keeps its Python fields as `seq` and `set` fields.
  - Its methods carry `modifies` clauses and state the whole new state.
  - Its invariant `Valid()` holds after construction and after every method: the
    chain is non-empty and block `i` has index `i + 1`.
  - `SubmitThenMine` is a client that follows a node from start-up to its first
    mined block, using the contracts alone.

Foreign calls become parameters. SHA-256 over text is `sha: string -> string`.
SHA-256 over the sorted-key JSON of a block is `digestBlock: Block -> string`.
`urlparse(address).netloc` is `netloc: string -> string`. The timestamp from
`time()` and the node identifier from `uuid4()` are plain arguments. Dafny
functions are total and deterministic, so both hashes give equal digests for
equal blocks and equal texts. The Python blocks are dictionaries. Here a block
is a datatype value, so the order in which keys were inserted cannot affect the
digest.

The `hash` key of a block has three possible forms in the source:
- the integer `1` in the genesis block;
- a hex digest string in a mined block;
- `None`, the default value of `new_block`'s parameter.

`PreviousHash` keeps all three forms: the constructor passes `previous_hash=1`
(main.py:14), `new_block` defaults it to `None` (main.py:23), and the mining
sequence passes the hex digest of the last block (main.py:99).

`main.py` has no operation that validates a whole chain and no consensus or
chain replacement, so neither is modelled. The `Linked` predicate says
two things about every block after the first:
- its `hash` key holds the digest of the block before it;
- its proof is valid against the proof of the block before it.

`Linked` is not a validator. It is only stated as a fact that `Mine` preserves.

## Model

| member | source | states |
|---|---|---|
| `DecimalText.Digits` | main.py:75 | the decimal digits of a natural number: non-empty, all characters in '0'..'9', and no leading '0' unless the number is 0 |
| `DecimalText.Decimal` | main.py:75 | `str(n)` is a well-formed literal (optional '-' then digits), and it starts with '-' exactly when n is negative |
| `DecimalText.DigitsRoundTrip` | main.py:75 | reading the digits of n back as a number gives n |
| `DecimalText.DecimalRoundTrip` | main.py:75 | parsing `str(n)` gives n back, for every integer n |
| `DecimalText.DecimalInjective` | main.py:75 | two integers have the same decimal text if and only if they are equal |
| `ProofCheck.Take` | main.py:78 | the slice `s[:n]` is a prefix of s, of length n, or all of s when s is shorter |
| `ProofCheck.GuessSplitsBack` | main.py:75 | `Guess(lastProof, proof)` is the text `f'{last_proof}{proof}'`: cut at the length of `str(last_proof)`, it splits into two well-formed decimal literals that read back as `last_proof` and `proof` |
| `ProofCheck.ValidProof` | main.py:74-78 | a proof is valid if and only if the digest of `str(last_proof) + str(proof)` has at least four characters and its first four are '0' |
| `ProofCheck.ConcatenationIsAmbiguous` | main.py:75 | the hashed text does not determine the pair: distinct pairs give the same text, for instance (1, 23) and (12, 3) both give "123", so they are valid or invalid together under every hash function |
| `Ledger.Blockchain.constructor` | main.py:10-16 | a new ledger holds only the genesis block (index 1, proof 100, `hash` key 1); the pending pool and the peer set are empty; the invariant holds |
| `Ledger.Blockchain.RegisterNode` | main.py:18-21 | adds the network location of the address to the peer set and removes nothing; registering a location that is already present changes nothing; chain and pool are unchanged |
| `Ledger.Blockchain.NewBlock` | main.py:23-36 | appends exactly one block and returns it. The block has index old length + 1, the given proof and `hash` key, and the old pending transactions in order. The pool is left empty; earlier blocks and peers are unchanged; the invariant holds |
| `Ledger.Blockchain.NewTransaction` | main.py:39-46 | appends one `{sender, recipient, amount}` record to the end of the pool. The chain and peers are unchanged. Returns the last block's index + 1, which is the chain length + 1 |
| `Ledger.Blockchain.LastBlock` | main.py:59-62 | under the invariant, the last block is in the chain and its index equals the chain length |
| `Ledger.Blockchain.ProofOfWork` | main.py:64-71 | the returned proof is valid against `last_proof`, and no smaller non-negative integer is valid (least witness) |
| `Ledger.Mine` | main.py:88-100 | grows the chain by exactly one block. Its transactions are the old pool followed by the reward ("0" to the node identifier, amount 1). Its `hash` key is the digest of the previous last block. Its proof is non-negative, valid against the previous last proof, and no smaller non-negative proof is valid. The pool is emptied and `Linked` is preserved |
| `Ledger.SubmitThenMine` | main.py:83-100 | after start-up, one transaction submitted as the `/transactions/new` route does at main.py:120, then one mining run: the submission returns 2; the chain is the genesis block (index 1, proof 100, `hash` key 1) followed by the mined block, and the two are linked. The mined block holds the submitted transaction and then the reward, and its proof is the least non-negative proof valid against 100 |
| `Ledger.MinedBlockKeepsLinked` | main.py:99-100 | appending a block that stores the digest of the last block and a proof valid against the last proof keeps a linked chain linked |

## Left out

- The Flask application and its routes (main.py:80-135). `jsonify`, `request.get_json`, the status codes, the response dictionaries and `app.run` are HTTP plumbing. The `/mine` sequence is kept as `Mine`. The `/chain` route only reads the `chain` field and its length.
- The required-field check of the `/transactions/new` route (main.py:116-118) belongs to the HTTP layer. `NewTransaction` takes all three fields as arguments.
- `Blockchain.hash` (main.py:48-57) is left out: SHA-256 and `json.dumps(sort_keys=True)` are foreign library calls. The parameter `digestBlock` stands for both. The parameter `sha` stands for the `.encode()` and the SHA-256 hex digest in `validate_proof` (main.py:75-76): the model hashes the text, Python hashes its UTF-8 bytes, and the two agree because the guess holds only ASCII digits and '-'. No property of SHA-256 is assumed beyond the existence of a valid proof, which `ProofOfWork`, `Mine` and `SubmitThenMine` require (see below).
- `urlparse` (main.py:20) is a library call. The parameter `netloc` stands for it.
- The `time()` timestamp (main.py:27) is a float supplied by the clock. It is a `real` argument, and nothing is claimed about it.
- The `uuid4()` node identifier (main.py:83) is random. It is a `string` argument.
- Ledger.Blockchain.ProofOfWork: the Python loop runs forever when no valid proof exists. The model requires that some valid proof exists, which is exactly when the loop ends. Divergence on other inputs is not modelled.
- Ledger.Mine: requires that a valid proof exists for the last block's proof, for the same reason.
- `amount` is modelled as an `int`. The `/mine` handler passes the integer 1. The transaction route (main.py:120) passes whatever JSON value the request carried; other JSON types are not modelled.
- `sender` and `recipient` are modelled as strings. The `/mine` handler passes strings. The transaction route (main.py:120) passes whatever JSON values the request carried; other JSON types are not modelled.
- Ledger.SubmitThenMine: requires that a valid proof against the genesis proof 100 exists, for the same reason as `ProofOfWork` and `Mine`.
- DecimalText.Decimal: total for every integer. CPython 3.11 and later raise `ValueError` when converting an integer of more than 4300 digits to text; that error is not modelled. Proofs counted up from 0 never come near it.
- Python lists are shared by reference, and the sealed block holds the very list object that was the pending pool. The pool is then rebound to a fresh list, never mutated, so value semantics give the same observable state.
- Concurrent requests are left out. Flask may serve requests on several threads, and the source takes no lock.
