# Private blockchain ledger — Dafny model

This project models the core of a small in-memory ledger written in JavaScript.
A `Blockchain` object holds an array of `Block` objects (`chain`) and a height
counter (`height`). On construction it appends a genesis block.
`_addBlock` assigns a block's height, timestamp and link, hashes it, pushes it
and advances the counter. `getChainHeight` and `getBlockByHeight` answer
queries. A `Block` stores its data as the hex encoding of the UTF-8 bytes of
`JSON.stringify(data)`. `getBData` decodes and parses that body behind a guard
on `previousBlockHash`, and `validate` compares the stored hash with a
recomputed one.

Files:

- `js.dfy` (module `JsRuntime`): `Option` (absent property), `Nullable`
  (JavaScript `null`), a `Json` value type, and `Libraries`. `Libraries` bundles
  SHA-256, `JSON.stringify` and `JSON.parse`. They are uninterpreted,
  deterministic functions that the caller supplies.
- `encoding.dfy` (module `HexEncoding`): UTF-8 encoding (`Buffer.from`), hex
  encoding (`toString('hex')`) and `hex2ascii`, with the round-trip lemmas.
- `block.dfy` (module `Blocks`): the `Block` class, its serialised form, `getBData` and `validate`.
- `blockchain.dfy` (module `Ledger`): the `Blockchain` class, timestamps, the
  append specification and lookup.

The model follows the code as written. The code differs from the intended
design in these ways:

- Block heights lag by one. `block.height = self.height++` gives each block the
  counter value from before the append, so the genesis block carries height -1
  and the block at index i carries i - 1. Looking up the current height finds
  nothing.
- `self.height = self.height++` leaves the counter unchanged. The counter still
  grows by exactly one per append, because of the earlier post-increment.
- No block links to its predecessor. `getLatestBlock()` returns a Promise, so
  `previousHash` receives `undefined`. `JSON.stringify` drops properties that
  hold `undefined`, so the content hash never covers a link.
- `_addBlock` writes `previousHash` and `timestamp`, but the constructor
  defines `previousBlockHash` and `time`. Nothing assigns `previousBlockHash`.
  It stays `null`, so `getBData` never returns data, and `validate` always
  compares the stored hash with SHA-256 of `undefined`.
- `validate` hashes `JSON.stringify(getBData())` rather than the block itself,
  so it does not recompute the hash `_addBlock` stored. It ignores height,
  time, timestamp and link.
- The hex round trip holds only for ASCII JSON text without U+0000. `hex2ascii`
  turns each byte into a separate character, so any character that UTF-8
  encodes as several bytes comes back as several characters. It skips bytes of
  code 0, so U+0000 would be lost. JSON.stringify escapes U+0000, so no stored
  body holds a zero byte.
- `getBlockByHeight` filters the array for the first block whose `height`
  property equals the argument. It does not index by position.

## Model

| member | source | states |
|---|---|---|
| `HexEncoding.Utf8Char` | src/block.js:22 | one character takes 1 to 4 bytes, exactly 1 byte (its own code) iff it is ASCII, and a zero byte only for U+0000 |
| `HexEncoding.Utf8` | src/block.js:22 | the byte string is never shorter than the text, is exactly as long iff the text is ASCII, and has no zero byte when the text has no U+0000 |
| `HexEncoding.HexValue` | src/block.js:49 | the value parseInt(_, 16) gives a single hex digit of either case, between 0 and 15 |
| `HexEncoding.HexDigit` | src/block.js:22 | each nibble becomes a lower-case hex digit that reads back as that nibble |
| `HexEncoding.HexEncode` | src/block.js:22 | the hex text has twice as many characters as there are bytes, all in [0-9a-f] |
| `HexEncoding.HexPair` | src/block.js:22 | a byte becomes two lower-case hex digits whose values rebuild the byte |
| `HexEncoding.HexToAscii` | src/block.js:48-49 | hex2ascii turns well-formed hex text into at most one character per pair of digits, never U+0000, because pairs of code 0 are skipped |
| `HexEncoding.DropZeros` | src/block.js:48-49 | removing the zero bytes leaves no zero byte, never lengthens, and leaves zero-free bytes as they are |
| `HexEncoding.HexEncodeBytes` | src/block.js:22 | for every byte, including zero bytes, digits 2i and 2i + 1 of the hex text are the two digits of byte i |
| `HexEncoding.EncodeBody` | src/block.js:22 | a stored body is well-formed hex text, lower case, of length twice the UTF-8 byte count |
| `HexEncoding.HexRoundTrip` | src/block.js:48-49 | decoding the hex of any byte string gives back every non-zero byte, in order, as the character with that code |
| `HexEncoding.AsciiUtf8` | src/block.js:22 | for ASCII text, reading the UTF-8 bytes back as characters gives the text |
| `HexEncoding.BodyRoundTrip` | src/block.js:48-49 | hex2ascii of the body stored for a text equals that text iff the text is ASCII and has no U+0000, in both directions |
| `Blocks.ToJson` | src/blockchain.js:53 | the object JSON.stringify serialises has the properties hash (null included), height, body, time and previousBlockHash in creation order (src/block.js:20-24), then timestamp once assigned (src/blockchain.js:51); the `undefined` previousHash of src/blockchain.js:46 never appears |
| `Blocks.Block.constructor` | src/block.js:19-25 | a new block has null hash, height 0, time 0, null previousBlockHash, no previousHash or timestamp, and the hex body of JSON.stringify(data) |
| `Blocks.Block.GetBData` | src/block.js:47-56 | parse failure is reported whatever the guard says; the parsed data is returned iff parsing succeeds and previousBlockHash is not null; otherwise nothing |
| `Blocks.Block.Validate` | src/block.js:33-40 | fails iff parsing the body fails; otherwise true iff the stored hash equals SHA-256 of the serialised getBData result (of `undefined` when getBData returns nothing); never true for a null hash |
| `Blocks.DecodeConstructed` | src/block.js:47-52 | for a block built from data with ASCII JSON text (without U+0000, which JSON.stringify escapes), where parse inverts stringify, getBData returns that data when the guard passes and nothing otherwise |
| `Blocks.ValidateOnValidBlock` | src/block.js:33-56 | since previousBlockHash stays null, getBData never yields data and validate is true iff parsing succeeds and the hash equals SHA-256 of `undefined` |
| `Blocks.ValidateIgnoresMetadata` | src/block.js:33-40 | two blocks that agree on hash, body and previousBlockHash validate alike, whatever their height, time, timestamp and link |
| `Ledger.Timestamp` | src/blockchain.js:51 | the timestamp is the decimal string of the clock value with its last three characters cut off: a prefix of it, three characters shorter, or empty when it has three characters or fewer |
| `Ledger.TimestampIsSeconds` | src/blockchain.js:51 | for clock values of 1000 ms or more the timestamp is the decimal of whole seconds; from 0 to 999 it is empty; negative values give "-" and the truncated seconds, or "-" or "" when short |
| `Ledger.Appended` | src/blockchain.js:44-53 | the appended block takes the pre-call height, the clock's timestamp and the `undefined` link only when the ledger is not empty; body, time and previousBlockHash are kept; the hash is SHA-256 of the block serialised after those assignments, with the earlier hash value still in place |
| `Ledger.FirstAtHeight` | src/blockchain.js:140 | the index found holds a block of the requested height and no earlier block has it; nothing is found iff no block has it |
| `Ledger.Blockchain.constructor` | src/blockchain.js:26-30 | a new ledger holds exactly one fresh block, the genesis block built from 'Genesis Block' and appended at counter -1, and its counter is 0 |
| `Ledger.Blockchain.InitializeChain` | src/blockchain.js:32-38 | the genesis block is appended iff the counter is -1; otherwise chain and counter are unchanged |
| `Ledger.Blockchain.AddBlock` | src/blockchain.js:40-64 | keeps the invariant that the counter is the last index, block i carries height i - 1, and only blocks after the first carry the `undefined` link; the chain grows by the block as its last element, the counter by one, earlier blocks stay unchanged, and the block's new properties are those of `Appended` |
| `Ledger.Blockchain.GetChainHeight` | src/blockchain.js:66-71 | returns the counter, which on a valid ledger is the number of blocks minus one |
| `Ledger.Blockchain.GetBlockByHeight` | src/blockchain.js:137-147 | returns the first stored block whose height is the argument, or null iff none has it; on a valid ledger that is the block at index h + 1 for -1 <= h < height and null otherwise |
| `Ledger.LookupCurrentHeight` | src/blockchain.js:137-147 | looking up the current height finds nothing, and looking up one less finds the last block |
| `Ledger.GenesisNeverLinked` | src/blockchain.js:45-47 | on a valid ledger the genesis block has no previousHash and a null previousBlockHash, and every later block has the `undefined` link |
| `Ledger.StoredBlockValidation` | src/block.js:33-56 | validate on a stored block is true iff its body parses and its hash equals SHA-256 of `undefined` |

Helper definitions without a row of their own, whose behaviour the rows
above state:
- `Blocks.Block.BodyText` is `hex2ascii(this.body)` (src/block.js:48-49).
- `HexEncoding.Latin1` is `String.fromCharCode` applied to each byte.
- `HexEncoding.DecodePair` and `HexEncoding.Latin1Append` are steps of `HexRoundTrip`.
- `Blocks.NullableString` and `Blocks.MemberNames` are used by `ToJson`.
- `Ledger.IntToString` is Number.prototype.toString. `Ledger.NatToString` and `Ledger.DigitChar` are its digits.
- `Ledger.DropLastThree` is `slice(0, -3)`.
- `Ledger.ThreeDigitsShift` and `Ledger.ShortNumber` are steps of `TimestampIsSeconds`.
- `Ledger.Placed` is the per-block part of the ledger invariant.

## Left out

- app.js (the Express server, logging, body parsing, port setup and `listen`) is not part of this model: it is process plumbing with no logic.
- SHA-256, `JSON.stringify` and `JSON.parse` are uninterpreted functions supplied by the caller. Their internals, and the digest of `undefined`, are left open.
- `hex2ascii` is an external package whose code is not part of this model. It is modelled as decoding each pair of hex digits into the character with that code and skipping pairs of code 0. It is applied only to bodies the constructor produced, which are always well-formed hex, so its handling of malformed pairs is not modelled.
- `getLatestBlock` is modelled only by what `_addBlock` gets from it: a Promise, whose `hash` property is `undefined`.
- `requestMessageOwnershipVerification`, `submitStar`, `getBlockByHash`, `getStarsByWalletAddress` and `validateChain` have empty bodies in the source. Their promises never settle, so there is nothing to model.
- Promises and `async`: each method is a synchronous call that returns its resolved value. The `_addBlock` executor contains no `await` and runs to completion during the constructor. `try`/`catch` in `_addBlock` is not modelled, because nothing in the modelled body throws.
- Clock: `new Date().getTime()` is the `nowMs` parameter. It is required to lie within the Date range of ±8.64e15 ms (`IsClockValue`), where `toString` prints plain decimal.
- Logging: the `console.log` in `getBData` is left out.
- Numbers are unbounded integers. Heights beyond 2^53 are not a concern for an in-memory array.
- Block data is a `Json` value. Arguments that `JSON.stringify` maps to `undefined` (functions, `undefined`) are not modelled.
- `body`, `time` and `previousBlockHash` are constant fields, because no code assigns them after construction. Tampering with a block from outside the core is not modelled.
- Ledger.Blockchain.AddBlock: requires that the block is not already in the chain and, when the chain is empty, that the block has no previousHash. Both hold for its only caller, which passes a freshly built genesis block. Re-appending a stored block, which would alias two chain entries, is not modelled.
