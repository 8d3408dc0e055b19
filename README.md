# cifra_cesar — a Dafny model of the Caesar-cipher service with single-use tokens

cifra_cesar is a small web service. An authenticated user sends a message
(`mensagem`) and a shift (`passo`) to `/criptografar`. The service returns the
Caesar-enciphered text and a freshly minted token (`hash`), and records the
token with its shift and owner. Later, anyone presenting a text and the token
to `/descriptografar` gets the text deciphered with the stored shift, but only
once: the token is then marked used (`usado`, `usadoEm`). `/historico` lists
the caller's tokens, newest first, at most 50.

The project models three things:

- `caesar.dfy` (module `Caesar`): the transform engine `cifrarCesar` /
  `decifrarCesar`. Each character rotates in its own cyclic alphabet: a-z and
  A-Z have 26 symbols, 0-9 has 10. Any other character passes through. The
  shift is normalised by JavaScript's double `%`, modelled with JavaScript's
  truncating remainder (`JsRem`), not Dafny's Euclidean one.
- `hash_record.dfy` (module `HashRecord`): the token document of the
  `Hash` schema and the collection as a map keyed by `hash`. It also holds the
  rules a record may change by: unused to used once, never back.
- `cipher_routes.dfy` (module `CipherRoutes`): the three handlers as methods
  of the class `TokenService`, whose field `tokens` is the collection. Each
  handler runs as one atomic step. The clock is a parameter `now`. The token
  generator `gerarHash` is a parameter `candidates`: the tokens it would
  produce, in order.

`wrappers.dfy` holds the `Option` type used for missing fields and null dates.

The model follows the code on these points:

- Encrypt checks, in this order: a missing or empty message or
  `passo === undefined` (cipher.js:54), then the character set
  (cipher.js:62), then the integer parse (cipher.js:70-71).
- A fresh token is found by the look-up loop at cipher.js:85-89, which draws
  new tokens until one is not in the collection. The insert can also fail on
  its own: `unique: true` (Hash.js:7) makes `novoHash.save()` (cipher.js:99)
  reject a duplicate `hash`, and that request ends in the 500 reply. Handlers
  run one at a time in the model, so after the look-up that failure cannot
  happen, and the model has no such outcome.
- Decrypt reads the record (cipher.js:141) and later saves it (cipher.js:165);
  there is no atomic conditional update. The model makes the whole handler one
  step.
- Decrypt checks only that the text and the token are present and non-empty
  (cipher.js:133). Characters of the text outside the three alphabets pass
  through unchanged.

## Model

| member | source | states |
|---|---|---|
| `Caesar.JsRem` | cifra_cesar/routes/cipher.js:15 | JavaScript's `a % n`: smaller than `n` in magnitude, of the sign of `a`, and congruent to `a` modulo `n` |
| `Caesar.Rotate` | cifra_cesar/routes/cipher.js:15-21 | the double modulo `((p + shift) % n + n) % n` always lands in `[0, n)` and equals `p + shift` reduced modulo `n`, for negative shifts and shifts larger than `n` too |
| `Caesar.ShiftChar` | cifra_cesar/routes/cipher.js:12-23 | lower case maps to lower case, upper case to upper case, digit to digit (each an if-and-only-if); any other character is returned unchanged |
| `Caesar.Encipher` | cifra_cesar/routes/cipher.js:11-25 | `cifrarCesar` keeps the length, and each output character is its input character rotated in its own alphabet |
| `Caesar.Decipher` | cifra_cesar/routes/cipher.js:30-32 | `decifrarCesar` is a right inverse: enciphering its result with the same shift gives the input back |
| `Caesar.RotateCompose` | cifra_cesar/routes/cipher.js:15-21 | rotating by `a` and then by `b` is rotating by `a + b` |
| `Caesar.ShiftCharCompose` | cifra_cesar/routes/cipher.js:12-23 | shifting a character by `a` and then by `b` is shifting it by `a + b` |
| `Caesar.EncipherCompose` | cifra_cesar/routes/cipher.js:11-25 | enciphering twice is enciphering once by the sum of the shifts |
| `Caesar.ShiftCharZero` | cifra_cesar/routes/cipher.js:12-23 | a shift of 0 leaves every character as it is |
| `Caesar.EncipherZero` | cifra_cesar/routes/cipher.js:11-25 | a shift of 0 is the identity on every text |
| `Caesar.DecipherEncipher` | cifra_cesar/routes/cipher.js:11-32 | round trip: `decifrarCesar(cifrarCesar(m, s), s) == m` for every text and every integer shift |
| `Caesar.RotatePeriod` | cifra_cesar/routes/cipher.js:15-21 | adding any multiple of the alphabet size to the shift changes no position |
| `Caesar.ShiftCharPeriod` | cifra_cesar/routes/cipher.js:13-21 | a letter is unchanged by adding a multiple of 26 to the shift, a digit by adding a multiple of 10 |
| `Caesar.LetterPeriod` | cifra_cesar/routes/cipher.js:13-18 | on letter-only text, shifts `s` and `s + 26` give the same output |
| `Caesar.DigitPeriod` | cifra_cesar/routes/cipher.js:19-21 | on digit-only text, shifts `s` and `s + 10` give the same output |
| `Caesar.CommonPeriod` | cifra_cesar/routes/cipher.js:11-25 | on any text, shifts `s` and `s + 130` give the same output |
| `Caesar.EncipherConcat` | cifra_cesar/routes/cipher.js:12-24 | each character is shifted on its own, so enciphering distributes over concatenation |
| `Caesar.UpperWrapExample` | cifra_cesar/routes/cipher.js:16-18 | `cifrarCesar("XYZ", 3) == "ABC"` |
| `Caesar.DigitWrapExample` | cifra_cesar/routes/cipher.js:19-21 | `cifrarCesar("789", 5) == "234"` |
| `Caesar.NegativeShiftExample` | cifra_cesar/routes/cipher.js:13-15 | `cifrarCesar("abc", -1) == "zab"` |
| `Caesar.MixedExample` | cifra_cesar/routes/cipher.js:11-25 | `cifrarCesar("hello123", 3) == "khoor456"` |
| `Caesar.MixedExampleBack` | cifra_cesar/routes/cipher.js:30-32 | `decifrarCesar("khoor456", 3) == "hello123"` |
| `HashRecord.NewRecord` | cifra_cesar/models/Hash.js:10-30 | a new record has the given token, shift, owner and creation date, with the defaults `usado == false` and `usadoEm == null` |
| `HashRecord.Consume` | cifra_cesar/routes/cipher.js:163-164 | consuming an unused record makes it used, dated `now`, with token, shift, owner and creation date unchanged |
| `HashRecord.InsertFresh` | cifra_cesar/models/Hash.js:4-9 | adding a record under a new non-empty token keeps every record filed under its own unique token and changes no other record |
| `HashRecord.ConsumeOne` | cifra_cesar/routes/cipher.js:162-165 | consuming one unused record keeps the collection valid and is a legal evolution |
| `HashRecord.EvolvesTransitive` | cifra_cesar/routes/cipher.js:150-165 | legal evolutions compose, so any run of operations only makes legal changes |
| `HashRecord.UsedIsFinal` | cifra_cesar/routes/cipher.js:150-157 | a used token stays in the collection, used, with the same `usadoEm`, in every later state |
| `HashRecord.TokensUnique` | cifra_cesar/models/Hash.js:4-9 | two different entries of a valid collection never carry the same `hash` |
| `CipherRoutes.ValidateEncrypt` | cifra_cesar/routes/cipher.js:53-76 | accepted if and only if the message is non-empty, matches `^[a-zA-Z0-9]+$` and the shift parses; missing fields are reported first, the character set second, the shift last |
| `CipherRoutes.CiphertextAlphanumeric` | cifra_cesar/routes/cipher.js:62-79 | the ciphertext of an accepted message is alphanumeric, as long as the message, and would itself be accepted |
| `CipherRoutes.FirstFresh` | cifra_cesar/routes/cipher.js:81-89 | the retry loop stops at the first generated token that is not in the collection; every earlier one was taken |
| `CipherRoutes.InsertNewestFirst` | cifra_cesar/routes/cipher.js:196-197 | inserting a record into the sorted list gives a permutation of the old list plus that record |
| `CipherRoutes.InsertContents` | cifra_cesar/routes/cipher.js:196-197 | an insertion adds exactly one record, and its token, to the list |
| `CipherRoutes.InsertKeepsNewestFirst` | cifra_cesar/routes/cipher.js:197 | insertion keeps the list sorted by `criadoEm`, descending |
| `CipherRoutes.InsertKeepsDistinct` | cifra_cesar/routes/cipher.js:196-197 | inserting a record with a new token keeps the tokens of the list distinct |
| `CipherRoutes.CollectStep` | cifra_cesar/routes/cipher.js:196-197 | looking at one more token keeps the invariant: exactly the caller's records seen so far, each once, newest first |
| `CipherRoutes.CollectOwned` | cifra_cesar/routes/cipher.js:196-197 | the same step when the record is the caller's, so it is inserted |
| `CipherRoutes.LimitIsHistory` | cifra_cesar/routes/cipher.js:196-199 | the first 50 records of the complete sorted list, shown without owner, are the caller's history |
| `CipherRoutes.LimitLines` | cifra_cesar/routes/cipher.js:196-199 | every kept line shows one of the caller's records; the lines are newest first with no token twice |
| `CipherRoutes.LimitLeavesOutOlder` | cifra_cesar/routes/cipher.js:197-199 | a record left out by the limit means the list is full, and that record is no newer than the 50th line |
| `CipherRoutes.TokenService.Encrypt` | cifra_cesar/routes/cipher.js:48-111 | a rejected request changes nothing; an accepted one returns the ciphertext and the first fresh token, and adds exactly one unused record for that token, shift and caller, leaving every other record as it was |
| `CipherRoutes.TokenService.Decrypt` | cifra_cesar/routes/cipher.js:128-176 | missing fields, unknown token and used token change nothing; a used token reports its `usadoEm`; otherwise the supplied text is deciphered with the stored shift, and only that record becomes used, dated `now` |
| `CipherRoutes.TokenService.OwnedNewestFirst` | cifra_cesar/routes/cipher.js:196-197 | the loop gathers exactly the caller's records, each once, sorted by `criadoEm` descending |
| `CipherRoutes.TokenService.History` | cifra_cesar/routes/cipher.js:192-204 | returns `min(50, n)` lines for a caller with `n` records, each one of the caller's records without its owner, newest first, no token twice; any record left out is no newer than the last line |
| `CipherRoutes.RedeemTwice` | cifra_cesar/routes/cipher.js:150-165 | exactly-once redemption: the first redemption deciphers, the second, with any text, gets "already used" with the first one's date, and the record is not changed again |
| `CipherRoutes.IssueThenRedeem` | cifra_cesar/routes/cipher.js:79-176 | redeeming the ciphertext and token that an accepted encrypt returned gives back the original message |
| `CipherRoutes.IssueTwice` | cifra_cesar/routes/cipher.js:82-99 | issuing the same message with the same shift twice gives the same ciphertext and two different tokens |
| `CipherRoutes.UsedSurvives` | cifra_cesar/routes/cipher.js:150-165 | a used record is kept exactly as it was by any later encrypt and decrypt, and a later redemption of it is refused with its original `usadoEm` |

## Left out

- Token generation (`gerarHash`, cipher.js:37-41) uses the clock and `crypto.randomBytes`. The model takes the generated tokens as the sequence `candidates`.
- `CipherRoutes.TokenService.Encrypt` requires that the generator eventually yields a non-empty token that is not taken. The source loops without bound until that happens, so the model does not cover a generator that never yields one.
- `passo` parsing with JavaScript's lenient `parseInt` (`"12abc"` gives 12, `3.7` gives 3) is not modelled. `passo` arrives already classified as absent, not a number, or an integer (`ShiftField`).
- Request fields that are not strings are not modelled: the model takes each field as absent or a string. In the code they lead to other outcomes. `mensagem: 0` or `false` fails `!mensagem` (cipher.js:54) and is rejected with 400. A non-negative integer below 10^21, `true`, or an array that joins to an alphanumeric string (such as `["abc"]`) as `mensagem` passes the regular expression after coercion (cipher.js:62) and then fails in `texto.split` (cipher.js:12), which gives the 500 reply. Other numbers and arrays (`-1`, `1.5`, `1e21`, `["a","b"]`, `[]`) fail the regular expression and get 400. A number as `hash` is cast to a string by the query (cipher.js:141) and normally finds nothing (404). The body parsers (server.js:21-22) accept nested objects, so an object `hash` such as `{"$ne": null}` acts as a query operator in `Hash.findOne` and matches some record; if that record is unused, it is consumed and its shift returned (cipher.js:141-176).
- JavaScript numbers are 64-bit floats; the model's integers are exact. Once `char.charCodeAt(0) - base + shift` exceeds 2^53 in magnitude it is rounded (cipher.js:15, 18, 21), so different characters can collide: with a shift of 2^60 every letter a-z maps to the same letter. A string `passo` of digits above about 1.8 x 10^308 (the largest double) parses to `Infinity`, which passes `isNaN` (cipher.js:70-71); every alphanumeric character then becomes U+0000, because `NaN` goes through `String.fromCharCode`. A JSON number that large is already `Infinity` after `express.json()` (server.js:21); `parseInt` then reads the text "Infinity", returns `NaN`, and the request is rejected with 400 (cipher.js:71). The model has neither effect, so the properties listed next hold in the source only for shifts of magnitude at most 2^53 - 26.
- `Caesar.DecipherEncipher`: the round trip holds in the source only for |shift| <= 2^53 - 26. Beyond that, or for an `Infinity` shift, `decifrarCesar(cifrarCesar(m, s), s) == m` can fail.
- `Caesar.Decipher`: the right-inverse ensures holds in the source only for |shift| <= 2^53 - 26.
- `Caesar.EncipherCompose`: holds in the source only when both shifts and their sum have magnitude at most 2^53 - 26.
- `Caesar.ShiftCharCompose`: the same bound as `Caesar.EncipherCompose`.
- `Caesar.RotateCompose`: the same bound as `Caesar.EncipherCompose`.
- `Caesar.RotatePeriod`: holds in the source only when the shift and the shift plus the multiple both have magnitude at most 2^53 - 26.
- `Caesar.ShiftCharPeriod`: the same bound as `Caesar.RotatePeriod`.
- `Caesar.LetterPeriod`: holds in the source only when |s| and |s + 26| are at most 2^53 - 26.
- `Caesar.DigitPeriod`: holds in the source only when |s| and |s + 10| are at most 2^53 - 26.
- `Caesar.CommonPeriod`: holds in the source only when |s| and |s + 130| are at most 2^53 - 26.
- `split('')` splits UTF-16 code units. Dafny characters are Unicode scalar values, so a lone surrogate half has no counterpart. Such characters are outside the three alphabets and pass through unchanged either way.
- Persistence, `async`/`await`, and the 500 replies when the database fails are not modelled. Each handler is one atomic step on an in-memory map.
- Concurrency is not modelled, including the read-then-save race in `/descriptografar` (cipher.js:141-165). There, two simultaneous redemptions could both succeed. The model is sequential, so exactly-once holds by construction.
- HTTP status codes, JSON envelopes and message strings are not modelled, nor is the `_id` that each history line carries besides the selected fields (cipher.js:198). Replies become the outcome datatypes (`Encrypted`/`EncryptRejected`, `Decrypted`/`DecryptRejected`/`NotFound`/`AlreadyUsed`).
- Authentication (routes/auth.js, middleware/auth.js, models/User.js) is not part of this model. The caller identity `usuarioId` is an opaque string; `/descriptografar` does not use it.
- The schema option `timestamps: true` (extra `createdAt`/`updatedAt` fields) and the compound index on `hash` and `usado` (Hash.js:32 and 36) are not modelled. Neither affects the handlers' results.
- `CipherRoutes.TokenService.History`: records with equal `criadoEm` may come out in any order, because the database does not fix one. The contract allows every such order, and the loop produces one of them.
- Server bootstrapping (server.js) and the React front end are not part of this model.
