# Hill cipher (2x2, modulo 26) — a verified model

This project models the engine of a small browser page that encrypts and
decrypts text with the 2x2 Hill cipher over the alphabet A–Z. The engine has
four parts:

- **Modular inverse.** `modInverse(a, m)` reduces `a` into [0, m), then
  tries x = 1, 2, … below m until `a·x ≡ 1 (mod m)`. It returns `null` when
  no such x exists.
- **Key validation.** `leerMatrizClave` first rejects the all-zero matrix.
  It then reduces the determinant modulo 26, rejects a zero determinant, and
  rejects a determinant without an inverse modulo 26. Otherwise it returns
  the matrix with `det` and `detInv` attached.
- **Encryption.** The encrypt button upper-cases the message and keeps only
  A–Z. It maps each letter to 0–25 and pads an odd-length sequence with 23
  ('X'). Each pair (v1, v2) becomes K·(v1, v2) modulo 26, written back as
  letters.
- **Decryption.** The decrypt button builds
  K⁻¹ = detInv·[[k22, −k12], [−k21, k11]] modulo 26 and applies the same
  pairwise product to the ciphertext.

JavaScript's `%` truncates toward zero, so its result can be negative. The
script brings it back into [0, 26) in two ways:

- `if (det < 0) det += 26` in key validation;
- `(x + 26) % 26` in `modInverse`, in the two loops and in the inverse key.

The model keeps both repairs as written (`JsArith.Rem`, `JsArith.Repair`,
`JsArith.LiftNegative`). It proves that each one equals the Euclidean
remainder because its operand already lies in (−26, 26).

Modules:

- `Wrappers`: `Option` and `Result`.
- `JsArith`: the JavaScript remainder, the two repairs, and modular
  arithmetic lemmas.
- `HillKey`: the key matrix, the inverse search, validation and the inverse
  key.
- `HillCipher`: text normalisation, encoding, the pairwise product, and the
  two handlers.

Each step of the script that changes variables is a method proved equal to
a specification function:

- `HillKey.ModInverse` (the search loop) returns `HillKey.LeastInverse` of
  the residue.
- `HillKey.ReadKey` (validation, which overwrites `det`) returns
  `HillKey.CheckKey`.
- `HillCipher.Encode` (the code map and the `push` of the padding) returns
  `Ok(Symbols(text))` unless the filtered text is empty.
- `HillCipher.ApplyPairs` (the loop stepping by 2) returns `Chars(Apply(..))`.
- `HillCipher.Encrypt` returns `HillCipher.EncryptSpec`.
- `HillCipher.Decrypt` returns `HillCipher.DecryptSpec`.

The lemmas state what the script promises about those functions. The main
theorem is that decryption undoes encryption for every accepted key.

Errors are a typed `HillKey.Error` instead of a message shown on the page:
`AllZeroKey`, `SingularKey`, `NonInvertibleKey` and `EmptyInput`. The key
checks come before the text check, as in the handlers.

## Model

| member | source | states |
|---|---|---|
| JsArith.Rem | actividades/actividad14/script.js:109 | JavaScript's `%`: strictly between −m and m, equal to the Euclidean remainder on non-negative operands and never positive on negative ones |
| JsArith.Repair | actividades/actividad14/script.js:76-77 | the repair `(x + m) % m`, written with the JavaScript remainder; specified by RepairIsMod (Euclidean residue on a JavaScript remainder) and RepairNeedsBound (wrong below −m) |
| JsArith.LiftNegative | actividades/actividad14/script.js:110 | the repair `if (det < 0) det += 26`; specified by LiftNegativeIsMod |
| JsArith.RemVersusMod | actividades/actividad14/script.js:73-74 | a truncated remainder is the Euclidean remainder, or exactly m below it when negative |
| JsArith.RepairIsMod | actividades/actividad14/script.js:76-77 | `(x + m) % m` applied to a JavaScript remainder of y is y's Euclidean remainder and lies in [0, m) |
| JsArith.LiftNegativeIsMod | actividades/actividad14/script.js:109-110 | `det % 26` followed by `if (det < 0) det += 26` is the Euclidean remainder of the determinant, in [0, 26) |
| JsArith.RepairNeedsBound | actividades/actividad14/script.js:87 | the repair relies on its operand being above −m: for every operand in (−2m, −m) it yields the negative value x + m, while the Euclidean residue is x + 2m |
| JsArith.ModLinear | actividades/actividad14/script.js:182-183 | congruent coefficients give congruent linear combinations modulo 26 |
| HillKey.IsZero | actividades/actividad14/script.js:103 | the all-zero test; CheckKeyOutcome states that it is the first rejection |
| HillKey.Det | actividades/actividad14/script.js:109 | the integer determinant k11·k22 − k12·k21; LiftNegativeIsMod and CheckKeyOutcome state that validation keeps its Euclidean residue |
| HillKey.LeastInverse | actividades/actividad14/script.js:88-93 | the search result is an inverse in [from, m) with no inverse before it; None exactly when no inverse lies in [from, m) |
| HillKey.ModInverse | actividades/actividad14/script.js:86-94 | returns the least x in [1, m) with ((a mod m)·x) mod m = 1; returns None exactly when no x in [1, m) works |
| HillKey.InverseExistsIffCoprime | actividades/actividad14/script.js:119-123 | for a residue modulo 26, the inverse search succeeds exactly when the residue is coprime to 26 |
| HillKey.ModInverseIffCoprime | actividades/actividad14/script.js:86-94 | for every integer a, the search on a's residue modulo 26 finds an inverse exactly when a is coprime to 26 |
| HillKey.InverseExistsIffOddNot13 | actividades/actividad14/script.js:119-123 | for a residue modulo 26, the inverse search succeeds exactly when the residue is odd and not 13 |
| HillKey.CoprimeIffOddNot13 | actividades/actividad14/script.js:119-123 | the residues coprime to 26 are exactly the odd ones other than 13 |
| HillKey.InverseUnique | actividades/actividad14/script.js:88-92 | two inverses of the same value in [1, 26) are equal, so the first one found is the only one |
| HillKey.Valid | actividades/actividad14/script.js:126-127 | what an accepted key carries: not all entries zero, det the Euclidean determinant mod 26 and non-zero, detInv in [1, 25] inverting it; CheckKeyOutcome proves every accepted key Valid |
| HillKey.CheckKey | actividades/actividad14/script.js:103-128 | validation as a function of the four entries; ReadKey is proved equal to it, and CheckKeyOutcome states each outcome |
| HillKey.ReadKey | actividades/actividad14/script.js:97-129 | `leerMatrizClave` with the repaired remainder and the inverse search returns exactly what validation specifies: the all-zero check first, then a zero determinant, then a missing inverse |
| HillKey.CheckKeyOutcome | actividades/actividad14/script.js:103-128 | each error happens exactly when its condition holds: all-zero entries, determinant ≡ 0, determinant not coprime to 26. A key is accepted exactly when it is non-zero with a determinant coprime to 26. An accepted key keeps the four entries, det is the Euclidean determinant mod 26 and non-zero, and detInv in [1, 25] inverts it |
| HillKey.CheckKeyInverseIsUnique | actividades/actividad14/script.js:119-127 | the `detInv` stored on an accepted key is the only inverse of its determinant in [1, 26) |
| HillKey.InverseKey | actividades/actividad14/script.js:141-152 | each inverse-key entry, reduced with the JavaScript remainder and then repaired, equals detInv times the adjugate entry modulo 26 (Euclidean, so in [0, 25]) |
| HillKey.InverseKeyInverts | actividades/actividad14/script.js:140-152 | for an accepted key, K⁻¹·K is the identity modulo 26, entry by entry |
| HillKey.DetInvTimesDet | actividades/actividad14/script.js:126-127 | the stored detInv times the integer determinant is 1 modulo 26 |
| HillCipher.ToUpper | actividades/actividad14/script.js:54 | `toUpperCase` on one ASCII character; NormalizeChar states its effect on the filtered text |
| HillCipher.Normalize | actividades/actividad14/script.js:54 | the filtered text holds only the letters A–Z and is no longer than the input; NormalizeChar and NormalizeAppend determine it completely |
| HillCipher.NormalizeChar | actividades/actividad14/script.js:54 | one character: a–z is kept as its upper-case letter, A–Z is kept, anything else is dropped |
| HillCipher.NormalizeLetters | actividades/actividad14/script.js:54 | a text of letters A–Z is left unchanged by the filtering |
| HillCipher.NormalizeIdempotent | actividades/actividad14/script.js:161 | filtering an already filtered text changes nothing, so decrypting the script's own output sees it unchanged |
| HillCipher.NormalizeAppend | actividades/actividad14/script.js:54 | filtering works character by character: the filtered concatenation is the concatenation of the filtered parts |
| HillCipher.Code | actividades/actividad14/script.js:61 | `charCodeAt(0) - 65`; Encode states that every symbol is this code of its letter |
| HillCipher.Letter | actividades/actividad14/script.js:76-77 | `String.fromCharCode(65 + x)`; CharsCodes and CodesChars state that it inverts Code on A–Z |
| HillCipher.Codes | actividades/actividad14/script.js:61 | the letter-to-number map keeps the length and yields numbers in [0, 25] on letters |
| HillCipher.Chars | actividades/actividad14/script.js:185-186 | the number-to-letter conversion of the output: same length, all letters A–Z |
| HillCipher.CharsCodes | actividades/actividad14/script.js:61 | letters mapped to numbers and back to letters are unchanged |
| HillCipher.CodesChars | actividades/actividad14/script.js:76-77 | numbers in [0, 25] mapped to letters and back are unchanged |
| HillCipher.Symbols | actividades/actividad14/script.js:61-66 | the padded symbol sequence has even length and every symbol lies in [0, 25] |
| HillCipher.Encode | actividades/actividad14/script.js:54-66 | empty filtered text is an error. Otherwise every symbol is its letter's code minus 65, in order, the length is n rounded up to even, and 23 is appended exactly when n is odd |
| HillCipher.Apply | actividades/actividad14/script.js:69-78 | the pairwise product keeps the length and yields symbols in [0, 25] |
| HillCipher.ApplyPairAt | actividades/actividad14/script.js:73-74 | positions 2i and 2i+1 of the product are the two rows of K times the i-th pair, modulo 26 |
| HillCipher.TransformPair | actividades/actividad14/script.js:70-77 | the two letters written for a pair are the Euclidean row products, reached through the truncated remainder and the `(c + 26) % 26` repair |
| HillCipher.ApplyPairs | actividades/actividad14/script.js:68-78 | the loop stepping i by 2 produces exactly the letters of the pairwise product |
| HillCipher.EncryptSpec | actividades/actividad14/script.js:51-80 | the encrypt handler as a function; Encrypt is proved equal to it, and EncryptPair and RoundTrip state what it returns |
| HillCipher.DecryptSpec | actividades/actividad14/script.js:135-191 | the decrypt handler as a function; Decrypt is proved equal to it, and DecryptPair and RoundTrip state what it returns |
| HillCipher.Encrypt | actividades/actividad14/script.js:49-80 | the encrypt handler returns the key error, the empty-input error, or the letters of K times the padded symbols |
| HillCipher.Decrypt | actividades/actividad14/script.js:133-191 | the decrypt handler returns the key error, the empty-input error, or the letters of K⁻¹ times the padded symbols |
| HillCipher.EncryptPair | actividades/actividad14/script.js:69-78 | the ciphertext has one letter A–Z per padded symbol, and positions j, j+1 are (k11·v1 + k12·v2) mod 26 and (k21·v1 + k22·v2) mod 26 |
| HillCipher.DecryptPair | actividades/actividad14/script.js:178-187 | the plaintext has one letter A–Z per padded symbol, and each pair is the inverse key times the ciphertext pair, modulo 26 |
| HillCipher.PairInverts | actividades/actividad14/script.js:182-183 | for an accepted key, the inverse key's rows applied to the encrypted pair give back the original pair |
| HillCipher.ApplyInverts | actividades/actividad14/script.js:178-187 | for an accepted key, applying the inverse key after the key gives back every symbol sequence of even length in [0, 25] |
| HillCipher.CharsSymbols | actividades/actividad14/script.js:64-66 | the padded symbols written as letters are the filtered text, followed by 'X' exactly when its length is odd |
| HillCipher.RoundTrip | actividades/actividad14/script.js:117-118 | for an accepted key and non-empty filtered text, encryption succeeds and decryption returns the filtered text, followed by 'X' when its length is odd |
| HillCipher.RoundTripEven | actividades/actividad14/script.js:117-118 | for an accepted key, decrypting the encryption of a non-empty, even-length string of letters A–Z returns that string |
| HillCipher.ExampleKey | actividades/actividad14/script.js:97-129 | the key [[3, 3], [2, 5]] is accepted with det 9 and detInv 3 |
| HillCipher.ExampleHelp | actividades/actividad14/script.js:54-78 | with the key [[3, 3], [2, 5]], "HELP" encrypts to "HIAT" and "HIAT" decrypts to "HELP" |
| HillCipher.ExampleEmptyInput | actividades/actividad14/script.js:54-58 | a message with no letters A–Z is rejected as empty input |
| HillCipher.ExampleZeroKey | actividades/actividad14/script.js:103-106 | the all-zero key is rejected before the message is looked at, by both handlers |

## Left out

- DOM lookups, event-listener wiring, the character counter and the pair
  display `mostrarMatrizMensaje` (script.js lines 1-45). They are
  presentation only.
- `mostrarError` and `limpiarError`. They only set text and CSS classes. The
  model returns a typed error instead of writing a message.
- The decrypt input source. The script prefers the result area's text and
  falls back to the message box (lines 155-162). The model's `Decrypt`
  takes one ciphertext argument instead. `trim()` is subsumed by the letter
  filter.
- Writing the decrypted text back into the message box (lines 194-195).
  This is a UI side effect.
- `parseInt(...) || 0` on the key fields (lines 99-100). The four entries
  are taken as integers. An empty or non-numeric field reads as 0 in the
  script.
- JavaScript number precision. Integers are unbounded, so entries large
  enough that products exceed 2^53 behave exactly in the model but round in
  the script.
- HillCipher.Normalize: only the ASCII letters a–z are upper-cased. Non-ASCII
  upper-case mappings of `toUpperCase`, such as 'ß' to "SS" or 'ı' to 'I',
  are not modelled. They can add letters A–Z that the model drops.
- HillKey.ModInverse: requires m > 0. The only caller passes 26, and for
  m ≤ 0 JavaScript's `%` yields NaN or a search with no iterations.
- HillCipher.RoundTrip: decrypting a ciphertext of odd length pads it with
  'X' like the script does. The model states that behaviour, but the round
  trip is proved only for ciphertexts the encryption produced, which always
  have even length.
