# Caesar and Vigenère ciphers of `codificador-cesar-vigenere`, in Dafny

This project models the `Security` class of `test.py`, the cipher engine
behind the program's window. A `Security` object is built for one algorithm
name, `"cesar"` or `"vigenere"`. Its `encode` and `decode` take a text and a
key string and return the transformed text.

- The text is lower-cased first. It is then read character by character.
- Characters outside the alphabet `abcdefghijklmnopqrstuvwxyz` are copied
  unchanged.
- Each letter is moved forward (encode) or back (decode) through the
  alphabet by the key entry under a cursor. A single conditional ±26 brings
  the result back into the alphabet.
- The cursor starts at 0 and advances only after a letter. It returns to 0
  when it reaches the key length, so the key repeats over the letters only.
- Caesar keys are digit strings: each digit is one shift, from 0 to 9.
- Vigenère keys are keywords: each lower-cased letter gives its alphabet
  index, from 0 to 25.

Two modules:

- `Cipher` (`cipher.dfy`) is the specification. It holds the alphabet and
  Python's `find`, ASCII lower-casing, key derivation, the two single-wrap
  steps, and `Transform`, which says what every output position holds.
  `Encrypt` and `Decrypt` are the whole `encode` and `decode`. Lemmas prove
  the shape of the output, the modular reading of the single wrap, the cursor
  rule and the round trips `decode(encode(t)) == t.lower()` and
  `encode(decode(t)) == t.lower()`.
- `Engine` (`security.dfy`) is the class `Security`. Its const field
  `algorithm` holds the algorithm name. The field `text` is written on every
  call; the field `key` only when the algorithm and the key are accepted, as
  in the source, where a rejected key raises before `self.key` is assigned.
  `Encode` and `Decode` store the text, derive the key, store the shifts on
  success, and run the source's cursor loop. The loop sits in
  the static methods `EncodeText` and `DecodeText`, proved equal to
  `Transform`. The errors the source raises are values of `CipherError`:
  - `InvalidKey`: `int(x)` fails on a non-digit Caesar key character.
  - `UnsupportedAlgorithm`: the `ValueError` for any other algorithm name.
  - `EmptyKey`: the `IndexError` of `self.key[i]` when the key is empty and
    the text has a letter.

Two edge cases:

- The model follows the code for an empty key: it fails only when the text
  contains a letter. A text without letters comes back lower-cased.
- Vigenère keys are not checked in the code. This is the one place where the
  model departs from the code; see "## Findings".

## Model

| member | source | states |
|---|---|---|
| Cipher.AlphabetIsAtoZ | test.py:15 | the alphabet has 26 entries and entry x is the letter 'a'+x |
| Cipher.InAlphabet | test.py:46 | `char in alphabet` holds exactly for the letters a-z |
| Cipher.Find | test.py:47 | `find` gives -1 exactly for characters outside the alphabet, and otherwise an index in 0..25 whose alphabet entry is the character |
| Cipher.FindAlphabet | test.py:53 | `find` undoes indexing into the alphabet: the position of alphabet[x] is x |
| Cipher.Lower | test.py:31 | lower-casing keeps the length, maps each character by ASCII lower-casing and leaves no upper-case letter |
| Cipher.LowerIdempotent | test.py:78 | lower-casing an already lower-cased text changes nothing |
| Cipher.DigitShifts | test.py:34 | a Caesar key succeeds exactly when every character is a digit; the shifts are the digit values 0..9, one per character; otherwise InvalidKey |
| Cipher.KeywordShiftsAsWritten | test.py:36-37 | the source's Vigenère derivation gives one value per key character, -1 exactly where the lower-cased character is not a letter |
| Cipher.KeywordShifts | test.py:36-37 | a Vigenère key succeeds exactly when every lower-cased character is a letter; each shift is in 0..25 and indexes that letter in the alphabet; otherwise InvalidKey |
| Cipher.KeywordShiftsAgree | test.py:37 | for letter-only keys the checked derivation returns exactly the source's `find` values |
| Cipher.DeriveShifts | test.py:33-39 | the algorithm error happens exactly for names other than "cesar" and "vigenere"; accepted keys give one shift per character, all in 0..25, and Caesar shifts are at most 9 |
| Cipher.ShiftUp | test.py:48-51 | for a position and a shift in 0..25, adding and subtracting 26 once lands in 0..25 and equals (p + k) mod 26 |
| Cipher.ShiftDown | test.py:95-98 | for a position and a shift in 0..25, subtracting and adding 26 once lands in 0..25 and equals (p - k) mod 26 |
| Cipher.StepIsModular | test.py:47-53 | for in-range values, a step is addition (encode) or subtraction (decode) modulo 26 |
| Cipher.StepInverse | test.py:94-100 | the decode step undoes the encode step and the encode step undoes the decode step |
| Cipher.CursorStep | test.py:55-60 | after each character the cursor equals the letters read so far modulo the key length: it advances and wraps to 0 after a letter and stays after anything else |
| Cipher.CipherAt | test.py:44-57 | an output character is a letter exactly when the input character is, and a non-letter is copied unchanged |
| Cipher.CipherAtLetter | test.py:47-54 | a letter under cursor i becomes the alphabet entry at the single-wrap step of its position by key[i] |
| Cipher.Transform | test.py:41-62 | the output has the input's length, letters stay letters and other characters stay in place; with an empty key it fails exactly when the text has a letter |
| Cipher.TransformLetter | test.py:46-55 | the letter at position j is shifted by key[(letters before j) mod key length], so the k-th letter uses key[k mod len(key)] |
| Cipher.SameLetterCount | test.py:59-60 | two texts with letters at the same positions move the cursor identically |
| Cipher.TransformRoundTrip | test.py:88-109 | applying the other direction with the same shifts to a transformed text gives the original text back |
| Cipher.EncryptShape | test.py:17-62 | encode fails exactly for an unknown algorithm, a rejected key, or an empty key with a letter in the text; on success the output has the text's length, no upper-case letter, letters where the lower-cased text has letters, and the lower-cased text's other characters in place |
| Cipher.SameFailures | test.py:78-86 | encode and decode fail on the same inputs with the same error |
| Cipher.TransformKeepsLower | test.py:78 | the output of either direction is already lower-case, so the next call's `lower()` leaves it unchanged |
| Cipher.EncryptThenDecrypt | test.py:64-109 | decode(encode(text, key), key) is text.lower() whenever encode succeeds |
| Cipher.DecryptThenEncrypt | test.py:17-62 | encode(decode(text, key), key) is text.lower() whenever decode succeeds |
| Cipher.PyAlphabetAt | test.py:53 | Python indexing of the alphabet succeeds exactly for -26..25 and agrees with plain indexing on 0..25 |
| Cipher.KeywordNonLetterBreaksRoundTrip | test.py:37 | with keyword "!" the source derives shift -1: encoding 'a' gives 'z', and decoding 'z' reaches index 26, which raises IndexError |
| Cipher.CaesarExamples | test.py:34 | shift 3 moves 'x' to 'a' and back, and the key "a1" is refused with InvalidKey |
| Cipher.UnknownAlgorithmExamples | test.py:38-39 | "caesar" and the empty name are refused by encode and decode |
| Engine.Security.constructor | test.py:6-15 | the object keeps the given algorithm name, "cesar" by default |
| Engine.Security.LoadKey | test.py:31-39 | stores the lower-cased text, returns the key derivation's result, and stores the shifts only when the key is accepted |
| Engine.Security.Encode | test.py:17-62 | returns exactly `Encrypt(algorithm, text, key)` and leaves the lower-cased text and the accepted shifts in the fields |
| Engine.Security.EncodeText | test.py:41-62 | the cursor loop with the single wrap computes exactly `Transform` in the encode direction |
| Engine.Security.Decode | test.py:64-109 | returns exactly `Decrypt(algorithm, text, key)` and leaves the lower-cased text and the accepted shifts in the fields |
| Engine.Security.DecodeText | test.py:88-109 | the cursor loop with the single wrap computes exactly `Transform` in the decode direction |

## Left out

- The `App` window class and `main` (test.py:112-353): widget layout,
  colours, button callbacks and message boxes. They only pass strings to
  `Security` and show the result.
- Python's full Unicode `str.lower()`: the model lower-cases ASCII A-Z only.
  Characters that Unicode lower-casing would change or lengthen are not
  modelled.
- `int()` on non-ASCII Unicode digits: only '0'-'9' are digits here. Every
  other key character is the `ValueError` path.
- Exceptions are modelled as a `Result` value. The Python exception types
  map to `CipherError` as described above.
- `None` arguments: `encode`'s parameters default to `None`, and `None.lower()`
  would raise `AttributeError`. The model's text and key are always strings.
- Engine.Security.LoadKey: for a rejected Vigenère key the source would have
  assigned `key.lower()` to `self.key` before the list. The model keeps the
  previous shifts, because it rejects such keys (see "## Findings").
- The source creates the `text` and `key` attributes on the first call. The
  model's constructor sets them to empty values.

## Findings

| source | as written | input that shows it | evidently intended | confidence | as-written member | corrected member |
|---|---|---|---|---|---|---|
| test.py:37 | a keyword character outside a-z gets `find`'s -1, which is then used as a shift | algorithm "vigenere", key "!", text "a": encode gives "z" through `alphabet[-1]`, and decoding "z" computes index 26 and raises IndexError | every shift lies in 0..25, so decode undoes encode; a key character outside the alphabet is refused as an invalid key | not executed | Cipher.KeywordNonLetterBreaksRoundTrip | Cipher.KeywordShifts |

The class uses `Cipher.KeywordShifts`. The round-trip lemmas
`Cipher.EncryptThenDecrypt` and `Cipher.DecryptThenEncrypt` hold for every
key it accepts. `Cipher.KeywordShiftsAgree` shows that it returns the
source's values for every letter-only key.
