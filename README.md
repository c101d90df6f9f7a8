# Vigenère cipher engine of `analyze.py`, in Dafny

`analyze.py` turns text into positions in a fixed alphabet (`numbers`) and
back (`letters`). It encrypts and decrypts with the Vigenère cipher
(`Vigenère_encrypt`, `Vigenère_decrypt`): the key's positions are repeated
to the message's length with `np.resize`, then added to or subtracted from
the message's positions modulo the alphabet size. For each key, `plot_key`
draws a histogram of the ciphertext's letter counts. It labels the panel
"plain" when decrypting the ciphertext under the key leaves it unchanged;
otherwise the label is the key.

This project models that engine as pure Dafny functions and proves its laws:

- `Alphabet.dfy` (module `Alphabets`): the alphabet is a parameter, a
  `string` with at least one symbol and no repeats. `Default` is the shipped
  `ABCDEFGHIJKLMNOPQRSTUVWXYZ`. `Find` is Python's `str.find` for one
  character.
- `Codec.dfy` (module `Codec`): `Numbers` (`numbers`), `Letters`
  (`letters`) and `Filtered`, the text that `numbers` keeps. The lemmas
  cover the filter and both round trips.
- `Vigenere.dfy` (module `Vigenere`): `Resize` (`np.resize`),
  the element-wise `AddMod`/`SubMod`, `Encrypt` and `Decrypt`. The lemmas
  cover the round trips, the Caesar special case and the standard
  `ATTACKATDAWN`/`LEMON` example. `Caesar` is an independent reference
  definition of the Caesar shift that the comment at analyze.py:36-44
  describes: a one-letter key gives an ordinary Caesar cipher.
- `Frequency.dfy` (module `Frequency`): the count table that
  `[counts[x] for x in alphabet]` builds from a `Counter`, the "plain" test,
  and `PlotKey`, which is `plot_key` without the drawing.

Python's `%` with a positive modulus never returns a negative number.
Neither does Dafny's `%`, so `(c - k) % N` is written as it is.
A `Counter` over a string behaves like the multiset of its characters:
looking up a missing key gives 0. `Table` is built from `multiset(text)` for
that reason.

## Model

| member | source | states |
|---|---|---|
| `Alphabets.Find` | analyze.py:30 | `alphabet.find(c)`: -1 exactly when `c` is not a symbol. Otherwise it is the first position holding `c`. |
| `Alphabets.FindSymbolAt` | analyze.py:29-33 | With distinct symbols, finding the symbol at position `i` gives `i` back, so `find` undoes indexing. |
| `Alphabets.DefaultMembers` | analyze.py:13 | The shipped alphabet holds exactly the characters `A` to `Z`. |
| `Alphabets.DefaultIsValid` | analyze.py:8-13 | The shipped alphabet is non-empty and has no repeated symbol. |
| `Alphabets.DefaultFind` | analyze.py:16-19 | In the shipped alphabet a capital letter's position is its distance from `A`. Any other character gives -1. |
| `Codec.Filtered` | analyze.py:30 | The kept text is no longer than the input and uses only alphabet symbols. It equals the input when every character is a symbol. Each symbol keeps its multiplicity, and every other character gets multiplicity 0. |
| `Codec.Numbers` | analyze.py:29-30 | `numbers(msg)` is at most as long as `msg`, and every element lies in `[0, N)`. |
| `Codec.Letters` | analyze.py:32-33 | `letters(xs)` has one character per position, and every character is an alphabet symbol. |
| `Codec.NumbersOfFiltered` | analyze.py:29-30 | `numbers` keeps exactly as many elements as the filter keeps characters. Element `i` names kept character `i`. |
| `Codec.NumbersAreFilteredPositions` | analyze.py:29-30 | `numbers(s)` is, in order, the `find` position of each character the filter keeps. |
| `Codec.NumbersAtPositions` | analyze.py:29-30 | On text made only of symbols, `numbers` is the `find` position of each character in turn. |
| `Codec.NumbersIgnoresDropped` | analyze.py:29-30 | Encoding the filtered text gives the same positions as encoding the original. |
| `Codec.FilteredAppend` | analyze.py:30 | The filter keeps order: the filter of `s + t` is the filter of `s` followed by the filter of `t`. |
| `Codec.NumbersAppend` | analyze.py:29-30 | The encoding of `s + t` is the encoding of `s` followed by the encoding of `t`. |
| `Codec.NumbersDropsNonSymbol` | analyze.py:30 | Removing one non-alphabet character anywhere does not change the encoding. Punctuation is dropped, not substituted. |
| `Codec.LettersOfNumbers` | analyze.py:29-33 | `letters(numbers(s))` is `s` with its non-alphabet characters removed. |
| `Codec.LettersOfNumbersOverAlphabet` | analyze.py:29-33 | `letters(numbers(s)) == s` when every character of `s` is in the alphabet. |
| `Codec.NumbersOfLetters` | analyze.py:29-33 | With distinct symbols, `numbers(letters(xs)) == xs` for every `xs` with elements in `[0, N)`. |
| `Codec.LettersInjective` | analyze.py:32-33 | With distinct symbols, `letters` gives the same text for two position sequences exactly when they are equal. |
| `Codec.NumbersOverDefault` | analyze.py:16-30 | Over the shipped alphabet, text of capitals encodes to each letter's distance from `A`. |
| `Codec.WorkedExamplePlaintext` | analyze.py:89-92 | `ATTACKATDAWN` encodes to `[0,19,19,0,2,10,0,19,3,0,22,13]`. |
| `Vigenere.Resize` | analyze.py:48 | `np.resize(key, n)` has exactly `n` elements. |
| `Vigenere.ResizeAt` | analyze.py:48 | Position `i` of the resized key holds `key[i mod len(key)]`. |
| `Vigenere.ResizeCyclic` | analyze.py:48-53 | The same cyclic law for every position at once. Encryption and decryption share this alignment. |
| `Vigenere.AddMod` | analyze.py:49 | `(msg + key) % N` keeps the message's length, and every element lies in `[0, N)`. |
| `Vigenere.SubMod` | analyze.py:54 | `(msg - key) % N` keeps the message's length, and every element lies in `[0, N)`, also where `key[i] > msg[i]`. |
| `Vigenere.Aligned` | analyze.py:47-48 | The key's positions, resized, have exactly the message's length and lie in `[0, N)`. |
| `Vigenere.Encrypt` | analyze.py:46-49 | The ciphertext is as long as the filtered message, and every character is an alphabet symbol. |
| `Vigenere.Decrypt` | analyze.py:51-54 | The plaintext is as long as the filtered input, and every character is an alphabet symbol. |
| `Vigenere.SubUndoesAdd` | analyze.py:49-54 | For `0 <= x < N`, `((x + k) % N - k) % N == x` for every shift `k`. |
| `Vigenere.AddUndoesSub` | analyze.py:49-54 | For `0 <= x < N`, `((x - k) % N + k) % N == x` for every shift `k`. |
| `Vigenere.SubFixedIffZero` | analyze.py:54 | For `x` and `k` in `[0, N)`, subtracting `k` leaves `x` unchanged exactly when `k == 0`. |
| `Vigenere.SubModAddMod` | analyze.py:49-54 | On positions in range, subtracting the key after adding it gives the message back. |
| `Vigenere.AddModSubMod` | analyze.py:49-54 | On positions in range, adding the key after subtracting it gives the ciphertext back. |
| `Vigenere.SubModFixedIffZero` | analyze.py:54 | Subtracting a key in range leaves positions in range unchanged exactly when every key element is 0. |
| `Vigenere.NumbersOfEncrypt` | analyze.py:46-49 | Read back as positions, the ciphertext is `(m[i] + k[i]) % N`, with `m` the message's positions and `k` the aligned key. |
| `Vigenere.NumbersOfDecrypt` | analyze.py:51-54 | Read back as positions, the decryption is `(c[i] - k[i]) % N`, with `c` the input's positions and `k` the aligned key. |
| `Vigenere.DecryptEncrypt` | analyze.py:46-54 | Decrypting the encryption under the same key gives the message back, with its non-alphabet characters removed. |
| `Vigenere.EncryptDecrypt` | analyze.py:46-54 | Encrypting the decryption under the same key gives the ciphertext back, with its non-alphabet characters removed. |
| `Vigenere.NumbersOfOneLetterKey` | analyze.py:43-44 | A key whose alphabet characters are all one letter encodes to that letter's position, repeated. |
| `Vigenere.AddModConstant` | analyze.py:43-49 | Adding a key whose elements are all one value is a uniform shift of every position. |
| `Vigenere.CaesarSpecialCase` | analyze.py:36-49 | A key whose alphabet characters are all one letter turns encryption into the Caesar shift by that letter's position. |
| `Vigenere.FirstLetterKeyIsIdentity` | analyze.py:46-49 | The key made of the first symbol (`A`, position 0) leaves the text unchanged, apart from dropping non-alphabet characters. |
| `Vigenere.WorkedExampleKey` | analyze.py:89-92 | Aligned to 12 letters, `LEMON` becomes `[11,4,12,14,13,11,4,12,14,13,11,4]`. |
| `Vigenere.WorkedExampleShifts` | analyze.py:89-92 | Those shifts, added to the plaintext's positions mod 26, name `LXFOPVEFRNHR`. |
| `Vigenere.WorkedExample` | analyze.py:89-92 | `ATTACKATDAWN` under key `LEMON` encrypts to `LXFOPVEFRNHR`. |
| `Frequency.Table` | analyze.py:67-72 | The count table has one count per alphabet symbol, in alphabet order. |
| `Frequency.TableSum` | analyze.py:67-72 | For distinct symbols and a text of symbols, the counts add up to the text's length. |
| `Frequency.CiphertextTableSum` | analyze.py:65-72 | The counts of a ciphertext add up to the number of alphabet characters in the plaintext. |
| `Frequency.IsPlain` | analyze.py:68 | The test `ciphertext == Vigenère_decrypt(ciphertext, key)`: the ciphertext equals its own decryption under the key. Only a text made of alphabet symbols can pass it. |
| `Frequency.PlainIffZeroKey` | analyze.py:68 | Decrypting a text of symbols leaves it unchanged exactly when every aligned key position over its length is 0. |
| `Frequency.PlotKey` | analyze.py:65-72 | The panel has one bar per alphabet symbol. Its label is "plain" or the key. |
| `Frequency.PlotKeyPanel` | analyze.py:65-72 | The bars add up to the number of alphabet characters in the plaintext. The label is "plain" exactly when the aligned key is all zeros, and the key otherwise. |
| `Frequency.FirstLetterKeyIsPlain` | analyze.py:68-71 | The panel for key `A` is labelled "plain". |

## Left out

- Drawing: every `ax.*` call in `plot_key` and all of `plot_keys` (analyze.py:69-83) are Matplotlib rendering. Only the label decision and the bar heights are modelled.
- Reading and upper-casing the `sample` file (analyze.py:112-114) is file I/O.
- `Vigenère_test` (analyze.py:94-103) only prints. As written it cannot run: it calls the misspelled, undefined `Vigènere_encrypt` and reads `recovered`, which is never assigned. Its intent is the round trip `Vigenere.DecryptEncrypt`.
- Vigenere.Resize: requires a non-empty key. `np.resize` on an empty array is defined by NumPy, not by this program. So `Aligned`, `Encrypt`, `Decrypt`, `IsPlain` and `PlotKey` require the key to keep at least one alphabet character after filtering.
- Codec.Letters: requires positions in `[0, N)`. Python reads a position in `[-N, 0)` from the end of the alphabet and raises `IndexError` for any other position outside `[0, N)`. Internally produced positions never fall outside the range.
- Error values: the program defines no error values of its own. An empty filtered key and a position outside `[0, N)` are its only failure cases, and the model turns both into the two preconditions above.
- NumPy arrays become sequences of unbounded integers. The values never exceed `2N`, so the source's 64-bit elements cannot overflow.
- Characters: a Dafny `char` cannot hold a lone surrogate, which a Python `str` can. Such a character is never a symbol of the shipped alphabet, so `numbers` would drop it and nothing in the core changes.
- `Alphabets.Default` is written as the comprehension of the 26 characters from `A` on. This equals the literal string `ABCDEFGHIJKLMNOPQRSTUVWXYZ`.
