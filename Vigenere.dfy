/** The Vigenère cipher: the key is repeated to the message's length and each
    message position is shifted by the key position beside it, modulo the
    alphabet size. Python's `%` with a positive modulus and Dafny's `%` both
    give a result in `[0, n)`, also for a negative left operand. */
module Vigenere {
  import opened Alphabets
  import opened Codec

  /** `np.resize(key, n)`: copies of the key laid end to end and the last
      one cut so that the result has length `n`. The key must not be empty. */
  function Resize(key: seq<int>, n: nat): (r: seq<int>)
    requires |key| > 0
    ensures |r| == n
    decreases n
  {
    if n <= |key| then key[..n] else key + Resize(key, n - |key|)
  }

  /** The key is repeated cyclically: position `i` of the resized key is
      position `i mod |key|` of the key. */
  lemma {:induction false} ResizeAt(key: seq<int>, n: nat, i: int)
    requires |key| > 0 && 0 <= i < n
    ensures Resize(key, n)[i] == key[i % |key|]
    decreases n
  {
    if n <= |key| {
      ModOfDecomposition(i, |key|, 0, i);
    } else if i < |key| {
      ModOfDecomposition(i, |key|, 0, i);
    } else {
      ResizeAt(key, n - |key|, i - |key|);
      ModPeriod(i - |key|, |key|);
    }
  }

  /** `ResizeAt` for every position at once. */
  lemma ResizeCyclic(key: seq<int>, n: nat)
    requires |key| > 0
    ensures forall i :: 0 <= i < n ==> Resize(key, n)[i] == key[i % |key|]
  {
    forall i | 0 <= i < n ensures Resize(key, n)[i] == key[i % |key|] {
      ResizeAt(key, n, i);
    }
  }

  /** The vectorised `(msg + key) % n`. */
  function AddMod(m: seq<int>, k: seq<int>, n: int): (r: seq<int>)
    requires |m| == |k| && n > 0
    ensures |r| == |m|
    ensures InRange(r, n)
  {
    seq(|m|, i requires 0 <= i < |m| => (m[i] + k[i]) % n)
  }

  /** The vectorised `(msg - key) % n`; every result lies in `[0, n)` even
      where the key position exceeds the message position. */
  function SubMod(m: seq<int>, k: seq<int>, n: int): (r: seq<int>)
    requires |m| == |k| && n > 0
    ensures |r| == |m|
    ensures InRange(r, n)
  {
    seq(|m|, i requires 0 <= i < |m| => (m[i] - k[i]) % n)
  }

  /** The key as positions, aligned to a message of `len` positions; every
      element of the resized key stays within the alphabet's range. */
  function Aligned(alphabet: string, key: string, len: nat): (r: seq<int>)
    requires |Numbers(alphabet, key)| > 0
    ensures |r| == len
    ensures InRange(r, |alphabet|)
  {
    ResizeCyclic(Numbers(alphabet, key), len);
    Resize(Numbers(alphabet, key), len)
  }

  /** `Vigenère_encrypt(msg, key)`. */
  function Encrypt(alphabet: string, msg: string, key: string): (r: string)
    requires |alphabet| > 0
    requires |Numbers(alphabet, key)| > 0
    ensures |r| == |Filtered(alphabet, msg)|
    ensures OverAlphabet(alphabet, r)
  {
    NumbersOfFiltered(alphabet, msg);
    var m := Numbers(alphabet, msg);
    Letters(alphabet, AddMod(m, Aligned(alphabet, key, |m|), |alphabet|))
  }

  /** `Vigenère_decrypt(msg, key)`. */
  function Decrypt(alphabet: string, msg: string, key: string): (r: string)
    requires |alphabet| > 0
    requires |Numbers(alphabet, key)| > 0
    ensures |r| == |Filtered(alphabet, msg)|
    ensures OverAlphabet(alphabet, r)
  {
    NumbersOfFiltered(alphabet, msg);
    var m := Numbers(alphabet, msg);
    Letters(alphabet, SubMod(m, Aligned(alphabet, key, |m|), |alphabet|))
  }

  // ---------------------------------------------------------------------
  // Modular arithmetic

  /** The remainder is determined by any decomposition `a == q * n + r` with
      `0 <= r < n`. */
  lemma ModOfDecomposition(a: int, n: int, q: int, r: int)
    requires n > 0 && 0 <= r < n && a == q * n + r
    ensures a % n == r
  {
    var q', r' := a / n, a % n;
    assert (q - q') * n == r' - r;
    if q' < q {
      MulAtLeast(q - q', n);
    } else if q' > q {
      MulAtLeast(q' - q, n);
    }
  }

  /** Remainders repeat with period `n`. */
  lemma ModPeriod(a: int, n: int)
    requires n > 0
    ensures (a + n) % n == a % n
  {
    ModOfDecomposition(a + n, n, a / n + 1, a % n);
  }

  /** A positive multiple of `n` is at least `n`. */
  lemma {:induction false} MulAtLeast(d: int, n: int)
    requires d >= 1 && n > 0
    ensures d * n >= n
    decreases d
  {
    if d > 1 {
      MulAtLeast(d - 1, n);
    }
  }

  /** Subtracting the shift undoes adding it, for a position already in range. */
  lemma SubUndoesAdd(x: int, k: int, n: int)
    requires n > 0 && 0 <= x < n
    ensures ((x + k) % n - k) % n == x
  {
    var q := (x + k) / n;
    ModOfDecomposition((x + k) % n - k, n, -q, x);
  }

  /** Adding the shift undoes subtracting it, for a position already in range. */
  lemma AddUndoesSub(x: int, k: int, n: int)
    requires n > 0 && 0 <= x < n
    ensures ((x - k) % n + k) % n == x
  {
    var q := (x - k) / n;
    ModOfDecomposition((x - k) % n + k, n, -q, x);
  }

  /** For positions in range, subtracting a shift changes nothing exactly
      when the shift is zero. */
  lemma SubFixedIffZero(x: int, k: int, n: int)
    requires n > 0 && 0 <= x < n && 0 <= k < n
    ensures (x - k) % n == x <==> k == 0
  {
    if k == 0 {
      ModOfDecomposition(x, n, 0, x);
    } else if k <= x {
      ModOfDecomposition(x - k, n, 0, x - k);
    } else {
      ModOfDecomposition(x - k, n, -1, x - k + n);
    }
  }

  // ---------------------------------------------------------------------
  // Index-level laws

  /** Decryption undoes encryption on positions. */
  lemma SubModAddMod(m: seq<int>, k: seq<int>, n: int)
    requires |m| == |k| && n > 0 && InRange(m, n)
    ensures SubMod(AddMod(m, k, n), k, n) == m
  {
    forall i | 0 <= i < |m|
      ensures SubMod(AddMod(m, k, n), k, n)[i] == m[i]
    {
      SubUndoesAdd(m[i], k[i], n);
    }
  }

  /** Encryption undoes decryption on positions. */
  lemma AddModSubMod(c: seq<int>, k: seq<int>, n: int)
    requires |c| == |k| && n > 0 && InRange(c, n)
    ensures AddMod(SubMod(c, k, n), k, n) == c
  {
    forall i | 0 <= i < |c|
      ensures AddMod(SubMod(c, k, n), k, n)[i] == c[i]
    {
      AddUndoesSub(c[i], k[i], n);
    }
  }

  /** Decryption leaves positions unchanged exactly when the key is all
      zeros. */
  lemma SubModFixedIffZero(c: seq<int>, k: seq<int>, n: int)
    requires |c| == |k| && n > 0 && InRange(c, n) && InRange(k, n)
    ensures SubMod(c, k, n) == c <==> forall i :: 0 <= i < |k| ==> k[i] == 0
  {
    var d := SubMod(c, k, n);
    forall i | 0 <= i < |c| ensures d[i] == c[i] <==> k[i] == 0 {
      SubFixedIffZero(c[i], k[i], n);
    }
    if forall i :: 0 <= i < |k| ==> k[i] == 0 {
      assert d == c;
    }
  }

  // ---------------------------------------------------------------------
  // Text-level laws

  /** The ciphertext, read back as positions, is the message shifted by the
      aligned key: position `i` holds `(m[i] + k[i]) % N`. */
  lemma NumbersOfEncrypt(alphabet: string, msg: string, key: string)
    requires Valid(alphabet)
    requires |Numbers(alphabet, key)| > 0
    ensures var m := Numbers(alphabet, msg);
            Numbers(alphabet, Encrypt(alphabet, msg, key))
              == AddMod(m, Aligned(alphabet, key, |m|), |alphabet|)
  {
    var m := Numbers(alphabet, msg);
    NumbersOfLetters(alphabet, AddMod(m, Aligned(alphabet, key, |m|), |alphabet|));
  }

  /** The plaintext, read back as positions, is the ciphertext shifted back by
      the aligned key: position `i` holds `(c[i] - k[i]) % N`. */
  lemma NumbersOfDecrypt(alphabet: string, msg: string, key: string)
    requires Valid(alphabet)
    requires |Numbers(alphabet, key)| > 0
    ensures var c := Numbers(alphabet, msg);
            Numbers(alphabet, Decrypt(alphabet, msg, key))
              == SubMod(c, Aligned(alphabet, key, |c|), |alphabet|)
  {
    var c := Numbers(alphabet, msg);
    NumbersOfLetters(alphabet, SubMod(c, Aligned(alphabet, key, |c|), |alphabet|));
  }

  /** Round trip: decrypting the encryption under the same key gives back
      the message, less its non-alphabet characters. */
  lemma DecryptEncrypt(alphabet: string, msg: string, key: string)
    requires Valid(alphabet)
    requires |Numbers(alphabet, key)| > 0
    ensures Decrypt(alphabet, Encrypt(alphabet, msg, key), key) == Filtered(alphabet, msg)
  {
    var m := Numbers(alphabet, msg);
    var k := Aligned(alphabet, key, |m|);
    NumbersOfEncrypt(alphabet, msg, key);
    SubModAddMod(m, k, |alphabet|);
    LettersOfNumbers(alphabet, msg);
  }

  /** Round trip the other way: encrypting the decryption under the same key
      gives back the ciphertext, less its non-alphabet characters. */
  lemma EncryptDecrypt(alphabet: string, msg: string, key: string)
    requires Valid(alphabet)
    requires |Numbers(alphabet, key)| > 0
    ensures Encrypt(alphabet, Decrypt(alphabet, msg, key), key) == Filtered(alphabet, msg)
  {
    var c := Numbers(alphabet, msg);
    var k := Aligned(alphabet, key, |c|);
    NumbersOfDecrypt(alphabet, msg, key);
    AddModSubMod(c, k, |alphabet|);
    LettersOfNumbers(alphabet, msg);
  }

  // ---------------------------------------------------------------------
  // The Caesar special case

  /** The Caesar cipher as a reference: every alphabet character of the
      message moved the same `shift` places along the alphabet, wrapping
      around. */
  function Caesar(alphabet: string, msg: string, shift: int): (r: string)
    requires |alphabet| > 0
  {
    var m := Numbers(alphabet, msg);
    Letters(alphabet, seq(|m|, i requires 0 <= i < |m| => (m[i] + shift) % |alphabet|))
  }

  /** A key whose alphabet characters are all one letter encodes to that
      letter's position, repeated. */
  lemma {:induction false} NumbersOfOneLetterKey(alphabet: string, key: string, letter: char)
    requires forall i :: 0 <= i < |key| && key[i] in alphabet ==> key[i] == letter
    ensures forall j :: 0 <= j < |Numbers(alphabet, key)| ==>
              Numbers(alphabet, key)[j] == Find(alphabet, letter)
  {
    if |key| > 0 {
      NumbersOfOneLetterKey(alphabet, key[1..], letter);
    }
  }

  /** A key whose alphabet characters are all one letter (in particular a
      one-letter key) makes the Vigenère cipher the Caesar cipher shifted by
      that letter's position. */
  lemma CaesarSpecialCase(alphabet: string, msg: string, key: string, letter: char)
    requires |alphabet| > 0
    requires |Numbers(alphabet, key)| > 0
    requires forall i :: 0 <= i < |key| && key[i] in alphabet ==> key[i] == letter
    ensures Encrypt(alphabet, msg, key) == Caesar(alphabet, msg, Find(alphabet, letter))
  {
    var shift := Find(alphabet, letter);
    var m := Numbers(alphabet, msg);
    var kn := Numbers(alphabet, key);
    NumbersOfOneLetterKey(alphabet, key, letter);
    var k := Aligned(alphabet, key, |m|);
    forall i | 0 <= i < |m| ensures k[i] == shift {
      ResizeAt(kn, |m|, i);
    }
    AddModConstant(m, k, |alphabet|, shift);
  }

  /** Adding a constant key is a uniform shift. */
  lemma AddModConstant(m: seq<int>, k: seq<int>, n: int, shift: int)
    requires |m| == |k| && n > 0
    requires forall i :: 0 <= i < |k| ==> k[i] == shift
    ensures AddMod(m, k, n) == seq(|m|, i requires 0 <= i < |m| => (m[i] + shift) % n)
  {
  }

  /** The key `A` (position 0) leaves the text unchanged, apart from dropping
      non-alphabet characters. */
  lemma FirstLetterKeyIsIdentity(alphabet: string, msg: string)
    requires |alphabet| > 0
    ensures |Numbers(alphabet, [alphabet[0]])| > 0
    ensures Encrypt(alphabet, msg, [alphabet[0]]) == Filtered(alphabet, msg)
  {
    var m := Numbers(alphabet, msg);
    var key := [alphabet[0]];
    assert Numbers(alphabet, key) == [0];
    var k := Aligned(alphabet, key, |m|);
    forall i | 0 <= i < |m| ensures (m[i] + k[i]) % |alphabet| == m[i] {
      ResizeAt([0], |m|, i);
      ModOfDecomposition(m[i], |alphabet|, 0, m[i]);
    }
    assert AddMod(m, k, |alphabet|) == m;
    LettersOfNumbers(alphabet, msg);
  }

  /** The worked example's key `LEMON`, aligned to its twelve-letter message. */
  lemma WorkedExampleKey(key: string)
    requires key == "LEMON"
    ensures |Numbers(Default, key)| > 0
    ensures Aligned(Default, key, 12) == [11, 4, 12, 14, 13, 11, 4, 12, 14, 13, 11, 4]
  {
    assert Numbers(Default, key) == [11, 4, 12, 14, 13] by {
      NumbersOverDefault(key);
    }
    ResizeCyclic([11, 4, 12, 14, 13], 12);
  }

  /** The worked example's shifts, position by position, and the letters
      they name. */
  lemma WorkedExampleShifts(m: seq<int>, k: seq<int>)
    requires m == [0, 19, 19, 0, 2, 10, 0, 19, 3, 0, 22, 13]
    requires k == [11, 4, 12, 14, 13, 11, 4, 12, 14, 13, 11, 4]
    ensures Letters(Default, AddMod(m, k, |Default|)) == "LXFOPVEFRNHR"
  {
    var c := [11, 23, 5, 14, 15, 21, 4, 5, 17, 13, 7, 17];
    assert |Default| == 26;
    assert AddMod(m, k, 26) == c;
    assert Letters(Default, c) == "LXFOPVEFRNHR";
  }

  /** The standard worked example: `ATTACKATDAWN` under key `LEMON`. */
  lemma WorkedExample(plaintext: string, key: string)
    requires plaintext == "ATTACKATDAWN" && key == "LEMON"
    ensures |Numbers(Default, key)| > 0
    ensures Encrypt(Default, plaintext, key) == "LXFOPVEFRNHR"
  {
    WorkedExamplePlaintext();
    WorkedExampleKey(key);
    var m := Numbers(Default, plaintext);
    WorkedExampleShifts(m, Aligned(Default, key, |m|));
  }
}
