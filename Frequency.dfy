/** The data behind one histogram panel of `plot_key`: the letter counts of
    the ciphertext, and whether the panel is labelled "plain" (the key
    shifts nothing) or with the key itself. */
module Frequency {
  import opened Alphabets
  import opened Codec
  import opened Vigenere

  /** The total of a table of counts. */
  function Sum(xs: seq<nat>): nat {
    if |xs| == 0 then 0 else xs[0] + Sum(xs[1..])
  }

  /** `[counts[x] for x in alphabet]` with `counts = Counter(text)`: how often
      each alphabet symbol occurs in the text, in alphabet order, 0 for a
      symbol that does not occur. A `Counter` over a string is the multiset of
      its characters. */
  function Table(alphabet: string, text: string): (counts: seq<nat>)
    ensures |counts| == |alphabet|
  {
    seq(|alphabet|, i requires 0 <= i < |alphabet| => multiset(text)[alphabet[i]])
  }

  /** A table of zeros sums to zero. */
  lemma {:induction false} SumOfZeros(xs: seq<nat>)
    requires forall i :: 0 <= i < |xs| ==> xs[i] == 0
    ensures Sum(xs) == 0
  {
    if |xs| > 0 {
      SumOfZeros(xs[1..]);
    }
  }

  /** Raising one count by one raises the total by one. */
  lemma {:induction false} SumBump(xs: seq<nat>, ys: seq<nat>, j: int)
    requires |xs| == |ys| && 0 <= j < |xs|
    requires ys[j] == xs[j] + 1
    requires forall i :: 0 <= i < |xs| && i != j ==> ys[i] == xs[i]
    ensures Sum(ys) == Sum(xs) + 1
  {
    if j == 0 {
      assert xs[1..] == ys[1..];
    } else {
      SumBump(xs[1..], ys[1..], j - 1);
    }
  }

  /** Count conservation: over distinct symbols, the counts of a text made of
      alphabet symbols add up to its length. */
  lemma {:induction false} TableSum(alphabet: string, text: string)
    requires Distinct(alphabet)
    requires OverAlphabet(alphabet, text)
    ensures Sum(Table(alphabet, text)) == |text|
  {
    if |text| == 0 {
      SumOfZeros(Table(alphabet, text));
    } else {
      var prefix, c := text[..|text| - 1], text[|text| - 1];
      assert text == prefix + [c];
      assert OverAlphabet(alphabet, prefix);
      TableSum(alphabet, prefix);
      var j := Find(alphabet, c);
      var before, after := Table(alphabet, prefix), Table(alphabet, text);
      forall i | 0 <= i < |alphabet| && i != j
        ensures after[i] == before[i]
      {
        FindSymbolAt(alphabet, i);
      }
      SumBump(before, after, j);
    }
  }

  /** Every alphabet character of the plaintext is counted once in the
      ciphertext's table. */
  lemma CiphertextTableSum(alphabet: string, plaintext: string, key: string)
    requires Valid(alphabet)
    requires |Numbers(alphabet, key)| > 0
    ensures Sum(Table(alphabet, Encrypt(alphabet, plaintext, key))) == |Filtered(alphabet, plaintext)|
  {
    TableSum(alphabet, Encrypt(alphabet, plaintext, key));
  }

  /** The test of `plot_key`: decrypting the ciphertext under the key leaves
      it unchanged. Only a text made of alphabet symbols can pass it, since
      decryption drops every other character. */
  predicate IsPlain(alphabet: string, ciphertext: string, key: string)
    requires |alphabet| > 0
    requires |Numbers(alphabet, key)| > 0
    ensures IsPlain(alphabet, ciphertext, key) ==> OverAlphabet(alphabet, ciphertext)
  {
    ciphertext == Decrypt(alphabet, ciphertext, key)
  }

  /** A text of alphabet symbols is unchanged by decryption exactly when
      every aligned key position over its length is 0. */
  lemma PlainIffZeroKey(alphabet: string, ciphertext: string, key: string)
    requires Valid(alphabet)
    requires |Numbers(alphabet, key)| > 0
    requires OverAlphabet(alphabet, ciphertext)
    ensures IsPlain(alphabet, ciphertext, key)
        <==> forall i :: 0 <= i < |ciphertext| ==> Aligned(alphabet, key, |ciphertext|)[i] == 0
  {
    var n := |alphabet|;
    var c := Numbers(alphabet, ciphertext);
    NumbersOfFiltered(alphabet, ciphertext);
    assert |c| == |ciphertext|;
    var k := Aligned(alphabet, key, |c|);
    var d := SubMod(c, k, n);
    LettersOfNumbersOverAlphabet(alphabet, ciphertext);
    assert Decrypt(alphabet, ciphertext, key) == Letters(alphabet, d);
    LettersInjective(alphabet, c, d);
    SubModFixedIffZero(c, k, n);
  }

  /** What `plot_key` draws for one key: the y-axis label and the bar
      heights, one per alphabet symbol. */
  datatype Panel = Panel(ylabel: string, heights: seq<nat>)

  /** `plot_key(ax, plaintext, key)` without the drawing. */
  function PlotKey(alphabet: string, plaintext: string, key: string): (p: Panel)
    requires |alphabet| > 0
    requires |Numbers(alphabet, key)| > 0
    ensures |p.heights| == |alphabet|
    ensures p.ylabel == "plain" || p.ylabel == key
  {
    var ciphertext := Encrypt(alphabet, plaintext, key);
    Panel(if IsPlain(alphabet, ciphertext, key) then "plain" else key, Table(alphabet, ciphertext))
  }

  /** The panel's bars add up to the number of alphabet characters in the
      plaintext, and it is labelled "plain" exactly when the aligned key is
      all zeros (otherwise it carries the key). */
  lemma PlotKeyPanel(alphabet: string, plaintext: string, key: string)
    requires Valid(alphabet)
    requires |Numbers(alphabet, key)| > 0
    ensures var p := PlotKey(alphabet, plaintext, key);
            var n := |Filtered(alphabet, plaintext)|;
            && Sum(p.heights) == n
            && p.ylabel == if forall i :: 0 <= i < n ==> Aligned(alphabet, key, n)[i] == 0
                          then "plain" else key
  {
    var ciphertext := Encrypt(alphabet, plaintext, key);
    CiphertextTableSum(alphabet, plaintext, key);
    PlainIffZeroKey(alphabet, ciphertext, key);
  }

  /** The first panel drawn from the sample, key `A`, is labelled "plain". */
  lemma FirstLetterKeyIsPlain(alphabet: string, plaintext: string)
    requires Valid(alphabet)
    ensures |Numbers(alphabet, [alphabet[0]])| > 0
    ensures PlotKey(alphabet, plaintext, [alphabet[0]]).ylabel == "plain"
  {
    var key := [alphabet[0]];
    assert Numbers(alphabet, key) == [0];
    var n := |Filtered(alphabet, plaintext)|;
    forall i | 0 <= i < n ensures Aligned(alphabet, key, n)[i] == 0 {
      ResizeAt([0], n, i);
    }
    PlotKeyPanel(alphabet, plaintext, key);
  }
}
