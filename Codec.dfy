/** Conversion between text and sequences of alphabet positions
    (`numbers` and `letters`). Characters outside the alphabet are dropped. */
module Codec {
  import opened Alphabets

  /** Every element is a position of an alphabet of `n` symbols. */
  predicate InRange(xs: seq<int>, n: int) {
    forall i :: 0 <= i < |xs| ==> 0 <= xs[i] < n
  }

  /** Every character of `s` is a symbol of the alphabet. */
  predicate OverAlphabet(alphabet: string, s: string) {
    forall i :: 0 <= i < |s| ==> s[i] in alphabet
  }

  /** The text with every character outside the alphabet removed, the rest
      kept in order: the filter `if x in alphabet` of `numbers`. */
  function Filtered(alphabet: string, s: string): (r: string)
    ensures |r| <= |s|
    ensures OverAlphabet(alphabet, r)
    ensures OverAlphabet(alphabet, s) ==> r == s
    ensures forall c :: multiset(r)[c] == if c in alphabet then multiset(s)[c] else 0
  {
    if |s| == 0 then []
    else
      assert s == [s[0]] + s[1..];
      if s[0] in alphabet then [s[0]] + Filtered(alphabet, s[1..])
      else Filtered(alphabet, s[1..])
  }

  /** `numbers(msg)`: the position of each alphabet character of `msg`, in
      order; other characters are silently dropped. */
  function Numbers(alphabet: string, msg: string): (r: seq<int>)
    ensures |r| <= |msg|
    ensures InRange(r, |alphabet|)
  {
    if |msg| == 0 then []
    else if msg[0] in alphabet then [Find(alphabet, msg[0])] + Numbers(alphabet, msg[1..])
    else Numbers(alphabet, msg[1..])
  }

  /** `letters(xs)`: the symbol at each position, joined into text. The
      positions must lie in the alphabet (negative Python indexing is never
      used on internally produced sequences). */
  function Letters(alphabet: string, xs: seq<int>): (r: string)
    requires InRange(xs, |alphabet|)
    ensures |r| == |xs|
    ensures OverAlphabet(alphabet, r)
  {
    seq(|xs|, i requires 0 <= i < |xs| => alphabet[xs[i]])
  }

  /** `numbers` keeps exactly the characters the filter keeps, each replaced
      by its position, which names that very character. */
  lemma NumbersOfFiltered(alphabet: string, msg: string)
    ensures |Numbers(alphabet, msg)| == |Filtered(alphabet, msg)|
    ensures forall i :: 0 <= i < |Numbers(alphabet, msg)| ==>
              alphabet[Numbers(alphabet, msg)[i]] == Filtered(alphabet, msg)[i]
  {
    NumbersAreFilteredPositions(alphabet, msg);
  }

  /** Dropped characters do not matter: encoding the filtered text gives the
      same positions as encoding the original. */
  lemma {:induction false} NumbersIgnoresDropped(alphabet: string, msg: string)
    ensures Numbers(alphabet, Filtered(alphabet, msg)) == Numbers(alphabet, msg)
  {
    if |msg| > 0 {
      NumbersIgnoresDropped(alphabet, msg[1..]);
      if msg[0] in alphabet {
        assert ([msg[0]] + Filtered(alphabet, msg[1..]))[1..] == Filtered(alphabet, msg[1..]);
      }
    }
  }

  /** `letters(numbers(s))` is `s` with the non-alphabet characters removed. */
  lemma LettersOfNumbers(alphabet: string, s: string)
    ensures Letters(alphabet, Numbers(alphabet, s)) == Filtered(alphabet, s)
  {
    NumbersOfFiltered(alphabet, s);
  }

  /** On text made only of alphabet symbols, `letters(numbers(s))` is `s`. */
  lemma LettersOfNumbersOverAlphabet(alphabet: string, s: string)
    requires OverAlphabet(alphabet, s)
    ensures Letters(alphabet, Numbers(alphabet, s)) == s
  {
    LettersOfNumbers(alphabet, s);
  }

  /** With distinct symbols, `numbers(letters(xs))` is `xs` for any sequence of
      valid positions. */
  lemma {:induction false} NumbersOfLetters(alphabet: string, xs: seq<int>)
    requires Distinct(alphabet)
    requires InRange(xs, |alphabet|)
    ensures Numbers(alphabet, Letters(alphabet, xs)) == xs
  {
    if |xs| > 0 {
      var s := Letters(alphabet, xs);
      assert s[1..] == Letters(alphabet, xs[1..]);
      FindSymbolAt(alphabet, xs[0]);
      NumbersOfLetters(alphabet, xs[1..]);
    }
  }

  /** With distinct symbols, `letters` is injective. */
  lemma LettersInjective(alphabet: string, xs: seq<int>, ys: seq<int>)
    requires Distinct(alphabet)
    requires InRange(xs, |alphabet|) && InRange(ys, |alphabet|)
    ensures Letters(alphabet, xs) == Letters(alphabet, ys) <==> xs == ys
  {
    if Letters(alphabet, xs) == Letters(alphabet, ys) {
      NumbersOfLetters(alphabet, xs);
      NumbersOfLetters(alphabet, ys);
    }
  }

  /** Encoding works character by character: the encoding of a
      concatenation is the concatenation of the encodings. */
  lemma {:induction false} NumbersAppend(alphabet: string, s: string, t: string)
    ensures Numbers(alphabet, s + t) == Numbers(alphabet, s) + Numbers(alphabet, t)
  {
    if |s| > 0 {
      assert (s + t)[1..] == s[1..] + t;
      NumbersAppend(alphabet, s[1..], t);
    } else {
      assert s + t == t;
    }
  }

  /** Filtering works character by character and keeps the order: the
      filter of a concatenation is the concatenation of the filters. */
  lemma {:induction false} FilteredAppend(alphabet: string, s: string, t: string)
    ensures Filtered(alphabet, s + t) == Filtered(alphabet, s) + Filtered(alphabet, t)
  {
    if |s| > 0 {
      assert (s + t)[1..] == s[1..] + t;
      FilteredAppend(alphabet, s[1..], t);
    } else {
      assert s + t == t;
    }
  }

  /** On text made only of alphabet symbols, `numbers` is the position of
      each character in turn. */
  lemma {:induction false} NumbersAtPositions(alphabet: string, s: string)
    requires OverAlphabet(alphabet, s)
    ensures Numbers(alphabet, s) == seq(|s|, i requires 0 <= i < |s| => Find(alphabet, s[i]))
  {
    if |s| > 0 {
      NumbersAtPositions(alphabet, s[1..]);
    }
  }

  /** `numbers(s)` is the position of each character the filter keeps. */
  lemma NumbersAreFilteredPositions(alphabet: string, s: string)
    ensures var f := Filtered(alphabet, s);
            Numbers(alphabet, s) == seq(|f|, i requires 0 <= i < |f| => Find(alphabet, f[i]))
  {
    NumbersIgnoresDropped(alphabet, s);
    NumbersAtPositions(alphabet, Filtered(alphabet, s));
  }

  /** Over the shipped alphabet, each capital letter encodes to its
      distance from `A`. */
  lemma NumbersOverDefault(s: string)
    requires forall i :: 0 <= i < |s| ==> 'A' <= s[i] <= 'Z'
    ensures Numbers(Default, s) == seq(|s|, i requires 0 <= i < |s| => s[i] as int - 'A' as int)
  {
    forall i | 0 <= i < |s|
      ensures s[i] in Default
    {
      DefaultMembers(s[i]);
    }
    NumbersAtPositions(Default, s);
    var found := seq(|s|, i requires 0 <= i < |s| => Find(Default, s[i]));
    var offsets := seq(|s|, i requires 0 <= i < |s| => s[i] as int - 'A' as int);
    forall i | 0 <= i < |s|
      ensures found[i] == offsets[i]
    {
      DefaultFind(s[i]);
    }
    assert found == offsets;
  }

  /** The standard worked example's plaintext encodes as expected. */
  lemma WorkedExamplePlaintext()
    ensures Numbers(Default, "ATTACKATDAWN") == [0, 19, 19, 0, 2, 10, 0, 19, 3, 0, 22, 13]
  {
    NumbersOverDefault("ATTACKATDAWN");
  }

  /** Removing one character that is not a symbol of the alphabet does not
      change the encoding. */
  lemma NumbersDropsNonSymbol(alphabet: string, s: string, c: char, t: string)
    requires c !in alphabet
    ensures Numbers(alphabet, s + [c] + t) == Numbers(alphabet, s + t)
  {
    NumbersAppend(alphabet, s + [c], t);
    NumbersAppend(alphabet, s, [c]);
    NumbersAppend(alphabet, s, t);
  }
}
