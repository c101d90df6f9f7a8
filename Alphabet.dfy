/** The alphabet: the ordered symbols that count as letters, and the
    lookups between a symbol and its position in that order. */
module Alphabets {

  /** The alphabet the program ships with: the 26 upper-case Latin letters
      `ABCDEFGHIJKLMNOPQRSTUVWXYZ`, in order. */
  const Default: string := seq(26, i requires 0 <= i < 26 => ('A' as int + i) as char)

  /** No symbol occurs twice. */
  predicate Distinct(alphabet: string) {
    forall i, j :: 0 <= i < j < |alphabet| ==> alphabet[i] != alphabet[j]
  }

  /** A usable alphabet: at least one symbol, none repeated. */
  predicate Valid(alphabet: string) {
    |alphabet| > 0 && Distinct(alphabet)
  }

  /** Python's `alphabet.find(c)` for a single character: the position of the
      first occurrence of `c`, or -1 when `c` is not a symbol of the alphabet. */
  function Find(alphabet: string, c: char): (r: int)
    ensures -1 <= r < |alphabet|
    ensures r == -1 <==> c !in alphabet
    ensures 0 <= r ==> alphabet[r] == c
    ensures forall j :: 0 <= j < r ==> alphabet[j] != c
  {
    if |alphabet| == 0 then -1
    else if alphabet[0] == c then 0
    else
      var r := Find(alphabet[1..], c);
      if r == -1 then -1 else r + 1
  }

  /** With distinct symbols, looking up the symbol at a position gives that
      position back: `find` undoes indexing. */
  lemma FindSymbolAt(alphabet: string, i: int)
    requires Distinct(alphabet)
    requires 0 <= i < |alphabet|
    ensures Find(alphabet, alphabet[i]) == i
  {
  }

  /** The symbols of the shipped alphabet are exactly the letters `A` to `Z`,
      in code-point order. */
  lemma DefaultMembers(c: char)
    ensures c in Default <==> 'A' <= c <= 'Z'
  {
    if 'A' <= c <= 'Z' {
      assert Default[c as int - 'A' as int] == c;
    }
  }

  /** The shipped alphabet is a valid one. */
  lemma DefaultIsValid()
    ensures Valid(Default)
  {
  }

  /** In the shipped alphabet a letter's position is its distance from `A`. */
  lemma DefaultFind(c: char)
    ensures Find(Default, c) == if 'A' <= c <= 'Z' then c as int - 'A' as int else -1
  {
    DefaultMembers(c);
    if 'A' <= c <= 'Z' {
      DefaultIsValid();
      assert Default[c as int - 'A' as int] == c;
      FindSymbolAt(Default, c as int - 'A' as int);
    }
  }
}
