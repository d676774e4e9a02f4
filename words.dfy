/**
 * The two string operations that `chunk_text` (app/embedder.py) is built
 * from: `str.split()` without a separator, which cuts a text into its
 * maximal runs of non-whitespace characters, and `" ".join(words)`, which
 * glues words together with single spaces.
 */
module Words {

  /** Python's `str.isspace` for one character (the code points `str.split()` cuts at). */
  predicate IsSpace(c: char)
  {
    var n := c as int;
    || 0x09 <= n <= 0x0D
    || 0x1C <= n <= 0x20
    || n == 0x85 || n == 0xA0 || n == 0x1680
    || 0x2000 <= n <= 0x200A
    || n == 0x2028 || n == 0x2029 || n == 0x202F || n == 0x205F || n == 0x3000
  }

  /** A word as `str.split()` yields it: non-empty and free of whitespace. */
  predicate IsWord(w: string)
  {
    |w| > 0 && forall i :: 0 <= i < |w| ==> !IsSpace(w[i])
  }

  /** The length of the longest whitespace-free prefix of `s`. */
  function WordLength(s: string): (n: nat)
    ensures n <= |s|
    ensures forall i :: 0 <= i < n ==> !IsSpace(s[i])
    ensures n < |s| ==> IsSpace(s[n])
  {
    if s == [] || IsSpace(s[0]) then 0 else 1 + WordLength(s[1..])
  }

  /** `s.split()`: the maximal whitespace-free runs of `s`, in order. */
  function Split(s: string): (words: seq<string>)
    ensures forall i :: 0 <= i < |words| ==> IsWord(words[i])
    decreases |s|
  {
    if s == [] then []
    else if IsSpace(s[0]) then Split(s[1..])
    else
      var n := WordLength(s);
      [s[..n]] + Split(s[n..])
  }

  /** `" ".join(words)`. */
  function Join(words: seq<string>): string
  {
    if words == [] then ""
    else if |words| == 1 then words[0]
    else words[0] + " " + Join(words[1..])
  }

  /** A text has no words exactly when it is empty or all whitespace. */
  lemma {:induction false} SplitBlank(s: string)
    ensures Split(s) == [] <==> forall i :: 0 <= i < |s| ==> IsSpace(s[i])
    decreases |s|
  {
    if s != [] && IsSpace(s[0]) {
      SplitBlank(s[1..]);
      assert forall i :: 0 < i < |s| ==> s[i] == s[1..][i - 1];
    }
  }

  /** A word followed by whitespace, or by nothing, is read as exactly that word. */
  lemma WordThenSpace(w: string, t: string)
    requires IsWord(w)
    requires t == [] || IsSpace(t[0])
    ensures WordLength(w + t) == |w|
    ensures (w + t)[..|w|] == w && (w + t)[|w|..] == t
  {
    assert forall i :: 0 <= i < |w| ==> (w + t)[i] == w[i];
    assert t != [] ==> (w + t)[|w|] == t[0];
  }

  /** Joining words with single spaces and splitting again gives the same words back. */
  lemma {:induction false} SplitJoin(words: seq<string>)
    requires forall i :: 0 <= i < |words| ==> IsWord(words[i])
    ensures Split(Join(words)) == words
  {
    if |words| == 1 {
      WordThenSpace(words[0], "");
      assert words[0] + "" == words[0];
    } else if |words| > 1 {
      var w, rest := words[0], Join(words[1..]);
      WordThenSpace(w, " " + rest);
      assert Join(words) == w + (" " + rest);
      assert Split(" " + rest) == Split(rest) by {
        assert (" " + rest)[1..] == rest;
      }
      SplitJoin(words[1..]);
    }
  }
}
