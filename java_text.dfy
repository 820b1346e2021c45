/** Java text as the namechanger handlers see it: a `String` is a sequence of
    UTF-16 code units (`char`), and `charAt`, `length` and `replace(char, char)`
    all work on code units, not on code points. */
module JavaText {

  /** One Java `char`: an unsigned 16-bit UTF-16 code unit, surrogates included. */
  newtype CodeUnit = x: int | 0 <= x < 0x1_0000

  /** A Java `String`, as the sequence of its code units. */
  type JavaString = seq<CodeUnit>

  predicate IsAscii(s: string) {
    forall k :: 0 <= k < |s| ==> s[k] < 128 as char
  }

  /** The code units of a string literal written in ASCII (as the reply prefixes are). */
  function FromAscii(s: string): JavaString
    requires IsAscii(s)
  {
    seq(|s|, k requires 0 <= k < |s| => s[k] as int as CodeUnit)
  }

  // ---------------------------------------------------------------------------
  // Reversal: the value a back-to-front copy of a string produces
  // ---------------------------------------------------------------------------

  /** `s` read back to front, element by element. */
  function Rev<T>(s: seq<T>): seq<T> {
    if s == [] then [] else Rev(s[1..]) + [s[0]]
  }

  /** Reversal keeps the length and puts element k of the result at position
      |s| - 1 - k of the input. */
  lemma {:induction false} RevAt<T>(s: seq<T>, k: int)
    requires 0 <= k < |s|
    ensures |Rev(s)| == |s|
    ensures Rev(s)[k] == s[|s| - 1 - k]
  {
    // Rev(s) is Rev(s[1..]) followed by s[0].
    RevLength(s[1..]);
    if k == |s| - 1 {
      // The last position holds the first element.
    } else {
      // Earlier positions lie inside Rev(s[1..]), where the tail is mirrored.
      RevAt(s[1..], k);
    }
  }

  lemma {:induction false} RevLength<T>(s: seq<T>)
    ensures |Rev(s)| == |s|
  {
    if s != [] {
      RevLength(s[1..]);
    }
  }

  /** Reversal is determined pointwise: any sequence of the same length whose
      element k is s[|s| - 1 - k] is the reversal of s. */
  lemma RevPointwise<T>(s: seq<T>, r: seq<T>)
    requires |r| == |s|
    requires forall k :: 0 <= k < |s| ==> r[k] == s[|s| - 1 - k]
    ensures r == Rev(s)
  {
    RevLength(s);
    forall k | 0 <= k < |s|
      ensures r[k] == Rev(s)[k]
    {
      RevAt(s, k);
    }
  }

  /** Peeling one element off the front: the reversal of x :: s ends with x. */
  lemma RevCons<T>(x: T, s: seq<T>)
    ensures Rev([x] + s) == Rev(s) + [x]
  {
  }

  /** Reversing twice gives back the original sequence. */
  lemma {:induction false} RevInvolution<T>(s: seq<T>)
    ensures Rev(Rev(s)) == s
  {
    RevLength(s);
    RevLength(Rev(s));
    forall k | 0 <= k < |s|
      ensures Rev(Rev(s))[k] == s[k]
    {
      RevAt(Rev(s), k);
      RevAt(s, |s| - 1 - k);
    }
  }

  // ---------------------------------------------------------------------------
  // String.replace(char oldChar, char newChar)
  // ---------------------------------------------------------------------------

  /** `s.replace(oldChar, newChar)`: every occurrence of the code unit oldChar is
      replaced by newChar, and every other code unit is kept in place. */
  function Replace(s: JavaString, oldChar: CodeUnit, newChar: CodeUnit): (r: JavaString)
    ensures |r| == |s|
    ensures forall k :: 0 <= k < |s| ==> r[k] == if s[k] == oldChar then newChar else s[k]
  {
    if s == [] then []
    else [if s[0] == oldChar then newChar else s[0]] + Replace(s[1..], oldChar, newChar)
  }

  /** When oldChar does not occur, replace returns the string unchanged. */
  lemma ReplaceAbsent(s: JavaString, oldChar: CodeUnit, newChar: CodeUnit)
    requires oldChar !in s
    ensures Replace(s, oldChar, newChar) == s
  {
  }

  /** After replacing oldChar by a different code unit, oldChar no longer occurs. */
  lemma ReplaceEliminates(s: JavaString, oldChar: CodeUnit, newChar: CodeUnit)
    requires oldChar != newChar
    ensures oldChar !in Replace(s, oldChar, newChar)
  {
  }

  /** Replacing a second time changes nothing more. */
  lemma ReplaceIdempotent(s: JavaString, oldChar: CodeUnit, newChar: CodeUnit)
    ensures Replace(Replace(s, oldChar, newChar), oldChar, newChar) == Replace(s, oldChar, newChar)
  {
  }

  /** Replacing commutes with reversal: neither looks at a neighbour. */
  lemma ReplaceRev(s: JavaString, oldChar: CodeUnit, newChar: CodeUnit)
    ensures Replace(Rev(s), oldChar, newChar) == Rev(Replace(s, oldChar, newChar))
  {
  }
}
