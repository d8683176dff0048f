/** Comparing strings without regard to the case of ASCII letters. */
module CaseFold {

  const CAPITALS := "ABCDEFGHIJKLM" + "NOPQRSTUVWXYZ"
  const LETTERS := "abcdefghijklm" + "nopqrstuvwxyz"

  function LowerChar(c: char): char {
    if 'A' <= c <= 'Z' then (c as int + 32) as char else c
  }

  function Lower(s: string): (t: string)
    ensures |t| == |s|
    ensures forall i :: 0 <= i < |s| ==> t[i] == LowerChar(s[i])
  {
    if s == [] then [] else [LowerChar(s[0])] + Lower(s[1..])
  }

  /** strcasecmp(a, b) == 0. */
  predicate Same(a: string, b: string) {
    Lower(a) == Lower(b)
  }

  /** A capital is lowered to the letter at the same place, and nothing else changes. */
  lemma LowerIsLetter(c: char)
    ensures |CAPITALS| == |LETTERS| == 26
    ensures forall i :: 0 <= i < 26 && CAPITALS[i] == c ==> LowerChar(c) == LETTERS[i]
    ensures c !in CAPITALS ==> LowerChar(c) == c
  {
    forall i | 0 <= i < 26 ensures CAPITALS[i] as int == 65 + i && LETTERS[i] as int == 97 + i {
    }
    if 'A' <= c <= 'Z' {
      assert CAPITALS[c as int - 65] == c;
    }
  }

  /** The same length, and at every place the same letter, large or small. */
  lemma SameExactly(a: string, b: string)
    ensures Same(a, b) <==> |a| == |b| && forall i :: 0 <= i < |a| ==> LowerChar(a[i]) == LowerChar(b[i])
  {
    if Same(a, b) {
      forall i | 0 <= i < |a| ensures LowerChar(a[i]) == LowerChar(b[i]) {
        assert Lower(a)[i] == Lower(b)[i];
      }
    }
  }
}
