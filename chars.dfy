/** Character classes used by the text-scoring engine: the word characters
    of the `\w` regular-expression class and lower-casing, both restricted
    to ASCII. */
module CharClass {

  /** A word character: an ASCII letter, an ASCII digit or the underscore.
      Every word character is ASCII. */
  function IsWordChar(c: char): (b: bool)
    ensures b ==> c as int < 128
  {
    ('a' <= c <= 'z') || ('A' <= c <= 'Z') || ('0' <= c <= '9') || c == '_'
  }

  predicate IsUpper(c: char) {
    'A' <= c <= 'Z'
  }

  /** ASCII lower-casing of one character; every other character is kept. */
  function LowerChar(c: char): char {
    if IsUpper(c) then (c as int + 32) as char else c
  }

  /** ASCII lower-casing of a string, character by character: no capital
      is left, only capitals change, and word characters stay word
      characters. */
  function Lower(s: string): (r: string)
    ensures |r| == |s|
    ensures forall i :: 0 <= i < |s| ==> !IsUpper(r[i])
    ensures forall i :: 0 <= i < |s| ==> r[i] == s[i] || IsUpper(s[i])
    ensures forall i :: 0 <= i < |s| ==> IsWordChar(r[i]) == IsWordChar(s[i])
  {
    seq(|s|, i requires 0 <= i < |s| => LowerChar(s[i]))
  }

  /** The only characters that lower-case to a given lower-case letter are
      that letter and its capital. */
  lemma LowerCharInverse(c: char, d: char)
    requires 'a' <= d <= 'z'
    ensures LowerChar(c) == d <==> c == d || c as int == d as int - 32
  {
  }

  /** `w.lower() == "i"` holds exactly for "i" and "I". */
  lemma LowerIsI(w: string)
    ensures Lower(w) == "i" <==> w == "i" || w == "I"
  {
    if Lower(w) == "i" {
      assert |w| == 1;
      assert Lower(w)[0] == LowerChar(w[0]);
      LowerCharInverse(w[0], 'i');
      assert w == [w[0]];
    }
    if w == "i" || w == "I" {
      assert Lower(w)[0] == 'i';
    }
  }

  /** `w.lower() == "we"` holds exactly for the four capitalisations of "we". */
  lemma LowerIsWe(w: string)
    ensures Lower(w) == "we" <==> w in {"we", "We", "wE", "WE"}
  {
    if Lower(w) == "we" {
      assert |w| == 2;
      assert Lower(w)[0] == LowerChar(w[0]) && Lower(w)[1] == LowerChar(w[1]);
      LowerCharInverse(w[0], 'w');
      LowerCharInverse(w[1], 'e');
      assert w == [w[0], w[1]];
    }
    if w in {"we", "We", "wE", "WE"} {
      assert Lower(w)[0] == 'w' && Lower(w)[1] == 'e';
    }
  }
}
