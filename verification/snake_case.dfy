/**
 The ordering-enum member key of a field name: lodash `toUpper(snakeCase(name))`,
 restricted to ASCII. The name is split into words at every character that is
 not an ASCII letter or digit, between a lower-case and an upper-case letter,
 between a letter and a digit, and before the last capital of a run of
 capitals that is followed by a lower-case letter (`XMLHttp` is `XML`, `Http`);
 the words are joined with `_` and upper-cased.
 */
module SnakeCase {

  predicate IsUpper(c: char) { 'A' <= c <= 'Z' }
  predicate IsLower(c: char) { 'a' <= c <= 'z' }
  predicate IsDigit(c: char) { '0' <= c <= '9' }
  predicate IsWordChar(c: char) { IsUpper(c) || IsLower(c) || IsDigit(c) }

  /** A word character that a word may start with, once upper-cased. */
  predicate IsKeyChar(c: char) { IsUpper(c) || IsDigit(c) }

  function UpperChar(c: char): (u: char)
    ensures IsWordChar(c) ==> IsKeyChar(u)
    ensures !IsLower(c) ==> u == c
  {
    if IsLower(c) then (c as int - 'a' as int + 'A' as int) as char else c
  }

  /** Whether a new word starts at `s[i]`, given that `s[i - 1]` and `s[i]` are word characters. */
  predicate WordBreakBefore(s: string, i: nat)
    requires 0 < i < |s|
  {
    || (IsLower(s[i - 1]) && IsUpper(s[i]))
    || (IsDigit(s[i - 1]) != IsDigit(s[i]))
    || (IsUpper(s[i - 1]) && IsUpper(s[i]) && i + 1 < |s| && IsLower(s[i + 1]))
  }

  predicate IsWord(w: string) {
    |w| > 0 && forall c :: c in w ==> IsWordChar(c)
  }

  /**
   Where the word that starts at `s[0]` ends: the first position from `i` on
   that is past the end, not a word character, or the start of a new word.
   */
  function WordEnd(s: string, i: nat): (j: nat)
    requires 0 < i <= |s|
    ensures i <= j <= |s|
    decreases |s| - i
  {
    if i == |s| || !IsWordChar(s[i]) || WordBreakBefore(s, i) then i else WordEnd(s, i + 1)
  }

  /** The words of `s`, in order. */
  function Words(s: string): (ws: seq<string>)
    ensures |ws| <= |s|
    decreases |s|
  {
    if s == [] then []
    else if !IsWordChar(s[0]) then Words(s[1..])
    else
      var j := WordEnd(s, 1);
      [s[..j]] + Words(s[j..])
  }

  lemma {:induction false} WordEndSpansWordChars(s: string, i: nat)
    requires 0 < i <= |s|
    requires forall k :: 0 <= k < i ==> IsWordChar(s[k])
    ensures forall k :: 0 <= k < WordEnd(s, i) ==> IsWordChar(s[k])
    decreases |s| - i
  {
    if !(i == |s| || !IsWordChar(s[i]) || WordBreakBefore(s, i)) {
      WordEndSpansWordChars(s, i + 1);
    }
  }

  /** Every word is a non-empty run of ASCII letters and digits. */
  lemma {:induction false} WordsAreWords(s: string)
    ensures forall w :: w in Words(s) ==> IsWord(w)
    decreases |s|
  {
    if s != [] {
      if !IsWordChar(s[0]) {
        WordsAreWords(s[1..]);
      } else {
        var j := WordEnd(s, 1);
        WordEndSpansWordChars(s, 1);
        WordsAreWords(s[j..]);
        assert IsWord(s[..j]);
      }
    }
  }

  /** The ASCII letters and digits of `s`, in order. */
  function WordChars(s: string): (r: string)
    ensures |r| <= |s|
  {
    if s == [] then [] else (if IsWordChar(s[0]) then [s[0]] else []) + WordChars(s[1..])
  }

  /** The words written one after another. */
  function Concat(ws: seq<string>): string {
    if ws == [] then [] else ws[0] + Concat(ws[1..])
  }

  lemma {:induction false} WordCharsAppend(a: string, b: string)
    ensures WordChars(a + b) == WordChars(a) + WordChars(b)
    decreases |a|
  {
    if a != [] {
      assert (a + b)[1..] == a[1..] + b;
      WordCharsAppend(a[1..], b);
    } else {
      assert a + b == b;
    }
  }

  lemma {:induction false} WordCharsOfRun(w: string)
    requires forall k :: 0 <= k < |w| ==> IsWordChar(w[k])
    ensures WordChars(w) == w
    decreases |w|
  {
    if w != [] {
      WordCharsOfRun(w[1..]);
      assert w == [w[0]] + w[1..];
    }
  }

  /**
   The words are the name's letters and digits, in order, and nothing else:
   splitting drops only the separators.
   */
  lemma {:induction false} WordsSpellWordChars(s: string)
    ensures Concat(Words(s)) == WordChars(s)
    decreases |s|
  {
    if s != [] {
      if !IsWordChar(s[0]) {
        WordsSpellWordChars(s[1..]);
      } else {
        var j := WordEnd(s, 1);
        WordEndSpansWordChars(s, 1);
        WordsSpellWordChars(s[j..]);
        WordCharsOfRun(s[..j]);
        WordCharsAppend(s[..j], s[j..]);
        assert s[..j] + s[j..] == s;
        assert Words(s) == [s[..j]] + Words(s[j..]);
        assert Concat(Words(s)) == s[..j] + Concat(Words(s[j..]));
      }
    }
  }

  function UpperWord(w: string): (u: string)
    requires IsWord(w)
    ensures |u| == |w| && forall c :: c in u ==> IsKeyChar(c)
  {
    if |w| == 1 then [UpperChar(w[0])] else [UpperChar(w[0])] + UpperWord(w[1..])
  }

  /** The words joined by `_`, each upper-cased. */
  function JoinUpper(ws: seq<string>): (k: string)
    requires forall w :: w in ws ==> IsWord(w)
    ensures ws != [] <==> k != []
    ensures k != [] ==> IsKeyChar(k[0]) && IsKeyChar(k[|k| - 1])
    ensures forall c :: c in k ==> IsKeyChar(c) || c == '_'
  {
    if ws == [] then []
    else if |ws| == 1 then UpperWord(ws[0])
    else UpperWord(ws[0]) + "_" + JoinUpper(ws[1..])
  }

  /**
   `toUpper(snakeCase(fieldName))`: upper-case letters and digits in words
   separated by single underscores, with no underscore at either end.
   */
  function EnumKey(fieldName: string): (k: string)
    ensures forall c :: c in k ==> IsKeyChar(c) || c == '_'
    ensures k != [] ==> k[0] != '_' && k[|k| - 1] != '_'
  {
    WordsAreWords(fieldName);
    JoinUpper(Words(fieldName))
  }
}
