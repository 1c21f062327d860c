/** The parts of `java.lang.String` that the core relies on: ASCII case mapping,
    `trim()` and the single-space `split(" ")`. */
module Text {

  /** Java's `toLowerCase()` restricted to the ASCII letters. */
  function LowerChar(c: char): (r: char)
    ensures 'A' <= c <= 'Z' ==> r as int == c as int + 32
    ensures !('A' <= c <= 'Z') ==> r == c
  {
    if 'A' <= c <= 'Z' then (c as int + 32) as char else c
  }

  /** Java's `toUpperCase()` restricted to the ASCII letters. */
  function UpperChar(c: char): (r: char)
    ensures 'a' <= c <= 'z' ==> r as int == c as int - 32
    ensures !('a' <= c <= 'z') ==> r == c
  {
    if 'a' <= c <= 'z' then (c as int - 32) as char else c
  }

  function ToLower(s: string): (r: string)
    ensures |r| == |s|
    ensures forall i :: 0 <= i < |s| ==> r[i] == LowerChar(s[i])
  {
    if s == [] then [] else [LowerChar(s[0])] + ToLower(s[1..])
  }

  function ToUpper(s: string): (r: string)
    ensures |r| == |s|
    ensures forall i :: 0 <= i < |s| ==> r[i] == UpperChar(s[i])
  {
    if s == [] then [] else [UpperChar(s[0])] + ToUpper(s[1..])
  }

  /** Upper-casing leaves no ASCII lower-case letter behind, and doing it twice
      is the same as doing it once. */
  lemma UpperIdempotent(s: string)
    ensures forall i :: 0 <= i < |ToUpper(s)| ==> !('a' <= ToUpper(s)[i] <= 'z')
    ensures ToUpper(ToUpper(s)) == ToUpper(s)
  {
  }

  /** Two strings that differ only in the case of their ASCII letters
      upper-case to the same string. */
  lemma UpperIgnoresCase(s: string)
    ensures ToUpper(ToLower(s)) == ToUpper(s)
  {
  }

  /** The characters `trim()` removes: every code point up to and including U+0020. */
  predicate IsTrimmed(c: char)
  {
    c <= ' '
  }

  /** The first index from `i` on whose character is not trimmed (or `|s|`). */
  function TrimFrom(s: string, i: nat): (st: nat)
    requires i <= |s|
    ensures i <= st <= |s|
    ensures forall k :: i <= k < st ==> IsTrimmed(s[k])
    ensures st < |s| ==> !IsTrimmed(s[st])
    decreases |s| - i
  {
    if i < |s| && IsTrimmed(s[i]) then TrimFrom(s, i + 1) else i
  }

  /** The end of the slice from `st` once the trimmed characters before
      `len` are dropped. */
  function TrimTo(s: string, st: nat, len: nat): (end: nat)
    requires st <= len <= |s|
    ensures st <= end <= len
    ensures forall k :: end <= k < len ==> IsTrimmed(s[k])
    ensures end > st ==> !IsTrimmed(s[end - 1])
    decreases len
  {
    if st < len && IsTrimmed(s[len - 1]) then TrimTo(s, st, len - 1) else len
  }

  /** Java's `String.trim()`: the longest slice of `s` that neither starts nor
      ends with a character of code U+0020 or below. It advances a start index
      over trimmed characters, then moves the end back over them. */
  function Trim(s: string): (r: string)
    ensures exists i, j ::
              && 0 <= i <= j <= |s| && r == s[i..j]
              && (forall k :: 0 <= k < i ==> IsTrimmed(s[k]))
              && (forall k :: j <= k < |s| ==> IsTrimmed(s[k]))
    ensures r != [] ==> !IsTrimmed(r[0]) && !IsTrimmed(r[|r| - 1])
    ensures (forall k :: 0 <= k < |s| ==> !IsTrimmed(s[k])) ==> r == s
  {
    var st := TrimFrom(s, 0);
    var len := TrimTo(s, st, |s|);
    assert len > st ==> s[st..len][0] == s[st] && s[st..len][len - st - 1] == s[len - 1];
    s[st..len]
  }

  /** The pieces of `s` between single spaces, empty pieces included. */
  function Fields(s: string): (r: seq<string>)
    ensures |r| >= 1
    ensures forall k :: 0 <= k < |r| ==> ' ' !in r[k]
  {
    if s == [] then [[]]
    else if s[0] == ' ' then [[]] + Fields(s[1..])
    else var rest := Fields(s[1..]); [[s[0]] + rest[0]] + rest[1..]
  }

  /** The pieces joined back with single spaces. */
  function JoinSpaces(parts: seq<string>): string
    requires |parts| >= 1
  {
    if |parts| == 1 then parts[0] else parts[0] + " " + JoinSpaces(parts[1..])
  }

  /** Fields loses nothing: joining the pieces with spaces gives the string back. */
  lemma {:induction false} JoinFields(s: string)
    ensures JoinSpaces(Fields(s)) == s
  {
    if s == [] {
    } else if s[0] == ' ' {
      JoinFields(s[1..]);
      var rest := Fields(s[1..]);
      assert Fields(s) == [[]] + rest;
      assert Fields(s)[1..] == rest;
    } else {
      JoinFields(s[1..]);
      var rest := Fields(s[1..]);
      var f := Fields(s);
      assert f == [[s[0]] + rest[0]] + rest[1..];
      if |rest| == 1 {
        assert f == [[s[0]] + rest[0]];
      } else {
        assert f[1..] == rest[1..];
        assert JoinSpaces(rest) == rest[0] + " " + JoinSpaces(rest[1..]);
      }
    }
  }

  function DropTrailingEmpty(parts: seq<string>): (r: seq<string>)
    ensures |r| <= |parts| && r == parts[..|r|]
    ensures r != [] ==> r[|r| - 1] != []
    ensures forall k :: |r| <= k < |parts| ==> parts[k] == []
  {
    if parts != [] && parts[|parts| - 1] == [] then DropTrailingEmpty(parts[..|parts| - 1]) else parts
  }

  /** Java's `s.split(" ")`: a string without a space comes back whole (even the
      empty string); otherwise the pieces between spaces, with the trailing
      empty pieces dropped (so a string of spaces gives no pieces at all). */
  function SplitSpaces(s: string): (r: seq<string>)
    ensures ' ' !in s ==> r == [s]
    ensures ' ' in s ==> r == DropTrailingEmpty(Fields(s))
    ensures forall k :: 0 <= k < |r| ==> ' ' !in r[k]
  {
    if ' ' !in s then [s] else DropTrailingEmpty(Fields(s))
  }

  /** A word followed by a space comes off as the first piece. */
  lemma {:induction false} FieldsAfterWord(word: string, rest: string)
    requires ' ' !in word
    ensures Fields(word + " " + rest) == [word] + Fields(rest)
  {
    var s := word + " " + rest;
    if word == [] {
      assert s[1..] == rest;
    } else {
      assert s[1..] == word[1..] + " " + rest;
      FieldsAfterWord(word[1..], rest);
      assert [word[0]] + word[1..] == word;
    }
  }

  /** `split(" ")` of a non-empty word, a space and anything else starts
      with that word. */
  lemma SplitFirstWord(word: string, rest: string)
    requires word != [] && ' ' !in word
    ensures SplitSpaces(word + " " + rest) != [] && SplitSpaces(word + " " + rest)[0] == word
  {
    var s := word + " " + rest;
    assert s[|word|] == ' ';
    FieldsAfterWord(word, rest);
    var parts := Fields(s);
    assert parts[0] == word;
  }

  /** A string made only of spaces splits into nothing. */
  lemma {:induction false} SpacesSplitToNothing(n: nat)
    requires n >= 1
    ensures SplitSpaces(seq(n, _ => ' ')) == []
  {
    var s := seq(n, _ => ' ');
    assert s[0] == ' ';
    AllEmptyFields(s);
    var f := Fields(s);
    DropAllEmpty(f);
  }

  lemma {:induction false} AllEmptyFields(s: string)
    requires forall k :: 0 <= k < |s| ==> s[k] == ' '
    ensures forall k :: 0 <= k < |Fields(s)| ==> Fields(s)[k] == []
  {
    if s != [] {
      AllEmptyFields(s[1..]);
    }
  }

  lemma {:induction false} DropAllEmpty(parts: seq<string>)
    requires forall k :: 0 <= k < |parts| ==> parts[k] == []
    ensures DropTrailingEmpty(parts) == []
  {
    if parts != [] {
      DropAllEmpty(parts[..|parts| - 1]);
    }
  }
}
