// String helpers the core uses from the server's tools (not part of this model):
// ASCII lower-casing, C isspace, space trimming, the first line of a text and the comma split.
module Text {
  /** C `isspace` in the "C" locale. */
  predicate IsSpace(c: char) {
    c == ' ' || c == '\t' || c == '\n' || c == '\U{B}' || c == '\U{C}' || c == '\r'
  }

  /** `tolower` in the "C" locale: only A-Z change. */
  function LowerChar(c: char): (r: char)
    ensures 'A' <= c <= 'Z' ==> r as int == c as int + 32
    ensures !('A' <= c <= 'Z') ==> r == c
  {
    if 'A' <= c <= 'Z' then (c as int + 32) as char else c
  }

  /** asLowerCaseString: every character lower-cased, same length. */
  function ToLower(s: string): (r: string)
    ensures |r| == |s|
    ensures forall i :: 0 <= i < |s| ==> r[i] == LowerChar(s[i])
  {
    if s == [] then [] else [LowerChar(s[0])] + ToLower(s[1..])
  }

  /** Lower-casing twice is lower-casing once, so lower-cased keys are fixed points. */
  lemma ToLowerIdempotent(s: string)
    ensures ToLower(ToLower(s)) == ToLower(s)
  {
    assert forall i :: 0 <= i < |s| ==> LowerChar(LowerChar(s[i])) == LowerChar(s[i]);
  }

  /** caseInsensitiveCompare: equal after lower-casing. */
  predicate EqualsIgnoreCase(a: string, b: string) {
    ToLower(a) == ToLower(b)
  }

  /** Every character of `s` is `c`. */
  predicate Repeats(s: string, c: char) {
    s == [] || (s[0] == c && Repeats(s[1..], c))
  }

  lemma {:induction false} RepeatsAt(s: string, c: char, i: nat)
    requires Repeats(s, c) && i < |s|
    ensures s[i] == c
  {
    if i > 0 {
      RepeatsAt(s[1..], c, i - 1);
    }
  }

  lemma {:induction false} RepeatsSnoc(s: string, c: char)
    requires Repeats(s, c)
    ensures Repeats(s + [c], c)
  {
    if s != [] {
      assert (s + [c])[1..] == s[1..] + [c];
      RepeatsSnoc(s[1..], c);
    }
  }

  /** trim_left(s, c): the characters `c` at the front removed. */
  function TrimLeft(s: string, c: char): (r: string)
    ensures |r| <= |s| && r == s[|s| - |r|..]
    ensures Repeats(s[..|s| - |r|], c)
    ensures r == [] || r[0] != c
  {
    if s != [] && s[0] == c then
      var r := TrimLeft(s[1..], c);
      assert s[..|s| - |r|][1..] == s[1..][..|s| - 1 - |r|];
      r
    else s
  }

  /** trim_right(s, c): the characters `c` at the back removed. */
  function TrimRight(s: string, c: char): (r: string)
    ensures |r| <= |s| && r == s[..|r|]
    ensures Repeats(s[|r|..], c)
    ensures r == [] || r[|r| - 1] != c
  {
    if s != [] && s[|s| - 1] == c then
      var r := TrimRight(s[..|s| - 1], c);
      assert s[|r|..] == s[..|s| - 1][|r|..] + [c];
      RepeatsSnoc(s[..|s| - 1][|r|..], c);
      r
    else s
  }

  /** trimString: spaces removed at both ends. */
  function Trim(s: string): (r: string)
    ensures r == [] || (r[0] != ' ' && r[|r| - 1] != ' ')
    ensures |r| <= |s|
    ensures s == [] || (s[0] != ' ' && s[|s| - 1] != ' ') ==> r == s
  {
    TrimLeft(TrimRight(s, ' '), ' ')
  }

  /** getFirstLine: the characters before the first newline. */
  function FirstLine(s: string): (r: string)
    ensures |r| <= |s| && r == s[..|r|]
    ensures '\n' !in r
    ensures |r| < |s| ==> s[|r|] == '\n'
  {
    if s == [] || s[0] == '\n' then [] else [s[0]] + FirstLine(s[1..])
  }

  /** The text before the first whitespace character. */
  function FirstWord(s: string): (r: string)
    ensures |r| <= |s| && r == s[..|r|]
    ensures forall i :: 0 <= i < |r| ==> !IsSpace(r[i])
    ensures |r| < |s| ==> IsSpace(s[|r|])
  {
    if s == [] || IsSpace(s[0]) then [] else [s[0]] + FirstWord(s[1..])
  }

  /** The pieces of `s` between commas, left to right; a string without a comma is one piece. */
  function SplitAtCommas(s: string): (r: seq<string>)
    ensures |r| >= 1
    ensures forall i :: 0 <= i < |r| ==> ',' !in r[i]
    ensures ',' !in s ==> r == [s]
  {
    if s == [] then [[]]
    else if s[0] == ',' then [[]] + SplitAtCommas(s[1..])
    else
      var rest := SplitAtCommas(s[1..]);
      assert [s[0]] + s[1..] == s;
      [[s[0]] + rest[0]] + rest[1..]
  }

  /** Joining the pieces with commas gives back the original string. */
  lemma {:induction false} SplitAtCommasJoins(s: string)
    ensures JoinWithCommas(SplitAtCommas(s)) == s
  {
    if s == [] {
    } else if s[0] == ',' {
      SplitAtCommasJoins(s[1..]);
      assert SplitAtCommas(s) == [[]] + SplitAtCommas(s[1..]);
      JoinCons([], SplitAtCommas(s[1..]));
    } else {
      var rest := SplitAtCommas(s[1..]);
      SplitAtCommasJoins(s[1..]);
      assert [[s[0]] + rest[0]] + rest[1..] == SplitAtCommas(s);
      assert [s[0]] + s[1..] == s;
      if |rest| > 1 {
        JoinCons(rest[0], rest[1..]);
        assert [rest[0]] + rest[1..] == rest;
        JoinCons([s[0]] + rest[0], rest[1..]);
      }
    }
  }

  /** The pieces joined with a comma between each two. */
  function JoinWithCommas(pieces: seq<string>): string
    requires |pieces| >= 1
  {
    if |pieces| == 1 then pieces[0] else pieces[0] + "," + JoinWithCommas(pieces[1..])
  }

  lemma JoinCons(head: string, tail: seq<string>)
    requires |tail| >= 1
    ensures JoinWithCommas([head] + tail) == head + "," + JoinWithCommas(tail)
  {
    assert ([head] + tail)[1..] == tail;
  }

  /** split(s): the tokens a std::getline loop on ',' yields, each with its surrounding spaces
      trimmed; a final empty piece (after a last comma, or of the empty string) is no token. */
  function SplitWords(s: string): (r: seq<string>)
    ensures var pieces := SplitAtCommas(s);
      var n := if pieces[|pieces| - 1] == [] then |pieces| - 1 else |pieces|;
      |r| == n && forall i :: 0 <= i < n ==> r[i] == Trim(pieces[i])
  {
    var pieces := SplitAtCommas(s);
    var n := if pieces[|pieces| - 1] == [] then |pieces| - 1 else |pieces|;
    seq(n, i requires 0 <= i < n => Trim(pieces[i]))
  }
}
