/** Splitting text: whitespace-delimited tokens of a command line, and the lines of a script. */
module Tokens {
  import opened Platform

  predicate IsSpace(c: char): (b: bool)
    ensures b <==> c as int == 32 || 9 <= c as int <= 13
  {
    c == ' ' || c == '\n' || c == '\r' || c == '\t' || c == 11 as char || c == 12 as char
  }

  /** The C string at the start of `s`. */
  function CStr(s: string): (r: string)
    ensures r <= s && NUL !in r
    ensures |r| < |s| ==> s[|r|] == NUL
  {
    if s == [] || s[0] == NUL then [] else [s[0]] + CStr(s[1..])
  }

  /** Length of the leading run of characters that are not white space. */
  function WordRun(s: string): (n: nat)
    ensures n <= |s| && forall i :: 0 <= i < n ==> !IsSpace(s[i])
    ensures n < |s| ==> IsSpace(s[n])
  {
    if s == [] || IsSpace(s[0]) then 0 else 1 + WordRun(s[1..])
  }

  /** The maximal runs of non-space characters, in order. */
  function Split(s: string): (tokens: seq<string>)
    decreases |s|
  {
    if s == [] then [] else if IsSpace(s[0]) then Split(s[1..]) else [s[..WordRun(s)]] + Split(s[WordRun(s)..])
  }

  ghost predicate IsToken(t: string) { t != [] && forall i :: 0 <= i < |t| ==> !IsSpace(t[i]) }

  function Join(tokens: seq<string>): string {
    if tokens == [] then [] else [' '] + (tokens[0] + Join(tokens[1..]))
  }

  lemma {:induction false} SplitTokens(s: string)
    ensures forall t :: t in Split(s) ==> IsToken(t)
    decreases |s|
  {
    if s != [] {
      if IsSpace(s[0]) { SplitTokens(s[1..]); } else { SplitTokens(s[WordRun(s)..]); }
    }
  }

  /** Splitting is the inverse of joining with spaces. */
  lemma {:induction false} SplitJoin(tokens: seq<string>)
    requires forall t :: t in tokens ==> IsToken(t)
    ensures Split(Join(tokens)) == tokens
  {
    if tokens != [] {
      var t, rest := tokens[0], Join(tokens[1..]);
      assert IsToken(t);
      assert Join(tokens)[1..] == t + rest;
      SplitWord(t, rest);
      SplitJoin(tokens[1..]);
    }
  }

  lemma SplitWord(t: string, rest: string)
    requires IsToken(t) && (rest == [] || IsSpace(rest[0]))
    ensures Split(t + rest) == [t] + Split(rest)
  {
    WordRunOf(t, rest);
    assert (t + rest)[|t|..] == rest && (t + rest)[..|t|] == t;
  }

  lemma {:induction false} WordRunOf(t: string, rest: string)
    requires (forall i :: 0 <= i < |t| ==> !IsSpace(t[i])) && (rest == [] || IsSpace(rest[0]))
    ensures WordRun(t + rest) == |t|
  {
    if t == [] {
      assert t + rest == rest;
    } else {
      assert (t + rest)[1..] == t[1..] + rest;
      WordRunOf(t[1..], rest);
    }
  }

  /** Length of the first line of `s`, excluding its newline. */
  function Eol(s: string): (n: nat)
    ensures n <= |s| && '\n' !in s[..n]
    ensures n < |s| ==> s[n] == '\n'
  {
    if s == [] || s[0] == '\n' then 0 else 1 + Eol(s[1..])
  }

  /** The newline-separated lines; a final newline does not start another line. */
  function Lines(s: string): (lines: seq<string>)
    ensures lines != []
    decreases |s|
  {
    var e := Eol(s);
    if e + 1 >= |s| then [s[..e]] else [s[..e]] + Lines(s[e + 1..])
  }

  /** Byte offset at which line `k` starts (for the line after the last: where the script ends). */
  function Start(s: string, k: nat): nat
    requires k <= |Lines(s)|
    decreases |s|
  {
    var e := Eol(s);
    if k == 0 then 0 else if e + 1 >= |s| then e + 1 else e + 1 + Start(s[e + 1..], k - 1)
  }

  lemma Unfold(s: string, k: nat)
    requires 0 < k <= |Lines(s)| && Eol(s) + 1 < |s|
    ensures var t := s[Eol(s) + 1..];
            |Lines(t)| == |Lines(s)| - 1 && Lines(s)[k..] == Lines(t)[k - 1..]
            && Start(s, k) == Eol(s) + 1 + Start(t, k - 1)
  {
    var t := s[Eol(s) + 1..];
    assert Lines(s) == [s[..Eol(s)]] + Lines(t);
    assert Lines(s)[1..] == Lines(t);
    assert Lines(s)[k..] == Lines(s)[1..][k - 1..];
  }

  lemma FirstLine(s: string)
    ensures Start(s, 0) == 0 && s[0..] == s && Lines(s)[0..] == Lines(s) && Start(s, 1) == Eol(s) + 1
  {
    if Eol(s) + 1 < |s| { Unfold(s, 1); }
  }

  /** Offsets and line numbers correspond: the text from `Start(s, k)` on holds lines `k` onwards. */
  lemma {:induction false} StartMeaning(s: string, k: nat)
    requires k < |Lines(s)|
    ensures Start(s, k) <= |s| && Lines(s[Start(s, k)..]) == Lines(s)[k..]
    ensures Start(s, k + 1) == Start(s, k) + Eol(s[Start(s, k)..]) + 1
    decreases |s|
  {
    if k == 0 {
      FirstLine(s);
    } else {
      assert Eol(s) + 1 < |s|;
      var t := s[Eol(s) + 1..];
      Unfold(s, k);
      Unfold(s, k + 1);
      StartMeaning(t, k - 1);
      assert s[Start(s, k)..] == t[Start(t, k - 1)..];
    }
  }

  /** Reading the line at `Start(s, k)` gives line `k` and leads to `Start(s, k + 1)`, which is
      past the end exactly after the last line. */
  lemma NextLine(s: string, k: nat)
    requires k < |Lines(s)|
    ensures var o := Start(s, k);
            && o <= |s|
            && s[o..][..Eol(s[o..])] == Lines(s)[k]
            && Start(s, k + 1) == o + Eol(s[o..]) + 1
            && (Start(s, k + 1) < |s| <==> k + 1 < |Lines(s)|)
  {
    StartMeaning(s, k);
    var t := s[Start(s, k)..];
    assert Lines(t) == Lines(s)[k..];
    assert |Lines(t)| == 1 <==> Eol(t) + 1 >= |t|;
  }
}
