/** Splitting a command line in place: white space becomes NULs and tokens become pointers. */
module CommandLine {
  import opened Platform
  import opened Tokens

  /** The tokens found so far end by `limit`, each followed by a NUL unless it ends at or after `p`. */
  ghost predicate Marked(s: string, p: nat, limit: nat, found: seq<string>, starts: seq<nat>)
    requires p <= |s|
  {
    |starts| == |found| && limit <= p &&
    forall i :: 0 <= i < |found| ==> MarkedAt(s, p, limit, found[i], starts[i])
  }

  ghost predicate MarkedAt(s: string, p: nat, limit: nat, token: string, start: nat)
    requires p <= |s|
  {
    var e := start + |token|;
    e <= limit <= p && s[start..e] == token && (e < p ==> s[e] == NUL)
  }

  lemma MarkSpace(s: string, p: nat, limit: nat, found: seq<string>, starts: seq<nat>)
    requires p < |s| && Marked(s, p, limit, found, starts)
    ensures Marked(s[p := NUL], p + 1, limit, found, starts)
  {
    forall i | 0 <= i < |found| ensures MarkedAt(s[p := NUL], p + 1, limit, found[i], starts[i]) {
      assert MarkedAt(s, p, limit, found[i], starts[i]);
      var e := starts[i] + |found[i]|;
      assert s[p := NUL][starts[i]..e] == s[starts[i]..e];
    }
  }

  lemma MarkWord(s: string, p: nat, limit: nat, q: nat, found: seq<string>, starts: seq<nat>)
    requires p <= q <= |s| && Marked(s, p, limit, found, starts) && (found != [] ==> limit < p)
    ensures Marked(s, q, q, found + [s[p..q]], starts + [p])
  {
    forall i | 0 <= i < |found| + 1 ensures MarkedAt(s, q, q, (found + [s[p..q]])[i], (starts + [p])[i]) {
      if i < |found| { assert MarkedAt(s, p, limit, found[i], starts[i]); }
    }
  }

  lemma {:induction false} CStrOf(s: string, n: nat)
    requires n < |s| && s[n] == NUL && NUL !in s[..n]
    ensures CStr(s) == s[..n]
  {
    if n > 0 {
      assert s[0] in s[..n];
      assert s[1..][..n - 1] == s[..n][1..];
      CStrOf(s[1..], n - 1);
    }
  }

  /** Marked tokens can be read back as C strings. */
  lemma ReadMarked(s: string, p: nat, found: seq<string>, starts: seq<nat>)
    requires p < |s| && s[p] == NUL && Marked(s, p, p, found, starts)
    requires forall i :: 0 <= i < |found| ==> NUL !in found[i]
    ensures forall i :: 0 <= i < |found| ==> starts[i] <= p && CStr(s[starts[i]..]) == found[i]
  {
    forall i | 0 <= i < |found| ensures starts[i] <= p && CStr(s[starts[i]..]) == found[i] {
      assert MarkedAt(s, p, p, found[i], starts[i]);
      var t, n := s[starts[i]..], |found[i]|;
      assert t[..n] == found[i] && t[n] == s[starts[i] + n];
      CStrOf(t, n);
    }
  }

  /** Skip white space, overwriting it if tokens are stored. */
  method SkipSpace(command: array<char>, store: bool, p0: nat, ghost text: string, ghost found: seq<string>, ghost starts: seq<nat>)
    returns (p: nat)
    requires p0 <= |text| < command.Length && command[p0..|text|] == text[p0..] && command[|text|] == NUL && NUL !in text
    requires store ==> Marked(command[..], p0, p0, found, starts)
    modifies command
    ensures p0 <= p <= |text| && Split(text[p..]) == Split(text[p0..])
    ensures command[p..|text|] == text[p..] && command[|text|] == NUL && !IsSpace(command[p])
    ensures p < |text| ==> command[p] != NUL
    ensures IsSpace(old(command[p0])) ==> p0 < p
    ensures !store ==> command[..] == old(command[..])
    ensures store ==> Marked(command[..], p, p0, found, starts)
  {
    p := p0;
    while IsSpace(command[p])
      invariant p0 <= p <= |text| && Split(text[p..]) == Split(text[p0..])
      invariant command[p..|text|] == text[p..] && command[|text|] == NUL
      invariant !store ==> command[..] == old(command[..])
      invariant p == p0 ==> command[..] == old(command[..])
      invariant store ==> Marked(command[..], p, p0, found, starts)
      decreases |text| - p
    {
      assert p < |text| && command[p] == command[p..|text|][0] == text[p];
      assert text[p..][1..] == text[p + 1..];
      ghost var s := command[..];
      if store {
        MarkSpace(s, p, p0, found, starts);
        command[p] := NUL;
        assert command[..] == s[p := NUL];
      }
      assert command[p + 1..|text|] == s[p..|text|][1..] == text[p + 1..];
      p := p + 1;
    }
    assert p < |text| ==> command[p] == command[p..|text|][0] == text[p];
  }

  /** Find the end of the word that starts at `p`. */
  method SkipWord(command: array<char>, p: nat, ghost text: string) returns (q: nat)
    requires p < |text| < command.Length && command[p..|text|] == text[p..] && command[|text|] == NUL && NUL !in text
    requires !IsSpace(text[p])
    ensures p < q <= |text| && Split(text[p..]) == [text[p..q]] + Split(text[q..])
    ensures q < |text| ==> IsSpace(command[q])
  {
    q := p;
    while command[q] != NUL && !IsSpace(command[q])
      invariant p <= q <= |text| && forall j :: p <= j < q ==> !IsSpace(text[j])
      decreases |text| - q
    {
      assert q < |text| && command[q] == command[p..|text|][q - p] == text[q];
      q := q + 1;
    }
    assert q < |text| ==> command[q] == command[p..|text|][q - p] == text[q];
    assert text[p..] == text[p..q] + text[q..];
    SplitWord(text[p..q], text[q..]);
  }

  /** The text from `p` on is still as it was, and a word or the end comes next. */
  ghost predicate AtWord(s: string, p: nat, text: string) {
    && p <= |text| < |s| && s[p..|text|] == text[p..] && s[|text|] == NUL
    && (p < |text| ==> s[p] == text[p] && !IsSpace(text[p]) && text[p] != NUL)
  }

  /** Split a NUL-terminated command line into tokens, in place if they are to be stored. */
  method SplitCommand(command: array<char>, store: bool, ghost text: string) returns (count: nat, starts: seq<nat>)
    requires |text| < command.Length && command[..|text|] == text && command[|text|] == NUL && NUL !in text
    modifies command
    ensures count == |Split(text)|
    ensures !store ==> command[..] == old(command[..])
    ensures store ==> |starts| == count
    ensures store ==> forall i :: 0 <= i < count ==> starts[i] < command.Length && CStr(command[starts[i]..]) == Split(text)[i]
  {
    assert text[0..] == text && command[0..|text|] == command[..|text|];
    var p := SkipSpace(command, store, 0, text, [], []);
    ghost var limit;
    assert command[..][p..|text|] == command[p..|text|];
    assert p < |text| ==> command[p] == command[p..|text|][0] == text[p];
    count, starts, limit := SplitWords(command, store, p, text);
    if store { ReadTokens(command[..], |text|, limit, text, starts); }
    assert forall i :: 0 <= i < |starts| && starts[i] < command.Length ==> command[starts[i]..] == command[..][starts[i]..];
  }

  method SplitWords(command: array<char>, store: bool, p0: nat, ghost text: string)
    returns (count: nat, starts: seq<nat>, ghost limit: nat)
    requires NUL !in text && AtWord(command[..], p0, text) && Split(text) == Split(text[p0..])
    modifies command
    ensures count == |Split(text)|
    ensures !store ==> command[..] == old(command[..])
    ensures command[|text|] == NUL
    ensures store ==> Marked(command[..], |text|, limit, Split(text), starts)
  {
    count, starts, limit := 0, [], 0;
    ghost var found: seq<string> := [];
    var p := p0;
    while command[p] != NUL
      invariant Progress(command[..], store, p, limit, count, starts, found, text)
      invariant !store ==> command[..] == old(command[..])
      decreases |text| - p
    {
      limit, p, count, starts, found := SplitNext(command, store, p, count, starts, text, found, limit);
    }
    AllSplit(command[..], store, p, limit, count, starts, found, text);
  }

  ghost predicate Progress(s: string, store: bool, p: nat, limit: nat, count: nat, starts: seq<nat>, found: seq<string>, text: string) {
    && AtWord(s, p, text) && count == |found| && Split(text) == found + Split(text[p..])
    && (store ==> Marked(s, p, limit, found, starts) && (found != [] && p < |text| ==> limit < p))
  }

  lemma AllSplit(s: string, store: bool, p: nat, limit: nat, count: nat, starts: seq<nat>, found: seq<string>, text: string)
    requires Progress(s, store, p, limit, count, starts, found, text) && s[p] == NUL
    ensures p == |text| && found == Split(text)
  {
    assert text[p..] == [];
    assert found + [] == found;
  }

  lemma {:induction false} NoNul(text: string)
    requires NUL !in text
    ensures forall i :: 0 <= i < |Split(text)| ==> NUL !in Split(text)[i]
    decreases |text|
  {
    if text != [] {
      if IsSpace(text[0]) { NoNul(text[1..]); } else { NoNul(text[WordRun(text)..]); }
    }
  }

  lemma ReadTokens(s: string, p: nat, limit: nat, text: string, starts: seq<nat>)
    requires p < |s| && s[p] == NUL && NUL !in text && Marked(s, p, limit, Split(text), starts)
    ensures forall i :: 0 <= i < |Split(text)| ==> starts[i] < |s| && CStr(s[starts[i]..]) == Split(text)[i]
  {
    NoNul(text);
    Relimit(s, p, limit, Split(text), starts);
    ReadMarked(s, p, Split(text), starts);
  }

  lemma Relimit(s: string, p: nat, limit: nat, found: seq<string>, starts: seq<nat>)
    requires p <= |s| && Marked(s, p, limit, found, starts)
    ensures Marked(s, p, p, found, starts)
  {
    forall i | 0 <= i < |found| ensures MarkedAt(s, p, p, found[i], starts[i]) {
      assert MarkedAt(s, p, limit, found[i], starts[i]);
    }
  }

  /** Record the word at `p0` and move to the next one. */
  method SplitNext(command: array<char>, store: bool, p0: nat, count0: nat, starts0: seq<nat>,
                   ghost text: string, ghost found0: seq<string>, ghost limit: nat)
    returns (ghost q: nat, p: nat, count: nat, starts: seq<nat>, ghost found: seq<string>)
    requires NUL !in text && p0 < |text| && Progress(command[..], store, p0, limit, count0, starts0, found0, text)
    modifies command
    ensures p0 < p && Progress(command[..], store, p, q, count, starts, found, text)
    ensures !store ==> command[..] == old(command[..])
  {
    ghost var s := command[..];
    starts := if store then starts0 + [p0] else starts0;
    count := count0 + 1;
    assert command[p0..|text|] == s[p0..|text|];
    var e := SkipWord(command, p0, text);
    q, found := e, found0 + [text[p0..e]];
    assert s[p0..e] == s[p0..|text|][..e - p0] == text[p0..][..e - p0] == text[p0..e];
    if store { MarkWord(s, p0, limit, e, found0, starts0); }
    assert command[e..|text|] == s[p0..|text|][e - p0..] == text[e..];
    p := SkipSpace(command, store, e, text, found, starts);
    assert command[..][p..|text|] == command[p..|text|];
    assert p < |text| ==> command[p] == command[p..|text|][0] == text[p];
    assert found0 + ([text[p0..e]] + Split(text[p..])) == found + Split(text[p..]);
  }
}
