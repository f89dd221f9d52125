/** What a script means, line by line: the reference for the byte-offset interpreter.

    Commands are a parameter: `run` gives the effect of an expanded argument list.  `fuel` counts
    the lines that may still be processed; `MoreFuel...` shows that it never changes a result. */
module Shell {
  import opened Platform
  import opened Tokens
  import opened Wrappers

  /** Effect of one command: an ordinary command, `goto`, `exit`, or one that executes a script. */
  datatype Action<W> = Done(rc: int, world: W) | Goto(name: string) | Exit(code: int) | Chain(image: string, world: W)

  /** The rest of the system: memory, settings expansion and the command table. */
  datatype Env<!W> = Env(fits: (W, nat) -> bool, expand: (W, string) -> Option<string>, run: (W, seq<string>) -> Action<W>)

  /** How control leaves a command or a line; `Abort` skips the rest of the line only. */
  datatype Flow = Next | Abort | Jump(line: nat) | Quit

  datatype Result<W> = Timeout(world: W) | Res(rc: int, flow: Flow, world: W, left: nat)

  datatype Op = OnFailure | OnSuccess | Always

  predicate Proceeds(op: Op, rc: int) {
    match op
    case OnFailure => rc != 0
    case OnSuccess => rc == 0
    case Always => true
  }

  function Symbol(op: Op): (s: string) {
    match op
    case OnFailure => "||"
    case OnSuccess => "&&"
    case Always => ";"
  }

  predicate IsComment(t: string) { t != [] && t[0] == '#' }

  function Connector(t: string): (op: Option<Op>)
    ensures forall o :: op == Some(o) <==> t == Symbol(o)
  {
    if t == "||" then Some(OnFailure) else if t == "&&" then Some(OnSuccess) else if t == ";" then Some(Always) else None
  }

  predicate IsTerminator(t: string) { IsComment(t) || Connector(t).Some? }

  /** Number of tokens before the first comment or connector. */
  function Terminator(tokens: seq<string>): (n: nat)
    ensures n <= |tokens| && forall i :: 0 <= i < n ==> !IsTerminator(tokens[i])
    ensures n < |tokens| ==> IsTerminator(tokens[n])
  {
    if tokens == [] || IsTerminator(tokens[0]) then 0 else 1 + Terminator(tokens[1..])
  }

  /** The connector that ends the first command of a token list, if it is not the last command. */
  function NextOp(tokens: seq<string>): (op: Option<Op>)
    ensures op.Some? ==> Terminator(tokens) < |tokens|
  {
    var n := Terminator(tokens);
    if n < |tokens| then Connector(tokens[n]) else None
  }

  function Expand<W>(env: Env<W>, w: W, words: seq<string>): (argv: Option<seq<string>>)
    ensures argv.Some? <==> forall i :: 0 <= i < |words| ==> env.expand(w, words[i]).Some?
    ensures argv.Some? ==> |argv.value| == |words|
    ensures argv.Some? ==> forall i :: 0 <= i < |words| ==> env.expand(w, words[i]) == Some(argv.value[i])
  {
    if words == [] then Some([]) else
      var tail := Expand(env, w, words[1..]);
      assert forall i :: 0 < i < |words| ==> words[i] == words[1..][i - 1];
      assert forall i :: 0 <= i < |words[1..]| ==> words[1..][i] == words[i + 1];
      if env.expand(w, words[0]).None? || tail.None? then None
      else Some([env.expand(w, words[0]).value] + tail.value)
  }

  /** Does this line carry the label? */
  predicate IsLabel(name: string, text: string) {
    && text != [] && text[0] == ':'
    && name <= text[1..]
    && (|text| == 1 + |name| || IsSpace(text[1 + |name|]))
  }

  /** A label line is a colon, the name, and then nothing or white space. */
  lemma LabelMeaning(name: string, rest: string)
    ensures IsLabel(name, ":" + name + rest) <==> rest == [] || rest[0] as int == 32 || 9 <= rest[0] as int <= 13
    ensures forall text :: IsLabel(name, text) ==> ":" + name <= text
  {
    var text := ":" + name + rest;
    assert text[1..] == name + rest && (name + rest)[..|name|] == name;
    if rest != [] { assert text[1 + |name|] == rest[0]; }
    forall t | IsLabel(name, t) ensures ":" + name <= t {
      assert t == [t[0]] + t[1..];
    }
  }

  datatype Search = Found(line: nat) | Missing | NoMemory

  /** Scan for a label from line `k` on; each line needs a buffer. */
  function Find<W>(env: Env<W>, w: W, lines: seq<string>, k: nat, name: string): (r: Search)
    requires k <= |lines|
    ensures r.Found? ==> k <= r.line < |lines| && IsLabel(name, CStr(lines[r.line]))
    ensures r.Found? ==> forall i :: k <= i < r.line ==> !IsLabel(name, CStr(lines[i]))
    ensures r.Missing? ==> forall i :: k <= i < |lines| ==> !IsLabel(name, CStr(lines[i]))
    decreases |lines| - k
  {
    if k == |lines| then Missing
    else if !env.fits(w, |lines[k]| + 1) then NoMemory
    else if IsLabel(name, CStr(lines[k])) then Found(k)
    else Find(env, w, lines, k + 1, name)
  }

  /** Run one expanded command, within the script `image` if there is one. */
  ghost function Run<W>(env: Env<W>, image: Option<string>, argv: seq<string>, fuel: nat, w: W): (r: Result<W>)
    ensures r.Res? ==> r.left <= fuel && r.flow != Abort
    ensures r.Res? && r.flow.Jump? ==> image.Some? && r.rc == 0 && 0 < r.flow.line <= |Lines(image.value)|
    decreases fuel, 1, 0
  {
    if argv == [] then Res(0, Next, w, fuel) else
    match env.run(w, argv)
    case Done(rc, w') => Res(rc, Next, w', fuel)
    case Exit(code) => Res(code, Quit, w, fuel)
    case Chain(img, w') => RunFrom(env, img, 0, fuel, w')
    case Goto(name) =>
      if image.None? then Res(-ENOTTY, Next, w, fuel) else
      match Find(env, w, Lines(image.value), 0, name)
      case Found(k) => Res(0, Jump(k + 1), w, fuel)
      case Missing => Res(-ENOENT, Next, w, fuel)
      case NoMemory => Res(-ENOMEM, Next, w, fuel)
  }

  ghost function Exec<W>(env: Env<W>, image: Option<string>, words: seq<string>, fuel: nat, w: W): (r: Result<W>)
    ensures r.Res? ==> r.left <= fuel
    ensures r.Res? && r.flow.Jump? ==> image.Some? && r.rc == 0 && 0 < r.flow.line <= |Lines(image.value)|
    decreases fuel, 1, 1
  {
    match Expand(env, w, words)
    case None => Res(-ENOMEM, Abort, w, fuel)
    case Some(argv) => Run(env, image, argv, fuel, w)
  }

  /** The rest of a line, after a command with status `rc` and the connector `op`. */
  ghost function Eval<W>(env: Env<W>, image: Option<string>, op: Op, rc: int, tokens: seq<string>, fuel: nat, w: W): (r: Result<W>)
    ensures r.Res? ==> r.left <= fuel
    ensures r.Res? && r.flow.Jump? ==> image.Some? && r.rc == 0 && 0 < r.flow.line <= |Lines(image.value)|
    decreases fuel, 2, |tokens|
  {
    var n := Terminator(tokens);
    var r := if Proceeds(op, rc) then Exec(env, image, tokens[..n], fuel, w) else Res(rc, Next, w, fuel);
    if r.Timeout? || r.flow != Next || NextOp(tokens).None? then r
    else Eval(env, image, NextOp(tokens).value, r.rc, tokens[n + 1..], r.left, r.world)
  }

  /** A command line: commands joined by connectors, up to a comment. */
  ghost function Command<W>(env: Env<W>, image: Option<string>, text: string, fuel: nat, w: W): (r: Result<W>)
    ensures r.Res? ==> r.left <= fuel
    ensures r.Res? && r.flow.Jump? ==> image.Some? && r.rc == 0 && 0 < r.flow.line <= |Lines(image.value)|
    decreases fuel, 3, 0
  {
    if !env.fits(w, |text| + 1) then Res(-ENOMEM, Next, w, fuel)
    else Eval(env, image, Always, 0, Split(text), fuel, w)
  }

  ghost function ExecLine<W>(env: Env<W>, image: Option<string>, text: string, fuel: nat, w: W): (r: Result<W>)
    ensures r.Res? ==> r.left <= fuel
    ensures r.Res? && r.flow.Jump? ==> image.Some? && r.rc == 0 && 0 < r.flow.line <= |Lines(image.value)|
    decreases fuel, 4, 0
  {
    if text != [] && text[0] == ':' then Res(0, Next, w, fuel) else Command(env, image, text, fuel, w)
  }

  /** Run a script from line `k`, to its end, the first failure or an `exit`. */
  ghost function RunFrom<W>(env: Env<W>, image: string, k: nat, fuel: nat, w: W): (r: Result<W>)
    requires k < |Lines(image)|
    ensures r.Res? ==> r.left < fuel && r.flow == Next
    decreases fuel, 0, 0
  {
    if fuel == 0 then Timeout(w)
    else if !env.fits(w, |Lines(image)[k]| + 1) then Res(-ENOMEM, Next, w, fuel - 1)
    else
      var r := ExecLine(env, Some(image), CStr(Lines(image)[k]), fuel - 1, w);
      if r.Timeout? then r
      else
        var next := if r.flow.Jump? then r.flow.line else k + 1;
        if r.flow.Quit? || r.rc != 0 || next >= |Lines(image)| then Res(r.rc, Next, r.world, r.left)
        else RunFrom(env, image, next, r.left, r.world)
  }

  /** What a script does after the result `r` of line `k`. */
  ghost function AfterLine<W>(env: Env<W>, image: string, k: nat, r: Result<W>): Result<W>
    requires k < |Lines(image)|
  {
    if r.Timeout? then r
    else
      var next := if r.flow.Jump? then r.flow.line else k + 1;
      if r.flow.Quit? || r.rc != 0 || next >= |Lines(image)| then Res(r.rc, Next, r.world, r.left)
      else RunFrom(env, image, next, r.left, r.world)
  }

  lemma RunUnfold<W>(env: Env<W>, image: string, k: nat, fuel: nat, w: W)
    requires k < |Lines(image)|
    ensures fuel == 0 ==> RunFrom(env, image, k, fuel, w) == Timeout(w)
    ensures fuel > 0 && !env.fits(w, |Lines(image)[k]| + 1) ==> RunFrom(env, image, k, fuel, w) == Res(-ENOMEM, Next, w, fuel - 1)
    ensures fuel > 0 && env.fits(w, |Lines(image)[k]| + 1) ==>
              RunFrom(env, image, k, fuel, w) == AfterLine(env, image, k, ExecLine(env, Some(image), CStr(Lines(image)[k]), fuel - 1, w))
  {
  }

  // ----- Connectors associate to the left -----

  datatype Expr = Cmd(words: seq<string>) | Then(first: Expr, op: Op, words: seq<string>)

  function Grow(e: Expr, op: Op, tokens: seq<string>): Expr
    decreases |tokens|
  {
    var n := Terminator(tokens);
    var e' := Then(e, op, tokens[..n]);
    if NextOp(tokens).None? then e' else Grow(e', NextOp(tokens).value, tokens[n + 1..])
  }

  function Parse(tokens: seq<string>): Expr {
    var n := Terminator(tokens);
    if NextOp(tokens).None? then Cmd(tokens[..n]) else Grow(Cmd(tokens[..n]), NextOp(tokens).value, tokens[n + 1..])
  }

  ghost function Meaning<W>(env: Env<W>, image: Option<string>, e: Expr, fuel: nat, w: W): Result<W> {
    match e
    case Cmd(words) => Exec(env, image, words, fuel, w)
    case Then(first, op, words) =>
      var r := Meaning(env, image, first, fuel, w);
      if r.Res? && r.flow == Next && (op == OnSuccess ==> r.rc == 0) && (op == OnFailure ==> r.rc != 0)
      then Exec(env, image, words, r.left, r.world) else r
  }

  ghost function Continue<W>(env: Env<W>, image: Option<string>, r: Result<W>, op: Op, tokens: seq<string>): Result<W> {
    if r.Timeout? || r.flow != Next then r else Eval(env, image, op, r.rc, tokens, r.left, r.world)
  }

  ghost function AfterStep<W>(env: Env<W>, image: Option<string>, r: Result<W>, tokens: seq<string>): Result<W> {
    if r.Timeout? || r.flow != Next || NextOp(tokens).None? then r
    else Eval(env, image, NextOp(tokens).value, r.rc, tokens[Terminator(tokens) + 1..], r.left, r.world)
  }

  /** A line is its first command, if that is to run, and then the rest. */
  lemma EvalUnfold<W>(env: Env<W>, image: Option<string>, op: Op, rc: int, tokens: seq<string>, fuel: nat, w: W)
    ensures Eval(env, image, op, rc, tokens, fuel, w)
         == AfterStep(env, image, Step(env, image, op, rc, tokens[..Terminator(tokens)], fuel, w), tokens)
  {
  }

  ghost function Step<W>(env: Env<W>, image: Option<string>, op: Op, rc: int, words: seq<string>, fuel: nat, w: W): Result<W> {
    if Proceeds(op, rc) then Exec(env, image, words, fuel, w) else Res(rc, Next, w, fuel)
  }

  lemma EvalStep<W>(env: Env<W>, image: Option<string>, op: Op, rc: int, tokens: seq<string>, fuel: nat, w: W)
    requires NextOp(tokens).Some?
    ensures var n := Terminator(tokens);
            Eval(env, image, op, rc, tokens, fuel, w)
            == Continue(env, image, Step(env, image, op, rc, tokens[..n], fuel, w), NextOp(tokens).value, tokens[n + 1..])
  {
  }

  lemma {:induction false} GrowMeaning<W>(env: Env<W>, image: Option<string>, e: Expr, op: Op, tokens: seq<string>, fuel: nat, w: W)
    ensures Meaning(env, image, Grow(e, op, tokens), fuel, w)
         == Continue(env, image, Meaning(env, image, e, fuel, w), op, tokens)
    decreases |tokens|
  {
    var n := Terminator(tokens);
    var e' := Then(e, op, tokens[..n]);
    var r, r' := Meaning(env, image, e, fuel, w), Meaning(env, image, e', fuel, w);
    if NextOp(tokens).Some? {
      var op', tail := NextOp(tokens).value, tokens[n + 1..];
      GrowMeaning(env, image, e', op', tail, fuel, w);
      if r.Res? && r.flow == Next {
        EvalStep(env, image, op, r.rc, tokens, r.left, r.world);
        assert Continue(env, image, r, op, tokens) == Continue(env, image, r', op', tail);
      }
    }
  }

  /** A line means what its left-associated reading means. */
  lemma LeftAssociative<W>(env: Env<W>, image: Option<string>, tokens: seq<string>, fuel: nat, w: W)
    ensures Eval(env, image, Always, 0, tokens, fuel, w) == Meaning(env, image, Parse(tokens), fuel, w)
  {
    if NextOp(tokens).Some? {
      var n := Terminator(tokens);
      GrowMeaning(env, image, Cmd(tokens[..n]), NextOp(tokens).value, tokens[n + 1..], fuel, w);
    }
  }

  ghost predicate Plain(words: seq<string>) { forall i :: 0 <= i < |words| ==> !IsTerminator(words[i]) }

  ghost predicate WellFormed(e: Expr) { Plain(e.words) && (e.Then? ==> WellFormed(e.first)) }

  function Flatten(e: Expr): seq<string> {
    if e.Cmd? then e.words else Flatten(e.first) + ([Symbol(e.op)] + e.words)
  }

  lemma {:induction false} TerminatorOf(words: seq<string>, rest: seq<string>)
    requires Plain(words) && (rest == [] || IsTerminator(rest[0]))
    ensures Terminator(words + rest) == |words| && (words + rest)[..|words|] == words
  {
    if words == [] {
      assert words + rest == rest;
    } else {
      assert (words + rest)[1..] == words[1..] + rest;
      TerminatorOf(words[1..], rest);
    }
  }

  lemma GrowOf(e: Expr, op: Op, words: seq<string>, next: Op, tail: seq<string>)
    requires Plain(words)
    ensures Grow(e, op, words) == Then(e, op, words)
    ensures Grow(e, op, words + ([Symbol(next)] + tail)) == Grow(Then(e, op, words), next, tail)
    ensures Parse(words) == Cmd(words)
    ensures Parse(words + ([Symbol(next)] + tail)) == Grow(Cmd(words), next, tail)
  {
    TerminatorOf(words, []);
    assert words + [] == words;
    var rest := [Symbol(next)] + tail;
    TerminatorOf(words, rest);
    assert (words + rest)[|words|] == Symbol(next) && (words + rest)[|words| + 1..] == tail;
  }

  lemma {:induction false} ParsePrefix(e: Expr, op: Op, tail: seq<string>)
    requires WellFormed(e)
    ensures Parse(Flatten(e) + ([Symbol(op)] + tail)) == Grow(e, op, tail)
  {
    if e.Cmd? {
      GrowOf(e, op, e.words, op, tail);
    } else {
      var rest := [Symbol(op)] + tail;
      assert Flatten(e) + rest == Flatten(e.first) + ([Symbol(e.op)] + (e.words + rest));
      ParsePrefix(e.first, e.op, e.words + rest);
      GrowOf(e.first, e.op, e.words, op, tail);
    }
  }

  /** Every left-associated expression is recovered from its token list. */
  lemma ParseFlatten(e: Expr)
    requires WellFormed(e)
    ensures Parse(Flatten(e)) == e
  {
    if e.Cmd? {
      GrowOf(e, Always, e.words, Always, []);
    } else {
      ParsePrefix(e.first, e.op, e.words);
      GrowOf(e.first, e.op, e.words, Always, []);
    }
  }

  /** A token that neither joins commands nor starts a comment. */
  predicate PlainWord(t: string) { t != "&&" && t != "||" && t != ";" && (t == [] || t[0] != '#') }

  lemma PlainWords(words: seq<string>)
    ensures Plain(words) <==> forall t :: t in words ==> PlainWord(t)
  {
    forall i | 0 <= i < |words| ensures IsTerminator(words[i]) <==> !PlainWord(words[i]) {
      assert Connector(words[i]).Some? <==> words[i] == "&&" || words[i] == "||" || words[i] == ";";
    }
  }

  /** What follows a connector runs from where the left operand ended: after `&&` only if that
      succeeded, after `||` only if it failed, after `;` in any case. Otherwise the line ends with the
      result of the left operand. */
  lemma ConnectorMeaning<W>(env: Env<W>, image: Option<string>, e: Expr, b: seq<string>, fuel: nat, w: W)
    requires WellFormed(e) && forall t :: t in b ==> PlainWord(t)
    ensures var r := Meaning(env, image, e, fuel, w);
            var next := if r.Res? then Exec(env, image, b, r.left, r.world) else r;
            && Eval(env, image, Always, 0, Flatten(e) + ["&&"] + b, fuel, w) == (if r.Res? && r.flow == Next && r.rc == 0 then next else r)
            && Eval(env, image, Always, 0, Flatten(e) + ["||"] + b, fuel, w) == (if r.Res? && r.flow == Next && r.rc != 0 then next else r)
            && Eval(env, image, Always, 0, Flatten(e) + [";"] + b, fuel, w) == (if r.Res? && r.flow == Next then next else r)
  {
    JoinedMeaning(env, image, e, OnSuccess, b, fuel, w);
    JoinedMeaning(env, image, e, OnFailure, b, fuel, w);
    JoinedMeaning(env, image, e, Always, b, fuel, w);
    assert Symbol(OnSuccess) == "&&" && Symbol(OnFailure) == "||" && Symbol(Always) == ";";
  }

  lemma JoinedMeaning<W>(env: Env<W>, image: Option<string>, e: Expr, op: Op, b: seq<string>, fuel: nat, w: W)
    requires WellFormed(e) && forall t :: t in b ==> PlainWord(t)
    ensures Eval(env, image, Always, 0, Flatten(e) + [Symbol(op)] + b, fuel, w) == Meaning(env, image, Then(e, op, b), fuel, w)
  {
    PlainWords(b);
    var tokens := Flatten(e) + [Symbol(op)] + b;
    assert tokens == Flatten(e) + ([Symbol(op)] + b);
    ParsePrefix(e, op, b);
    GrowOf(e, op, b, Always, []);
    LeftAssociative(env, image, tokens, fuel, w);
  }

  /** Two commands, joined by `&&`, `||` or `;`. */
  lemma TwoCommands<W>(env: Env<W>, image: Option<string>, a: seq<string>, b: seq<string>, fuel: nat, w: W)
    requires forall t :: t in a + b ==> PlainWord(t)
    ensures var r := Exec(env, image, a, fuel, w);
            var next := if r.Res? then Exec(env, image, b, r.left, r.world) else r;
            && Eval(env, image, Always, 0, a + ["&&"] + b, fuel, w) == (if r.Res? && r.flow == Next && r.rc == 0 then next else r)
            && Eval(env, image, Always, 0, a + ["||"] + b, fuel, w) == (if r.Res? && r.flow == Next && r.rc != 0 then next else r)
            && Eval(env, image, Always, 0, a + [";"] + b, fuel, w) == (if r.Res? && r.flow == Next then next else r)
  {
    PlainWords(a);
    ConnectorMeaning(env, image, Cmd(a), b, fuel, w);
  }

  lemma {:induction false} TerminatorBefore(tokens: seq<string>, rest: seq<string>)
    requires rest != [] && IsTerminator(rest[0])
    ensures Terminator(tokens + rest) == Terminator(tokens)
  {
    if tokens == [] {
      assert tokens + rest == rest;
    } else {
      assert (tokens + rest)[1..] == tokens[1..] + rest;
      TerminatorBefore(tokens[1..], rest);
    }
  }

  lemma CommentSplit(tokens: seq<string>, rest: seq<string>)
    requires rest != [] && IsComment(rest[0])
    ensures var n := Terminator(tokens);
            && Terminator(tokens + rest) == n && (tokens + rest)[..n] == tokens[..n]
            && NextOp(tokens + rest) == NextOp(tokens)
            && (n < |tokens| ==> (tokens + rest)[n + 1..] == tokens[n + 1..] + rest)
  {
    TerminatorBefore(tokens, rest);
    CommentJoinsNothing(rest[0]);
    hide Terminator, Connector;
    var n := Terminator(tokens);
    var all := tokens + rest;
    assert n < |tokens| ==> all[n] == tokens[n];
    assert n == |tokens| ==> all[n] == rest[0];
  }

  lemma CommentJoinsNothing(t: string)
    requires IsComment(t)
    ensures Connector(t).None?
  {
  }

  /** Everything from a comment token on is ignored. */
  lemma {:induction false} CommentIgnored<W>(env: Env<W>, image: Option<string>, op: Op, rc: int, tokens: seq<string>,
                                              rest: seq<string>, fuel: nat, w: W)
    requires rest != [] && rest[0] != [] && rest[0][0] == '#'
    ensures Eval(env, image, op, rc, tokens + rest, fuel, w) == Eval(env, image, op, rc, tokens, fuel, w)
    decreases |tokens|
  {
    hide Eval, Step, Terminator, NextOp;
    var n := Terminator(tokens);
    CommentSplit(tokens, rest);
    EvalUnfold(env, image, op, rc, tokens, fuel, w);
    EvalUnfold(env, image, op, rc, tokens + rest, fuel, w);
    var r := Step(env, image, op, rc, tokens[..n], fuel, w);
    if r.Res? && NextOp(tokens).Some? {
      CommentIgnored(env, image, NextOp(tokens).value, r.rc, tokens[n + 1..], rest, r.left, r.world);
    }
  }

  // ----- Fuel only decides whether there is a result -----

  ghost predicate Same<W>(r: Result<W>, more: Result<W>, extra: nat) {
    r.Res? ==> more == r.(left := r.left + extra)
  }

  lemma {:induction false} MoreFuelExec<W>(env: Env<W>, image: Option<string>, words: seq<string>, fuel: nat, extra: nat, w: W)
    ensures Same(Exec(env, image, words, fuel, w), Exec(env, image, words, fuel + extra, w), extra)
    decreases fuel, 1, 1
  {
    var argv := Expand(env, w, words);
    if argv.Some? && argv.value != [] {
      var a := env.run(w, argv.value);
      if a.Chain? { MoreFuelRun(env, a.image, 0, fuel, extra, a.world); }
    }
  }

  lemma {:induction false} MoreFuelEval<W>(env: Env<W>, image: Option<string>, op: Op, rc: int, tokens: seq<string>,
                                            fuel: nat, extra: nat, w: W)
    ensures Same(Eval(env, image, op, rc, tokens, fuel, w), Eval(env, image, op, rc, tokens, fuel + extra, w), extra)
    decreases fuel, 2, |tokens|
  {
    hide Eval, Exec, Terminator, NextOp;
    var n := Terminator(tokens);
    var r := if Proceeds(op, rc) then Exec(env, image, tokens[..n], fuel, w) else Res(rc, Next, w, fuel);
    EvalUnfold(env, image, op, rc, tokens, fuel, w);
    EvalUnfold(env, image, op, rc, tokens, fuel + extra, w);
    if Proceeds(op, rc) { MoreFuelExec(env, image, tokens[..n], fuel, extra, w); }
    if r.Res? && r.flow == Next && NextOp(tokens).Some? {
      MoreFuelEval(env, image, NextOp(tokens).value, r.rc, tokens[n + 1..], r.left, extra, r.world);
    }
  }

  lemma {:induction false} MoreFuelLine<W>(env: Env<W>, image: Option<string>, text: string, fuel: nat, extra: nat, w: W)
    ensures Same(ExecLine(env, image, text, fuel, w), ExecLine(env, image, text, fuel + extra, w), extra)
    decreases fuel, 3, 0
  {
    MoreFuelEval(env, image, Always, 0, Split(text), fuel, extra, w);
  }

  /** A script that finishes gives the same status and effect with any larger allowance. */
  lemma {:induction false} MoreFuelRun<W>(env: Env<W>, image: string, k: nat, fuel: nat, extra: nat, w: W)
    requires k < |Lines(image)|
    ensures Same(RunFrom(env, image, k, fuel, w), RunFrom(env, image, k, fuel + extra, w), extra)
    decreases fuel, 0, 0
  {
    if fuel > 0 && env.fits(w, |Lines(image)[k]| + 1) {
      var text := CStr(Lines(image)[k]);
      MoreFuelLine(env, Some(image), text, fuel - 1, extra, w);
      assert fuel - 1 + extra == fuel + extra - 1;
      var r := ExecLine(env, Some(image), text, fuel - 1, w);
      if r.Res? {
        var next := if r.flow.Jump? then r.flow.line else k + 1;
        if next < |Lines(image)| { MoreFuelRun(env, image, next, r.left, extra, r.world); }
      }
    }
  }

  // ----- Scripts without jumps end -----

  ghost predicate Straight<W(!new)>(env: Env<W>) {
    forall w, argv :: env.run(w, argv).Done? || env.run(w, argv).Exit?
  }

  lemma StraightExec<W(!new)>(env: Env<W>, image: Option<string>, words: seq<string>, fuel: nat, w: W)
    requires Straight(env)
    ensures var r := Exec(env, image, words, fuel, w); r.Res? && !r.flow.Jump? && r.left == fuel
  {
    var argv := Expand(env, w, words);
    if argv.Some? && argv.value != [] { assert env.run(w, argv.value).Done? || env.run(w, argv.value).Exit?; }
  }

  lemma {:induction false} StraightEval<W(!new)>(env: Env<W>, image: Option<string>, op: Op, rc: int, tokens: seq<string>, fuel: nat, w: W)
    requires Straight(env)
    ensures var r := Eval(env, image, op, rc, tokens, fuel, w); r.Res? && !r.flow.Jump? && r.left == fuel
    decreases |tokens|
  {
    hide Eval, Exec, Terminator, NextOp, Straight;
    var n := Terminator(tokens);
    EvalUnfold(env, image, op, rc, tokens, fuel, w);
    StraightExec(env, image, tokens[..n], fuel, w);
    var r := if Proceeds(op, rc) then Exec(env, image, tokens[..n], fuel, w) else Res(rc, Next, w, fuel);
    if r.flow == Next && NextOp(tokens).Some? {
      StraightEval(env, image, NextOp(tokens).value, r.rc, tokens[n + 1..], r.left, r.world);
    }
  }

  lemma StraightLine<W(!new)>(env: Env<W>, image: Option<string>, text: string, fuel: nat, w: W)
    requires Straight(env)
    ensures var r := ExecLine(env, image, text, fuel, w); r.Res? && !r.flow.Jump? && r.left == fuel
  {
    StraightEval(env, image, Always, 0, Split(text), fuel, w);
    assert Command(env, image, text, fuel, w).Res?;
  }

  /** Without `goto` and nested scripts, a script finishes after at most one visit to each line. */
  lemma {:induction false} StraightRun<W(!new)>(env: Env<W>, image: string, k: nat, fuel: nat, w: W)
    requires Straight(env) && k < |Lines(image)| && fuel >= |Lines(image)| - k
    ensures RunFrom(env, image, k, fuel, w).Res?
    decreases |Lines(image)| - k
  {
    if env.fits(w, |Lines(image)[k]| + 1) {
      var text := CStr(Lines(image)[k]);
      StraightLine(env, Some(image), text, fuel - 1, w);
      var r := ExecLine(env, Some(image), text, fuel - 1, w);
      if k + 1 < |Lines(image)| { StraightRun(env, image, k + 1, r.left, r.world); }
    }
  }
}
