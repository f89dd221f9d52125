/** The script interpreter as it runs: one byte offset, one stop flag and one current image, saved
    and restored around nested scripts, proved to follow the line-by-line meaning in `Shell`. */
module Script {
  import opened Platform
  import opened Tokens
  import opened Wrappers
  import opened Shell
  import opened CommandLine

  const STOP_COMMAND := 1
  const STOP_COMMAND_SEQUENCE := 2

  /** Offset of the first newline in `data` from `offset` on, or -1. */
  method MemChr(data: string, offset: nat) returns (eol: int)
    requires offset <= |data|
    ensures eol < 0 ==> Eol(data[offset..]) == |data| - offset
    ensures eol >= 0 ==> eol == offset + Eol(data[offset..]) < |data|
  {
    var i := offset;
    while i < |data| && data[i] != '\n'
      invariant offset <= i <= |data|
      invariant Eol(data[offset..]) == i - offset + Eol(data[i..])
    {
      assert data[i..][1..] == data[i + 1..];
      i := i + 1;
    }
    eol := if i < |data| then i else -1;
  }

  /** Length of the first command of a token list, and what joins it to the next. */
  method CommandTerminator(tokens: seq<string>) returns (argc: nat, next: Option<Op>)
    ensures argc == Terminator(tokens) && next == NextOp(tokens)
  {
    argc := 0;
    assert tokens[0..] == tokens;
    while argc < |tokens|
      invariant argc <= |tokens| && Terminator(tokens) == argc + Terminator(tokens[argc..])
    {
      assert tokens[argc..][1..] == tokens[argc + 1..];
      var t := tokens[argc];
      if IsComment(t) {
        return argc, None;
      }
      if Connector(t).Some? {
        return argc, Connector(t);
      }
      argc := argc + 1;
    }
    next := None;
  }

  class Interpreter<W> {
    const env: Env<W>
    var scriptOffset: nat
    var stopState: nat
    var currentImage: Option<string>
    var world: W

    constructor (env: Env<W>, world: W)
      ensures this.env == env && this.world == world && stopState == 0 && currentImage == None
    {
      this.env, this.world := env, world;
      scriptOffset, stopState, currentImage := 0, 0, None;
    }

    /** The outcome reported is the expected one, and the world is as expected even when the bound on
        lines stops the run. */
    ghost predicate Reports(r: Result<W>, timeout: bool, rc: int, left: nat)
      reads this
    {
      (timeout <==> r.Timeout?) && world == r.world && (r.Res? ==> rc == r.rc && left == r.left)
    }

    /** Offset and stop state encode how control leaves: a `goto` has moved the offset to the
        line it jumps to, an `exit` is still pending, and otherwise nothing has moved. */
    ghost predicate Encodes(r: Result<W>, offset: nat, jumpStop: nat)
      reads this
      requires r.Res? && r.flow.Jump? ==> currentImage.Some? && r.flow.line <= |Lines(currentImage.value)|
    {
      r.Res? ==>
        match r.flow
        case Next => scriptOffset == offset && stopState == 0
        case Abort => scriptOffset == offset && stopState == 0
        case Jump(k) => scriptOffset == Start(currentImage.value, k) && stopState == jumpStop
        case Quit => scriptOffset == offset && stopState == STOP_COMMAND_SEQUENCE
    }

    method ShellStop(stop: nat)
      modifies `stopState
      ensures stopState == stop
    {
      stopState := stop;
    }

    /** Test for a stop of at least this strength, and consume it unless it is stronger. */
    method ShellStopped(stop: nat) returns (stopped: bool)
      modifies `stopState
      ensures stopped <==> old(stopState) >= stop
      ensures stopState == if old(stopState) > stop then old(stopState) else 0
    {
      stopped := stopState >= stop;
      if stopState <= stop { stopState := 0; }
    }

    /** Copy out the line at the current offset, and move past it. */
    method ReadLine(image: string, ghost k: nat) returns (line: Option<string>)
      requires k < |Lines(image)| && scriptOffset == Start(image, k)
      modifies `scriptOffset
      ensures line.None? <==> !env.fits(world, |Lines(image)[k]| + 1)
      ensures line.Some? ==> line.value == CStr(Lines(image)[k]) && scriptOffset == Start(image, k + 1)
    {
      NextLine(image, k);
      var eol := MemChr(image, scriptOffset);
      if eol < 0 { eol := |image|; }
      var len := eol - scriptOffset;
      assert image[scriptOffset..eol] == image[scriptOffset..][..len];
      if !env.fits(world, len + 1) { return None; }
      line := Some(CStr(image[scriptOffset..eol]));
      scriptOffset := scriptOffset + len + 1;
    }

    /** Scan a script for a label: the offset ends just after the first line that carries it. */
    method FindLabel(image: string, name: string) returns (rc: int)
      modifies `scriptOffset
      ensures match Find(env, world, Lines(image), 0, name)
              case Found(k) => rc == 0 && scriptOffset == Start(image, k + 1)
              case Missing => rc == -ENOENT
              case NoMemory => rc == -ENOMEM
    {
      ghost var k := 0;
      scriptOffset := 0;
      StartsAtZero(image);
      hide CStr, Lines, Start, Find, IsLabel;
      while true
        invariant k < |Lines(image)| && scriptOffset == Start(image, k)
        invariant Find(env, world, Lines(image), 0, name) == Find(env, world, Lines(image), k, name)
        decreases |Lines(image)| - k
      {
        NextLine(image, k);
        FindUnfold(env, world, Lines(image), k, name);
        var line := ReadLine(image, k);
        if line.None? { return -ENOMEM; }
        rc := if IsLabel(name, line.value) then 0 else -ENOENT;
        if rc == 0 || scriptOffset >= |image| { return; }
        k := k + 1;
      }
    }

    method GotoExec(name: string) returns (rc: int)
      requires stopState == 0 && currentImage.Some?
      modifies `scriptOffset, `stopState
      ensures match Find(env, world, Lines(currentImage.value), 0, name)
              case Found(k) => rc == 0 && scriptOffset == Start(currentImage.value, k + 1) && stopState == STOP_COMMAND
              case Missing => rc == -ENOENT && scriptOffset == old(scriptOffset) && stopState == 0
              case NoMemory => rc == -ENOMEM && scriptOffset == old(scriptOffset) && stopState == 0
    {
      var savedOffset := scriptOffset;
      rc := FindLabel(currentImage.value, name);
      if rc != 0 {
        scriptOffset := savedOffset;
        return;
      }
      ShellStop(STOP_COMMAND);
    }

    /** Run one command; a nested script gives back the offset and the current image it found. */
    method Execv(argv: seq<string>, fuel: nat) returns (timeout: bool, rc: int, left: nat)
      requires stopState == 0
      modifies this
      ensures currentImage == old(currentImage)
      ensures Reports(Run(env, currentImage, argv, fuel, old(world)), timeout, rc, left)
      ensures Encodes(Run(env, currentImage, argv, fuel, old(world)), old(scriptOffset), STOP_COMMAND)
      decreases fuel, 1, 0
    {
      timeout, rc, left := false, 0, fuel;
      if argv == [] { return; }
      match env.run(world, argv) {
        case Done(status, w) =>
          rc, world := status, w;
        case Exit(code) =>
          rc := code;
          ShellStop(STOP_COMMAND_SEQUENCE);
        case Chain(image, w) =>
          world := w;
          timeout, rc, left := ScriptExec(image, fuel);
        case Goto(name) =>
          if currentImage.None? {
            rc := -ENOTTY;
          } else {
            rc := GotoExec(name);
          }
      }
    }

    /** Execute a script, leaving offset, current image and stop state as they were. */
    method ScriptExec(image: string, fuel: nat) returns (timeout: bool, rc: int, left: nat)
      requires stopState == 0
      modifies this
      ensures currentImage == old(currentImage) && scriptOffset == old(scriptOffset)
      ensures Reports(RunFrom(env, image, 0, fuel, old(world)), timeout, rc, left)
      ensures !timeout ==> stopState == 0
      decreases fuel, 0, 2
    {
      var savedImage, savedOffset := currentImage, scriptOffset;
      currentImage := Some(image);
      timeout, rc, left := ProcessScript(image, fuel);
      currentImage, scriptOffset := savedImage, savedOffset;
    }

    /** Process lines until a failure, an `exit` or the end of the script. */
    method ProcessScript(image: string, fuel: nat) returns (timeout: bool, rc: int, left: nat)
      requires stopState == 0 && currentImage == Some(image)
      modifies this
      ensures currentImage == old(currentImage)
      ensures Reports(RunFrom(env, image, 0, fuel, old(world)), timeout, rc, left)
      ensures !timeout ==> stopState == 0
      decreases fuel, 0, 1
    {
      ghost var k: nat := 0;
      var more := true;
      scriptOffset := 0;
      timeout, rc, left := false, 0, fuel;
      while more
        invariant currentImage == Some(image) && left <= fuel
        invariant more ==> stopState == 0 && k < |Lines(image)| && scriptOffset == Start(image, k)
        invariant more ==> RunFrom(env, image, 0, fuel, old(world)) == RunFrom(env, image, k, left, world)
        invariant !more ==> Reports(RunFrom(env, image, 0, fuel, old(world)), timeout, rc, left)
        invariant !more && !timeout ==> stopState == 0
        decreases more, left
      {
        more, timeout, rc, left, k := ProcessLine(image, left, k);
      }
    }

    /** Process the line at the current offset; if the script goes on, it does so at line `next`. */
    method ProcessLine(image: string, fuel: nat, ghost k: nat)
      returns (more: bool, timeout: bool, rc: int, left: nat, ghost next: nat)
      requires stopState == 0 && currentImage == Some(image) && k < |Lines(image)| && scriptOffset == Start(image, k)
      modifies this
      ensures currentImage == old(currentImage) && left <= fuel
      ensures more ==> left < fuel && stopState == 0 && next < |Lines(image)| && scriptOffset == Start(image, next)
      ensures more ==> RunFrom(env, image, k, fuel, old(world)) == RunFrom(env, image, next, left, world)
      ensures !more ==> Reports(RunFrom(env, image, k, fuel, old(world)), timeout, rc, left)
      ensures !more && !timeout ==> stopState == 0
      decreases fuel, 0, 0
    {
      hide RunFrom, ExecLine, CStr, Lines, Start, Find;
      RunUnfold(env, image, k, fuel, world);
      more, timeout, rc, left, next := false, false, -ENOMEM, 0, k + 1;
      if fuel == 0 { timeout := true; return; }
      NextLine(image, k);
      var line := ReadLine(image, k);
      if line.None? { left := fuel - 1; return; }
      ghost var r := ExecLine(env, Some(image), line.value, fuel - 1, world);
      timeout, rc, left := ScriptExecLine(line.value, fuel - 1);
      if timeout { left := 0; return; }
      var stopped := ShellStopped(STOP_COMMAND_SEQUENCE);
      if stopped || rc != 0 { return; }
      next := if r.flow.Jump? then r.flow.line else k + 1;
      AtEnd(image, next);
      more := scriptOffset < |image|;
    }

    /** Execute a script line, unless it is a label. */
    method ScriptExecLine(line: string, fuel: nat) returns (timeout: bool, rc: int, left: nat)
      requires stopState == 0 && NUL !in line
      modifies this
      ensures currentImage == old(currentImage)
      ensures Reports(ExecLine(env, currentImage, line, fuel, old(world)), timeout, rc, left)
      ensures Encodes(ExecLine(env, currentImage, line, fuel, old(world)), old(scriptOffset), 0)
      decreases fuel, 4, 0
    {
      if line != [] && line[0] == ':' { return false, 0, fuel; }
      timeout, rc, left := System(line, fuel);
    }

    /** Execute a command line. */
    method System(command: string, fuel: nat) returns (timeout: bool, rc: int, left: nat)
      requires stopState == 0 && NUL !in command
      modifies this
      ensures currentImage == old(currentImage)
      ensures Reports(Command(env, currentImage, command, fuel, old(world)), timeout, rc, left)
      ensures Encodes(Command(env, currentImage, command, fuel, old(world)), old(scriptOffset), 0)
      decreases fuel, 3, 0
    {
      var tokens := Tokenise(command);
      if tokens.None? { return false, -ENOMEM, fuel; }
      timeout, rc, left := Evaluate(tokens.value, fuel);
    }

    /** Count the tokens, copy the command line, then split the copy in place. */
    method Tokenise(command: string) returns (tokens: Option<seq<string>>)
      requires NUL !in command
      ensures tokens.None? <==> !env.fits(world, |command| + 1)
      ensures tokens.Some? ==> tokens.value == Split(command)
    {
      var line := Duplicate(command);
      var count, _ := SplitCommand(line, false, command);
      if !env.fits(world, |command| + 1) { return None; }
      var copy := Duplicate(command);
      var _, starts := SplitCommand(copy, true, command);
      var words := [];
      for i := 0 to count
        invariant |words| == i && forall j :: 0 <= j < i ==> words[j] == Split(command)[j]
      {
        words := words + [CStr(copy[starts[i]..])];
      }
      tokens := Some(words);
    }

    /** Evaluate the commands of a line in turn, as their connectors direct. */
    method Evaluate(tokens: seq<string>, fuel: nat) returns (timeout: bool, rc: int, left: nat)
      requires stopState == 0
      modifies this
      ensures currentImage == old(currentImage)
      ensures Reports(Eval(env, currentImage, Always, 0, tokens, fuel, old(world)), timeout, rc, left)
      ensures Encodes(Eval(env, currentImage, Always, 0, tokens, fuel, old(world)), old(scriptOffset), 0)
      decreases fuel, 2, 0
    {
      hide Eval, Run, Terminator, Expand, Lines, Start;
      var rest, process := tokens, true;
      ghost var op := Always;
      timeout, rc, left := false, 0, fuel;
      while true
        invariant stopState == 0 && currentImage == old(currentImage) && scriptOffset == old(scriptOffset)
        invariant !timeout && left <= fuel && process == Proceeds(op, rc)
        invariant Eval(env, currentImage, Always, 0, tokens, fuel, old(world)) == Eval(env, currentImage, op, rc, rest, left, world)
        decreases |rest|
      {
        var argc, next := CommandTerminator(rest);
        EvalUnfold(env, currentImage, op, rc, rest, left, world);
        if process {
          var argv := ExpandTokens(rest[..argc]);
          if argv.None? { return false, -ENOMEM, left; }
          timeout, rc, left := Execv(argv.value, left);
          if timeout { return; }
        }
        var stopped := ShellStopped(STOP_COMMAND);
        if stopped || next.None? { return; }
        op := next.value;
        process := Proceeds(next.value, rc);
        rest := rest[argc + 1..];
      }
    }

    /** Expand settings in each token; the first failure gives up. */
    method ExpandTokens(words: seq<string>) returns (argv: Option<seq<string>>)
      ensures argv == Expand(env, world, words)
    {
      var done := [];
      for i := 0 to |words|
        invariant |done| == i && forall j :: 0 <= j < i ==> env.expand(world, words[j]) == Some(done[j])
      {
        var word := env.expand(world, words[i]);
        if word.None? { return None; }
        done := done + [word.value];
      }
      argv := Some(done);
      assert done == Expand(env, world, words).value;
    }
  }

  method Duplicate(s: string) returns (a: array<char>)
    ensures fresh(a) && a.Length == |s| + 1 && a[..|s|] == s && a[|s|] == NUL
  {
    a := new char[|s| + 1](i requires 0 <= i <= |s| => if i < |s| then s[i] else NUL);
  }

  lemma StartsAtZero(image: string)
    ensures 0 < |Lines(image)| && Start(image, 0) == 0
  {
  }

  lemma FindUnfold<W>(env: Env<W>, w: W, lines: seq<string>, k: nat, name: string)
    requires k < |lines|
    ensures Find(env, w, lines, k, name) ==
            if !env.fits(w, |lines[k]| + 1) then NoMemory
            else if IsLabel(name, CStr(lines[k])) then Found(k)
            else if k + 1 == |lines| then Missing else Find(env, w, lines, k + 1, name)
  {
  }

  /** An offset is past the end of the script exactly when no lines remain. */
  lemma AtEnd(image: string, k: nat)
    requires k <= |Lines(image)|
    ensures Start(image, k) >= |image| <==> k == |Lines(image)| || (k == 0 && image == [])
  {
    if k > 0 { NextLine(image, k - 1); }
  }
}
