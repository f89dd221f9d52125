/** The minimal readline: an incremental redraw of the edited line, and a circular history. */
module Readline {
  import opened Platform
  import opened Wrappers
  import opened Bits
  import opened EditString

  const BACKSPACE: char := 8 as char

  predicate Printable(c: char) { ' ' <= c <= '~' }

  ghost predicate AllPrintable(s: string) { forall c :: c in s ==> Printable(c) }

  /** One terminal line, starting where the prompt ends. Columns never written are blank. A control
      character other than backspace, or a backspace into the prompt, garbles it. */
  class Terminal {
    var cells: seq<char>
    var cursor: nat
    var garbled: bool

    constructor ()
      ensures cells == [] && cursor == 0 && !garbled
    {
      cells, cursor, garbled := [], 0, false;
    }

    method PutChar(c: char)
      modifies this
      ensures c == BACKSPACE && old(cursor) > 0 ==> cursor == old(cursor) - 1 && cells == old(cells) && garbled == old(garbled)
      ensures Printable(c) ==> cursor == old(cursor) + 1 && garbled == old(garbled)
      ensures !Printable(c) && !(c == BACKSPACE && old(cursor) > 0) ==> garbled && cells == old(cells) && cursor == old(cursor)
      ensures Printable(c) ==> forall i: int :: View(cells, i) == if i == old(cursor) then c else View(old(cells), i)
    {
      if c == BACKSPACE {
        if cursor > 0 {
          cursor := cursor - 1;
        } else {
          garbled := true;
        }
      } else if Printable(c) {
        if cursor < |cells| {
          cells := cells[cursor := c];
        } else {
          cells := cells + seq(cursor - |cells|, _ => ' ') + [c];
        }
        cursor := cursor + 1;
      } else {
        garbled := true;
      }
    }

    method BackUp(n: nat)
      modifies this
      ensures n <= old(cursor) ==> cursor == old(cursor) - n && cells == old(cells) && garbled == old(garbled)
    {
      for i := 0 to n
        invariant n <= old(cursor) ==> cursor == old(cursor) - i && cells == old(cells) && garbled == old(garbled)
      {
        PutChar(BACKSPACE);
      }
    }

    /** Print columns `[start, end)` of `text`, blanks beyond its end. */
    method Print(text: string, start: nat, end: nat)
      modifies this
      ensures AllPrintable(text) && old(cursor) == start ==>
                && cursor == Max(start, end) && garbled == old(garbled)
                && forall i: int :: View(cells, i) == if start <= i < end then View(text, i) else View(old(cells), i)
    {
      var column := start;
      while column < end
        invariant start <= column <= Max(start, end)
        invariant AllPrintable(text) && old(cursor) == start ==>
                    && cursor == column && garbled == old(garbled)
                    && forall i: int :: View(cells, i) == if start <= i < column then View(text, i) else View(old(cells), i)
      {
        PutChar(if column >= |text| then ' ' else text[column]);
        column := column + 1;
      }
    }
  }

  /** The terminal shows exactly the text followed by blanks, with its cursor at the edit cursor. */
  ghost predicate Synced(t: Terminal, l: Line) reads t {
    !t.garbled && t.cursor == l.cursor && forall i: int :: View(t.cells, i) == View(l.text, i)
  }

  /** `sync_console`: bring a display that was in sync before the last edit into sync again. */
  method SyncConsole(s: EditString, t: Terminal, ghost before: Line)
    requires s.Valid() && s.lastCursor == before.cursor && s.Recorded(before)
    modifies t
    ensures AllPrintable(s.Now().text) && old(Synced(t, before)) ==> Synced(t, s.Now())
  {
    var text := s.buf[..StrLen(s.buf[..])];
    assert text == s.Now().text;
    var modStart, modEnd, cursor := s.modStart, s.modEnd, s.lastCursor;
    if modStart > s.lastCursor {
      modStart := s.lastCursor;
    }
    if modEnd < s.cursor {
      modEnd := s.cursor;
    }
    t.BackUp(cursor - modStart);
    cursor := modStart;
    t.Print(text, cursor, modEnd);
    cursor := Max(cursor, modEnd);
    t.BackUp(cursor - s.cursor);
  }

  const MAX_DEPTH: nat := 7
  const ENTRIES: nat := 8

  /** The slot `d` steps before `next`: unsigned subtraction, then the remainder. */
  function Slot(next: nat, d: nat): (i: nat)
    ensures i < ENTRIES
  {
    ((next - d) % UINT_MOD) % ENTRIES
  }

  /** Distinct depths use distinct slots. */
  lemma SlotInjective(n: nat, c: nat, d: nat)
    requires c <= MAX_DEPTH && d <= MAX_DEPTH
    ensures Slot(n, c) == Slot(n, d) <==> c == d
  {
    Divides(n - c);
    Divides(n - d);
  }

  lemma Divides(x: int)
    ensures x % UINT_MOD % ENTRIES == x % ENTRIES
  {
    ModOfMultiple(x, ENTRIES, UINT_MOD);
  }

  /** Advancing `next` moves every entry one step further back. */
  lemma SlotShift(n: nat, d: nat)
    requires n < UINT_MOD && d < MAX_DEPTH
    ensures Slot((n + 1) % UINT_MOD, d + 1) == Slot(n, d)
  {
  }

  datatype Entry = Entry(saved: Option<string>, temp: Option<string>) {
    /** The temporary copy, or else the persistent line. */
    function Shown(): Option<string> { if temp.Some? then temp else saved }
  }

  /** What each depth shows. */
  ghost function ViewsOf(es: seq<Entry>, n: nat): (v: seq<Option<string>>)
    requires |es| == ENTRIES
    ensures |v| == ENTRIES
  {
    seq(ENTRIES, d requires 0 <= d < ENTRIES => es[Slot(n, d)].Shown())
  }

  /** Writing a temporary copy changes what one depth shows. */
  lemma ViewsStored(es: seq<Entry>, n: nat, d: nat, text: string)
    requires |es| == ENTRIES && d <= MAX_DEPTH
    ensures var i := Slot(n, d);
            ViewsOf(es[i := es[i].(temp := Some(text))], n) == ViewsOf(es, n)[d := Some(text)]
  {
    forall c | 0 <= c < ENTRIES ensures Slot(n, c) == Slot(n, d) <==> c == d { SlotInjective(n, c, d); }
  }

  /** Store `text` in the next slot and empty the one after it. */
  ghost function Appended(es: seq<Entry>, n: nat, text: string): (r: seq<Entry>)
    requires |es| == ENTRIES
    ensures |r| == ENTRIES
  {
    var a := es[Slot(n, 0) := es[Slot(n, 0)].(saved := Some(text))];
    var j := Slot((n + 1) % UINT_MOD, 0);
    a[j := a[j].(saved := None)]
  }

  ghost function LinesOf(es: seq<Entry>, n: nat): (r: seq<Option<string>>)
    requires |es| == ENTRIES
    ensures |r| == ENTRIES
  {
    seq(ENTRIES, d requires 0 <= d < ENTRIES => es[Slot(n, d)].saved)
  }

  /** The new line is one step back, every older one a step further, and the oldest is gone. */
  lemma AppendedMeaning(es: seq<Entry>, n: nat, text: string)
    requires |es| == ENTRIES && n < UINT_MOD
    ensures LinesOf(Appended(es, n, text), (n + 1) % UINT_MOD) == [None, Some(text)] + LinesOf(es, n)[1..MAX_DEPTH]
  {
    var r, m := Appended(es, n, text), (n + 1) % UINT_MOD;
    var x, y := LinesOf(r, m), [None, Some(text)] + LinesOf(es, n)[1..MAX_DEPTH];
    SlotShift(n, 0);
    SlotInjective(m, 1, 0);
    forall d | 2 <= d < ENTRIES ensures x[d] == y[d] {
      SlotShift(n, d - 1);
      SlotInjective(m, d, 0);
      SlotInjective(n, d - 1, 0);
    }
    assert x[0] == y[0] && x[1] == y[1];
  }

  /** The circular history buffer. `next` only ever counts up (modulo the width of `unsigned int`). */
  class History {
    const entries: array<Entry>
    var next: nat
    var depth: nat

    /** The "next" slot has no persistent string. */
    ghost predicate Valid() reads this, entries {
      && entries.Length == ENTRIES && next < UINT_MOD && depth <= MAX_DEPTH
      && entries[Index(0)].saved == None
      && forall i :: 0 <= i < ENTRIES ==> (entries[i].saved.Some? ==> NUL !in entries[i].saved.value) &&
                                          (entries[i].temp.Some? ==> NUL !in entries[i].temp.value)
    }

    constructor ()
      ensures Valid() && fresh(entries) && next == 0 && depth == 0
      ensures forall i :: 0 <= i < ENTRIES ==> entries[i] == Entry(None, None)
    {
      entries := new Entry[ENTRIES](_ => Entry(None, None));
      next, depth := 0, 0;
    }

    /** `history_entry` */
    function Index(d: nat): (i: nat)
      reads this
      ensures i < ENTRIES
    {
      Slot(next, d)
    }

    /** The persistent lines, most recent first; the first of them is the empty "next" slot. */
    ghost function Lines(): seq<Option<string>>
      requires entries.Length == ENTRIES
      reads this, entries
    {
      LinesOf(entries[..], next)
    }

    /** `history_fetch` */
    function Fetch(d: nat): Option<string>
      requires entries.Length == ENTRIES
      reads this, entries
    {
      entries[Index(d)].Shown()
    }

    ghost function Views(): (v: seq<Option<string>>)
      requires entries.Length == ENTRIES
      reads this, entries
      ensures |v| == ENTRIES
    {
      ViewsOf(entries[..], next)
    }

    /** `history_move` */
    method Move(offset: int, oldString: string) returns (newString: Option<string>)
      requires Valid() && NUL !in oldString
      modifies this`depth, entries
      ensures Valid()
      ensures var d := (old(depth) + offset) % UINT_MOD;
              newString == if d > MAX_DEPTH then None else old(Views())[d]
      ensures depth == if newString.Some? then (old(depth) + offset) % UINT_MOD else old(depth)
      ensures Lines() == old(Lines())
      ensures Views() == if newString.Some? then old(Views())[old(depth) := Some(oldString)] else old(Views())
      ensures forall i :: 0 <= i < ENTRIES ==> entries[i] == old(entries[i]) || entries[i] == old(entries[i]).(temp := Some(oldString))
      ensures newString.Some? ==> NUL !in newString.value
    {
      var newDepth := (depth + offset) % UINT_MOD;
      newString := Fetch(newDepth);
      if newDepth > MAX_DEPTH {
        return None;
      }
      if newString == None {
        return None;
      }
      forall c | 0 <= c <= MAX_DEPTH ensures Index(c) == Index(depth) <==> c == depth { SlotInjective(next, c, depth); }
      ViewsStored(entries[..], next, depth, oldString);
      ghost var es := entries[..];
      entries[Index(depth)] := entries[Index(depth)].(temp := Some(oldString));
      assert entries[..] == es[Index(depth) := es[Index(depth)].(temp := Some(oldString))];
      depth := newDepth;
    }

    /** `history_append` */
    method Append(text: string)
      requires Valid() && NUL !in text
      modifies this`next, entries
      ensures Valid() && next == (old(next) + 1) % UINT_MOD
      ensures entries[..] == Appended(old(entries[..]), old(next), text)
      ensures Lines() == [None, Some(text)] + old(Lines())[1..MAX_DEPTH]
    {
      AppendedMeaning(entries[..], next, text);
      ghost var es, n := entries[..], next;
      entries[Index(0)] := entries[Index(0)].(saved := Some(text));
      next := (next + 1) % UINT_MOD;
      entries[Index(0)] := entries[Index(0)].(saved := None);
      assert entries[..] == Appended(es, n, text);
    }

    /** `history_cleanup` */
    method Cleanup()
      requires Valid()
      modifies this`depth, entries
      ensures Valid() && depth == 0
      ensures forall i :: 0 <= i < ENTRIES ==> entries[i] == Entry(old(entries[i].saved), None)
      ensures Lines() == old(Lines())
    {
      for i := 0 to ENTRIES
        invariant forall k :: 0 <= k < i ==> entries[k] == Entry(old(entries[k].saved), None)
        invariant forall k :: i <= k < ENTRIES ==> entries[k] == old(entries[k])
      {
        entries[i] := entries[i].(temp := None);
      }
      depth := 0;
    }
  }

  const READLINE_MAX: nat := 256

  datatype Outcome = Entered(line: string) | Cancelled | Waiting

  /** A non-empty line becomes the most recent one. */
  ghost function LinesAfter(lines: seq<Option<string>>, outcome: Outcome): seq<Option<string>>
    requires |lines| == ENTRIES
  {
    if outcome.Entered? && outcome.line != "" then [None, Some(outcome.line)] + lines[1..MAX_DEPTH] else lines
  }

  predicate Ends(key: int) { key == CR || key == LF || key == CTRL_C }

  /** The edited line, and the history as it is seen while editing: `views` holds the text at each
      depth, with the changes made there. */
  datatype Editing = Editing(line: Line, depth: nat, views: seq<Option<string>>) {
    ghost predicate Ok(size: nat) { line.cursor <= |line.text| < size && depth <= MAX_DEPTH && |views| == ENTRIES }

    /** Go to depth `d` if there is a line there, leaving the present text behind. */
    ghost function Visit(d: int, size: nat): (e: Editing)
      requires Ok(size)
      ensures e.Ok(size)
    {
      if 0 <= d <= MAX_DEPTH && views[d].Some?
      then Editing(Replaced(views[d].value, size), d, views[depth := Some(line.text)])
      else this
    }

    ghost function Press(key: int, size: nat): (e: Editing)
      requires Ok(size)
      ensures e.Ok(size)
    {
      if key == KEY_UP then Visit(depth + 1, size)
      else if key == KEY_DOWN then Visit(depth - 1, size)
      else this.(line := EditKey(line, key, size))
    }
  }

  /** What a sequence of keys leaves behind, up to the key that ends the line. */
  ghost function Typed(e: Editing, keys: seq<int>, size: nat): Editing
    requires e.Ok(size)
    decreases |keys|
  {
    if keys == [] || Ends(keys[0]) then e else Typed(e.Press(keys[0], size), keys[1..], size)
  }

  /** Editing with the history `h`; without one, no depth has a line. */
  ghost function Edited(line: Line, h: History?): Editing
    requires h != null ==> h.entries.Length == ENTRIES
    reads h, if h == null then {} else {h.entries}
  {
    if h == null then Editing(line, 0, seq(ENTRIES, _ => None)) else Editing(line, h.depth, h.Views())
  }

  ghost predicate EntriesPrintable(es: seq<Entry>) {
    forall i :: 0 <= i < |es| ==> (es[i].saved.Some? ==> AllPrintable(es[i].saved.value)) &&
                                  (es[i].temp.Some? ==> AllPrintable(es[i].temp.value))
  }

  /** Nothing but printable characters can reach the line. */
  ghost predicate Clean(h: History?) reads h, if h == null then {} else {h.entries} {
    h != null ==> EntriesPrintable(h.entries[..])
  }

  lemma EditKeepsPrintable(l: Line, key: int, size: nat)
    requires l.Ok(size) && AllPrintable(l.text)
    ensures AllPrintable(EditKey(l, key, size).text)
  {
  }

  /** The line is printable and the terminal shows it. */
  ghost predicate Nice(s: EditString, t: Terminal) reads s, s.buf, t {
    s.Valid() && AllPrintable(s.Now().text) && Synced(t, s.Now())
  }

  lemma NiceText(s: EditString, t: Terminal)
    requires Nice(s, t)
    ensures AllPrintable(s.Now().text)
  {
  }

  /** Edit, then redraw. */
  method EditAndSync(s: EditString, t: Terminal, key: int) returns (left: int)
    requires s.Valid()
    modifies s, s.buf, t
    ensures s.Valid() && s.Now() == EditKey(old(s.Now()), key, s.buf.Length)
    ensures left == if Consumed(key) then 0 else key
    ensures left != 0 ==> s.lastCursor == s.cursor
    ensures old(Nice(s, t)) ==> Nice(s, t)
  {
    ghost var before := s.Now();
    if Nice(s, t) { EditKeepsPrintable(before, key, s.buf.Length); }
    left := s.Edit(key);
    SyncConsole(s, t, before);
  }

  /** Move through the history, if it has anything there, and redraw. */
  method HistoryStep(s: EditString, t: Terminal, h: History, moveBy: int)
    requires s.Valid() && h.Valid() && s.lastCursor == s.cursor && (moveBy == 1 || moveBy == -1)
    modifies s, s.buf, t, h, h.entries
    ensures s.Valid() && h.Valid()
    ensures Edited(s.Now(), h) == old(Edited(s.Now(), h)).Visit(old(h.depth) + moveBy, s.buf.Length)
    ensures old(Nice(s, t)) && old(Clean(h)) ==> Nice(s, t) && Clean(h)
    ensures h.Lines() == old(h.Lines())
  {
    hide Replaced, LinesOf, ViewsOf, Nice, EntriesPrintable, AllPrintable, StrLen, History.Valid, EditString.Valid, Editing.Visit, History.Fetch;
    HistoryOk(h);
    ghost var es, nice, size := h.entries[..], Nice(s, t) && Clean(h), s.buf.Length;
    ghost var e := Edited(s.Now(), h);
    var text := CurrentText(s);
    if nice { NiceText(s, t); }
    var newString := h.Move(moveBy, text);
    if nice { CleanStored(es, h.entries[..], text); }
    if newString.Some? {
      if nice { ShownPrintable(es, h.next, h.depth, size); }
      Install(s, t, newString.value);
    }
    Visited(e, Edited(s.Now(), h), moveBy, newString, size);
  }

  lemma HistoryOk(h: History)
    requires h.Valid()
    ensures h.entries.Length == ENTRIES && h.depth <= MAX_DEPTH
  {
  }

  lemma Visited(e: Editing, e': Editing, moveBy: int, newString: Option<string>, size: nat)
    requires e.Ok(size) && (moveBy == 1 || moveBy == -1)
    requires var d := (e.depth + moveBy) % UINT_MOD;
             && newString == (if d > MAX_DEPTH then None else e.views[d])
             && e'.depth == if newString.Some? then d else e.depth
    requires e'.views == if newString.Some? then e.views[e.depth := Some(e.line.text)] else e.views
    requires e'.line == if newString.Some? then Replaced(newString.value, size) else e.line
    ensures e' == e.Visit(e.depth + moveBy, size)
  {
    hide Replaced;
    Stepped(e.depth, moveBy);
  }

  method CurrentText(s: EditString) returns (text: string)
    requires s.Valid()
    ensures text == s.Now().text && NUL !in text && s.buf.Length > 0
  {
    text := s.buf[..StrLen(s.buf[..])];
  }

  /** Replace the edited text and redraw. */
  method Install(s: EditString, t: Terminal, text: string)
    requires s.Valid() && s.lastCursor == s.cursor && NUL !in text
    modifies s, s.buf, t
    ensures s.Valid() && s.Now() == Replaced(text, s.buf.Length)
    ensures old(Nice(s, t)) && AllPrintable(Replaced(text, s.buf.Length).text) ==> Nice(s, t)
  {
    hide Replaced, Synced, AllPrintable, StrLen;
    ghost var line := s.Now();
    s.Replace(text);
    SyncConsole(s, t, line);
  }

  lemma CleanStored(es: seq<Entry>, es': seq<Entry>, text: string)
    requires EntriesPrintable(es) && AllPrintable(text) && |es'| == |es|
    requires forall i :: 0 <= i < |es| ==> es'[i] == es[i] || es'[i] == es[i].(temp := Some(text))
    ensures EntriesPrintable(es')
  {
  }

  lemma ShownPrintable(es: seq<Entry>, n: nat, d: nat, size: nat)
    requires |es| == ENTRIES && EntriesPrintable(es) && d <= MAX_DEPTH && size > 0
    ensures var v := ViewsOf(es, n)[d]; v.Some? ==> AllPrintable(Replaced(v.value, size).text)
  {
  }

  lemma Stepped(depth: nat, moveBy: int)
    requires depth <= MAX_DEPTH && (moveBy == 1 || moveBy == -1)
    ensures var d := (depth + moveBy) % UINT_MOD;
            if 0 <= depth + moveBy <= MAX_DEPTH then d == depth + moveBy else d > MAX_DEPTH
  {
  }

  /** Handle one key of `readline_history`: edit, redraw, and move through the history. */
  method HandleKey(s: EditString, t: Terminal, h: History?, key: int) returns (ends: bool)
    requires s.Valid() && (h != null ==> h.Valid())
    modifies s, s.buf, t, if h == null then {} else {h, h.entries}
    ensures s.Valid() && (h != null ==> h.Valid())
    ensures ends <==> Ends(key)
    ensures Edited(s.Now(), h) == old(Edited(s.Now(), h)).Press(key, s.buf.Length)
    ensures old(Nice(s, t)) && old(Clean(h)) ==> Nice(s, t) && Clean(h)
    ensures h != null ==> h.Lines() == old(h.Lines())
  {
    hide Nice, Clean, Synced, Replaced, EditKey, LinesOf, StrLen, SameOutside, EditString.Valid, EditString.Now, History.Fetch, History.Lines;
    ghost var line := s.Now();
    if key == KEY_UP || key == KEY_DOWN || Ends(key) { UnusedEditsNothing(line, key, s.buf.Length); }
    var left := EditAndSync(s, t, key);
    if left == CR || left == LF || left == CTRL_C {
      return true;
    }
    var moveBy := if left == KEY_UP then 1 else if left == KEY_DOWN then -1 else 0;
    if moveBy != 0 && h != null {
      HistoryStep(s, t, h, moveBy);
    }
    return false;
  }

  lemma UnusedEditsNothing(l: Line, key: int, size: nat)
    requires l.Ok(size) && (key == KEY_UP || key == KEY_DOWN || Ends(key))
    ensures EditKey(l, key, size) == l && !Consumed(key)
  {
  }

  lemma EndsPress(e: Editing, key: int, size: nat)
    requires e.Ok(size) && Ends(key)
    ensures e.Press(key, size) == e
  {
  }

  /** Pressing "up" and then "down" brings back the text that was being edited. */
  lemma UpThenDown(e: Editing, size: nat)
    requires e.Ok(size) && e.depth < MAX_DEPTH && e.views[e.depth + 1].Some?
    ensures var back := e.Press(KEY_UP, size).Press(KEY_DOWN, size);
            back.depth == e.depth && back.line.text == e.line.text
  {
    assert e.line.text[..|e.line.text|] == e.line.text;
  }

  /** `readline_history`, fed with the given keys. If they run out before the line is finished the
      outcome is `Waiting`, so the claims about the display hold after every key. */
  method ReadlineHistory(prefill: Option<string>, h: History?, keys: seq<int>, t: Terminal)
    returns (outcome: Outcome, s: EditString, ghost last: nat)
    requires t.cells == [] && t.cursor == 0 && !t.garbled
    requires (prefill.Some? ==> NUL !in prefill.value) && (h != null ==> h.Valid())
    modifies t, if h == null then {} else {h, h.entries}
    ensures fresh(s) && s.Valid() && s.buf.Length == READLINE_MAX && (h != null ==> h.Valid())
    ensures (prefill.Some? ==> AllPrintable(prefill.value)) && old(Clean(h)) ==> Nice(s, t) && Clean(h)
    ensures last <= |keys| && forall k :: 0 <= k < last ==> keys[k] != CR && keys[k] != LF && keys[k] != CTRL_C
    ensures last < |keys| ==> keys[last] == CR || keys[last] == LF || keys[last] == CTRL_C
    ensures outcome == if last == |keys| then Waiting else if keys[last] == CTRL_C then Cancelled else Entered(s.Now().text)
    ensures s.Now() == Typed(old(Edited(if prefill.Some? then Replaced(prefill.value, READLINE_MAX) else Line("", 0), h)), keys, READLINE_MAX).line
    ensures h != null ==> h.Lines() == LinesAfter(old(h.Lines()), outcome)
    ensures h != null && !outcome.Waiting? ==> h.depth == 0 && forall i :: 0 <= i < ENTRIES ==> h.entries[i].temp == None
  {
    hide Nice, Synced, EditKey, Replaced, EntriesPrintable, ViewsOf, LinesOf, AllPrintable, Editing.Press, StrLen, EditString.Valid;
    s := Prefilled(prefill, t);
    ghost var start := Edited(s.Now(), h);
    ghost var nice := (prefill.Some? ==> AllPrintable(prefill.value)) && Clean(h);
    var i := 0;
    while i < |keys|
      invariant i <= |keys| && fresh(s) && s.Valid() && s.buf.Length == READLINE_MAX && fresh(s.buf) && (h != null ==> h.Valid())
      invariant nice ==> Nice(s, t) && Clean(h)
      invariant forall k :: 0 <= k < i ==> !Ends(keys[k])
      invariant Edited(s.Now(), h).Ok(READLINE_MAX)
      invariant Typed(start, keys, READLINE_MAX) == Typed(Edited(s.Now(), h), keys[i..], READLINE_MAX)
      invariant h != null ==> h.Lines() == old(h.Lines())
    {
      var key := keys[i];
      assert keys[i..][0] == key && keys[i..][1..] == keys[i + 1..];
      if Ends(key) { EndsPress(Edited(s.Now(), h), key, READLINE_MAX); }
      var ends := HandleKey(s, t, h, key);
      if ends {
        var line := CurrentText(s);
        outcome := if key == CTRL_C then Cancelled else Entered(line);
        if nice { NiceText(s, t); }
        if h != null {
          Finish(h, outcome);
        }
        last := i;
        return;
      }
      i := i + 1;
    }
    outcome, last := Waiting, i;
  }

  /** The start of `readline_history`: an empty buffer, or one that shows the prefilled text. */
  method Prefilled(prefill: Option<string>, t: Terminal) returns (s: EditString)
    requires t.cells == [] && t.cursor == 0 && !t.garbled
    requires prefill.Some? ==> NUL !in prefill.value
    modifies t
    ensures fresh(s) && fresh(s.buf) && s.Valid() && s.buf.Length == READLINE_MAX
    ensures s.Now() == if prefill.Some? then Replaced(prefill.value, READLINE_MAX) else Line("", 0)
    ensures (prefill.Some? ==> AllPrintable(prefill.value)) ==> Nice(s, t)
  {
    s := new EditString(READLINE_MAX);
    if prefill.Some? {
      ghost var empty := s.Now();
      s.Replace(prefill.value);
      SyncConsole(s, t, empty);
    }
  }

  /** The end of `readline_history`: keep a non-empty line, forget the temporary copies. */
  method Finish(h: History, outcome: Outcome)
    requires h.Valid() && (outcome.Entered? ==> NUL !in outcome.line)
    modifies h, h.entries
    ensures h.Valid() && h.depth == 0 && forall i :: 0 <= i < ENTRIES ==> h.entries[i].temp == None
    ensures h.Lines() == LinesAfter(old(h.Lines()), outcome)
    ensures old(Clean(h)) && (outcome.Entered? ==> AllPrintable(outcome.line)) ==> Clean(h)
  {
    if outcome.Entered? && outcome.line != "" {
      h.Append(outcome.line);
    }
    h.Cleanup();
  }
}
