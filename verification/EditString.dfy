/** Editable strings: a NUL-terminated buffer of fixed size, a cursor, and a record of which part
    of the text the last edit may have changed. */
module EditString {
  import opened Platform
  import opened Bits
  import opened Memory

  const CTRL_A: int := 0x01
  const CTRL_B: int := 0x02
  const CTRL_C: int := 0x03
  const CTRL_D: int := 0x04
  const CTRL_E: int := 0x05
  const CTRL_F: int := 0x06
  const CTRL_K: int := 0x0b
  const CTRL_U: int := 0x15
  const LF: int := 0x0a
  const CR: int := 0x0d
  const KEY_BACKSPACE: int := 0x08
  const KEY_UP: int := 0x141
  const KEY_DOWN: int := 0x142
  const KEY_RIGHT: int := 0x143
  const KEY_LEFT: int := 0x144
  const KEY_END: int := 0x146
  const KEY_HOME: int := 0x148
  const KEY_DC: int := 0x47e

  /** `~( ( size_t ) 0 )`: more than any buffer holds. */
  const EVERYTHING: nat := 0xffff_ffff_ffff_ffff

  /** `strlen` over a buffer that may hold rubbish after the terminator. */
  function StrLen(s: seq<char>): (n: nat)
    ensures n <= |s| && NUL !in s[..n]
    ensures n < |s| ==> s[n] == NUL
    ensures NUL in s ==> n < |s|
  {
    if s == [] || s[0] == NUL then 0 else 1 + StrLen(s[1..])
  }

  lemma {:induction false} StrLenUnique(s: seq<char>, n: nat)
    requires n < |s| && s[n] == NUL && NUL !in s[..n]
    ensures StrLen(s) == n
  {
    if n > 0 {
      assert s[0] == s[..n][0];
      assert s[1..][..n - 1] == s[..n][1..];
      StrLenUnique(s[1..], n - 1);
    }
  }

  /** The visible state of an edit: text and cursor. */
  datatype Line = Line(text: string, cursor: nat) {
    ghost predicate Ok(size: nat) { cursor <= |text| < size && NUL !in text }
  }

  /** Replace up to `del` characters at the cursor by as much of `ins` as the buffer takes. */
  function Splice(l: Line, del: nat, ins: string, size: nat): Line
    requires l.cursor <= |l.text| < size
  {
    var d := Min(del, |l.text| - l.cursor);
    var k := Min(|ins|, size - 1 - (|l.text| - d));
    Line(l.text[..l.cursor] + ins[..k] + l.text[l.cursor + d..], l.cursor + k)
  }

  /** What each key does to the line. */
  function EditKey(l: Line, key: int, size: nat): Line
    requires l.cursor <= |l.text| < size
  {
    if 0x20 <= key <= 0x7e then Splice(l, 0, [key as char], size)
    else if key == KEY_BACKSPACE then
      (if l.cursor == 0 then l else Splice(Line(l.text, l.cursor - 1), 1, "", size))
    else if key == KEY_DC || key == CTRL_D then Splice(l, 1, "", size)
    else if key == CTRL_U then Line(l.text[l.cursor..], 0)
    else if key == CTRL_K then Line(l.text[..l.cursor], l.cursor)
    else if key == KEY_HOME || key == CTRL_A then Line(l.text, 0)
    else if key == KEY_END || key == CTRL_E then Line(l.text, |l.text|)
    else if key == KEY_LEFT || key == CTRL_B then Line(l.text, if l.cursor > 0 then l.cursor - 1 else 0)
    else if key == KEY_RIGHT || key == CTRL_F then Line(l.text, if l.cursor < |l.text| then l.cursor + 1 else l.cursor)
    else l
  }

  /** The columns an edit reports as modified: from where it starts to the end of the longer text, or
      none for a key that edits nothing. */
  ghost function Touched(l: Line, key: int, size: nat): (nat, nat)
    requires l.cursor <= |l.text| < size
  {
    var end := Max(|l.text|, |EditKey(l, key, size).text|);
    if key == KEY_BACKSPACE && l.cursor > 0 then (l.cursor - 1, end)
    else if key == CTRL_U then (0, end)
    else if 0x20 <= key <= 0x7e || key == KEY_DC || key == CTRL_D || key == CTRL_K then (l.cursor, end)
    else (l.cursor, l.cursor)
  }

  predicate Consumed(key: int) {
    0x20 <= key <= 0x7e ||
    key in [KEY_BACKSPACE, KEY_DC, CTRL_D, CTRL_U, CTRL_K, KEY_HOME, CTRL_A, KEY_END, CTRL_E, KEY_LEFT, CTRL_B, KEY_RIGHT, CTRL_F]
  }

  lemma SpliceKeepsOk(l: Line, del: nat, ins: string, size: nat)
    requires l.Ok(size) && NUL !in ins
    ensures Splice(l, del, ins, size).Ok(size)
  {
  }

  /** Truncated or not, an edit leaves everything before the cursor and after the deletion alone. */
  lemma SpliceMeaning(l: Line, del: nat, ins: string, size: nat)
    requires l.Ok(size)
    ensures var r := Splice(l, del, ins, size);
            && r.text[..l.cursor] == l.text[..l.cursor]
            && r.text[l.cursor..r.cursor] <= ins
            && r.text[r.cursor..] == l.text[l.cursor + Min(del, |l.text| - l.cursor)..]
            && (r.text[l.cursor..r.cursor] == ins || |r.text| == size - 1)
  {
  }

  /** Each key in terms of the text `a` before and `b` after the cursor: what it takes from either side
      and where it leaves the cursor. Any other key leaves the line alone. */
  lemma EditKeyMeaning(a: string, b: string, key: int, size: nat)
    requires |a + b| < size
    ensures var l, r := Line(a + b, |a|), EditKey(Line(a + b, |a|), key, size);
            && (0x20 <= key <= 0x7e ==> r == if |a + b| == size - 1 then l else Line(a + [key as char] + b, |a| + 1))
            && (key == KEY_BACKSPACE ==> r == if a == [] then l else Line(a[..|a| - 1] + b, |a| - 1))
            && (key == KEY_DC || key == CTRL_D ==> r == if b == [] then l else Line(a + b[1..], |a|))
            && (key == CTRL_U ==> r == Line(b, 0))
            && (key == CTRL_K ==> r == Line(a, |a|))
            && (key == KEY_HOME || key == CTRL_A ==> r == Line(a + b, 0))
            && (key == KEY_END || key == CTRL_E ==> r == Line(a + b, |a + b|))
            && (key == KEY_LEFT || key == CTRL_B ==> r == if a == [] then l else Line(a + b, |a| - 1))
            && (key == KEY_RIGHT || key == CTRL_F ==> r == if b == [] then l else Line(a + b, |a| + 1))
            && (!Consumed(key) ==> r == l)
  {
    hide Splice;
    assert (a + b)[..|a|] == a && (a + b)[|a|..] == b;
    if 0x20 <= key <= 0x7e {
      InsertAt(a, b, key as char, size);
    } else if key == KEY_BACKSPACE {
      if a != [] { BackspaceAt(a, b, size); }
    } else if key == KEY_DC || key == CTRL_D {
      DeleteAt(a, b, size);
    }
  }

  lemma InsertAt(a: string, b: string, c: char, size: nat)
    requires |a + b| < size
    ensures Splice(Line(a + b, |a|), 0, [c], size) == if |a + b| == size - 1 then Line(a + b, |a|) else Line(a + [c] + b, |a| + 1)
  {
    SpliceSides(a, b, 0, [c], size);
    assert a + [] + b == a + b && [c][..1] == [c] && [c][..0] == [];
  }

  lemma DeleteAt(a: string, b: string, size: nat)
    requires |a + b| < size
    ensures Splice(Line(a + b, |a|), 1, "", size) == if b == [] then Line(a + b, |a|) else Line(a + b[1..], |a|)
  {
    SpliceSides(a, b, 1, "", size);
    assert b == [] ==> a + [] + b[0..] == a + b;
    assert b != [] ==> a + [] + b[1..] == a + b[1..];
  }

  lemma BackspaceAt(a: string, b: string, size: nat)
    requires a != [] && |a + b| < size
    ensures Splice(Line(a + b, |a| - 1), 1, "", size) == Line(a[..|a| - 1] + b, |a| - 1)
  {
    var c, x := a[..|a| - 1], a[|a| - 1..];
    assert c + (x + b) == a + b && (x + b)[1..] == b;
    DeleteAt(c, x + b, size);
  }

  lemma SpliceSides(a: string, b: string, del: nat, ins: string, size: nat)
    requires |a + b| < size
    ensures var d, k := Min(del, |b|), Min(|ins|, size - 1 - (|a + b| - Min(del, |b|)));
            Splice(Line(a + b, |a|), del, ins, size) == Line(a + ins[..k] + b[d..], |a| + k)
  {
    var d := Min(del, |b|);
    assert (a + b)[..|a|] == a && (a + b)[|a| + d..] == b[d..];
  }

  /** Backspace takes back a character that was inserted. */
  lemma InsertBackspace(l: Line, key: int, size: nat)
    requires l.cursor <= |l.text| < size - 1 && 0x20 <= key <= 0x7e
    ensures EditKey(EditKey(l, key, size), KEY_BACKSPACE, size) == l
  {
    hide Splice;
    var a, b, c := l.text[..l.cursor], l.text[l.cursor..], key as char;
    assert a + b == l.text;
    InsertAt(a, b, c, size);
    BackspaceAt(a + [c], b, size);
    assert (a + [c])[..|a|] == a;
  }

  /** What a display of the text shows in column `i`. */
  function View(text: string, i: int): char {
    if 0 <= i < |text| then text[i] else ' '
  }

  /** Outside the columns `[start, end)` both texts look the same. */
  ghost predicate SameOutside(s: string, t: string, start: nat, end: nat) {
    forall i: int {:trigger View(s, i)} {:trigger View(t, i)} :: i < start || end <= i ==> View(s, i) == View(t, i)
  }

  lemma SpliceChanges(l: Line, del: nat, ins: string, size: nat)
    requires l.cursor <= |l.text| < size
    ensures var r := Splice(l, del, ins, size);
            SameOutside(l.text, r.text, l.cursor, Max(|r.text|, |l.text|))
  {
  }

  /** Replace the whole text. */
  function Replaced(text: string, size: nat): Line
    requires size > 0
  {
    var t := text[..Min(|text|, size - 1)];
    Line(t, |t|)
  }

  lemma SpliceAll(l: Line, del: nat, ins: string, size: nat)
    requires l.Ok(size) && del >= |l.text|
    ensures Splice(l, del, "", size) == Line(l.text[..l.cursor], l.cursor)
    ensures Splice(Line(l.text, 0), del, ins, size) == Replaced(ins, size)
  {
  }

  lemma SpliceFront(l: Line, size: nat)
    requires l.Ok(size)
    ensures Splice(Line(l.text, 0), l.cursor, "", size) == Line(l.text[l.cursor..], 0)
  {
  }

  /** Move the tail (with its terminator) and copy the insertion into the gap. */
  method SpliceBuffer(buf: array<char>, n: nat, c: nat, d: nat, ins: string)
    requires c + d <= n < buf.Length && n - d + |ins| < buf.Length
    modifies buf
    ensures var m := n - d + |ins|;
            buf[..m] == old(buf[..c]) + ins + old(buf[c + d..n]) && buf[m] == old(buf[n])
  {
    ghost var b := buf[..];
    var k := |ins|;
    Memmove(buf, c + k, c + d, n - c - d + 1);
    ghost var mid := buf[..];
    assert mid[..c] == b[..c] && mid[c + k..n - d + k + 1] == b[c + d..n + 1];
    CopyIn(buf, c, ins);
    SplicedText(b, mid, buf[..], n, c, d, ins);
  }

  lemma SplicedText(b: seq<char>, mid: seq<char>, r: seq<char>, n: nat, c: nat, d: nat, ins: string)
    requires c + d <= n < |b| && |mid| == |b| && n - d + |ins| < |b|
    requires mid[..c] == b[..c] && mid[c + |ins|..n - d + |ins| + 1] == b[c + d..n + 1]
    requires r == mid[..c] + ins + mid[c + |ins|..]
    ensures var m := n - d + |ins|; r[..m] == b[..c] + ins + b[c + d..n] && r[m] == b[n]
  {
    var k := |ins|;
    var m := n - d + k;
    var tail := b[c + d..n + 1];
    assert r[m] == mid[m] == tail[n - c - d];
    assert mid[c + k..m] == tail[..n - c - d] == b[c + d..n];
    assert r[..m] == mid[..c] + ins + mid[c + k..m];
  }

  lemma SpliceOf(b: seq<char>, n: nat, c: nat, deleteLen: nat, ins: string)
    requires c <= n < |b|
    ensures var d := Min(deleteLen, n - c);
            var k := Min(|ins|, |b| - 1 - (n - d));
            Splice(Line(b[..n], c), deleteLen, ins, |b|) == Line(b[..c] + ins[..k] + b[c + d..n], c + k)
  {
    var d := Min(deleteLen, n - c);
    assert b[..n][..c] == b[..c] && b[..n][c + d..] == b[c + d..n];
  }

  /** A buffer spliced at the cursor reads as the spliced line. */
  lemma Respliced(b: seq<char>, r: seq<char>, n: nat, c: nat, d: nat, k: nat, deleteLen: nat, ins: string)
    requires NUL in b && n == StrLen(b) && c <= n && |r| == |b| && NUL !in ins
    requires d == Min(deleteLen, n - c) && k == Min(|ins|, |b| - 1 - (n - d))
    requires r[..n - d + k] == b[..c] + ins[..k] + b[c + d..n] && r[n - d + k] == b[n]
    ensures NUL in r && Line(r[..StrLen(r)], c + k) == Splice(Line(b[..n], c), deleteLen, ins, |b|) && c + k <= StrLen(r)
  {
    hide Splice;
    var l := Line(b[..n], c);
    SpliceOf(b, n, c, deleteLen, ins);
    SpliceKeepsOk(l, deleteLen, ins, |b|);
    StrLenUnique(r, n - d + k);
  }

  class EditString {
    const buf: array<char>
    var cursor: nat
    var lastCursor: nat
    var modStart: nat
    var modEnd: nat

    ghost predicate Valid() reads this, buf {
      NUL in buf[..] && cursor <= StrLen(buf[..]) && buf.Length <= EVERYTHING
    }

    ghost function Now(): (l: Line)
      requires Valid()
      reads this, buf
      ensures l.Ok(buf.Length)
    {
      Line(buf[..][..StrLen(buf[..])], cursor)
    }

    constructor (size: nat)
      requires 0 < size <= EVERYTHING
      ensures Valid() && fresh(buf) && buf.Length == size && Now() == Line("", 0)
      ensures lastCursor == modStart == modEnd == 0
    {
      buf := new char[size](_ => NUL);
      cursor, lastCursor, modStart, modEnd := 0, 0, 0, 0;
      new;
      assert buf[..][0] == NUL;
    }

    /** `insert_delete` */
    method InsertDelete(deleteLen: nat, insertText: string)
      requires Valid() && NUL !in insertText
      modifies this`cursor, this`modStart, this`modEnd, buf
      ensures Valid() && Now() == Splice(old(Now()), deleteLen, insertText, buf.Length)
      ensures modStart == old(cursor) && modEnd == Max(|Now().text|, |old(Now()).text|)
    {
      hide Splice, StrLen;
      var oldLen := StrLen(buf[..]);
      var maxDeleteLen := oldLen - cursor;
      var del := Min(deleteLen, maxDeleteLen);
      var maxInsertLen := buf.Length - 1 - (oldLen - del);
      var insertLen := Min(|insertText|, maxInsertLen);
      var newLen := oldLen - del + insertLen;
      ghost var before := buf[..];
      modStart := cursor;
      modEnd := if newLen > oldLen then newLen else oldLen;
      SpliceBuffer(buf, oldLen, cursor, del, insertText[..insertLen]);
      Respliced(before, buf[..], oldLen, cursor, del, insertLen, deleteLen, insertText);
      cursor := cursor + insertLen;
    }

    /** The edit history covers what has changed since `before`. */
    ghost predicate Recorded(before: Line)
      requires Valid()
      reads this, buf
    {
      SameOutside(before.text, Now().text, modStart, modEnd)
    }

    /** `insert_character` */
    method InsertCharacter(c: char)
      requires Valid() && c != NUL
      modifies this`cursor, this`modStart, this`modEnd, buf
      ensures Valid() && Now() == Splice(old(Now()), 0, [c], buf.Length)
      ensures Recorded(old(Now()))
      ensures modStart == old(cursor) && modEnd == Max(|Now().text|, |old(Now()).text|)
    {
      SpliceChanges(Now(), 0, [c], buf.Length);
      InsertDelete(0, [c]);
    }

    /** `delete_character` */
    method DeleteCharacter()
      requires Valid()
      modifies this`cursor, this`modStart, this`modEnd, buf
      ensures Valid() && Now() == Splice(old(Now()), 1, "", buf.Length)
      ensures Recorded(old(Now()))
      ensures modStart == old(cursor) && modEnd == Max(|Now().text|, |old(Now()).text|)
    {
      SpliceChanges(Now(), 1, "", buf.Length);
      InsertDelete(1, "");
    }

    /** `backspace` */
    method Backspace()
      requires Valid() && modStart == modEnd == cursor
      modifies this`cursor, this`modStart, this`modEnd, buf
      ensures Valid() && Now() == EditKey(old(Now()), KEY_BACKSPACE, buf.Length)
      ensures Recorded(old(Now()))
      ensures if old(cursor) == 0 then modStart == old(modStart) && modEnd == old(modEnd)
              else modStart == old(cursor) - 1 && modEnd == Max(|Now().text|, |old(Now()).text|)
    {
      if cursor > 0 {
        cursor := cursor - 1;
        DeleteCharacter();
      }
    }

    /** `kill_sol` */
    method KillSol()
      requires Valid()
      modifies this`cursor, this`modStart, this`modEnd, buf
      ensures Valid() && Now() == Line(old(Now()).text[old(cursor)..], 0)
      ensures Recorded(old(Now()))
      ensures modStart == 0 && modEnd == Max(|Now().text|, |old(Now()).text|)
    {
      var oldCursor := cursor;
      SpliceFront(Now(), buf.Length);
      cursor := 0;
      SpliceChanges(Now(), oldCursor, "", buf.Length);
      InsertDelete(oldCursor, "");
    }

    /** `kill_eol` */
    method KillEol()
      requires Valid()
      modifies this`cursor, this`modStart, this`modEnd, buf
      ensures Valid() && Now() == Line(old(Now()).text[..old(cursor)], old(cursor))
      ensures Recorded(old(Now()))
      ensures modStart == old(cursor) && modEnd == Max(|Now().text|, |old(Now()).text|)
    {
      SpliceAll(Now(), EVERYTHING, "", buf.Length);
      SpliceChanges(Now(), EVERYTHING, "", buf.Length);
      InsertDelete(EVERYTHING, "");
    }

    /** `edit_string` */
    method Edit(key: int) returns (retval: int)
      requires Valid()
      modifies this, buf
      ensures Valid() && Now() == EditKey(old(Now()), key, buf.Length)
      ensures retval == if Consumed(key) then 0 else key
      ensures lastCursor == old(cursor) && Recorded(old(Now()))
      ensures (modStart, modEnd) == Touched(old(Now()), key, buf.Length)
    {
      hide StrLen, Splice;
      retval := 0;
      var len := StrLen(buf[..]);
      lastCursor := cursor;
      modStart := cursor;
      modEnd := cursor;
      if 0x20 <= key <= 0x7e {
        InsertCharacter(key as char);
      } else if key == KEY_BACKSPACE {
        Backspace();
      } else if key == KEY_DC || key == CTRL_D {
        DeleteCharacter();
      } else if key == CTRL_U {
        KillSol();
      } else if key == CTRL_K {
        KillEol();
      } else if key == KEY_HOME || key == CTRL_A {
        cursor := 0;
      } else if key == KEY_END || key == CTRL_E {
        cursor := len;
      } else if key == KEY_LEFT || key == CTRL_B {
        if cursor > 0 {
          cursor := cursor - 1;
        }
      } else if key == KEY_RIGHT || key == CTRL_F {
        if cursor < len {
          cursor := cursor + 1;
        }
      } else {
        retval := key;
      }
    }

    /** `replace_string` */
    method Replace(replacement: string)
      requires Valid() && NUL !in replacement
      modifies this`cursor, this`modStart, this`modEnd, buf
      ensures Valid() && Now() == Replaced(replacement, buf.Length) && Recorded(old(Now()))
      ensures modStart == 0 && modEnd == Max(|Now().text|, |old(Now()).text|)
    {
      ghost var l := Now();
      cursor := 0;
      SpliceAll(l, EVERYTHING, replacement, buf.Length);
      SpliceChanges(Now(), EVERYTHING, replacement, buf.Length);
      InsertDelete(EVERYTHING, replacement);
    }
  }
}
