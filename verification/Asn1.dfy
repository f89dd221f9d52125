/** The ASN.1 cursor that reads objects in place, and the builder that writes them back to front. */
module Asn1 {
  import opened Platform
  import opened Bytes
  import opened Memory
  import opened Der

  class Cursor {
    var buffer: seq<byte>
    var data: nat
    var len: nat

    predicate Valid()
      reads this
    {
      data + len <= |buffer|
    }

    /** The bytes the cursor covers. */
    function View(): seq<byte>
      reads this
      requires Valid()
    {
      buffer[data..data + len]
    }

    constructor (bytes: seq<byte>)
      ensures Valid() && View() == bytes
    {
      buffer, data, len := bytes, 0, |bytes|;
    }

    method Invalidate()
      modifies this
      ensures Valid() && View() == []
    {
      buffer, data, len := [0, 0], 0, 0;
    }

    method Advance(n: nat)
      requires Valid() && n <= len
      modifies `data, `len
      ensures Valid() && View() == old(View())[n..] && data == old(data) + n
    {
      data, len := data + n, len - n;
    }

    /** Step over a header, towards the body. */
    method StartObject(type_: nat) returns (rc: int)
      requires Valid()
      modifies `data, `len
      ensures Valid()
      ensures match Parse(old(View()), type_)
              case Object(body, n) => rc == n && View() == old(View())[body..] && data == old(data) + body
              case Error(e, consumed) => rc == e && View() == old(View())[consumed..]
    {
      ghost var view := View();
      if len < 2 { return -EINVAL_EMPTY; }
      if type_ != ANY && type_ != buffer[data] { return -ENXIO; }
      Advance(1);
      var lenLen := buffer[data];
      assert lenLen == view[1];
      if lenLen >= 0x80 {
        lenLen := lenLen - 0x80;
        Advance(1);
        assert View() == view[2..];
      } else {
        lenLen := 1;
      }
      rc := ReadLength(lenLen, view, if view[1] >= 0x80 then 2 else 1);
    }

    method ReadLength(lenLen: nat, ghost view: seq<byte>, ghost off: nat) returns (rc: int)
      requires Valid() && off <= |view| && View() == view[off..]
      modifies `data, `len
      ensures Valid()
      ensures match ParseLength(view, off, lenLen)
              case Object(body, n) => rc == n && View() == view[body..] && data == old(data) + body - off
              case Error(e, consumed) => rc == e && View() == view[consumed..]
    {
      hide FromBE;
      EmptyNumber();
      if len < lenLen { return -EINVAL_LEN_LEN; }
      var size := 0;
      assert view[off..off + 0] == [];
      for i := 0 to lenLen
        invariant Valid() && off + i <= off + lenLen <= |view| && View() == view[off + i..] && data == old(data) + i
        invariant size == FromBE(view[off..off + i]) % UINT_MOD
      {
        assert buffer[data] == View()[0] == view[off + i];
        assert view[off..off + i + 1][..i] == view[off..off + i];
        OneMore(view[off..off + i + 1]);
        ShiftIn(FromBE(view[off..off + i]), buffer[data]);
        size := (size * 256 + buffer[data]) % UINT_MOD;
        Advance(1);
      }
      if len < size { return -EINVAL_LEN; }
      rc := if size >= INT_LIMIT then size - UINT_MOD else size;
    }

    /** Narrow the cursor to the body of the object it is at. */
    method Enter(type_: nat) returns (rc: int)
      requires Valid()
      modifies this
      ensures Valid()
      ensures match Parse(old(View()), type_)
              case Object(body, n) => rc == 0 && View() == old(View())[body..body + n]
              case Error(e, _) => rc == e && View() == []
    {
      ghost var view := View();
      var n := StartObject(type_);
      if n < 0 {
        Invalidate();
        return n;
      }
      ghost var body := Parse(view, type_).body;
      assert View()[..n] == view[body..body + n];
      len := n;
      rc := 0;
      assert View() == view[body..body + n];
    }

    /** Move past the object, if it has the given type. */
    method SkipIfExists(type_: nat) returns (rc: int)
      requires Valid()
      modifies `data, `len
      ensures Valid()
      ensures match Parse(old(View()), type_)
              case Object(body, n) => View() == old(View())[body + n..] && rc == (if View() == [] then -ENOENT else 0)
              case Error(e, consumed) => rc == e && View() == old(View())[consumed..]
    {
      ghost var view := View();
      var n := StartObject(type_);
      if n < 0 { return n; }
      Advance(n);
      assert View() == view[Parse(view, type_).body + n..];
      rc := if len == 0 then -ENOENT else 0;
    }

    /** Move past the object; at the end, or after an error, nothing is left to read. */
    method Skip(type_: nat) returns (rc: int)
      requires Valid()
      modifies this
      ensures Valid()
      ensures type_ == ANY ==> View() == AfterFirst(old(View()))
      ensures match Parse(old(View()), type_)
              case Object(body, n) => View() == old(View())[body + n..] && rc == (if View() == [] then -ENOENT else 0)
              case Error(e, _) => rc == e && View() == []
    {
      rc := SkipIfExists(type_);
      if rc != 0 { Invalidate(); }
    }

    /** Narrow the cursor to the object it is at, header included. */
    method Shrink(type_: nat) returns (rc: int)
      requires Valid()
      modifies this
      ensures Valid()
      ensures match Parse(old(View()), type_)
              case Object(body, n) => rc == 0 && View() == old(View())[..body + n]
              case Error(e, _) => rc == e && View() == []
    {
      ghost var view := View();
      var temp := new Cursor([]);
      temp.buffer, temp.data, temp.len := buffer, data, len;
      var n := temp.StartObject(type_);
      if n < 0 {
        Invalidate();
        return n;
      }
      len := temp.data + n - data;
      rc := 0;
      assert len == Parse(view, type_).body + n;
      assert View() == view[..len];
    }

    /** The loop that parses each object in turn, until one is rejected. */
    method ForEach(process: seq<byte> -> int) returns (rc: int, visited: seq<seq<byte>>)
      requires Valid()
      modifies this
      ensures Valid()
      ensures visited <= Visits(old(View()))
      ensures rc == 0 ==> visited == Visits(old(View())) && Passed(process, visited)
      ensures rc != 0 ==> Stopped(process, visited, rc)
    {
      hide Visits, AfterFirst, Parse;
      visited := [];
      rc := 0;
      while len > 0 && rc == 0
        invariant Valid()
        invariant rc == 0 ==> Visits(old(View())) == visited + Visits(View()) && Passed(process, visited)
        invariant rc != 0 ==> visited <= Visits(old(View())) && Stopped(process, visited, rc)
        decreases len
      {
        ghost var view, before := View(), visited;
        visited := visited + [buffer[data..data + len]];
        VisitsStep(view);
        assert before + ([view] + Visits(AfterFirst(view))) == visited + Visits(AfterFirst(view));
        rc := process(buffer[data..data + len]);
        var _ := Skip(ANY);
      }
      VisitsNone();
      assert rc == 0 ==> View() == [] && visited + [] == visited;
    }
  }

  ghost predicate Passed(process: seq<byte> -> int, visited: seq<seq<byte>>) {
    forall i :: 0 <= i < |visited| ==> process(visited[i]) == 0
  }

  ghost predicate Stopped(process: seq<byte> -> int, visited: seq<seq<byte>>, rc: int) {
    visited != [] && process(visited[|visited| - 1]) == rc && Passed(process, visited[..|visited| - 1])
  }

  lemma EmptyNumber()
    ensures FromBE([]) == 0
  {
  }

  lemma OneMore(s: seq<byte>)
    requires s != []
    ensures FromBE(s) == FromBE(s[..|s| - 1]) * 256 + s[|s| - 1]
  {
  }

  lemma ShiftIn(n: nat, b: byte)
    ensures ((n % UINT_MOD) * 256 + b) % UINT_MOD == (n * 256 + b) % UINT_MOD
  {
    var a, k := (n % UINT_MOD) * 256 + b, n / UINT_MOD * 256;
    assert n * 256 + b == UINT_MOD * (a / UINT_MOD + k) + a % UINT_MOD;
    Bits.DivUnique(n * 256 + b, UINT_MOD, a / UINT_MOD + k, a % UINT_MOD);
  }

  /** Fill in a header; `word` is the size of a length in bytes. */
  method FillHeader(type_: nat, len: nat, word: nat) returns (header: array<byte>, headerLen: nat)
    requires len < Pow256(word) && word < 0x7f
    ensures fresh(header) && headerLen <= header.Length && ByteCount(len) < 0x80
    ensures header[..headerLen] == EncodeHeader(type_, len)
  {
    header := new byte[2 + word];
    ByteCountLimit(len, word);
    headerLen := 2;
    header[0] := type_ % 256;
    if len < 0x80 {
      LengthFits(len, word);
      header[1] := len;
    } else {
      var lenLen, temp := 0, len;
      while temp > 0
        invariant lenLen + ByteCount(temp) == ByteCount(len)
        decreases temp
      {
        lenLen, temp := lenLen + 1, temp / 256;
      }
      header[1] := 0x80 + lenLen;
      headerLen := headerLen + lenLen;
      ghost var n := lenLen;
      temp := len;
      assert header[2 + n..2 + n] == [];
      while temp > 0
        invariant lenLen == ByteCount(temp) <= n && header[0] == type_ % 256 && header[1] == 0x80 + n
        invariant ToBE(len, n) == ToBE(temp, lenLen) + header[2 + lenLen..2 + n]
        decreases temp
      {
        ghost var was := header[2 + lenLen..2 + n];
        header[1 + lenLen] := temp % 256;
        assert header[1 + lenLen..2 + n] == [temp % 256] + was;
        lenLen, temp := lenLen - 1, temp / 256;
      }
      assert header[..headerLen] == [header[0]] + [header[1]] + header[2..2 + n];
    }
  }

  lemma LengthFits(len: nat, word: nat)
    requires len < Pow256(word)
    ensures len > 0 ==> word > 0
  {
  }

  method WriteFront(a: array<byte>, header: seq<byte>, bytes: seq<byte>)
    requires |header| + |bytes| <= a.Length
    modifies a
    ensures a[..] == header + bytes + old(a[|header| + |bytes|..])
  {
    ghost var d := a[..];
    CopyIn(a, 0, header);
    CopyIn(a, |header|, bytes);
    ReplaceAfter(d, 0, header, bytes);
  }

  class Builder {
    var data: array?<byte>
    var len: nat

    predicate Valid()
      reads this
    {
      data != null ==> data.Length == len
    }

    /** An allocation has failed after something had been written. */
    predicate Failed()
      reads this
    {
      data == null && len > 0
    }

    function Contents(): (s: seq<byte>)
      reads this, data
      requires Valid()
      ensures !Failed() ==> |s| == len
    {
      if data == null then [] else data[..]
    }

    constructor ()
      ensures Valid() && !Failed() && Contents() == []
    {
      data, len := null, 0;
    }

    /** `realloc`, which may fail unless nothing is asked for. */
    method Realloc(newLen: nat, fits: bool) returns (p: array?<byte>)
      requires Valid() && len <= newLen
      ensures p == null <==> !fits && newLen > 0
      ensures p != null ==> fresh(p) && p.Length == newLen && p[..|Contents()|] == Contents()
    {
      if !fits && newLen > 0 { return null; }
      p := new byte[newLen](_ => 0);
      if data != null { CopyIn(p, 0, data[..]); }
    }

    /** Open up `extra` bytes before the contents. */
    method Grow(extra: nat, fits: bool) returns (rc: int)
      requires Valid()
      modifies this
      ensures Valid()
      ensures old(Failed()) ==> rc == -ENOMEM && Failed() && len == old(len)
      ensures !old(Failed()) && !fits && old(len) + extra > 0 ==> rc == -ENOMEM && data == null && len == old(len)
      ensures !old(Failed()) && (fits || old(len) + extra == 0) ==>
                rc == 0 && data != null && fresh(data) && len == old(len) + extra && data[extra..] == old(Contents())
    {
      if len > 0 && data == null { return -ENOMEM; }
      var newLen := len + extra;
      var p := Realloc(newLen, fits);
      if p == null {
        data := null;
        return -ENOMEM;
      }
      ghost var was := Contents();
      Memmove(p, extra, 0, len);
      assert p[extra..] == p[extra..extra + len];
      data, len := p, newLen;
      rc := 0;
    }

    method PrependRaw(bytes: seq<byte>, fits: bool) returns (rc: int)
      requires Valid()
      modifies this
      ensures Valid()
      ensures rc == 0 || rc == -ENOMEM
      ensures rc == 0 <==> !old(Failed()) && (fits || old(len) + |bytes| == 0)
      ensures rc == 0 ==> !Failed() && Contents() == bytes + old(Contents())
      ensures rc != 0 ==> data == null && len == old(len) && (Failed() <==> old(len) > 0)
    {
      rc := Grow(|bytes|, fits);
      if rc != 0 { return; }
      ghost var was := data[|bytes|..];
      CopyIn(data, 0, bytes);
      assert Contents() == bytes + was;
    }

    /** Write one object in front of the contents. */
    method Prepend(type_: nat, bytes: seq<byte>, word: nat, fits: bool) returns (rc: int)
      requires Valid() && |bytes| < Pow256(word) && word < 0x7f
      modifies this
      ensures Valid() && ByteCount(|bytes|) < 0x80
      ensures rc == 0 || rc == -ENOMEM
      ensures rc == 0 <==> !old(Failed()) && fits
      ensures rc == 0 ==> !Failed() && Contents() == Encode(type_, bytes) + old(Contents())
      ensures rc != 0 ==> data == null && len == old(len) && (Failed() <==> old(len) > 0)
    {
      hide EncodeHeader, ByteCount, Pow256;
      var header, headerLen := FillHeader(type_, |bytes|, word);
      rc := Grow(headerLen + |bytes|, fits);
      if rc != 0 { return; }
      WriteFront(data, header[..headerLen], bytes);
    }

    /** Make the contents the body of one object. */
    method Wrap(type_: nat, word: nat, fits: bool) returns (rc: int)
      requires Valid() && len < Pow256(word) && word < 0x7f
      modifies this
      ensures Valid() && ByteCount(old(len)) < 0x80
      ensures rc == 0 || rc == -ENOMEM
      ensures rc == 0 <==> !old(Failed()) && fits
      ensures rc == 0 ==> !Failed() && |old(Contents())| == old(len) && Contents() == Encode(type_, old(Contents()))
      ensures rc != 0 ==> data == null && len == old(len) && (Failed() <==> old(len) > 0)
    {
      var header, headerLen := FillHeader(type_, len, word);
      rc := Grow(headerLen, fits);
      if rc != 0 { return; }
      ghost var was := data[headerLen..];
      CopyIn(data, 0, header[..headerLen]);
      assert Contents() == header[..headerLen] + was;
    }
  }

  /** Entering what `Wrap` produces gives back what was wrapped. */
  lemma WrapThenEnter(e: Element)
    requires |e.content| < INT_LIMIT && ByteCount(|e.content|) < 0x80
    ensures Reads(Encode(e.type_, e.content), e)
  {
    FirstReads(e, []);
    assert Encode(e.type_, e.content) + [] == Encode(e.type_, e.content);
  }
}
