/** Distinguished Encoding Rules: how an ASN.1 object is laid out, and how its header is read. */
module Der {
  import opened Platform
  import opened Bits
  import opened Bytes

  const EINVAL_EMPTY := Distinct(EINVAL, 1)
  const EINVAL_LEN_LEN := Distinct(EINVAL, 2)
  const EINVAL_LEN := Distinct(EINVAL, 3)

  const ANY: nat := 0xffffffff
  const INT_LIMIT: nat := 0x8000_0000

  /** Reading a header: where the body starts and how long it is, or an error after some bytes. */
  datatype Header = Object(body: nat, len: nat) | Error(rc: int, consumed: nat)

  function ParseLength(view: seq<byte>, off: nat, n: nat): (h: Header)
    requires off <= |view|
    ensures h.Object? ==> off <= h.body && h.body + h.len <= |view| && h.len < INT_LIMIT
    ensures h.Error? ==> h.rc < 0 && off <= h.consumed <= |view|
  {
    if |view| - off < n then Error(-EINVAL_LEN_LEN, off)
    else
      var len := FromBE(view[off..off + n]) % UINT_MOD;
      if |view| - off - n < len then Error(-EINVAL_LEN, off + n)
      else if len >= INT_LIMIT then Error(len - UINT_MOD, off + n)
      else Object(off + n, len)
  }

  /** The header at the start of `view`, which must have tag `type` (or any tag). */
  function Parse(view: seq<byte>, type_: nat): (h: Header)
    ensures h.Object? ==> 2 <= h.body && h.body + h.len <= |view| && h.len < INT_LIMIT
    ensures h.Error? ==> h.rc < 0 && h.consumed <= |view|
    ensures h.Error? ==> (h.consumed == 0 <==> |view| < 2 || (type_ != ANY && view[0] != type_))
  {
    if |view| < 2 then Error(-EINVAL_EMPTY, 0)
    else if type_ != ANY && view[0] != type_ then Error(-ENXIO, 0)
    else if view[1] >= 0x80 then ParseLength(view, 2, view[1] - 0x80)
    else ParseLength(view, 1, 1)
  }

  /** Number of bytes needed for `n`. */
  function ByteCount(n: nat): (k: nat)
    ensures k == 0 <==> n == 0
  {
    if n == 0 then 0 else 1 + ByteCount(n / 256)
  }

  lemma {:induction false} ByteCountBounds(n: nat)
    ensures n < Pow256(ByteCount(n))
    ensures n > 0 ==> Pow256(ByteCount(n) - 1) <= n
  {
    if n > 0 { ByteCountBounds(n / 256); }
  }

  lemma {:induction false} ByteCountLimit(n: nat, k: nat)
    requires n < Pow256(k)
    ensures ByteCount(n) <= k
  {
    if n > 0 { ByteCountLimit(n / 256, k - 1); }
  }

  /** The shortest header for a body of `len` bytes. */
  function EncodeHeader(type_: nat, len: nat): (s: seq<byte>)
    requires ByteCount(len) < 0x80
    ensures |s| >= 2
  {
    [type_ % 256] + if len < 0x80 then [len] else [0x80 + ByteCount(len)] + ToBE(len, ByteCount(len))
  }

  function Encode(type_: nat, content: seq<byte>): (s: seq<byte>)
    requires ByteCount(|content|) < 0x80
    ensures |s| >= 2
  {
    EncodeHeader(type_, |content|) + content
  }

  lemma SmallCount(len: nat)
    requires len < UINT_MOD
    ensures ByteCount(len) <= 4
  {
    assert Pow256(4) == UINT_MOD;
    ByteCountLimit(len, 4);
  }

  lemma SingleByte(b: byte)
    ensures FromBE([b]) == b
  {
    assert FromBE([b][..0]) == 0;
  }

  /** Reading back the length field. */
  lemma ParseEncodedLength(type_: nat, len: nat, rest: seq<byte>)
    requires ByteCount(len) < 0x80
    ensures var s := EncodeHeader(type_, len);
            var off := if len < 0x80 then 1 else 2;
            && |s| >= off && FromBE((s + rest)[off..|s|]) == len
            && (len >= 0x80 ==> s[1] == 0x80 + ByteCount(len) && |s| == 2 + ByteCount(len))
            && (len < 0x80 ==> s[1] == len && |s| == 2)
  {
    var s := EncodeHeader(type_, len);
    if len < 0x80 {
      assert (s + rest)[1..2] == [len];
      SingleByte(len);
    } else {
      var n := ByteCount(len);
      assert (s + rest)[2..2 + n] == ToBE(len, n);
      ByteCountBounds(len);
      FromBEToBE(len, n);
    }
  }

  lemma ParseLengthOf(view: seq<byte>, off: nat, n: nat, len: nat)
    requires off + n + len <= |view| && FromBE(view[off..off + n]) == len
    ensures ParseLength(view, off, n) == Object(off + n, len) <==> len < INT_LIMIT
  {
    assert len < UINT_MOD ==> len % UINT_MOD == len;
  }

  /** What the reader makes of an encoded object followed by anything: the very body, exactly
      when the body is shorter than 2^31 bytes. */
  lemma ParseEncoded(type_: nat, content: seq<byte>, rest: seq<byte>, want: nat)
    requires ByteCount(|content|) < 0x80 && (want == ANY || want == type_ % 256)
    ensures var h := EncodeHeader(type_, |content|);
            Parse(h + content + rest, want) == Object(|h|, |content|) <==> |content| < INT_LIMIT
  {
    var h, len := EncodeHeader(type_, |content|), |content|;
    var view := h + content + rest;
    var off := if len < 0x80 then 1 else 2;
    assert view == h + (content + rest);
    ParseEncodedLength(type_, len, content + rest);
    ParseLengthOf(view, off, |h| - off, len);
    assert Parse(view, want) == ParseLength(view, off, |h| - off) by {
      assert view[0] == h[0] && view[1] == h[1];
    }
  }

  lemma TagFirst(t: nat, n: nat)
    requires t < 256 && n < INT_LIMIT && ByteCount(n) < 0x80
    ensures EncodeHeader(t, n) != [] && EncodeHeader(t, n)[0] == t
  {
  }

  lemma Pieces(h: seq<byte>, c: seq<byte>, rest: seq<byte>)
    requires h != []
    ensures var v := h + c + rest; v[0] == h[0] && v[|h|..|h| + |c|] == c && v[|h| + |c|..] == rest
  {
  }

  /** Encodings are prefix-free and unambiguous. */
  lemma EncodeInjective(t: nat, c: seq<byte>, rest: seq<byte>, t': nat, c': seq<byte>, rest': seq<byte>)
    requires t < 256 && t' < 256 && |c| < INT_LIMIT && |c'| < INT_LIMIT
    requires ByteCount(|c|) < 0x80 && ByteCount(|c'|) < 0x80
    requires Encode(t, c) + rest == Encode(t', c') + rest'
    ensures t == t' && c == c' && rest == rest'
  {
    hide ByteCount, Parse, EncodeHeader;
    TagFirst(t, |c|);
    TagFirst(t', |c'|);
    ParseEncoded(t, c, rest, ANY);
    ParseEncoded(t', c', rest', ANY);
    Pieces(EncodeHeader(t, |c|), c, rest);
    Pieces(EncodeHeader(t', |c'|), c', rest');
  }

  /** No header the reader accepts for a body of that length is shorter than the one written. */
  lemma HeaderMinimal(view: seq<byte>, type_: nat)
    requires Parse(view, type_).Object?
    ensures ByteCount(Parse(view, type_).len) < 0x80
    ensures |EncodeHeader(view[0], Parse(view, type_).len)| <= Parse(view, type_).body
  {
    var len := Parse(view, type_).len;
    SmallCount(len);
    if view[1] >= 0x80 {
      var n := view[1] - 0x80;
      if n < 4 {
        FromBEBound(view[2..2 + n]);
        Pow256Monotone(n, 4);
        assert Pow256(4) == UINT_MOD;
        ByteCountLimit(len, n);
      }
    } else {
      assert view[1..2] == [view[1]];
      SingleByte(view[1]);
    }
  }

  datatype Element = Element(type_: byte, content: seq<byte>)

  ghost predicate Encodable(es: seq<Element>) {
    forall i :: 0 <= i < |es| ==> |es[i].content| < INT_LIMIT && ByteCount(|es[i].content|) < 0x80
  }

  ghost function EncodeAll(es: seq<Element>): seq<byte>
    requires Encodable(es)
  {
    if es == [] then [] else Encode(es[0].type_, es[0].content) + EncodeAll(es[1..])
  }

  /** The views a skip loop stops at: each from the start of one object to the end. */
  ghost function Visits(view: seq<byte>): (vs: seq<seq<byte>>)
    decreases |view|
  {
    if view == [] then [] else [view] + Visits(AfterFirst(view))
  }

  lemma VisitsStep(view: seq<byte>)
    requires view != []
    ensures Visits(view) == [view] + Visits(AfterFirst(view))
  {
  }

  lemma VisitsNone()
    ensures Visits([]) == []
  {
  }

  /** What remains after skipping one object; nothing if it cannot be read. */
  ghost function AfterFirst(view: seq<byte>): (rest: seq<byte>)
    ensures view != [] ==> |rest| < |view|
  {
    var h := Parse(view, ANY);
    if h.Object? then view[h.body + h.len..] else []
  }

  /** A skip loop over encoded elements stops once at each element, in order. */
  lemma {:induction false} VisitsElements(es: seq<Element>)
    requires Encodable(es)
    ensures |Visits(EncodeAll(es))| == |es|
    ensures forall i :: 0 <= i < |es| ==> Visits(EncodeAll(es))[i] == EncodeAll(es[i..])
  {
    if es != [] {
      var e, rest := es[0], EncodeAll(es[1..]);
      var view := EncodeAll(es);
      var h := EncodeHeader(e.type_, |e.content|);
      assert view == h + e.content + rest;
      ParseEncoded(e.type_, e.content, rest, ANY);
      assert AfterFirst(view) == rest;
      VisitsElements(es[1..]);
      forall i | 0 <= i < |es| ensures Visits(view)[i] == EncodeAll(es[i..]) {
        if i == 0 {
          assert es[0..] == es;
        } else {
          assert es[1..][i - 1..] == es[i..];
        }
      }
    }
  }

  /** Entering the object at the start of `v` gives the content of `e`. */
  ghost predicate Reads(v: seq<byte>, e: Element) {
    var h := Parse(v, e.type_);
    h.Object? && v[h.body..h.body + h.len] == e.content
  }

  lemma FirstReads(e: Element, rest: seq<byte>)
    requires |e.content| < INT_LIMIT && ByteCount(|e.content|) < 0x80
    ensures Reads(Encode(e.type_, e.content) + rest, e)
  {
    var v := Encode(e.type_, e.content) + rest;
    var h := EncodeHeader(e.type_, |e.content|);
    assert v == h + e.content + rest;
    ParseEncoded(e.type_, e.content, rest, e.type_);
    assert v[|h|..|h| + |e.content|] == e.content;
  }

  /** At each stop, the body read is that element's content. */
  lemma VisitReads(es: seq<Element>, i: nat)
    requires Encodable(es) && i < |es|
    ensures |Visits(EncodeAll(es))| == |es| && Reads(Visits(EncodeAll(es))[i], es[i])
  {
    VisitsElements(es);
    var tail := es[i..];
    assert tail[0] == es[i];
    FirstReads(tail[0], EncodeAll(tail[1..]));
    assert EncodeAll(tail) == Encode(tail[0].type_, tail[0].content) + EncodeAll(tail[1..]);
  }
}
