/** Copying within and into buffers. */
module Memory {

  /** `len` elements from `at` on. */
  function Window<T>(m: seq<T>, at: nat, len: nat): (w: seq<T>)
    requires at + len <= |m|
    ensures |w| == len && forall k :: 0 <= k < len ==> w[k] == m[at + k]
  {
    m[at..at + len]
  }

  /** The same elements, but for `w` from `at` on. */
  function Replace<T>(m: seq<T>, at: nat, w: seq<T>): (r: seq<T>)
    requires at + |w| <= |m|
    ensures |r| == |m|
    ensures forall k :: 0 <= k < |m| ==> r[k] == if at <= k < at + |w| then w[k - at] else m[k]
  {
    m[..at] + w + m[at + |w|..]
  }

  lemma WindowOfReplace<T>(m: seq<T>, at: nat, w: seq<T>)
    requires at + |w| <= |m|
    ensures Window(Replace(m, at, w), at, |w|) == w
  {
  }

  lemma ReplaceTwice<T>(m: seq<T>, at: nat, w: seq<T>, v: seq<T>)
    requires at + |w| <= |m| && |v| == |w|
    ensures Replace(Replace(m, at, w), at, v) == Replace(m, at, v)
  {
  }

  /** Reading and writing behind or in front. */
  lemma WindowBehind<T>(a: seq<T>, c: seq<T>, o: nat, len: nat)
    requires o + len <= |c|
    ensures Window(a + c, |a| + o, len) == Window(c, o, len)
  {
  }

  lemma ReplaceBehind<T>(a: seq<T>, c: seq<T>, o: nat, x: seq<T>)
    requires o + |x| <= |c|
    ensures Replace(a + c, |a| + o, x) == a + Replace(c, o, x)
  {
  }

  lemma ReplaceFront<T>(a: seq<T>, b: seq<T>, c: seq<T>)
    requires |a| == |b|
    ensures Replace(a + c, 0, b) == b + c && Window(a + c, 0, |a|) == a
  {
  }

  /** Writing one piece after another. */
  lemma ReplaceAfter<T>(m: seq<T>, at: nat, w: seq<T>, v: seq<T>)
    requires at + |w| + |v| <= |m|
    ensures Replace(Replace(m, at, w), at + |w|, v) == Replace(m, at, w + v)
  {
    var l, r := Replace(Replace(m, at, w), at + |w|, v), Replace(m, at, w + v);
    forall i | 0 <= i < |m| ensures l[i] == r[i] {
    }
  }

  /** Reading and writing inside a window. */
  lemma InnerWindow<T>(m: seq<T>, at: nat, len: nat, o: nat, k: nat)
    requires at + len <= |m| && o + k <= len
    ensures Window(m, at + o, k) == Window(Window(m, at, len), o, k)
  {
    var w := Window(m, at, len);
    forall i | 0 <= i < k ensures Window(m, at + o, k)[i] == Window(w, o, k)[i] {
      assert Window(w, o, k)[i] == w[o + i] == m[at + (o + i)];
    }
  }

  lemma InnerReplace<T>(m: seq<T>, at: nat, len: nat, o: nat, x: seq<T>)
    requires at + len <= |m| && o + |x| <= len
    ensures Replace(m, at + o, x) == Replace(m, at, Replace(Window(m, at, len), o, x))
  {
    var l, r := Replace(m, at + o, x), Replace(m, at, Replace(Window(m, at, len), o, x));
    forall i | 0 <= i < |m| ensures l[i] == r[i] {
    }
  }

  /** `memmove` within one buffer: forwards when moving down, backwards when moving up. */
  method Memmove<T>(buf: array<T>, dst: nat, src: nat, n: nat)
    requires dst + n <= buf.Length && src + n <= buf.Length
    modifies buf
    ensures buf[dst..dst + n] == old(buf[src..src + n])
    ensures buf[..dst] == old(buf[..dst]) && buf[dst + n..] == old(buf[dst + n..])
  {
    if dst <= src {
      MoveDown(buf, dst, src, n);
    } else {
      MoveUp(buf, dst, src, n);
    }
  }

  method MoveDown<T>(buf: array<T>, dst: nat, src: nat, n: nat)
    requires dst <= src && src + n <= buf.Length
    modifies buf
    ensures buf[dst..dst + n] == old(buf[src..src + n])
    ensures buf[..dst] == old(buf[..dst]) && buf[dst + n..] == old(buf[dst + n..])
  {
    ghost var s := buf[src..src + n];
    for i := 0 to n
      invariant buf[dst..dst + i] == s[..i] && buf[dst + i..] == old(buf[dst + i..]) && buf[..dst] == old(buf[..dst])
    {
      assert buf[src + i] == buf[dst + i..][src - dst] == s[i];
      buf[dst + i] := buf[src + i];
    }
  }

  method MoveUp<T>(buf: array<T>, dst: nat, src: nat, n: nat)
    requires src < dst && dst + n <= buf.Length
    modifies buf
    ensures buf[dst..dst + n] == old(buf[src..src + n])
    ensures buf[..dst] == old(buf[..dst]) && buf[dst + n..] == old(buf[dst + n..])
  {
    ghost var s := buf[src..src + n];
    var i := n;
    while i > 0
      invariant 0 <= i <= n
      invariant buf[dst + i..dst + n] == s[i..] && buf[..dst + i] == old(buf[..dst + i]) && buf[dst + n..] == old(buf[dst + n..])
    {
      i := i - 1;
      assert buf[src + i] == buf[..dst + i + 1][src + i] == s[i];
      buf[dst + i] := buf[src + i];
    }
  }

  /** `memcpy` into a buffer. */
  method CopyIn<T>(dst: array<T>, at: nat, src: seq<T>)
    requires at + |src| <= dst.Length
    modifies dst
    ensures dst[..] == Replace(old(dst[..]), at, src)
    ensures dst[..] == old(dst[..at]) + src + old(dst[at + |src|..])
  {
    for i := 0 to |src|
      invariant dst[..at] == old(dst[..at]) && dst[at + |src|..] == old(dst[at + |src|..])
      invariant forall k :: 0 <= k < i ==> dst[at + k] == src[k]
    {
      dst[at + i] := src[i];
    }
  }
}
