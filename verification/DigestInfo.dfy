/** What the digest prefixes of RSA signatures are: the start of a DER-encoded `DigestInfo`. */
module DigestInfo {
  import opened Wrappers
  import opened Bytes
  import Der
  import Rsa

  /** Base 128, most significant first, with the top bit set on all bytes but the last (section 8.19 of
      X.690). */
  function Base128(n: nat): (s: seq<byte>)
    ensures s != [] && s[|s| - 1] < 128 && forall i :: 0 <= i < |s| - 1 ==> s[i] >= 128
  {
    if n < 128 then [n] else Leading(n / 128) + [n % 128]
  }

  function Leading(n: nat): (s: seq<byte>)
    ensures s != [] && forall i :: 0 <= i < |s| ==> s[i] >= 128
  {
    if n < 128 then [128 + n] else Leading(n / 128) + [128 + n % 128]
  }

  function Base128All(arcs: seq<nat>): seq<byte> {
    if arcs == [] then [] else Base128(arcs[0]) + Base128All(arcs[1..])
  }

  /** The contents of an object identifier: the first two arcs share a subidentifier. */
  function OidBytes(arcs: seq<nat>): seq<byte>
    requires |arcs| >= 2
  {
    Base128(40 * arcs[0] + arcs[1]) + Base128All(arcs[2..])
  }

  /** The object identifiers of RFC 3447, appendix B.1. */
  function Arcs(d: Rsa.DigestAlgorithm): (arcs: Option<seq<nat>>)
    ensures arcs.Some? ==> |arcs.value| >= 2
  {
    match d
    case Md5 => Some([1, 2, 840, 113549, 2, 5])
    case Sha1 => Some([1, 3, 14, 3, 2, 26])
    case Sha256 => Some([2, 16, 840, 1, 101, 3, 4, 2, 1])
    case Unlisted(_) => None
  }

  /** A DER object with a body of at most 127 bytes. */
  function Short(tag: byte, body: seq<byte>): (s: seq<byte>)
    requires |body| < 0x80
    ensures |s| == 2 + |body|
  {
    [tag, |body|] + body
  }

  lemma ShortIsDer(tag: byte, body: seq<byte>)
    requires |body| < 0x80
    ensures Der.ByteCount(|body|) < 0x80 && Short(tag, body) == Der.Encode(tag, body)
  {
    hide ToBE, Der.ByteCount, Der.EncodeHeader;
    Der.SmallCount(|body|);
    ShortHeader(tag, |body|);
  }

  lemma ShortHeader(tag: byte, n: nat)
    requires n < 0x80 && Der.ByteCount(n) < 0x80
    ensures Der.EncodeHeader(tag, n) == [tag, n]
  {
    hide ToBE, Der.ByteCount;
    SameByte(tag);
  }

  lemma SameByte(b: byte)
    ensures b % 256 == b
  {
  }

  /** `SEQUENCE { SEQUENCE { OBJECT IDENTIFIER, NULL }, OCTET STRING }` (section 9.2 of RFC 3447). */
  function Encoded(oid: seq<byte>, value: seq<byte>): seq<byte>
    requires |oid| <= 32 && |value| <= 64
  {
    Short(0x30, Short(0x30, Short(0x06, oid) + Short(0x05, [])) + Short(0x04, value))
  }

  lemma Subidentifiers()
    ensures Base128(840) == [0x86, 0x48] && Base128(113549) == [0x86, 0xf7, 0x0d]
  {
    assert Leading(6) == [0x86];
    assert Leading(887) == Leading(6) + [128 + 119];
  }

  lemma Md5Oid()
    ensures OidBytes([1, 2, 840, 113549, 2, 5]) == [0x2a, 0x86, 0x48, 0x86, 0xf7, 0x0d, 0x02, 0x05]
  {
    Subidentifiers();
    var a: seq<nat> := [1, 2, 840, 113549, 2, 5];
    assert a[2..] == [840, 113549, 2, 5] && a[2..][1..] == [113549, 2, 5] && a[2..][1..][1..] == [2, 5];
    assert a[2..][1..][1..][1..] == [5] && a[2..][1..][1..][1..][1..] == [];
    assert Base128All([5]) == Base128(5) + Base128All([]);
    assert Base128All([2, 5]) == Base128(2) + Base128All([5]);
  }

  lemma Sha1Oid()
    ensures OidBytes([1, 3, 14, 3, 2, 26]) == [0x2b, 0x0e, 0x03, 0x02, 0x1a]
  {
    var a: seq<nat> := [1, 3, 14, 3, 2, 26];
    assert a[2..] == [14, 3, 2, 26] && a[2..][1..] == [3, 2, 26] && a[2..][1..][1..] == [2, 26];
    assert a[2..][1..][1..][1..] == [26] && a[2..][1..][1..][1..][1..] == [];
    assert Base128All([26]) == Base128(26) + Base128All([]);
    assert Base128All([2, 26]) == Base128(2) + Base128All([26]);
  }

  lemma Sha256Oid()
    ensures OidBytes([2, 16, 840, 1, 101, 3, 4, 2, 1]) == [0x60, 0x86, 0x48, 0x01, 0x65, 0x03, 0x04, 0x02, 0x01]
  {
    hide Base128, Base128All;
    Subidentifiers();
    OneByte(96);
    var rest: seq<nat> := [1, 101, 3, 4, 2, 1];
    assert [2, 16, 840, 1, 101, 3, 4, 2, 1][2..] == [840] + rest;
    FirstArc(840, rest);
    SmallArcs(rest);
  }

  lemma OneByte(n: nat)
    requires n < 128
    ensures Base128(n) == [n]
  {
  }

  lemma FirstArc(n: nat, rest: seq<nat>)
    ensures Base128All([n] + rest) == Base128(n) + Base128All(rest)
  {
    assert ([n] + rest)[1..] == rest;
  }

  lemma {:induction false} SmallArcs(arcs: seq<nat>)
    requires forall i :: 0 <= i < |arcs| ==> arcs[i] < 128
    ensures |Base128All(arcs)| == |arcs| && forall i :: 0 <= i < |arcs| ==> Base128All(arcs)[i] == arcs[i]
  {
    if arcs != [] {
      SmallArcs(arcs[1..]);
      assert Base128All(arcs) == [arcs[0]] + Base128All(arcs[1..]);
    }
  }

  lemma EncodedFlat(oid: seq<byte>, value: seq<byte>)
    requires |oid| <= 32 && |value| <= 64
    ensures Encoded(oid, value) ==
            [0x30, |oid| + |value| + 8, 0x30, |oid| + 4, 0x06, |oid|] + oid + [0x05, 0x00, 0x04, |value|] + value
  {
    var inner := Short(0x06, oid) + Short(0x05, []);
    assert inner == [0x06, |oid|] + oid + [0x05, 0x00];
    var outer := Short(0x30, inner) + Short(0x04, value);
    assert outer == [0x30, |oid| + 4] + inner + [0x04, |value|] + value;
  }

  lemma PrefixParts(oid: seq<byte>, value: seq<byte>, prefix: seq<byte>)
    requires |oid| <= 32 && |value| <= 64
    requires prefix == [0x30, |oid| + |value| + 8, 0x30, |oid| + 4, 0x06, |oid|] + oid + [0x05, 0x00, 0x04, |value|]
    ensures prefix + value == Encoded(oid, value)
  {
    hide Encoded;
    EncodedFlat(oid, value);
  }

  lemma Lookup(d: Rsa.DigestAlgorithm)
    ensures Rsa.FindPrefix(Rsa.PREFIXES, d) ==
            match d case Md5 => Some(Rsa.PREFIXES[0].1) case Sha1 => Some(Rsa.PREFIXES[1].1)
                    case Sha256 => Some(Rsa.PREFIXES[2].1) case Unlisted(_) => None
  {
    var t: seq<(Rsa.DigestAlgorithm, seq<byte>)> := Rsa.PREFIXES;
    assert t[1..][0] == t[1] && t[1..][1..] == t[2..] && t[2..][0] == t[2] && |t[2..][1..]| == 0;
    assert Rsa.FindPrefix(t[2..], d) == if d == Rsa.Sha256 then Some(t[2].1) else None;
    assert Rsa.FindPrefix(t[1..], d) == if d == Rsa.Sha1 then Some(t[1].1) else Rsa.FindPrefix(t[2..], d);
  }

  /** The prefix table: prefix and digest together are the DER encoding of the digest under its
      algorithm's object identifier, and no other algorithm is listed. */
  lemma PrefixIsDer(d: Rsa.DigestAlgorithm, value: seq<byte>)
    requires |value| == d.DigestSize()
    ensures Rsa.FindPrefix(Rsa.PREFIXES, d).Some? <==> Arcs(d).Some?
    ensures Arcs(d).Some? ==>
              var oid := OidBytes(Arcs(d).value);
              |oid| <= 32 && |value| <= 64 && Rsa.FindPrefix(Rsa.PREFIXES, d).value + value == Encoded(oid, value)
  {
    hide OidBytes, Encoded;
    Lookup(d);
    match d
    case Md5 => Md5Oid(); PrefixParts(OidBytes([1, 2, 840, 113549, 2, 5]), value, Rsa.PREFIXES[0].1);
    case Sha1 => Sha1Oid(); PrefixParts(OidBytes([1, 3, 14, 3, 2, 26]), value, Rsa.PREFIXES[1].1);
    case Sha256 => Sha256Oid(); PrefixParts(OidBytes([2, 16, 840, 1, 101, 3, 4, 2, 1]), value, Rsa.PREFIXES[2].1);
    case Unlisted(_) =>
  }
}
