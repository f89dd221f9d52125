/** X.509 path validation: cached `valid` flags and `path_remaining` counters on certificate
    objects that any number of chains may share. */
module X509 {
  import opened Platform
  import opened Wrappers
  import opened Bits
  import opened Bytes

  datatype Status = Ok | WrongIssuer | NotCa | KeyUsage | Expired | PathLen | Untrusted | OutOfOrder | Empty
                  | OcspRequired | BadSignature(rc: int)

  /** The `pathLenConstraint` recorded for a CA certificate that has none. */
  const PATH_LEN_UNLIMITED: nat := UINT_MOD - 2
  const ERROR_MARGIN_TIME: int := (12 * 60 + 30) * 60
  const KEY_CERT_SIGN: nat := 0x0004

  /** The parsed, immutable part of a certificate. */
  datatype Info = Info(raw: seq<byte>, issuer: seq<byte>, subject: seq<byte>, notBefore: int, notAfter: int,
                       ca: bool, pathLen: nat, usagePresent: bool, usageBits: nat, ocspUri: bool)
  {
    /** What parsing guarantees: a non-negative `int`, or the unlimited value. */
    ghost predicate Parsed() { pathLen <= PATH_LEN_UNLIMITED }

    /** `! present || ( bits & X509_KEY_CERT_SIGN )` */
    predicate MayCertSign() { usagePresent ==> And(usageBits, KEY_CERT_SIGN) != 0 }

    /** keyCertSign is bit 2 (section 4.2.1.3 of RFC 5280 counts from the other end of the byte). */
    lemma MayCertSignMeaning()
      ensures MayCertSign() <==> !usagePresent || usageBits / 4 % 2 == 1
    {
      AndHalves(usageBits, 4);
      AndHalves(usageBits / 2, 2);
      AndHalves(usageBits / 2 / 2, 1);
      AndNothing(usageBits / 2 / 2 / 2);
    }
  }

  lemma {:induction false} AndNothing(x: nat)
    ensures And(x, 0) == 0
  {
    AndHalves(x, 0);
    if x > 0 { AndNothing(x / 2); }
  }

  datatype Root = Root(digest: seq<byte> -> seq<byte>, fingerprints: seq<seq<byte>>)

  /** The status of the signature check (digest and public-key operation), and the default root store. */
  datatype Env = Env(signature: (Info, Info) -> int, defaultRoot: Root)

  /** `x509_check_issuer` */
  function CheckIssuer(env: Env, cert: Info, issuer: Info): Status {
    if cert.issuer != issuer.subject then WrongIssuer
    else if !issuer.ca then NotCa
    else if !issuer.MayCertSign() then KeyUsage
    else if env.signature(cert, issuer) != 0 then BadSignature(env.signature(cert, issuer))
    else Ok
  }

  /** `x509_check_time` */
  function CheckTime(cert: Info, time: int): Status {
    if cert.notBefore > time + ERROR_MARGIN_TIME then Expired
    else if cert.notAfter < time - ERROR_MARGIN_TIME then Expired
    else Ok
  }

  ghost predicate IsRoot(cert: Info, root: Root) {
    root.digest(cert.raw) in root.fingerprints
  }

  /** `x509_check_root` */
  method CheckRoot(cert: Info, root: Root) returns (found: bool)
    ensures found <==> IsRoot(cert, root)
  {
    var fingerprint := root.digest(cert.raw);
    for i := 0 to |root.fingerprints|
      invariant fingerprint !in root.fingerprints[..i]
    {
      if fingerprint == root.fingerprints[i] {
        return true;
      }
    }
    return false;
  }

  /** One certificate of a derivation, with the circumstances of its own validation. */
  datatype Link = Link(info: Info, time: int, root: Root, ocspGood: bool) {
    ghost predicate InPeriod() { info.notBefore - 45000 <= time <= info.notAfter + 45000 }
  }

  /** `d[0]` is trusted because each certificate was issued by the next, a CA allowed to sign
      certificates, and the last is a fingerprint-matched root; every certificate was within twelve
      and a half hours of its validity period (and had a good OCSP status if it names a responder)
      when it was used, and at most `pathLenConstraint + 1` certificates stand below any CA in the
      derivation. */
  ghost predicate Derivation(env: Env, d: seq<Link>) {
    && d != []
    && IsRoot(d[|d| - 1].info, d[|d| - 1].root)
    && (forall i :: 0 <= i < |d| ==> d[i].info.Parsed() && d[i].InPeriod())
    && (forall i :: 0 <= i < |d| - 1 ==> Issued(env, d[i], d[i + 1]))
    && (forall i :: 0 <= i < |d| ==> i <= d[i].info.pathLen + 1)
  }

  ghost predicate Issued(env: Env, child: Link, parent: Link) {
    && child.info.issuer == parent.info.subject
    && parent.info.ca && (parent.info.usagePresent ==> parent.info.usageBits / 4 % 2 == 1)
    && env.signature(child.info, parent.info) == 0
    && (child.info.ocspUri ==> child.ocspGood)
  }

  /** How many certificates may still follow below `d[0]`. */
  ghost function Remaining(d: seq<Link>): int
    requires d != []
  {
    var own := d[0].info.pathLen + 1;
    if |d| == 1 then own
    else
      var inherited := Remaining(d[1..]) - 1;
      if inherited > own then own else inherited
  }

  /** The counter accounts for every path length constraint above. */
  lemma {:induction false} RemainingMeaning(d: seq<Link>, j: nat)
    requires j < |d|
    ensures Remaining(d) + j <= d[j].info.pathLen + 1
  {
    if j > 0 { RemainingMeaning(d[1..], j - 1); }
  }

  /** ... and is no stricter than the tightest of them. */
  lemma {:induction false} RemainingTight(d: seq<Link>) returns (j: nat)
    requires d != []
    ensures j < |d| && Remaining(d) + j == d[j].info.pathLen + 1
  {
    if |d| == 1 || Remaining(d[1..]) - 1 > d[0].info.pathLen + 1 {
      j := 0;
    } else {
      j := RemainingTight(d[1..]);
      j := j + 1;
    }
  }

  /** How many certificates may follow below one that was just marked valid, as a root or by an
      issuer with room for `above` more. */
  ghost function NewRemaining(cert: Info, above: int, isRoot: bool): int {
    if isRoot || above > cert.pathLen + 1 then cert.pathLen + 1 else above - 1
  }

  lemma ExtendDerivation(env: Env, d: seq<Link>, child: Link)
    requires Derivation(env, d) && Remaining(d) > 0
    requires child.info.Parsed() && child.InPeriod() && Issued(env, child, d[0])
    ensures Derivation(env, [child] + d) && Remaining([child] + d) == NewRemaining(child.info, Remaining(d), false)
  {
    assert ([child] + d)[1..] == d;
    var e := [child] + d;
    forall i | 0 <= i < |e| - 1 ensures Issued(env, e[i], e[i + 1]) {
      if i > 0 { assert Issued(env, d[i - 1], d[i]); }
    }
    forall i | 0 <= i < |e| ensures i <= e[i].info.pathLen + 1 {
      if i > 0 { RemainingMeaning(d, i - 1); }
    }
  }

  lemma RootDerivation(env: Env, link: Link)
    requires link.info.Parsed() && link.InPeriod() && IsRoot(link.info, link.root)
    ensures Derivation(env, [link]) && Remaining([link]) == NewRemaining(link.info, 0, true)
  {
  }

  lemma SomeLink(env: Env, d: seq<Link>)
    requires Derivation(env, d)
    ensures d != []
  {
  }

  class Certificate {
    const info: Info
    var valid: bool
    var pathRemaining: nat
    var ocspGood: bool
    /** How the certificate came to be marked valid. */
    ghost var derivation: seq<Link>

    /** A certificate marked valid has a derivation, and its counter is what the derivation leaves. */
    ghost predicate Sound(env: Env) reads this {
      && info.Parsed()
      && (valid ==> Derivation(env, derivation) && derivation[0].info == info && pathRemaining == Remaining(derivation))
    }

    constructor (info: Info)
      requires info.Parsed()
      ensures this.info == info && !valid && !ocspGood
    {
      this.info := info;
      valid, pathRemaining, ocspGood, derivation := false, 0, false, [];
    }
  }

  /** The status `x509_validate` returns for a certificate that is not yet marked valid. */
  ghost function ValidateStatus(env: Env, cert: Info, ocspGood: bool, issuer: Option<Info>, issuerValid: bool,
                                issuerRemaining: nat, time: int, root: Root): Status
  {
    if time < cert.notBefore - 45000 || time > cert.notAfter + 45000 then Expired
    else if IsRoot(cert, root) then Ok
    else if issuer.None? then Untrusted
    else if !issuerValid then OutOfOrder
    else if cert.issuer != issuer.value.subject then WrongIssuer
    else if !issuer.value.ca then NotCa
    else if issuer.value.usagePresent && issuer.value.usageBits / 4 % 2 == 0 then KeyUsage
    else if env.signature(cert, issuer.value) != 0 then BadSignature(env.signature(cert, issuer.value))
    else if issuerRemaining == 0 then PathLen
    else if cert.ocspUri && !ocspGood then OcspRequired
    else Ok
  }

  /** The root store used: the one given, or else the default. */
  ghost function Store(env: Env, root: Option<Root>): Root { if root.Some? then root.value else env.defaultRoot }

  ghost function InfoOf(c: Certificate?): Option<Info> {
    if c == null then None else Some(c.info)
  }

  /** `x509_validate` */
  method Validate(env: Env, cert: Certificate, issuer: Certificate?, time: int, root: Option<Root>) returns (rc: Status)
    requires cert.Sound(env) && (issuer != null ==> issuer.Sound(env))
    modifies cert
    ensures cert.Sound(env) && cert.ocspGood == old(cert.ocspGood)
    ensures old(cert.valid) ==> rc == Ok
    ensures !old(cert.valid) ==>
              rc == ValidateStatus(env, cert.info, old(cert.ocspGood), InfoOf(issuer),
                                   issuer != null && old(issuer.valid), if issuer == null then 0 else old(issuer.pathRemaining),
                                   time, Store(env, root))
    ensures (cert.valid <==> rc == Ok)
    ensures !old(cert.valid) ==> (rc == Expired <==> time < cert.info.notBefore - 45000 || time > cert.info.notAfter + 45000)
    ensures !old(cert.valid) && rc == Ok ==>
              cert.pathRemaining == NewRemaining(cert.info, if issuer == null then 0 else old(issuer.pathRemaining),
                                                 IsRoot(cert.info, Store(env, root)))
    ensures old(cert.valid) || rc != Ok ==>
              cert.valid == old(cert.valid) && cert.pathRemaining == old(cert.pathRemaining) && cert.derivation == old(cert.derivation)
  {
    hide Derivation, Remaining, And;
    var store := if root.Some? then root.value else env.defaultRoot;
    if cert.valid {
      return Ok;
    }
    rc := CheckTime(cert.info, time);
    if rc != Ok {
      return;
    }
    ghost var link := Link(cert.info, time, store, cert.ocspGood);
    var isRoot := CheckRoot(cert.info, store);
    if isRoot {
      cert.valid := true;
      cert.pathRemaining := (cert.info.pathLen + 1) % UINT_MOD;
      cert.derivation := [link];
      RootDerivation(env, link);
      return Ok;
    }
    if issuer == null {
      return Untrusted;
    }
    if !issuer.valid {
      return OutOfOrder;
    }
    issuer.info.MayCertSignMeaning();
    rc := CheckIssuer(env, cert.info, issuer.info);
    if rc != Ok {
      return;
    }
    if issuer.pathRemaining == 0 {
      return PathLen;
    }
    if cert.info.ocspUri && !cert.ocspGood {
      return OcspRequired;
    }
    ghost var above := issuer.derivation;
    SomeLink(env, above);
    var remaining := issuer.pathRemaining - 1;
    var maxRemaining := (cert.info.pathLen + 1) % UINT_MOD;
    if remaining > maxRemaining {
      remaining := maxRemaining;
    }
    ExtendDerivation(env, above, link);
    cert.pathRemaining := remaining;
    cert.derivation := [link] + above;
    cert.valid := true;
    return Ok;
  }

  // ----- Validation as a function of what is marked -----

  datatype Mark = Mark(valid: bool, remaining: nat, ocspGood: bool)

  ghost function Marks(certs: seq<Certificate>): (m: map<Certificate, Mark>) reads certs
    ensures m.Keys == set c | c in certs
  {
    map c | c in certs :: Mark(c.valid, c.pathRemaining, c.ocspGood)
  }

  /** Validating one certificate: the status, and what is marked afterwards. */
  ghost function Validated(env: Env, m: map<Certificate, Mark>, cert: Certificate, issuer: Certificate?, time: int, root: Root)
    : (r: (Status, map<Certificate, Mark>))
    requires cert in m && (issuer != null ==> issuer in m)
    ensures r.1.Keys == m.Keys
  {
    if m[cert].valid then (Ok, m) else
    var above := if issuer == null then 0 else m[issuer].remaining;
    var rc := ValidateStatus(env, cert.info, m[cert].ocspGood, InfoOf(issuer), issuer != null && m[issuer].valid, above, time, root);
    (rc, if rc == Ok then m[cert := Mark(true, NewRemaining(cert.info, above, IsRoot(cert.info, root)), m[cert].ocspGood)] else m)
  }

  /** `x509_validate` among any certificates: only the one validated may become marked. */
  method ValidateAmong(env: Env, cert: Certificate, issuer: Certificate?, time: int, root: Option<Root>, ghost certs: seq<Certificate>)
    returns (rc: Status)
    requires cert in certs && cert.Sound(env) && (issuer != null ==> issuer in certs && issuer.Sound(env))
    modifies cert
    ensures (rc, Marks(certs)) == Validated(env, old(Marks(certs)), cert, issuer, time, Store(env, root))
    ensures cert.Sound(env) && (cert.valid <==> rc == Ok) && cert.ocspGood == old(cert.ocspGood)
    ensures rc != Ok ==> Marks(certs) == old(Marks(certs))
    ensures old(cert.valid) || rc != Ok ==>
              cert.valid == old(cert.valid) && cert.pathRemaining == old(cert.pathRemaining) && cert.derivation == old(cert.derivation)
  {
    hide ValidateStatus, NewRemaining, Certificate.Sound;
    ghost var m := Marks(certs);
    rc := Validate(env, cert, issuer, time, root);
    assert Marks(certs) == m[cert := Mark(cert.valid, cert.pathRemaining, cert.ocspGood)];
    if old(cert.valid) || rc != Ok { assert Marks(certs) == m; }
  }

  /** Validating a chain: look for the first certificate that stands alone, from `i` on ... */
  ghost function Forward(env: Env, m: map<Certificate, Mark>, chain: seq<Certificate>, i: nat, time: int, root: Root)
    : (r: (Status, map<Certificate, Mark>))
    requires i <= |chain| && forall c :: c in chain ==> c in m
    ensures r.1.Keys == m.Keys
    decreases |chain| - i
  {
    if i == |chain| then (Untrusted, m)
    else
      var v := Validated(env, m, chain[i], null, time, root);
      if v.0 == Ok then Backward(env, v.1, chain, i, time, root) else Forward(env, m, chain, i + 1, time, root)
  }

  /** ... and then validate each one before it against the one after. */
  ghost function Backward(env: Env, m: map<Certificate, Mark>, chain: seq<Certificate>, i: nat, time: int, root: Root)
    : (r: (Status, map<Certificate, Mark>))
    requires i < |chain| && forall c :: c in chain ==> c in m
    ensures r.1.Keys == m.Keys
    decreases i
  {
    if i == 0 then (Ok, m)
    else
      var v := Validated(env, m, chain[i - 1], chain[i], time, root);
      if v.0 == Ok then Backward(env, v.1, chain, i - 1, time, root) else v
  }

  lemma ForwardStep(env: Env, m: map<Certificate, Mark>, chain: seq<Certificate>, i: nat, time: int, root: Root)
    requires i < |chain| && forall c :: c in chain ==> c in m
    ensures var v := Validated(env, m, chain[i], null, time, root);
            Forward(env, m, chain, i, time, root) ==
            if v.0 == Ok then Backward(env, v.1, chain, i, time, root) else Forward(env, m, chain, i + 1, time, root)
  {
  }

  lemma ForwardEnd(env: Env, m: map<Certificate, Mark>, chain: seq<Certificate>, time: int, root: Root)
    requires forall c :: c in chain ==> c in m
    ensures Forward(env, m, chain, |chain|, time, root) == (Untrusted, m)
  {
  }

  lemma BackwardStep(env: Env, m: map<Certificate, Mark>, chain: seq<Certificate>, i: nat, time: int, root: Root)
    requires 0 < i < |chain| && forall c :: c in chain ==> c in m
    ensures var v := Validated(env, m, chain[i - 1], chain[i], time, root);
            Backward(env, m, chain, i, time, root) == if v.0 == Ok then Backward(env, v.1, chain, i - 1, time, root) else v
  {
  }

  lemma BackwardEnd(env: Env, m: map<Certificate, Mark>, chain: seq<Certificate>, time: int, root: Root)
    requires chain != [] && forall c :: c in chain ==> c in m
    ensures Backward(env, m, chain, 0, time, root) == (Ok, m)
  {
  }

  ghost function ChainValidated(env: Env, m: map<Certificate, Mark>, chain: seq<Certificate>, time: int, root: Root)
    : (r: (Status, map<Certificate, Mark>))
    requires forall c :: c in chain ==> c in m
    ensures r.1.Keys == m.Keys
  {
    if chain == [] then (Empty, m) else Forward(env, m, chain, 0, time, root)
  }

  /** The circumstances in which a chain is validated. */
  ghost function Links(m: map<Certificate, Mark>, chain: seq<Certificate>, time: int, root: Root): (d: seq<Link>)
    requires forall c :: c in chain ==> c in m
    ensures |d| == |chain|
  {
    seq(|chain|, i requires 0 <= i < |chain| => assert chain[i] in chain; Link(chain[i].info, time, root, m[chain[i]].ocspGood))
  }

  /** In a derivation there is room below every certificate for those that do follow. */
  lemma RoomBelow(env: Env, d: seq<Link>, i: nat)
    requires Derivation(env, d) && i < |d|
    ensures Remaining(d[i..]) >= i
  {
    var j := RemainingTight(d[i..]);
    assert d[i..][j] == d[i + j];
  }

  lemma {:induction false} SuffixDerivation(env: Env, d: seq<Link>, i: nat)
    requires Derivation(env, d) && i < |d|
    ensures Derivation(env, d[i..])
  {
    var e := d[i..];
    forall k | 0 <= k < |e| - 1 ensures Issued(env, e[k], e[k + 1]) { assert Issued(env, d[i + k], d[i + k + 1]); }
    forall k | 0 <= k < |e| ensures k <= e[k].info.pathLen + 1 && e[k].info.Parsed() && e[k].InPeriod() { assert e[k] == d[i + k]; }
  }

  /** The certificate is a root within its validity period. */
  ghost predicate StandsAlone(cert: Info, time: int, root: Root) {
    cert.notBefore - 45000 <= time <= cert.notAfter + 45000 && IsRoot(cert, root)
  }

  /** No two places of the chain hold the same certificate, and none before `a` is marked or stands
      alone. */
  ghost predicate Unmarked(m: map<Certificate, Mark>, chain: seq<Certificate>, a: nat, time: int, root: Root)
    requires a <= |chain| && forall c :: c in chain ==> c in m
  {
    && (forall i, j :: 0 <= i < j < |chain| ==> chain[i] != chain[j])
    && (forall i :: 0 <= i < a ==> chain[i].info.Parsed() && !m[chain[i]].valid && !StandsAlone(chain[i].info, time, root))
  }

  /** One step back succeeds exactly if it extends the derivation. */
  lemma StepBackIff(env: Env, m: map<Certificate, Mark>, chain: seq<Certificate>, i: nat, d: seq<Link>, time: int, root: Root)
    requires 0 < i < |chain| && (forall c :: c in chain ==> c in m) && Unmarked(m, chain, i, time, root)
    requires |d| > i && d[i - 1] == Link(chain[i - 1].info, time, root, m[chain[i - 1]].ocspGood) && d[i].info == chain[i].info
    requires Derivation(env, d[i..]) && m[chain[i]].valid && m[chain[i]].remaining == Remaining(d[i..])
    ensures var v := Validated(env, m, chain[i - 1], chain[i], time, root);
            && (v.0 == Ok <==> Derivation(env, d[i - 1..]))
            && (v.0 == Ok ==> v.1[chain[i - 1]].valid && v.1[chain[i - 1]].remaining == Remaining(d[i - 1..]))
  {
    var e, f := d[i - 1..], d[i..];
    assert e == [d[i - 1]] + f && e[1..] == f && f[0] == d[i];
    var v := Validated(env, m, chain[i - 1], chain[i], time, root);
    if v.0 == Ok {
      ExtendDerivation(env, f, d[i - 1]);
    }
    if Derivation(env, e) {
      RoomBelow(env, e, 1);
      assert Issued(env, e[0], e[1]) && e[0].InPeriod();
    }
  }

  /** Working back succeeds exactly if the certificates passed make up a derivation. */
  lemma {:induction false} BackwardIff(env: Env, m: map<Certificate, Mark>, chain: seq<Certificate>, i: nat, d: seq<Link>, time: int, root: Root)
    requires i < |chain| && i < |d| && (forall c :: c in chain ==> c in m) && Unmarked(m, chain, i, time, root)
    requires forall j :: 0 <= j < i ==> d[j] == Link(chain[j].info, time, root, m[chain[j]].ocspGood)
    requires d[i].info == chain[i].info && Derivation(env, d[i..]) && m[chain[i]].valid && m[chain[i]].remaining == Remaining(d[i..])
    ensures Backward(env, m, chain, i, time, root).0 == Ok <==> Derivation(env, d)
    decreases i
  {
    if i == 0 {
      assert d[0..] == d;
    } else {
      hide Derivation, Issued, Remaining, ValidateStatus, NewRemaining;
      StepBackIff(env, m, chain, i, d, time, root);
      var v := Validated(env, m, chain[i - 1], chain[i], time, root);
      if v.0 == Ok {
        BackwardIff(env, v.1, chain, i - 1, d, time, root);
      } else if Derivation(env, d) {
        SuffixDerivation(env, d, i - 1);
      }
    }
  }

  /** The first certificate that stands alone. */
  ghost predicate Anchor(chain: seq<Certificate>, a: nat, time: int, root: Root) {
    && a < |chain| && StandsAlone(chain[a].info, time, root)
    && forall i :: 0 <= i < a ==> !StandsAlone(chain[i].info, time, root)
  }

  lemma {:induction false} ForwardFinds(env: Env, m: map<Certificate, Mark>, chain: seq<Certificate>, i: nat, a: nat, time: int, root: Root)
    requires (forall c :: c in chain ==> c in m && !m[c].valid) && i <= a && Anchor(chain, a, time, root)
    ensures var v := Validated(env, m, chain[a], null, time, root);
            v.0 == Ok && Forward(env, m, chain, i, time, root) == Backward(env, v.1, chain, a, time, root)
    decreases a - i
  {
    if i < a { ForwardFinds(env, m, chain, i + 1, a, time, root); }
  }

  lemma {:induction false} ForwardFails(env: Env, m: map<Certificate, Mark>, chain: seq<Certificate>, i: nat, time: int, root: Root)
    requires (forall c :: c in chain ==> c in m && !m[c].valid) && i <= |chain|
    requires forall a :: i <= a < |chain| ==> !StandsAlone(chain[a].info, time, root)
    ensures Forward(env, m, chain, i, time, root) == (Untrusted, m)
    decreases |chain| - i
  {
    if i < |chain| { ForwardFails(env, m, chain, i + 1, time, root); }
  }

  lemma RootAlone(env: Env, m: map<Certificate, Mark>, chain: seq<Certificate>, a: nat, time: int, root: Root)
    requires (forall c :: c in chain ==> c in m && !m[c].valid && c.info.Parsed()) && Anchor(chain, a, time, root)
    ensures var d := [Link(chain[a].info, time, root, m[chain[a]].ocspGood)];
            Derivation(env, d) && Validated(env, m, chain[a], null, time, root).1 == m[chain[a] := Mark(true, Remaining(d), m[chain[a]].ocspGood)]
  {
  }

  /** A chain of distinct certificates, none of them marked, is accepted exactly if the certificates up
      to the first that stands alone are a derivation. */
  lemma ChainAcceptedIff(env: Env, m: map<Certificate, Mark>, chain: seq<Certificate>, a: nat, time: int, root: Root)
    requires (forall c :: c in chain ==> c in m && !m[c].valid && c.info.Parsed()) && Anchor(chain, a, time, root)
    requires forall i, j :: 0 <= i < j < |chain| ==> chain[i] != chain[j]
    ensures ChainValidated(env, m, chain, time, root).0 == Ok <==> Derivation(env, Links(m, chain, time, root)[..a + 1])
  {
    hide Derivation, Forward, Backward;
    ForwardFinds(env, m, chain, 0, a, time, root);
    RootAlone(env, m, chain, a, time, root);
    var v := Validated(env, m, chain[a], null, time, root);
    var d := Links(m, chain, time, root)[..a + 1];
    assert d[a..] == [d[a]];
    BackwardIff(env, v.1, chain, a, d, time, root);
  }

  /** The certificate needs no issuer: it is valid already, or a root within its validity period. */
  ghost predicate Standalone(env: Env, c: Certificate, time: int, root: Option<Root>) reads c {
    c.valid || StandsAlone(c.info, time, Store(env, root))
  }

  /** The status with which `cert` is refused, given its issuer. */
  ghost predicate Refused(env: Env, cert: Certificate, issuer: Certificate, time: int, root: Option<Root>, rc: Status)
    reads cert, issuer
  {
    && !cert.valid && rc != Ok
    && rc == ValidateStatus(env, cert.info, cert.ocspGood, Some(issuer.info), issuer.valid, issuer.pathRemaining, time,
                            Store(env, root))
  }

  lemma RefusedHere(env: Env, cert: Certificate, issuer: Certificate, time: int, root: Option<Root>, rc: Status, certs: seq<Certificate>)
    requires cert in certs && issuer in certs && !cert.valid && rc != Ok
    requires Validated(env, Marks(certs), cert, issuer, time, Store(env, root)).0 == rc
    ensures Refused(env, cert, issuer, time, root, rc)
  {
    hide ValidateStatus;
  }

  /** Certificates marked valid before stay as they are. */
  twostate predicate Monotone(certs: seq<Certificate>) reads certs {
    forall c :: c in certs ==>
      c.ocspGood == old(c.ocspGood) &&
      (old(c.valid) ==> c.valid && c.pathRemaining == old(c.pathRemaining) && c.derivation == old(c.derivation))
  }

  /** `x509_validate_chain`. `anchor` is the first certificate that can stand alone and `failed` the
      one whose pairwise validation was refused. */
  method ValidateChain(env: Env, chain: seq<Certificate>, time: int, root: Option<Root>, ghost certs: seq<Certificate>)
    returns (rc: Status, ghost anchor: int, ghost failed: int)
    requires forall c :: c in chain ==> c.Sound(env) && c in certs
    modifies chain
    ensures (rc, Marks(certs)) == ChainValidated(env, old(Marks(certs)), chain, time, Store(env, root))
    ensures forall c :: c in chain ==> c.Sound(env)
    ensures Monotone(chain)
    ensures chain == [] ==> rc == Empty
    ensures -1 <= anchor < |chain|
    ensures anchor >= 0 ==> old(Standalone(env, chain[anchor], time, root))
    ensures forall j :: 0 <= j < (if anchor < 0 then |chain| else anchor) ==> !old(Standalone(env, chain[j], time, root))
    ensures chain != [] && anchor < 0 ==> rc == Untrusted
    ensures rc == Ok ==> anchor >= 0 && forall j :: 0 <= j <= anchor ==> chain[j].valid
    ensures rc != Ok && anchor >= 0 ==>
              && 0 <= failed < anchor
              && Refused(env, chain[failed], chain[failed + 1], time, root, rc)
              && forall j :: failed < j <= anchor ==> chain[j].valid
  {
    hide ValidateStatus, Certificate.Sound, Standalone, Forward, Backward, Refused;
    if |chain| == 0 {
      return Empty, -1, -1;
    }
    var first := FindStandalone(env, chain, time, root, certs);
    anchor, failed := first, -1;
    if first < 0 {
      return Untrusted, -1, -1;
    }
    rc, failed := WorkBack(env, chain, first, time, root, certs);
  }

  /** Find the first certificate that can be validated without an issuer. */
  method FindStandalone(env: Env, chain: seq<Certificate>, time: int, root: Option<Root>, ghost certs: seq<Certificate>) returns (first: int)
    requires forall c :: c in chain ==> c.Sound(env) && c in certs
    modifies chain
    ensures -1 <= first < |chain|
    ensures Forward(env, old(Marks(certs)), chain, 0, time, Store(env, root)) ==
            if first < 0 then (Untrusted, Marks(certs)) else Backward(env, Marks(certs), chain, first, time, Store(env, root))
    ensures forall c :: c in chain ==> c.Sound(env)
    ensures Monotone(chain)
    ensures first >= 0 ==> chain[first].valid && old(Standalone(env, chain[first], time, root))
    ensures forall j :: 0 <= j < (if first < 0 then |chain| else first) ==> !old(Standalone(env, chain[j], time, root))
  {
    hide Certificate.Sound, Forward, Backward, NewRemaining;
    var i := 0;
    ForwardEnd(env, Marks(certs), chain, time, Store(env, root));
    while i < |chain|
      invariant i <= |chain|
      invariant forall c :: c in chain ==> c.Sound(env)
      invariant Unchanged(chain)
      invariant forall j :: 0 <= j < i ==> !old(Standalone(env, chain[j], time, root))
      invariant Marks(certs) == old(Marks(certs))
      invariant Forward(env, old(Marks(certs)), chain, 0, time, Store(env, root)) == Forward(env, old(Marks(certs)), chain, i, time, Store(env, root))
    {
      ForwardStep(env, Marks(certs), chain, i, time, Store(env, root));
      var rc := ValidateAmong(env, chain[i], null, time, root, certs);
      if rc == Ok {
        return i;
      }
      i := i + 1;
    }
    return -1;
  }

  twostate predicate Unchanged(certs: seq<Certificate>) reads certs {
    forall c :: c in certs ==>
      c.ocspGood == old(c.ocspGood) && c.valid == old(c.valid) && c.pathRemaining == old(c.pathRemaining) && c.derivation == old(c.derivation)
  }

  /** Work back from the anchor to the start of the chain, performing pairwise validation. */
  method WorkBack(env: Env, chain: seq<Certificate>, anchor: nat, time: int, root: Option<Root>, ghost certs: seq<Certificate>)
    returns (rc: Status, ghost failed: int)
    requires anchor < |chain| && chain[anchor].valid && forall c :: c in chain ==> c.Sound(env) && c in certs
    modifies chain
    ensures (rc, Marks(certs)) == Backward(env, old(Marks(certs)), chain, anchor, time, Store(env, root))
    ensures forall c :: c in chain ==> c.Sound(env)
    ensures Monotone(chain)
    ensures rc == Ok ==> forall j :: 0 <= j <= anchor ==> chain[j].valid
    ensures rc != Ok ==>
              && 0 <= failed < anchor
              && Refused(env, chain[failed], chain[failed + 1], time, root, rc)
              && forall j :: failed < j <= anchor ==> chain[j].valid
  {
    hide Certificate.Sound, Backward, NewRemaining, Validated, ValidateStatus, Refused, Marks;
    var issuer := chain[anchor];
    var i := anchor;
    while i > 0
      invariant 0 <= i <= anchor && issuer == chain[i]
      invariant forall c :: c in chain ==> c.Sound(env)
      invariant Monotone(chain)
      invariant forall j :: i <= j <= anchor ==> chain[j].valid
      invariant Backward(env, old(Marks(certs)), chain, anchor, time, Store(env, root)) == Backward(env, Marks(certs), chain, i, time, Store(env, root))
    {
      i := i - 1;
      BackwardStep(env, Marks(certs), chain, i + 1, time, Store(env, root));
      rc := ValidateAmong(env, chain[i], issuer, time, root, certs);
      if rc != Ok {
        RefusedHere(env, chain[i], chain[i + 1], time, root, rc, certs);
        return rc, i;
      }
      issuer := chain[i];
    }
    BackwardEnd(env, Marks(certs), chain, time, Store(env, root));
    return Ok, -1;
  }

  /** `x509_invalidate` */
  method Invalidate(env: Env, cert: Certificate)
    requires cert.Sound(env)
    modifies cert
    ensures cert.Sound(env) && !cert.valid && cert.pathRemaining == 0 && cert.ocspGood == old(cert.ocspGood)
  {
    cert.valid, cert.pathRemaining := false, 0;
  }

  datatype Op =
    | ValidateOne(cert: nat, issuer: int, time: int, root: Option<Root>)
    | ValidateAll(indices: seq<nat>, time: int, root: Option<Root>)
    | InvalidateOne(cert: nat)
    | MarkOcspGood(cert: nat)

  /** The run names this certificate for invalidation. */
  ghost predicate Named(certs: seq<Certificate>, ops: seq<Op>, c: Certificate) {
    exists op :: op in ops && op.InvalidateOne? && op.cert < |certs| && certs[op.cert] == c
  }

  /** One operation: its status, and what is marked afterwards. */
  ghost function Applied(env: Env, m: map<Certificate, Mark>, certs: seq<Certificate>, op: Op): (r: (Status, map<Certificate, Mark>))
    requires forall c :: c in certs ==> c in m
    ensures r.1.Keys == m.Keys
  {
    match op
    case ValidateOne(cert, issuer, time, root) =>
      if cert >= |certs| then (Ok, m)
      else Validated(env, m, certs[cert], if 0 <= issuer < |certs| then certs[issuer] else null, time, Store(env, root))
    case ValidateAll(indices, time, root) => ChainValidated(env, m, Select(certs, indices), time, Store(env, root))
    case InvalidateOne(cert) =>
      (Ok, if cert < |certs| then m[certs[cert] := Mark(false, 0, m[certs[cert]].ocspGood)] else m)
    case MarkOcspGood(cert) =>
      (Ok, if cert < |certs| then m[certs[cert] := m[certs[cert]].(ocspGood := true)] else m)
  }

  ghost function AppliedAll(env: Env, m: map<Certificate, Mark>, certs: seq<Certificate>, ops: seq<Op>): (r: (seq<Status>, map<Certificate, Mark>))
    requires forall c :: c in certs ==> c in m
    ensures r.1.Keys == m.Keys
  {
    if ops == [] then ([], m)
    else
      var k := |ops| - 1;
      var before := AppliedAll(env, m, certs, ops[..k]);
      var last := Applied(env, before.1, certs, ops[k]);
      (before.0 + [last.0], last.1)
  }

  /** Any run of validations, OCSP results and invalidations over any certificates: each operation has
      its status and effect, afterwards every certificate marked valid has a derivation, and a
      certificate loses its mark only if the run invalidates that very certificate. */
  method Run(env: Env, certs: seq<Certificate>, ops: seq<Op>) returns (results: seq<Status>)
    requires forall c :: c in certs ==> c.Sound(env)
    modifies certs
    ensures (results, Marks(certs)) == AppliedAll(env, old(Marks(certs)), certs, ops)
    ensures forall c :: c in certs ==> c.Sound(env)
    ensures forall c :: c in certs && c.valid ==> Derivation(env, c.derivation) && c.derivation[0].info == c.info
    ensures forall c :: c in certs && old(c.valid) && !Named(certs, ops, c) ==> c.valid
  {
    results := [];
    for k := 0 to |ops|
      invariant (results, Marks(certs)) == AppliedAll(env, old(Marks(certs)), certs, ops[..k])
      invariant forall c :: c in certs ==> c.Sound(env)
      invariant forall c :: c in certs && old(c.valid) && !Named(certs, ops, c) ==> c.valid
    {
      hide Derivation, ValidateStatus, NewRemaining;
      assert ops[..k + 1][..k] == ops[..k];
      var rc := Apply(env, certs, ops[k], ops);
      results := results + [rc];
    }
    assert ops[..|ops|] == ops;
  }

  method Apply(env: Env, certs: seq<Certificate>, op: Op, ghost ops: seq<Op>) returns (rc: Status)
    requires op in ops && forall c :: c in certs ==> c.Sound(env)
    modifies certs
    ensures (rc, Marks(certs)) == Applied(env, old(Marks(certs)), certs, op)
    ensures forall c :: c in certs ==> c.Sound(env)
    ensures forall c :: c in certs && old(c.valid) && !Named(certs, ops, c) ==> c.valid
  {
    hide ValidateStatus, NewRemaining;
    rc := Ok;
    match op
    case ValidateOne(cert, issuer, time, root) =>
      if cert < |certs| {
        var above := if 0 <= issuer < |certs| then certs[issuer] else null;
        rc := ValidateAmong(env, certs[cert], above, time, root, certs);
      }
    case ValidateAll(indices, time, root) =>
      var chain := Select(certs, indices);
      ghost var anchor, failed;
      rc, anchor, failed := ValidateChain(env, chain, time, root, certs);
    case InvalidateOne(cert) =>
      if cert < |certs| {
        assert Named(certs, ops, certs[cert]);
        Invalidate(env, certs[cert]);
        assert Marks(certs) == old(Marks(certs))[certs[cert] := Mark(false, 0, certs[cert].ocspGood)];
      }
    case MarkOcspGood(cert) =>
      if cert < |certs| {
        certs[cert].ocspGood := true;
        assert Marks(certs) == old(Marks(certs))[certs[cert] := old(Marks(certs))[certs[cert]].(ocspGood := true)];
      }
  }

  function Select(certs: seq<Certificate>, indices: seq<nat>): (chain: seq<Certificate>)
    ensures forall i :: 0 <= i < |chain| ==> chain[i] in certs
  {
    if indices == [] then []
    else (if indices[0] < |certs| then [certs[indices[0]]] else []) + Select(certs, indices[1..])
  }
}
