/** The DRBG mechanism on top of HMAC_DRBG: instantiation, reseeding, and the retry loop of the
    generate function. */
module Drbg {
  import opened Platform
  import opened Bytes
  import opened Hmac
  import opened HmacDrbg

  const MIN_ENTROPY_LEN: nat := 16
  const MAX_ENTROPY_LEN: nat := 32
  const MAX_PERSONAL_LEN: nat := 0xffff_ffff
  const MAX_ADDITIONAL_LEN: nat := 0xffff_ffff
  const MAX_GENERATED_LEN: nat := 0xffff

  /** What one call of the entropy source delivers. */
  datatype Entropy = Input(data: seq<byte>) | Failed(rc: int) {
    ghost predicate Ok() {
      match this
      case Input(data) => MIN_ENTROPY_LEN <= |data| <= MAX_ENTROPY_LEN
      case Failed(rc) => rc < 0
    }
  }

  /** The first of the source's remaining results; a source that has run dry fails. */
  function First(source: seq<Entropy>): Entropy {
    if source == [] then Failed(-EIO) else source[0]
  }

  function DataOf(e: Entropy): seq<byte> {
    match e
    case Input(data) => data
    case Failed(_) => []
  }

  function StatusOf(e: Entropy): int {
    match e
    case Input(_) => 0
    case Failed(rc) => rc
  }

  /** What happens to the generator: seeding with some additional input, an output request served
      with some additional input, or a request refused because the counter has expired. */
  datatype Event = Seeded(additional: seq<byte>) | Served(additional: seq<byte>, len: nat) | Stale

  /** Requests served since the last seeding. */
  function ServedSinceSeed(history: seq<Event>): nat {
    if history == [] then 0
    else
      match history[|history| - 1]
      case Seeded(_) => 0
      case Served(_, _) => ServedSinceSeed(history[..|history| - 1]) + 1
      case Stale => ServedSinceSeed(history[..|history| - 1])
  }

  /** At no point of the history had more than the reseed interval of requests been served since
      the last seeding. */
  ghost predicate Bounded(history: seq<Event>) {
    forall i :: 0 <= i <= |history| ==> ServedSinceSeed(history[..i]) <= RESEED_INTERVAL
  }

  lemma ServedStep(h: seq<Event>, e: Event)
    ensures ServedSinceSeed(h + [e]) ==
            match e case Seeded(_) => 0 case Served(_, _) => ServedSinceSeed(h) + 1 case Stale => ServedSinceSeed(h)
    ensures Bounded(h) && ServedSinceSeed(h + [e]) <= RESEED_INTERVAL ==> Bounded(h + [e])
  {
    var g := h + [e];
    assert g[..|h|] == h && g[..|g|] == g;
    forall i | 0 <= i <= |h| ensures g[..i] == h[..i] {}
  }

  /** Whether a request has to be preceded by a reseed. */
  predicate MustReseed(counter: nat, predictionResist: bool) {
    predictionResist || counter > RESEED_INTERVAL
  }

  /** The reseed counter after a request with status `rc`: a reseed restarts it, and each request served
      counts. */
  function CounterAfter(counter: nat, predictionResist: bool, rc: int): nat {
    if rc != 0 then counter
    else if predictionResist || counter > RESEED_INTERVAL then 2
    else counter + 1
  }

  datatype Request = Request(additional: seq<byte>, resist: bool, len: nat, source: seq<Entropy>) {
    ghost predicate Ok() { forall e :: e in source ==> e.Ok() }

    /** Within the limits, and with entropy to be had. */
    ghost predicate Servable() {
      len <= MAX_GENERATED_LEN && |additional| <= MAX_ADDITIONAL_LEN && First(source).Input?
    }
  }

  /** What a request returns, what it outputs, and the state it leaves, as functions of the state. */
  ghost function Status(counter: nat, r: Request): int {
    if r.len > MAX_GENERATED_LEN || |r.additional| > MAX_ADDITIONAL_LEN then -ERANGE
    else if MustReseed(counter, r.resist) then StatusOf(First(r.source)) else 0
  }

  /** The working state and additional input from which the output is generated. */
  ghost function SourceOf(hash: DigestAlgorithm, w: Working, counter: nat, additional: seq<byte>, resist: bool, e: Entropy): (Working, seq<byte>)
    requires hash.Ok()
  {
    if MustReseed(counter, resist) then (Updated(hash, w, DataOf(e) + additional), []) else (w, additional)
  }

  ghost function OutputOf(hash: DigestAlgorithm, w: Working, counter: nat, r: Request): seq<byte>
    requires hash.Ok()
  {
    if Status(counter, r) != 0 then []
    else
      var (v, a) := SourceOf(hash, w, counter, r.additional, r.resist, First(r.source));
      Generated(hash, v, a, r.len)
  }

  ghost function StateAfter(hash: DigestAlgorithm, w: Working, counter: nat, r: Request): Working
    requires hash.Ok()
  {
    if Status(counter, r) != 0 then w
    else
      var (v, a) := SourceOf(hash, w, counter, r.additional, r.resist, First(r.source));
      AfterGenerate(hash, v, a, r.len)
  }

  /** The statuses and outputs of a run of requests. */
  ghost function RunFrom(hash: DigestAlgorithm, w: Working, counter: nat, rs: seq<Request>): (out: seq<(int, seq<byte>)>)
    requires hash.Ok()
    ensures |out| == |rs|
    decreases |rs|
  {
    if rs == [] then []
    else
      var r := rs[0];
      [(Status(counter, r), OutputOf(hash, w, counter, r))] +
      RunFrom(hash, StateAfter(hash, w, counter, r), CounterAfter(counter, r.resist, Status(counter, r)), rs[1..])
  }

  /** With entropy to be had, every request within the limits is served, for ever. */
  lemma {:induction false} AllServed(hash: DigestAlgorithm, w: Working, counter: nat, rs: seq<Request>, i: nat)
    requires hash.Ok() && i < |rs| && forall r :: r in rs ==> r.Servable()
    ensures RunFrom(hash, w, counter, rs)[i].0 == 0
    decreases i
  {
    hide Updated, Generated, AfterGenerate;
    var r := rs[0];
    assert r in rs && r.Servable();
    if i > 0 {
      AllServed(hash, StateAfter(hash, w, counter, r), CounterAfter(counter, r.resist, Status(counter, r)), rs[1..], i - 1);
    }
  }

  lemma EveryServed(hash: DigestAlgorithm, w: Working, counter: nat, rs: seq<Request>)
    requires hash.Ok() && forall r :: r in rs ==> r.Servable()
    ensures forall i :: 0 <= i < |rs| ==> RunFrom(hash, w, counter, rs)[i].0 == 0
  {
    forall i | 0 <= i < |rs| ensures RunFrom(hash, w, counter, rs)[i].0 == 0 { AllServed(hash, w, counter, rs, i); }
  }

  lemma RunStep(hash: DigestAlgorithm, w: Working, counter: nat, rs: seq<Request>, k: nat)
    requires hash.Ok() && k < |rs|
    ensures var r := rs[k];
            RunFrom(hash, w, counter, rs[k..]) ==
            [(Status(counter, r), OutputOf(hash, w, counter, r))] +
            RunFrom(hash, StateAfter(hash, w, counter, r), CounterAfter(counter, r.resist, Status(counter, r)), rs[k + 1..])
  {
    assert rs[k..][1..] == rs[k + 1..];
  }

  class Generator {
    const internal: State
    var reseedRequired: bool
    var valid: bool
    ghost var history: seq<Event>

    ghost predicate Valid() reads this, internal {
      && internal.Valid()
      && Bounded(history)
      && (valid ==> internal.reseedCounter == ServedSinceSeed(history) + 1 && ServedSinceSeed(history) <= RESEED_INTERVAL)
    }

    ghost function Repr(): set<object> { {this, internal, internal.key, internal.value} }

    constructor (hash: DigestAlgorithm)
      requires hash.Ok() && hash.digestsize <= MAX_OUTLEN
      ensures Valid() && !valid && history == [] && fresh(Repr()) && internal.hash == hash
    {
      internal := new State(hash);
      reseedRequired, valid, history := false, false, [];
    }

    /** `drbg_instantiate` */
    method Instantiate(personal: seq<byte>, source: seq<Entropy>) returns (rc: int)
      requires Valid() && First(source).Ok()
      modifies this, internal, internal.key, internal.value
      ensures Valid()
      ensures |personal| > MAX_PERSONAL_LEN ==> rc == -ERANGE
      ensures |personal| <= MAX_PERSONAL_LEN ==> rc == StatusOf(First(source))
      ensures rc == 0 ==> valid && !reseedRequired && ServedSinceSeed(history) == 0 && history == old(history) + [Seeded(personal)]
      ensures rc == 0 ==> internal.Now() == Fresh(internal.hash, DataOf(First(source)) + personal) && internal.reseedCounter == 1
      ensures rc != 0 ==> valid == old(valid) && reseedRequired == old(reseedRequired) && history == old(history)
      ensures rc != 0 ==> internal.Now() == old(internal.Now()) && internal.reseedCounter == old(internal.reseedCounter)
    {
      if |personal| > MAX_PERSONAL_LEN {
        return -ERANGE;
      }
      var entropy := First(source);
      if entropy.Failed? {
        return entropy.rc;
      }
      internal.Instantiate(entropy.data, personal);
      ServedStep(history, Seeded(personal));
      history := history + [Seeded(personal)];
      reseedRequired := false;
      valid := true;
      return 0;
    }

    /** `drbg_reseed` */
    method Reseed(additional: seq<byte>, source: seq<Entropy>) returns (rc: int)
      requires Valid() && First(source).Ok()
      modifies this`history, internal, internal.key, internal.value
      ensures Valid()
      ensures !valid ==> rc == -EINVAL
      ensures valid && |additional| > MAX_ADDITIONAL_LEN ==> rc == -ERANGE
      ensures valid && |additional| <= MAX_ADDITIONAL_LEN ==> rc == StatusOf(First(source))
      ensures rc == 0 ==>
                && internal.Now() == Updated(internal.hash, old(internal.Now()), DataOf(First(source)) + additional)
                && internal.reseedCounter == 1 && history == old(history) + [Seeded(additional)]
      ensures rc != 0 ==> internal.Now() == old(internal.Now()) && internal.reseedCounter == old(internal.reseedCounter) && history == old(history)
    {
      if !valid {
        return -EINVAL;
      }
      if |additional| > MAX_ADDITIONAL_LEN {
        return -ERANGE;
      }
      var entropy := First(source);
      if entropy.Failed? {
        return entropy.rc;
      }
      internal.Reseed(entropy.data, additional);
      ServedStep(history, Seeded(additional));
      history := history + [Seeded(additional)];
      return 0;
    }

    /** What a successful request adds to the history: the additional input goes into the reseed
        or into the output, never both, and an expired generator is reseeded before it serves. */
    ghost function Trace(counter: nat, additional: seq<byte>, resist: bool, len: nat): seq<Event> {
      if resist then [Seeded(additional), Served([], len)]
      else if counter > RESEED_INTERVAL then [Stale, Seeded(additional), Served([], len)]
      else [Served(additional, len)]
    }

    /** `drbg_generate`. `attempts` counts the passes through step 7. */
    method Generate(additional: seq<byte>, predictionResist: bool, data: array<byte>, len: nat, source: seq<Entropy>)
      returns (rc: int, attempts: nat, used: nat)
      requires Valid() && len <= data.Length && data !in Repr()
      requires forall e :: e in source ==> e.Ok()
      modifies Repr(), data
      ensures Valid() && valid == old(valid) && attempts <= 2 && used <= 1
      ensures internal.reseedCounter == CounterAfter(old(internal.reseedCounter), predictionResist, rc)
      ensures old(valid) && len <= MAX_GENERATED_LEN && |additional| <= MAX_ADDITIONAL_LEN ==>
                (reseedRequired <==> rc != 0 && !predictionResist)
      ensures !old(valid) || len > MAX_GENERATED_LEN || |additional| > MAX_ADDITIONAL_LEN ==>
                history == old(history) && reseedRequired == old(reseedRequired)
      ensures !old(valid) ==> rc == -EINVAL
      ensures old(valid) && (len > MAX_GENERATED_LEN || |additional| > MAX_ADDITIONAL_LEN) ==> rc == -ERANGE
      ensures old(valid) && len <= MAX_GENERATED_LEN && |additional| <= MAX_ADDITIONAL_LEN ==>
                rc == if MustReseed(old(internal.reseedCounter), predictionResist) then StatusOf(First(source)) else 0
      ensures rc == 0 ==>
                var (w, a) := SourceOf(internal.hash, old(internal.Now()), old(internal.reseedCounter), additional, predictionResist, First(source));
                && data[..len] == Generated(internal.hash, w, a, len)
                && internal.Now() == AfterGenerate(internal.hash, w, a, len)
                && history == old(history) + Trace(old(internal.reseedCounter), additional, predictionResist, len)
      ensures rc != 0 ==> data[..] == old(data[..]) && internal.Now() == old(internal.Now())
      ensures data[len..] == old(data[len..])
    {
      attempts, used := 0, 0;
      if !valid {
        return -EINVAL, 0, 0;
      }
      if len > MAX_GENERATED_LEN {
        return -ERANGE, 0, 0;
      }
      if |additional| > MAX_ADDITIONAL_LEN {
        return -ERANGE, 0, 0;
      }
      reseedRequired := false;
      rc, attempts, used := FromStep7(additional, predictionResist, data, len, source);
    }

    /** Any run of requests after instantiation: the statuses and outputs are those of the run from the
        fresh state, whatever was there before. */
    method Produce(personal: seq<byte>, seed: seq<Entropy>, rs: seq<Request>) returns (rc: int, results: seq<(int, seq<byte>)>)
      requires Valid() && First(seed).Ok() && forall r :: r in rs ==> r.Ok()
      modifies Repr()
      ensures Valid()
      ensures rc == if |personal| > MAX_PERSONAL_LEN then -ERANGE else StatusOf(First(seed))
      ensures rc == 0 ==> valid && results == RunFrom(internal.hash, Fresh(internal.hash, DataOf(First(seed)) + personal), 1, rs)
      ensures rc == 0 && (forall r :: r in rs ==> r.Servable()) ==>
                |results| == |rs| && forall i :: 0 <= i < |rs| ==> results[i].0 == 0
    {
      hide Bounded, ServedSinceSeed, Fresh, RunFrom, Status, OutputOf, StateAfter, CounterAfter, Request.Servable;
      rc := Instantiate(personal, seed);
      results := [];
      if rc != 0 {
        return;
      }
      ghost var all := RunFrom(internal.hash, internal.Now(), 1, rs);
      for k := 0 to |rs|
        invariant Valid() && valid && |results| == k
        invariant all == results + RunFrom(internal.hash, internal.Now(), internal.reseedCounter, rs[k..])
      {
        RunStep(internal.hash, internal.Now(), internal.reseedCounter, rs, k);
        var rc', output := Answer(rs[k]);
        results := results + [(rc', output)];
      }
      assert rs[|rs|..] == [];
      assert all == results;
      if forall r :: r in rs ==> r.Servable() {
        EveryServed(internal.hash, Fresh(internal.hash, DataOf(First(seed)) + personal), 1, rs);
      }
    }

    /** One request into a buffer of its own. */
    method Answer(r: Request) returns (rc: int, output: seq<byte>)
      requires Valid() && valid && r.Ok()
      modifies Repr()
      ensures Valid() && valid
      ensures rc == Status(old(internal.reseedCounter), r)
      ensures output == OutputOf(internal.hash, old(internal.Now()), old(internal.reseedCounter), r)
      ensures internal.Now() == StateAfter(internal.hash, old(internal.Now()), old(internal.reseedCounter), r)
      ensures internal.reseedCounter == CounterAfter(old(internal.reseedCounter), r.resist, rc)
    {
      hide Bounded, Generated, AfterGenerate, Updated, ServedSinceSeed;
      var data := new byte[r.len](_ => 0);
      var attempts, used;
      rc, attempts, used := Generate(r.additional, r.resist, data, r.len, r.source);
      output := if rc == 0 then data[..r.len] else [];
    }

    /** Steps 7 to 9 of `drbg_generate`, with the jump back as a loop. */
    method FromStep7(additional: seq<byte>, predictionResist: bool, data: array<byte>, len: nat, source: seq<Entropy>)
      returns (rc: int, attempts: nat, used: nat)
      requires Valid() && valid && !reseedRequired && |additional| <= MAX_ADDITIONAL_LEN
      requires len <= data.Length && data !in Repr() && First(source).Ok()
      modifies Repr(), data
      ensures Valid() && valid && attempts <= 2 && used <= 1
      ensures rc == if MustReseed(old(internal.reseedCounter), predictionResist) then StatusOf(First(source)) else 0
      ensures internal.reseedCounter == CounterAfter(old(internal.reseedCounter), predictionResist, rc)
      ensures reseedRequired <==> rc != 0 && !predictionResist
      ensures rc == 0 ==>
                var (w, a) := SourceOf(internal.hash, old(internal.Now()), old(internal.reseedCounter), additional, predictionResist, First(source));
                && data[..len] == Generated(internal.hash, w, a, len)
                && internal.Now() == AfterGenerate(internal.hash, w, a, len)
                && history == old(history) + Trace(old(internal.reseedCounter), additional, predictionResist, len)
      ensures rc != 0 ==> data[..] == old(data[..]) && internal.Now() == old(internal.Now())
      ensures data[len..] == old(data[len..])
    {
      hide Bounded, Generated, AfterGenerate, Updated, ServedSinceSeed;
      attempts, used := 0, 0;
      var resist := predictionResist;
      while true
        invariant Valid() && valid && attempts <= 1 && used == 0
        invariant internal.Now() == old(internal.Now()) && internal.reseedCounter == old(internal.reseedCounter)
        invariant data[..] == old(data[..])
        invariant attempts == 0 ==> resist == predictionResist && !reseedRequired && history == old(history)
        invariant attempts == 1 ==> resist && reseedRequired && !predictionResist && internal.reseedCounter > RESEED_INTERVAL && history == old(history) + [Stale]
        decreases 2 - attempts
      {
        attempts := attempts + 1;
        rc, used := Pass(additional, resist, data, len, source);
        if used > 0 || rc == 0 {
          return;
        }
        resist := true;
      }
    }

    /** One pass through steps 7 to 9: reseed if required (which consumes the additional input), then
        make one attempt to generate. */
    method Pass(additional: seq<byte>, resist: bool, data: array<byte>, len: nat, source: seq<Entropy>) returns (rc: int, used: nat)
      requires Valid() && valid && |additional| <= MAX_ADDITIONAL_LEN && (reseedRequired ==> resist)
      requires len <= data.Length && data !in Repr() && First(source).Ok()
      modifies Repr(), data
      ensures Valid() && valid && (reseedRequired <==> rc != 0 && (!resist || old(reseedRequired)))
      ensures used == if resist then 1 else 0
      ensures resist ==> rc == StatusOf(First(source))
      ensures !resist ==> (rc == 0 <==> old(internal.reseedCounter) <= RESEED_INTERVAL)
      ensures rc == 0 ==> internal.reseedCounter == if resist then 2 else old(internal.reseedCounter) + 1
      ensures rc == 0 ==>
                var w := if resist then Updated(internal.hash, old(internal.Now()), DataOf(First(source)) + additional) else old(internal.Now());
                var a := if resist then [] else additional;
                && data[..len] == Generated(internal.hash, w, a, len)
                && internal.Now() == AfterGenerate(internal.hash, w, a, len)
                && history == old(history) + if resist then [Seeded(additional), Served([], len)] else [Served(additional, len)]
      ensures rc != 0 ==>
                && data[..] == old(data[..]) && internal.Now() == old(internal.Now())
                && internal.reseedCounter == old(internal.reseedCounter)
                && history == old(history) + if resist then [] else [Stale]
      ensures data[len..] == old(data[len..])
    {
      var extra := additional;
      used := 0;
      if reseedRequired || resist {
        rc := Reseed(extra, source);
        used := 1;
        if rc != 0 {
          return;
        }
        extra := [];
        reseedRequired := false;
      }
      rc := Serve(extra, data, len);
      if rc != 0 {
        reseedRequired := true;
      }
    }

    /** Step 8: one attempt of the generate algorithm, recorded in the history. */
    method Serve(extra: seq<byte>, data: array<byte>, len: nat) returns (rc: int)
      requires Valid() && valid && len <= data.Length && data !in Repr()
      modifies this`history, internal, internal.key, internal.value, data
      ensures Valid()
      ensures rc == 0 <==> old(internal.reseedCounter) <= RESEED_INTERVAL
      ensures rc == 0 ==> internal.reseedCounter == old(internal.reseedCounter) + 1
      ensures rc == 0 ==>
                && data[..len] == Generated(internal.hash, old(internal.Now()), extra, len)
                && internal.Now() == AfterGenerate(internal.hash, old(internal.Now()), extra, len)
                && history == old(history) + [Served(extra, len)]
      ensures rc != 0 ==>
                && data[..] == old(data[..]) && internal.Now() == old(internal.Now())
                && internal.reseedCounter == old(internal.reseedCounter) && history == old(history) + [Stale]
      ensures data[len..] == old(data[len..])
    {
      rc := internal.Generate(extra, data, len);
      if rc == 0 {
        ServedStep(history, Served(extra, len));
        history := history + [Served(extra, len)];
      } else {
        ServedStep(history, Stale);
        history := history + [Stale];
      }
    }

    /** `drbg_uninstantiate` */
    method Uninstantiate()
      requires Valid()
      modifies Repr()
      ensures Valid() && !valid && !reseedRequired && internal.reseedCounter == 0
      ensures internal.Now() == Working(Repeat(0, internal.hash.digestsize), Repeat(0, internal.hash.digestsize))
    {
      internal.Erase();
      reseedRequired, valid := false, false;
    }
  }
}
