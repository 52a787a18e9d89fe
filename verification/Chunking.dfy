/** Packing events into size-bounded requests, and the manifest of what was accepted
    (scripts/otlp_e2e_loadgen.py). */
module Chunking {
  import opened Common
  import opened Sums

  type Bytes = seq<bv8>

  datatype EventSpec = EventSpec(tool: string, eventType: string, payload: string, timestamp: string)

  /** `batch` is the number in the plan's label. */
  datatype RequestPlan = RequestPlan(batch: nat, path: string, contentType: string, body: Bytes,
                                     specs: seq<EventSpec>, expected: seq<int>)

  datatype RequestResult = RequestResult(path: string, status: int, expected: seq<int>, specs: seq<EventSpec>)

  /** A record the verifier can look up: its event with the hashes of its body and payload. */
  datatype SampleRecord = SampleRecord(tool: string, runId: string, eventType: string, timestamp: string,
                                       bodyHash: string, payloadHash: string)

  datatype Manifest = Manifest(countsByEvent: map<string, nat>, totalRecords: nat, samples: seq<SampleRecord>,
                               statuses: map<int, nat>)

  /** What a run stamps its samples with: its id, the rendering of a record, and the hash. */
  datatype Stamp = Stamp(runId: string, body: EventSpec -> string, sha256: string -> string)

  function SampleOf(stamp: Stamp, spec: EventSpec): SampleRecord {
    SampleRecord(spec.tool, stamp.runId, spec.eventType, spec.timestamp, stamp.sha256(stamp.body(spec)),
                 stamp.sha256(spec.payload))
  }

  /** Samples of the first five events. */
  function Samples(stamp: Stamp, specs: seq<EventSpec>): (r: seq<SampleRecord>)
    ensures |r| == if |specs| < 5 then |specs| else 5
    ensures forall i :: 0 <= i < |r| ==> r[i] == SampleOf(stamp, specs[i])
  {
    seq(if |specs| < 5 then |specs| else 5, i requires 0 <= i < |specs| => SampleOf(stamp, specs[i]))
  }

  /** The two wire encoders. */
  datatype Codec = Codec(protobuf: seq<EventSpec> -> Bytes, json: seq<EventSpec> -> Bytes)

  datatype UsageError = UnknownEncoding(name: string)

  const LOGS_PATH: string := "/v1/logs"
  const METRICS_PATH: string := "/v1/metrics"

  predicate Known(encoding: string) {
    encoding == "protobuf" || encoding == "json"
  }

  function Encode(codec: Codec, encoding: string, specs: seq<EventSpec>): Bytes
    requires Known(encoding)
  {
    if encoding == "protobuf" then codec.protobuf(specs) else codec.json(specs)
  }

  function ContentType(encoding: string): string {
    if encoding == "protobuf" then "application/x-protobuf" else "application/json"
  }

  method EncodeRequest(codec: Codec, encoding: string, specs: seq<EventSpec>)
    returns (r: Result<(Bytes, string), UsageError>)
    ensures r == if Known(encoding) then Ok((Encode(codec, encoding, specs), ContentType(encoding)))
                 else Err(UnknownEncoding(encoding))
  {
    if encoding == "protobuf" {
      return Ok((codec.protobuf(specs), "application/x-protobuf"));
    }
    if encoding == "json" {
      return Ok((codec.json(specs), "application/json"));
    }
    return Err(UnknownEncoding(encoding));
  }

  // ---------------------------------------------------------------- chunks

  type Size<!T> = seq<T> -> int

  /** First fit, with `current` already collected. */
  function Greedy<T>(size: Size<T>, limit: int, current: seq<T>, rest: seq<T>): seq<seq<T>>
    decreases |rest|
  {
    if rest == [] then (if current == [] then [] else [current])
    else
      var candidate := current + [rest[0]];
      if size(candidate) > limit && current != [] then [current] + Greedy(size, limit, [rest[0]], rest[1..])
      else Greedy(size, limit, candidate, rest[1..])
  }

  function Plan(codec: Codec, encoding: string, batch: nat, specs: seq<EventSpec>): RequestPlan
    requires Known(encoding)
  {
    RequestPlan(batch, LOGS_PATH, ContentType(encoding), Encode(codec, encoding, specs), specs, [200])
  }

  /** One plan per chunk, numbered in order. */
  function Plans(codec: Codec, encoding: string, chunks: seq<seq<EventSpec>>): (ps: seq<RequestPlan>)
    requires Known(encoding)
    ensures |ps| == |chunks|
  {
    if chunks == [] then []
    else
      var n := |chunks| - 1;
      Plans(codec, encoding, chunks[..n]) + [Plan(codec, encoding, n, chunks[n])]
  }

  lemma PlansSnoc(codec: Codec, encoding: string, chunks: seq<seq<EventSpec>>, chunk: seq<EventSpec>)
    requires Known(encoding)
    ensures Plans(codec, encoding, chunks + [chunk]) ==
            Plans(codec, encoding, chunks) + [Plan(codec, encoding, |chunks|, chunk)]
  {
    assert (chunks + [chunk])[..|chunks|] == chunks;
  }

  /** The size the code compares with the limit. */
  function BodySize(codec: Codec, encoding: string): Size<EventSpec> {
    specs => if Known(encoding) then |Encode(codec, encoding, specs)| else 0
  }

  /** `done` chunks are closed, `current` is open, `rest` is to come. */
  ghost predicate Packing<T(!new)>(size: Size<T>, limit: int, specs: seq<T>, done: seq<seq<T>>, current: seq<T>,
                                   rest: seq<T>)
  {
    done + Greedy(size, limit, current, rest) == Greedy(size, limit, [], specs)
  }

  lemma PackingStarts<T(!new)>(size: Size<T>, limit: int, specs: seq<T>)
    ensures Packing(size, limit, specs, [], [], specs[0..])
  {
    assert specs[0..] == specs;
    assert [] + Greedy(size, limit, [], specs) == Greedy(size, limit, [], specs);
  }

  /** One round of the packing loop. */
  lemma PackingStep<T(!new)>(size: Size<T>, limit: int, specs: seq<T>, done: seq<seq<T>>, current: seq<T>, i: nat)
    requires i < |specs| && Packing(size, limit, specs, done, current, specs[i..])
    ensures size(current + [specs[i]]) > limit && current != [] ==>
              Packing(size, limit, specs, done + [current], [specs[i]], specs[i + 1..])
    ensures !(size(current + [specs[i]]) > limit && current != []) ==>
              Packing(size, limit, specs, done, current + [specs[i]], specs[i + 1..])
  {
    assert specs[i..][1..] == specs[i + 1..];
    Associative(done, [current], Greedy(size, limit, [specs[i]], specs[i + 1..]));
  }

  lemma PackingEnds<T(!new)>(size: Size<T>, limit: int, specs: seq<T>, done: seq<seq<T>>, current: seq<T>)
    requires Packing(size, limit, specs, done, current, specs[|specs|..])
    ensures Greedy(size, limit, [], specs) == if current == [] then done else done + [current]
  {
    assert done + [] == done;
  }

  /** Encode the open chunk and append it to the plans. */
  method Close(codec: Codec, encoding: string, plans: seq<RequestPlan>, current: seq<EventSpec>,
               ghost done: seq<seq<EventSpec>>)
    returns (more: seq<RequestPlan>)
    requires Known(encoding) && plans == Plans(codec, encoding, done)
    ensures more == Plans(codec, encoding, done + [current])
  {
    var encoded := EncodeRequest(codec, encoding, current);
    more := plans + [RequestPlan(|plans|, LOGS_PATH, encoded.value.1, encoded.value.0, current, [200])];
    PlansSnoc(codec, encoding, done, current);
  }

  method ChunkIntoRequests(codec: Codec, specs: seq<EventSpec>, encoding: string, maxBytes: int)
    returns (r: Result<seq<RequestPlan>, UsageError>)
    ensures specs != [] && !Known(encoding) ==> r == Err(UnknownEncoding(encoding))
    ensures specs == [] ==> r == Ok([])
    ensures Known(encoding) ==>
              r == Ok(Plans(codec, encoding, Greedy(BodySize(codec, encoding), maxBytes, [], specs)))
  {
    var plans: seq<RequestPlan>, current: seq<EventSpec> := [], [];
    ghost var size := BodySize(codec, encoding);
    ghost var done: seq<seq<EventSpec>> := [];
    PackingStarts(size, maxBytes, specs);
    for i := 0 to |specs|
      invariant i == 0 ==> current == [] && plans == []
      invariant i > 0 ==> Known(encoding)
      invariant Packing(size, maxBytes, specs, done, current, specs[i..])
      invariant Known(encoding) ==> plans == Plans(codec, encoding, done)
    {
      var candidate := current + [specs[i]];
      var encoded := EncodeRequest(codec, encoding, candidate);
      if encoded.Err? {
        return Err(encoded.error);
      }
      PackingStep(size, maxBytes, specs, done, current, i);
      if |encoded.value.0| > maxBytes && current != [] {
        plans := Close(codec, encoding, plans, current, done);
        done := done + [current];
        current := [specs[i]];
      } else {
        current := candidate;
      }
    }
    PackingEnds(size, maxBytes, specs, done, current);
    if current != [] {
      plans := Close(codec, encoding, plans, current, done);
    }
    r := Ok(plans);
  }

  // ---------------------------------------------------------------- sending and the manifest

  /** One result per plan, in plan order, with the status the receiver answered. */
  function Send(plans: seq<RequestPlan>, statuses: seq<int>): (rs: seq<RequestResult>)
    requires |plans| == |statuses|
    ensures |rs| == |plans|
  {
    if plans == [] then []
    else
      var n := |plans| - 1;
      Send(plans[..n], statuses[..n]) + [RequestResult(plans[n].path, statuses[n], plans[n].expected, plans[n].specs)]
  }

  predicate AsExpected(r: RequestResult) {
    r.status in r.expected
  }

  function ExitCode(results: seq<RequestResult>): int {
    if forall i :: 0 <= i < |results| ==> AsExpected(results[i]) then 0 else 1
  }

  /** Accepted on a path whose data lands in the lake. */
  predicate Lands(r: RequestResult) {
    r.status == 200 && (r.path == LOGS_PATH || r.path == METRICS_PATH)
  }

  /** The accepted events, in order. */
  function Accepted(results: seq<RequestResult>): seq<EventSpec> {
    if results == [] then []
    else
      var n := |results| - 1;
      Accepted(results[..n]) + (if Lands(results[n]) then results[n].specs else [])
  }

  function Types(specs: seq<EventSpec>): (ts: seq<string>)
    ensures |ts| == |specs|
  {
    if specs == [] then [] else Types(specs[..|specs| - 1]) + [specs[|specs| - 1].eventType]
  }

  function Statuses(results: seq<RequestResult>): seq<int> {
    if results == [] then [] else Statuses(results[..|results| - 1]) + [results[|results| - 1].status]
  }

  /** What the manifest should say: counts by type, total, first samples, and the status summary. */
  function ManifestOf(stamp: Stamp, results: seq<RequestResult>): Manifest {
    var landed := Accepted(results);
    Manifest(Tally(Types(landed)), |landed|, Samples(stamp, landed), Tally(Statuses(results)))
  }

  /** The running counters of the manifest say what has landed. */
  ghost predicate Counted(stamp: Stamp, counts: map<string, nat>, total: nat, samples: seq<SampleRecord>,
                          landed: seq<EventSpec>)
  {
    counts == Tally(Types(landed)) && total == |landed| && samples == Samples(stamp, landed)
  }

  function Bump<K(==)>(counts: map<K, nat>, k: K): map<K, nat> {
    counts[k := (if k in counts then counts[k] else 0) + 1]
  }

  lemma CountOne(stamp: Stamp, counts: map<string, nat>, total: nat, samples: seq<SampleRecord>,
                 landed: seq<EventSpec>, spec: EventSpec)
    requires Counted(stamp, counts, total, samples, landed)
    ensures Counted(stamp, Bump(counts, spec.eventType), total + 1,
                    if |samples| < 5 then samples + [SampleOf(stamp, spec)] else samples, landed + [spec])
  {
    TypesSnoc(landed, spec);
    SamplesSnoc(stamp, landed, spec);
  }

  lemma SamplesSnoc(stamp: Stamp, landed: seq<EventSpec>, spec: EventSpec)
    ensures var samples := Samples(stamp, landed);
            Samples(stamp, landed + [spec]) == if |samples| < 5 then samples + [SampleOf(stamp, spec)] else samples
  {
  }

  lemma TypesSnoc(landed: seq<EventSpec>, spec: EventSpec)
    ensures Tally(Types(landed + [spec])) == Bump(Tally(Types(landed)), spec.eventType)
  {
    assert (landed + [spec])[..|landed|] == landed;
    TallySnoc(Types(landed), spec.eventType);
  }

  /** The inner loop: one accepted request's events. */
  method AddAccepted(stamp: Stamp, specs: seq<EventSpec>, counts: map<string, nat>, total: nat,
                     samples: seq<SampleRecord>, ghost landed: seq<EventSpec>)
    returns (counts': map<string, nat>, total': nat, samples': seq<SampleRecord>)
    requires Counted(stamp, counts, total, samples, landed)
    ensures Counted(stamp, counts', total', samples', landed + specs)
  {
    counts', total', samples' := counts, total, samples;
    ghost var now := landed;
    for i := 0 to |specs|
      invariant Counted(stamp, counts', total', samples', now)
      invariant now + specs[i..] == landed + specs
    {
      var spec := specs[i];
      CountOne(stamp, counts', total', samples', now, spec);
      counts', total' := Bump(counts', spec.eventType), total' + 1;
      if |samples'| < 5 {
        samples' := samples' + [SampleOf(stamp, spec)];
      }
      Shift(now, specs, i);
      now := now + [spec];
    }
    assert now + specs[|specs|..] == now;
  }

  lemma Shift<T>(a: seq<T>, b: seq<T>, i: nat)
    requires i < |b|
    ensures (a + [b[i]]) + b[i + 1..] == a + b[i..]
  {
  }

  /** One more result: its status is counted, and its events have landed or not. */
  lemma ResultSnoc(results: seq<RequestResult>, i: nat)
    requires i < |results|
    ensures Tally(Statuses(results[..i + 1])) == Bump(Tally(Statuses(results[..i])), results[i].status)
  {
    assert results[..i + 1][..i] == results[..i];
    assert Statuses(results[..i + 1]) == Statuses(results[..i]) + [results[i].status];
    TallySnoc(Statuses(results[..i]), results[i].status);
  }

  lemma AcceptedSnoc(results: seq<RequestResult>, i: nat)
    requires i < |results|
    ensures Accepted(results[..i + 1]) ==
            if Lands(results[i]) then Accepted(results[..i]) + results[i].specs else Accepted(results[..i])
  {
    assert results[..i + 1][..i] == results[..i];
  }

  method PopulateManifest(stamp: Stamp, results: seq<RequestResult>) returns (m: Manifest)
    ensures m == ManifestOf(stamp, results)
  {
    var statuses: map<int, nat>, counts: map<string, nat> := map[], map[];
    var total: nat, samples: seq<SampleRecord> := 0, [];
    assert Samples(stamp, []) == [];
    for i := 0 to |results|
      invariant statuses == Tally(Statuses(results[..i]))
      invariant Counted(stamp, counts, total, samples, Accepted(results[..i]))
    {
      var r := results[i];
      ResultSnoc(results, i);
      AcceptedSnoc(results, i);
      statuses := Bump(statuses, r.status);
      if Lands(r) {
        counts, total, samples := AddAccepted(stamp, r.specs, counts, total, samples, Accepted(results[..i]));
      }
    }
    assert results[..|results|] == results;
    m := Manifest(counts, total, samples, statuses);
  }
}
