/** What the packing promises: nothing lost or reordered, the size limit kept, as few requests as possible;
    and that the manifest accounts for every accepted event (scripts/otlp_e2e_loadgen.py). */
module ChunkingLaws {
  import opened Common
  import opened Sums
  import opened Chunking

  // ---------------------------------------------------------------- what a chunk may be

  /** A chunk that may be sent: not empty, and within the limit unless it is a single event. */
  ghost predicate Sendable<T(!new)>(size: Size<T>, limit: int, chunk: seq<T>) {
    chunk != [] && (|chunk| > 1 ==> size(chunk) <= limit)
  }

  ghost predicate AllSendable<T(!new)>(size: Size<T>, limit: int, chunks: seq<seq<T>>) {
    forall i :: 0 <= i < |chunks| ==> Sendable(size, limit, chunks[i])
  }

  /** Every event is sent, in order, and every chunk may be sent; an oversize event travels alone. */
  lemma {:induction false} GreedyIsASplit<T(!new)>(size: Size<T>, limit: int, current: seq<T>, rest: seq<T>)
    requires current == [] || Sendable(size, limit, current)
    ensures Flatten(Greedy(size, limit, current, rest)) == current + rest
    ensures AllSendable(size, limit, Greedy(size, limit, current, rest))
    decreases |rest|
  {
    if rest == [] {
      assert current + rest == current && Flatten([current]) == current + Flatten([]);
    } else {
      var x, tail := rest[0], rest[1..];
      assert rest == [x] + tail;
      if size(current + [x]) > limit && current != [] {
        GreedyIsASplit(size, limit, [x], tail);
        var later := Greedy(size, limit, [x], tail);
        assert ([current] + later)[1..] == later;
      } else {
        GreedyIsASplit(size, limit, current + [x], tail);
        Associative(current, [x], tail);
      }
    }
  }

  /** The limit itself is allowed: events whose joint size is exactly the limit travel together. */
  lemma ExactFitIsOneRequest<T(!new)>(size: Size<T>, limit: int, a: T, b: T)
    requires size([a, b]) == limit
    ensures Greedy(size, limit, [], [a, b]) == [[a, b]]
  {
    assert [] + [a] == [a] && [a] + [b] == [a, b] && [a, b][1..] == [b] && [b][1..] == [];
    assert Greedy(size, limit, [a, b], []) == [[a, b]];
    assert Greedy(size, limit, [a], [b]) == [[a, b]];
  }

  // ---------------------------------------------------------------- as few as possible

  /** A longer list is never smaller on the wire. */
  ghost predicate Monotone<T(!new)>(size: Size<T>) {
    forall a: seq<T>, b: seq<T>, c: seq<T> :: size(b) <= size(a + b + c)
  }

  lemma MonotoneAt<T(!new)>(size: Size<T>, a: seq<T>, b: seq<T>, c: seq<T>, whole: seq<T>)
    requires Monotone(size) && whole == a + b + c
    ensures size(b) <= size(whole)
  {
  }

  /** A chunk that begins before `current` and may be sent cannot reach past the point where the open
      chunk had to be closed. */
  lemma ChunkEndsBefore<T(!new)>(size: Size<T>, limit: int, extra: seq<T>, current: seq<T>, x: T, tail: seq<T>,
                                 chunk: seq<T>, others: seq<T>)
    requires Monotone(size) && Sendable(size, limit, chunk)
    requires current != [] && size(current + [x]) > limit
    requires chunk + others == extra + (current + ([x] + tail))
    ensures |chunk| <= |extra| + |current|
  {
    var m, n := |extra|, |extra| + |current| + 1;
    if |chunk| >= n {
      var all := chunk + others;
      assert all[..n] == extra + (current + [x]);
      assert chunk[..n] == all[..n];
      assert chunk == extra + (current + [x]) + chunk[n..];
      MonotoneAt(size, extra, current + [x], chunk[n..], chunk);
    }
  }

  /** Greedy stays ahead: with a chunk opened no earlier than the other split's, it needs no more chunks. */
  lemma {:induction false} GreedyStaysAhead<T(!new)>(size: Size<T>, limit: int, extra: seq<T>, current: seq<T>,
                                                     rest: seq<T>, other: seq<seq<T>>)
    requires Monotone(size) && AllSendable(size, limit, other)
    requires current != [] && Flatten(other) == extra + (current + rest)
    ensures |Greedy(size, limit, current, rest)| <= |other|
    decreases |rest|
  {
    if rest != [] {
      var x, tail := rest[0], rest[1..];
      assert rest == [x] + tail;
      if size(current + [x]) > limit {
        ChunkEndsBefore(size, limit, extra, current, x, tail, other[0], Flatten(other[1..]));
        var late := (extra + current)[|other[0]|..];
        Leftover(other[0], Flatten(other[1..]), extra, current, rest);
        GreedyStaysAhead(size, limit, late, [x], tail, other[1..]);
      } else {
        Associative(current, [x], tail);
        GreedyStaysAhead(size, limit, extra, current + [x], tail, other);
      }
    }
  }

  lemma Leftover<T>(chunk: seq<T>, others: seq<T>, extra: seq<T>, current: seq<T>, rest: seq<T>)
    requires chunk + others == extra + (current + rest) && |chunk| <= |extra| + |current|
    ensures others == (extra + current)[|chunk|..] + rest
  {
    Associative(extra, current, rest);
    assert others == (chunk + others)[|chunk|..];
  }

  /** No split of the same events into sendable chunks uses fewer requests. */
  lemma FewestRequests<T(!new)>(size: Size<T>, limit: int, specs: seq<T>, other: seq<seq<T>>)
    requires Monotone(size) && AllSendable(size, limit, other) && Flatten(other) == specs
    ensures |Greedy(size, limit, [], specs)| <= |other|
  {
    if specs != [] {
      assert [] + [specs[0]] == [specs[0]];
      assert specs == [] + ([specs[0]] + specs[1..]);
      GreedyStaysAhead(size, limit, [], [specs[0]], specs[1..], other);
    }
  }

  // ---------------------------------------------------------------- the packing is determined

  /** Every prefix of two or more events was within the limit. */
  ghost predicate Grown<T(!new)>(size: Size<T>, limit: int, chunk: seq<T>) {
    chunk != [] && forall k :: 2 <= k <= |chunk| ==> size(chunk[..k]) <= limit
  }

  /** A chunk is closed only where its successor's first event would not have fitted. */
  ghost predicate Forced<T(!new)>(size: Size<T>, limit: int, chunks: seq<seq<T>>) {
    && (forall i :: 0 <= i < |chunks| ==> Grown(size, limit, chunks[i]))
    && forall i :: 0 < i < |chunks| ==> size(chunks[i - 1] + [chunks[i][0]]) > limit
  }

  lemma {:induction false} GreedyFollows<T(!new)>(size: Size<T>, limit: int, chunks: seq<seq<T>>, k: nat)
    requires chunks != [] && Forced(size, limit, chunks) && 0 < k <= |chunks[0]|
    ensures Greedy(size, limit, chunks[0][..k], chunks[0][k..] + Flatten(chunks[1..])) == chunks
    decreases |chunks|, |chunks[0]| - k
  {
    var chunk, later := chunks[0], chunks[1..];
    var current, rest := chunk[..k], chunk[k..] + Flatten(later);
    if k < |chunk| {
      assert rest[0] == chunk[k] && rest[1..] == chunk[k + 1..] + Flatten(later);
      assert current + [rest[0]] == chunk[..k + 1];
      GreedyFollows(size, limit, chunks, k + 1);
    } else {
      assert current == chunk && rest == Flatten(later);
      if later != [] {
        assert forall i :: 0 <= i < |later| ==> later[i] == chunks[i + 1];
        NextChunk(size, limit, chunk, later);
        GreedyFollows(size, limit, later, 1);
      }
      assert chunks == [chunk] + later;
    }
  }

  lemma NextChunk<T(!new)>(size: Size<T>, limit: int, chunk: seq<T>, later: seq<seq<T>>)
    requires later != [] && later[0] != [] && chunk != [] && size(chunk + [later[0][0]]) > limit
    ensures Greedy(size, limit, chunk, Flatten(later)) ==
            [chunk] + Greedy(size, limit, later[0][..1], later[0][1..] + Flatten(later[1..]))
  {
    var rest := Flatten(later);
    assert rest[0] == later[0][0] && rest[1..] == later[0][1..] + Flatten(later[1..]);
    assert later[0][..1] == [later[0][0]];
  }

  lemma {:induction false} GreedyIsForced<T(!new)>(size: Size<T>, limit: int, current: seq<T>, rest: seq<T>)
    requires current == [] || Grown(size, limit, current)
    ensures var chunks := Greedy(size, limit, current, rest);
            && Forced(size, limit, chunks)
            && (current != [] ==> chunks != [] && current <= chunks[0])
    decreases |rest|
  {
    if rest != [] {
      var x, tail := rest[0], rest[1..];
      if size(current + [x]) > limit && current != [] {
        GreedyIsForced(size, limit, [x], tail);
      } else {
        GrownByOne(size, limit, current, x);
        GreedyIsForced(size, limit, current + [x], tail);
      }
    }
  }

  lemma GrownByOne<T(!new)>(size: Size<T>, limit: int, current: seq<T>, x: T)
    requires current == [] || (Grown(size, limit, current) && size(current + [x]) <= limit)
    ensures Grown(size, limit, current + [x])
  {
    var next := current + [x];
    forall k | 2 <= k <= |next| ensures size(next[..k]) <= limit {
      if k == |next| {
        assert next[..k] == next;
      } else {
        assert next[..k] == current[..k];
      }
    }
  }

  /** Whatever the size function, the packing is the only one that cuts exactly where it must. */
  lemma TheOnlyPacking<T(!new)>(size: Size<T>, limit: int, specs: seq<T>, chunks: seq<seq<T>>)
    ensures chunks == Greedy(size, limit, [], specs) <==> Flatten(chunks) == specs && Forced(size, limit, chunks)
  {
    GreedyIsASplit(size, limit, [], specs);
    GreedyIsForced(size, limit, [], specs);
    if Flatten(chunks) == specs && Forced(size, limit, chunks) && chunks != [] {
      GreedyFollows(size, limit, chunks, 1);
      assert specs[0] == chunks[0][0] && specs[1..] == chunks[0][1..] + Flatten(chunks[1..]);
      assert [] + [specs[0]] == chunks[0][..1];
    }
  }

  // ---------------------------------------------------------------- accounting

  /** The events of the requests that were answered 200. */
  function Delivered<T>(chunks: seq<seq<T>>, statuses: seq<int>): seq<T>
    requires |chunks| == |statuses|
  {
    if chunks == [] then []
    else
      var n := |chunks| - 1;
      Delivered(chunks[..n], statuses[..n]) + (if statuses[n] == 200 then chunks[n] else [])
  }

  /** The results of sending chunks, one by one. */
  function Answers(chunks: seq<seq<EventSpec>>, statuses: seq<int>): seq<RequestResult>
    requires |chunks| == |statuses|
  {
    seq(|chunks|, i requires 0 <= i < |chunks| => RequestResult(LOGS_PATH, statuses[i], [200], chunks[i]))
  }

  lemma {:induction false} PlanAt(codec: Codec, encoding: string, chunks: seq<seq<EventSpec>>, i: nat)
    requires Known(encoding) && i < |chunks|
    ensures Plans(codec, encoding, chunks)[i] == Plan(codec, encoding, i, chunks[i])
    decreases |chunks|
  {
    if i < |chunks| - 1 {
      PlanAt(codec, encoding, chunks[..|chunks| - 1], i);
    }
  }

  lemma {:induction false} ResultAt(plans: seq<RequestPlan>, statuses: seq<int>, i: nat)
    requires |plans| == |statuses| && i < |plans|
    ensures Send(plans, statuses)[i] == RequestResult(plans[i].path, statuses[i], plans[i].expected, plans[i].specs)
    decreases |plans|
  {
    var n := |plans| - 1;
    if i < n {
      ResultAt(plans[..n], statuses[..n], i);
    }
  }

  /** Every request carries its own events, encoded as asked for and said so, is numbered in order, goes to the
      log endpoint, and keeps the limit if it carries more than one event. */
  lemma RequestsSayWhatTheyCarry(codec: Codec, encoding: string, specs: seq<EventSpec>, limit: int, i: nat)
    requires Known(encoding) && i < |Greedy(BodySize(codec, encoding), limit, [], specs)|
    ensures var chunks := Greedy(BodySize(codec, encoding), limit, [], specs);
            var p := Plans(codec, encoding, chunks)[i];
            && p.batch == i && p.specs == chunks[i] && p.path == "/v1/logs" && p.expected == [200]
            && (encoding == "protobuf" ==>
                p.body == codec.protobuf(p.specs) && p.contentType == "application/x-protobuf")
            && (encoding == "json" ==> p.body == codec.json(p.specs) && p.contentType == "application/json")
            && (|p.specs| > 1 ==> |p.body| <= limit)
  {
    var size := BodySize(codec, encoding);
    var chunks := Greedy(size, limit, [], specs);
    PlanAt(codec, encoding, chunks, i);
    GreedyIsASplit(size, limit, [], specs);
    assert Sendable(size, limit, chunks[i]);
  }

  lemma SendingAnswers(codec: Codec, encoding: string, chunks: seq<seq<EventSpec>>, statuses: seq<int>)
    requires Known(encoding) && |chunks| == |statuses|
    ensures Send(Plans(codec, encoding, chunks), statuses) == Answers(chunks, statuses)
  {
    var plans := Plans(codec, encoding, chunks);
    forall i | 0 <= i < |chunks| ensures Send(plans, statuses)[i] == Answers(chunks, statuses)[i] {
      PlanAt(codec, encoding, chunks, i);
      ResultAt(plans, statuses, i);
    }
  }

  lemma {:induction false} AcceptedIsDelivered(chunks: seq<seq<EventSpec>>, statuses: seq<int>)
    requires |chunks| == |statuses|
    ensures Accepted(Answers(chunks, statuses)) == Delivered(chunks, statuses)
    ensures Statuses(Answers(chunks, statuses)) == statuses
  {
    if chunks != [] {
      var n := |chunks| - 1;
      AcceptedIsDelivered(chunks[..n], statuses[..n]);
      assert Answers(chunks, statuses)[..n] == Answers(chunks[..n], statuses[..n]);
      assert statuses == statuses[..n] + [statuses[n]];
    }
  }

  predicate AllAccepted(statuses: seq<int>) {
    forall i :: 0 <= i < |statuses| ==> statuses[i] == 200
  }

  /** Fewer events are delivered than sent exactly when some request was refused: no chunk is empty. */
  lemma {:induction false} DeliveredAll<T(!new)>(chunks: seq<seq<T>>, statuses: seq<int>)
    requires |chunks| == |statuses| && forall i :: 0 <= i < |chunks| ==> chunks[i] != []
    ensures AllAccepted(statuses) ==> Delivered(chunks, statuses) == Flatten(chunks)
    ensures |Delivered(chunks, statuses)| <= |Flatten(chunks)|
    ensures !AllAccepted(statuses) ==> |Delivered(chunks, statuses)| < |Flatten(chunks)|
  {
    if chunks != [] {
      var n := |chunks| - 1;
      var front := chunks[..n];
      DeliveredAll(front, statuses[..n]);
      assert chunks == front + [chunks[n]];
      FlattenSnoc(front, chunks[n]);
    }
  }

  /** Whatever the receiver answers, the manifest counts exactly the delivered events, by type and in all;
      and it accounts for every planned event if and only if the run reports success. */
  lemma ManifestAccounts(codec: Codec, stamp: Stamp, encoding: string, specs: seq<EventSpec>, limit: int,
                         statuses: seq<int>)
    requires Known(encoding)
    requires |statuses| == |Greedy(BodySize(codec, encoding), limit, [], specs)|
    ensures var chunks := Greedy(BodySize(codec, encoding), limit, [], specs);
            var results := Send(Plans(codec, encoding, chunks), statuses);
            var m := ManifestOf(stamp, results);
            && m.countsByEvent == Tally(Types(Delivered(chunks, statuses)))
            && m.statuses == Tally(statuses)
            && SumOver(m.countsByEvent.Keys, k => Count(m.countsByEvent, k)) == m.totalRecords <= |specs|
            && (ExitCode(results) == 0 <==> m.totalRecords == |specs|)
            && (ExitCode(results) == 0 ==> m.countsByEvent == Tally(Types(specs)) && m.samples == Samples(stamp, specs))
  {
    var size := BodySize(codec, encoding);
    var chunks := Greedy(size, limit, [], specs);
    GreedyIsASplit(size, limit, [], specs);
    assert [] + specs == specs;
    SendingAnswers(codec, encoding, chunks, statuses);
    AcceptedIsDelivered(chunks, statuses);
    DeliveredAll(chunks, statuses);
    ExitMeansAccepted(chunks, statuses);
    TallyTotal(Types(Delivered(chunks, statuses)));
  }

  /** The manifest's samples are the first five delivered events, each with the run's id and the hashes of its
      own rendering and payload. */
  lemma SamplesAreDelivered(codec: Codec, stamp: Stamp, encoding: string, chunks: seq<seq<EventSpec>>,
                            statuses: seq<int>, k: nat)
    requires Known(encoding) && |chunks| == |statuses|
    ensures var m, landed := ManifestOf(stamp, Send(Plans(codec, encoding, chunks), statuses)),
                             Delivered(chunks, statuses);
            && |m.samples| == (if |landed| < 5 then |landed| else 5)
            && (k < |m.samples| ==>
                var sample, e := m.samples[k], landed[k];
                && sample.tool == e.tool && sample.eventType == e.eventType && sample.timestamp == e.timestamp
                && sample.runId == stamp.runId && sample.bodyHash == stamp.sha256(stamp.body(e))
                && sample.payloadHash == stamp.sha256(e.payload))
  {
    SendingAnswers(codec, encoding, chunks, statuses);
    AcceptedIsDelivered(chunks, statuses);
  }

  lemma ExitMeansAccepted(chunks: seq<seq<EventSpec>>, statuses: seq<int>)
    requires |chunks| == |statuses|
    ensures ExitCode(Answers(chunks, statuses)) == 0 <==> AllAccepted(statuses)
  {
    assert forall i :: 0 <= i < |statuses| ==> (AsExpected(Answers(chunks, statuses)[i]) <==> statuses[i] == 200);
  }
}
