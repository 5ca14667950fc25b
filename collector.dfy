/** The collector (barrier) of one phase. The choice between the result channel and
    the completion channel is made by the scheduler; here that choice is an explicit
    trace of events, and the collector is a deterministic loop that consumes a prefix
    of it. */
module Collector {
  import opened Entries

  /** What the collector can receive next: a result message, or a payload-less
      completion signal. */
  datatype Event = Result(msg: MRInput) | Done

  /** How one run of the collector ends. Returned: the counter reached zero after
      `consumed` events. Blocked: the trace ran out while `outstanding` completion
      signals were still awaited, so the collector would keep waiting forever;
      `received` is what it had aggregated by then. */
  datatype Outcome =
    | Returned(results: Results, consumed: nat)
    | Blocked(outstanding: nat, received: Results)

  /** Folding one result message into the aggregated mapping. */
  function Receive(results: Results, msg: MRInput): (r: Results)
    ensures r.Keys == results.Keys + {msg.key}
    ensures msg.key !in results ==> r[msg.key] == msg.values
    ensures msg.key in results ==> r[msg.key] == results[msg.key] + msg.values
    ensures forall k :: k in results && k != msg.key ==> r[k] == results[k]
  {
    var values := Lookup(results, msg.key) + msg.values;
    results[msg.key := values]
  }

  /** The number of completion signals in a trace. */
  function DoneCount(trace: seq<Event>): nat
  {
    if trace == [] then 0
    else DoneCount(trace[..|trace| - 1]) + (if trace[|trace| - 1].Done? then 1 else 0)
  }

  /** The mapping obtained by receiving every event of a trace in order. */
  function Aggregate(trace: seq<Event>): Results
  {
    if trace == [] then map[]
    else
      var before := Aggregate(trace[..|trace| - 1]);
      match trace[|trace| - 1]
      case Result(msg) => Receive(before, msg)
      case Done => before
  }

  function MessageOf(e: Event): seq<MRInput>
  {
    match e
    case Result(msg) => [msg]
    case Done => []
  }

  /** The result messages of a trace, in arrival order. */
  function Messages(trace: seq<Event>): seq<MRInput>
  {
    FlatMap(trace, MessageOf)
  }

  /** Receiving one more event: a completion signal counts once and leaves the
      mapping alone; a result message does not count and is folded into the mapping. */
  lemma AppendEvent(trace: seq<Event>, e: Event)
    ensures DoneCount(trace + [e]) == DoneCount(trace) + (if e.Done? then 1 else 0)
    ensures e.Done? ==> Aggregate(trace + [e]) == Aggregate(trace)
    ensures e.Result? ==> Aggregate(trace + [e]) == Receive(Aggregate(trace), e.msg)
    ensures Messages(trace + [e]) == Messages(trace) + MessageOf(e)
  {
    assert (trace + [e])[..|trace|] == trace;
    FlatMapAppend(trace, [e], MessageOf);
    assert [e][1..] == [];
  }

  lemma {:induction false} DoneCountAppend(a: seq<Event>, b: seq<Event>)
    ensures DoneCount(a + b) == DoneCount(a) + DoneCount(b)
    decreases |b|
  {
    if b != [] {
      var init := b[..|b| - 1];
      assert a + b == (a + init) + [b[|b| - 1]];
      assert b == init + [b[|b| - 1]];
      DoneCountAppend(a, init);
      AppendEvent(a + init, b[|b| - 1]);
      AppendEvent(init, b[|b| - 1]);
    } else {
      assert a + b == a;
    }
  }

  lemma DoneCountMonotone(trace: seq<Event>, i: nat, j: nat)
    requires i <= j <= |trace|
    ensures DoneCount(trace[..i]) <= DoneCount(trace[..j])
  {
    assert trace[..j] == trace[..i] + trace[i..j];
    DoneCountAppend(trace[..i], trace[i..j]);
  }

  /** Some prefix of the trace ends with exactly its n-th completion signal, when the
      trace holds at least n of them. */
  lemma {:induction false} NthDoneExists(trace: seq<Event>, n: int)
    requires 0 < n <= DoneCount(trace)
    ensures exists k :: 0 < k <= |trace| && DoneCount(trace[..k]) == n && trace[k - 1] == Done
  {
    var init := trace[..|trace| - 1];
    if DoneCount(init) >= n {
      NthDoneExists(init, n);
      var k :| 0 < k <= |init| && DoneCount(init[..k]) == n && init[k - 1] == Done;
      assert init[..k] == trace[..k];
    } else {
      assert trace[..|trace|] == trace;
    }
  }

  /** The number of events the collector consumes: none when it expects no completion
      signal, otherwise everything up to and including the numProcs-th completion
      signal; None when the trace holds fewer than numProcs of them. */
  ghost function EventsConsumed(trace: seq<Event>, numProcs: int): (r: Option<nat>)
    ensures numProcs <= 0 ==> r == Some(0)
    ensures r.None? <==> DoneCount(trace) < numProcs
    ensures r.Some? && numProcs > 0 ==>
      0 < r.value <= |trace| && DoneCount(trace[..r.value]) == numProcs && trace[r.value - 1] == Done
  {
    if numProcs <= 0 then Some(0)
    else if DoneCount(trace) < numProcs then None
    else
      NthDoneExists(trace, numProcs);
      var k :| 0 < k <= |trace| && DoneCount(trace[..k]) == numProcs && trace[k - 1] == Done;
      Some(k)
  }

  /** The prefix ending with the n-th completion signal is unique. */
  lemma EventsConsumedUnique(trace: seq<Event>, n: int, k: nat)
    requires 0 < k <= |trace| && 0 < n
    requires DoneCount(trace[..k]) == n && trace[k - 1] == Done
    ensures EventsConsumed(trace, n) == Some(k)
  {
    DoneCountMonotone(trace, k, |trace|);
    assert trace[..|trace|] == trace;
    forall a: nat, b: nat | 0 < b <= |trace| && a < b && trace[b - 1] == Done
      ensures DoneCount(trace[..a]) < DoneCount(trace[..b])
    {
      DoneCountMonotone(trace, a, b - 1);
      assert trace[..b] == trace[..b - 1] + [trace[b - 1]];
      AppendEvent(trace[..b - 1], trace[b - 1]);
    }
  }

  /** What the collector does with a trace, as a function of the trace. */
  ghost function Collected(trace: seq<Event>, numProcs: int): (r: Outcome)
    ensures numProcs <= 0 ==> r == Returned(map[], 0)
    ensures r.Returned? <==> numProcs <= DoneCount(trace)
    ensures r.Returned? && numProcs > 0 ==>
      0 < r.consumed <= |trace| && DoneCount(trace[..r.consumed]) == numProcs && trace[r.consumed - 1] == Done
    ensures r.Returned? ==>
      r.consumed <= |trace| &&
      r.results.Keys == KeysOf(Messages(trace[..r.consumed])) &&
      forall k :: k in r.results ==> r.results[k] == ValuesOf(Messages(trace[..r.consumed]), k)
    ensures r.Blocked? ==>
      r.outstanding == numProcs - DoneCount(trace) &&
      r.received.Keys == KeysOf(Messages(trace)) &&
      forall k :: k in r.received ==> r.received[k] == ValuesOf(Messages(trace), k)
  {
    match EventsConsumed(trace, numProcs)
    case Some(k) =>
      AggregateIsPerKeyConcatenation(trace[..k]);
      Returned(Aggregate(trace[..k]), k)
    case None =>
      AggregateIsPerKeyConcatenation(trace);
      Blocked(numProcs - DoneCount(trace), Aggregate(trace))
  }

  /** The aggregated mapping holds exactly the keys of the result messages received,
      each with the in-order concatenation of those messages' values: nothing lost,
      overwritten or duplicated. */
  lemma {:induction false} AggregateIsPerKeyConcatenation(trace: seq<Event>)
    ensures Aggregate(trace).Keys == KeysOf(Messages(trace))
    ensures forall k :: k in Aggregate(trace) ==> Aggregate(trace)[k] == ValuesOf(Messages(trace), k)
  {
    if trace != [] {
      var init, e := trace[..|trace| - 1], trace[|trace| - 1];
      assert trace == init + [e];
      AggregateIsPerKeyConcatenation(init);
      AppendEvent(init, e);
      var before := Aggregate(init);
      match e
      case Done =>
        assert Messages(trace) == Messages(init);
      case Result(msg) =>
        assert Messages(trace) == Messages(init) + [msg];
        KeysOfSnoc(Messages(init), msg);
        forall k | k in Aggregate(trace)
          ensures Aggregate(trace)[k] == ValuesOf(Messages(trace), k)
        {
          ValuesOfSnoc(Messages(init), msg, k);
          if k == msg.key && k !in before {
            ValuesOfAbsent(Messages(init), k);
          }
        }
    }
  }

  /** Result messages never affect termination: inserting one anywhere in the trace
      neither lets the collector return nor keeps it from returning, and only shifts
      the number of consumed events by one when it lands before the last awaited
      completion signal. */
  lemma ResultsDoNotAffectTermination(trace: seq<Event>, i: nat, msg: MRInput, numProcs: int)
    requires i <= |trace|
    ensures var longer := trace[..i] + [Result(msg)] + trace[i..];
      match EventsConsumed(trace, numProcs)
      case None => EventsConsumed(longer, numProcs).None?
      case Some(k) => EventsConsumed(longer, numProcs) == Some(if i < k then k + 1 else k)
  {
    var longer := trace[..i] + [Result(msg)] + trace[i..];
    InsertedPrefixDoneCount(trace, i, msg, |trace|);
    assert longer[..|trace| + 1] == longer;
    assert trace[..|trace|] == trace;
    match EventsConsumed(trace, numProcs)
    case None =>
    case Some(k) =>
      if numProcs > 0 {
        if i < k {
          InsertedPrefixDoneCount(trace, i, msg, k);
          assert longer[k] == trace[k - 1];
          EventsConsumedUnique(longer, numProcs, k + 1);
        } else {
          assert longer[..k] == trace[..k];
          assert longer[k - 1] == trace[k - 1];
          EventsConsumedUnique(longer, numProcs, k);
        }
      }
  }

  /** Inserting a result message at i does not change the completion count of the
      prefix that extends past i. */
  lemma InsertedPrefixDoneCount(trace: seq<Event>, i: nat, msg: MRInput, k: nat)
    requires i <= k <= |trace|
    ensures var longer := trace[..i] + [Result(msg)] + trace[i..];
      DoneCount(longer[..k + 1]) == DoneCount(trace[..k])
  {
    var longer := trace[..i] + [Result(msg)] + trace[i..];
    assert longer[..k + 1] == (trace[..i] + [Result(msg)]) + trace[i..k];
    assert trace[..k] == trace[..i] + trace[i..k];
    DoneCountAppend(trace[..i], trace[i..k]);
    DoneCountAppend(trace[..i] + [Result(msg)], trace[i..k]);
    AppendEvent(trace[..i], Result(msg));
  }

  /** The collector loop: receive events one at a time, fold each result message into
      the mapping, count down on each completion signal, stop when the count is zero. */
  method Collect(trace: seq<Event>, numProcs: int) returns (outcome: Outcome)
    ensures outcome == Collected(trace, numProcs)
  {
    var results: Results := map[];
    var remaining := numProcs;
    var i := 0;
    while remaining > 0 && i < |trace|
      invariant 0 <= i <= |trace|
      invariant remaining == numProcs - DoneCount(trace[..i])
      invariant results == Aggregate(trace[..i])
      invariant numProcs <= 0 ==> i == 0
      invariant numProcs > 0 ==> 0 <= remaining
      invariant numProcs > 0 && remaining == 0 ==> 0 < i && trace[i - 1] == Done
    {
      assert trace[..i + 1] == trace[..i] + [trace[i]];
      AppendEvent(trace[..i], trace[i]);
      match trace[i] {
        case Result(msg) =>
          results := Receive(results, msg);
        case Done =>
          remaining := remaining - 1;
      }
      i := i + 1;
    }
    if remaining > 0 {
      assert trace[..i] == trace;
      outcome := Blocked(remaining, results);
    } else {
      if numProcs > 0 {
        EventsConsumedUnique(trace, numProcs, i);
      }
      outcome := Returned(results, i);
    }
  }
}
