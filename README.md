# gomapreduce core: a Dafny model

This project models the sequential core of gomapreduce, an in-process map-reduce driver
written in Go (`mapreduce/mapreduce.go`). `master` runs a map phase with one goroutine
per input. A collector gathers their result messages until every map task has sent its
completion signal. `master` then converts the intermediate mapping into one entry per
key and runs a reduce phase the same way.

The goroutines and channels are replaced by explicit traces.

- **Collector** (`collectResults`). The collector receives one event at a time: a
  result message `MRInput{Key, Values}` or a payload-less completion signal. Which
  channel the `select` reads first is left to the scheduler. The model replaces that
  choice with a `seq<Event>` trace parameter. `Collect` is the loop: it folds results
  into a `map<string, seq<string>>` and counts down a counter on each completion
  signal. It is proved equal to `Collected`, a specification built from
  `EventsConsumed` (the index just after the numProcs-th completion signal) and
  `Aggregate` (the fold of all events received). If the trace runs out before enough
  completion signals arrive, the outcome is `Blocked`. That is where the Go loop would
  wait forever.
- **Conversion** (`mapToKVSlice`). `MapToKVSlice` visits the keys in an arbitrary
  order, chosen by `:|`, because Go map iteration order is unspecified. It is
  specified only up to order by `Enumerates`: one entry per key, keys distinct, values
  verbatim.
- **Coordinator** (`master`). `Master` composes two collections and the conversion.
  The expected counts are `len(inputs)` and then the number of converted entries. The
  caller-supplied map and reduce functions are uninterpreted `MRInput -> seq<MRInput>`
  functions. `Conforms` describes the traces that tasks keeping the completion
  contract can produce.

Go `int` counters are modelled as `int`. The only arithmetic on them is a decrement of a
positive counter, so no wrap-around can occur. A non-positive `numProcs` skips the loop,
exactly like the Go `for numProcs > 0` guard.

The two phases share one pair of channels (lines 46-48, reused at lines 64 and 68); they
do not get a fresh pair each. The model gives each phase its own trace. This matches the
code whenever no map task sends anything after its completion signal.

## Model

| member | source | states |
|---|---|---|
| `Collector.Receive` | mapreduce/mapreduce.go:82-84 | A result message for a new key inserts the key with exactly its values, even when they are empty. For a present key, its values are appended after the existing ones. Every other key is unchanged. |
| `Collector.AppendEvent` | mapreduce/mapreduce.go:80-88 | A completion signal raises the count of received signals by exactly one and leaves the mapping unchanged. A result message leaves the count unchanged and is folded into the mapping. |
| `Collector.NthDoneExists` | mapreduce/mapreduce.go:79-89 | When the trace holds at least n completion signals, some prefix ends with exactly its n-th one. So the loop can stop. |
| `Collector.EventsConsumedUnique` | mapreduce/mapreduce.go:79-89 | The number of events consumed is the unique index just after the numProcs-th completion signal. |
| `Collector.EventsConsumed` | mapreduce/mapreduce.go:79-89 | It consumes nothing when numProcs <= 0. It has no value exactly when the trace holds fewer than numProcs completion signals. Otherwise it is a prefix ending in the numProcs-th completion signal. |
| `Collector.AggregateIsPerKeyConcatenation` | mapreduce/mapreduce.go:79-90 | The mapping's keys are exactly the keys of the received result messages. Each key's values are the in-order concatenation of those messages' values, so nothing is lost, overwritten or duplicated. |
| `Collector.Collected` | mapreduce/mapreduce.go:73-91 | numProcs <= 0 returns an empty map after consuming nothing. The collector returns exactly when the trace holds numProcs completion signals, after consuming up to and including the numProcs-th. Its map is the per-key concatenation of the consumed result messages. Otherwise it stays blocked, still awaiting numProcs minus the received count. |
| `Collector.ResultsDoNotAffectTermination` | mapreduce/mapreduce.go:79-89 | Inserting a result message anywhere in a trace does not change whether the collector returns. The consumed count grows by one only when the message lands before the last awaited completion signal. |
| `Collector.Collect` | mapreduce/mapreduce.go:73-91 | The loop's outcome (returned map and events consumed, or blocked) equals `Collected` for every trace and count. |
| `KVSlice.MapToKVSlice` | mapreduce/mapreduce.go:94-101 | One entry per key of the map, with pairwise distinct keys and values copied verbatim. The length equals the map's size. |
| `KVSlice.EnumerationRoundTrip` | mapreduce/mapreduce.go:94-101 | Rebuilding a map from a conversion of it gives the original map, and the conversion's length is the map's size. |
| `KVSlice.EnumerationsArePermutations` | mapreduce/mapreduce.go:94-101 | Any two conversions of the same map contain the same entries as a multiset. Only their order is unspecified. |
| `Master.TaskEventsKeepContract` | mapreduce/mapreduce.go:19-21 | A task run alone sends its results and then exactly one completion signal, last. |
| `Master.SerialTraceConforms` | mapreduce/mapreduce.go:50-57 | Running the tasks one after another produces a trace that keeps the completion contract. Its collector receives exactly the messages the tasks emit, in task order. |
| `Master.PhaseCollectsEverything` | mapreduce/mapreduce.go:56-57 | For a phase whose tasks keep the contract, the collector returns after the whole trace. The mapping has exactly the emitted keys, and each key holds exactly the emitted values for it, as a multiset. |
| `Master.ReduceOrderIrrelevant` | mapreduce/mapreduce.go:62-65 | Whatever order the conversion picks, the reduce tasks emit the same key set and the same values per key, up to order. |
| `Master.MapReduceUnderConformingSchedules` | mapreduce/mapreduce.go:52-68 | Under schedules that keep the contract, the map phase waits for len(inputs) signals. The reduce phase waits for exactly as many signals as there are distinct intermediate keys. The final keys are exactly those the reduce tasks emit. |
| `Master.WordCountIntermediate` | mapreduce/mapreduce.go:52-57 | Word count over two documents: under any conforming schedule the intermediate keys are {the, cat, dog}. "the" collects two "1"s, one from each document. |
| `Master.Master` | mapreduce/mapreduce.go:42-71 | The map phase hangs exactly when its trace has fewer than len(inputs) completion signals. Otherwise the reduce tasks are an enumeration of the collected intermediate map, one per distinct key. The reduce phase hangs exactly when its trace has fewer signals than that. The final mapping is what that collection returns. Empty input yields an empty result and no reduce tasks, whatever the traces. |

## Left out

- Goroutines, channel creation, sends and receives (lines 28-35, 46-48, 53, 64, 70) are left out. They are concurrency plumbing; each phase's receive order is the trace parameter.
- The `select` choice at line 80 is left out. It becomes the order of the trace; fairness and channel semantics are not modelled.
- The `MapReduce` entry point (lines 26-36) is not modelled on its own. It only starts `master` and waits on a one-shot channel; `Master`'s `Run` result stands for what it would receive.
- Hanging is represented only by the `Blocked`, `HungInMap` and `HungInReduce` outcomes, which mark a trace that runs out before enough completion signals. Liveness, and senders blocked after a collector has exited, are not modelled.
- Reusing the same channels across the two phases (lines 46-48, 64, 68) is not modelled. Each phase gets its own trace, so a map task that sends after its completion signal, and leaks into the reduce phase, is outside the model.
- The internals of `mapFunc` and `reduceFunc` are left out. They are caller-supplied; the model treats them as uninterpreted functions from one entry to the entries it emits.
- `Conforms` admits every trace a real interleaving of contract-keeping tasks can produce, and also some that no interleaving produces. It only requires that the last event is a completion signal, not that each task's own signal follows its own results. Properties proved under it therefore hold for every real schedule.
- Go map iteration order is left out. `MapToKVSlice` picks keys by an arbitrary choice and is specified up to order.
