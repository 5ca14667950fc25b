/** The coordinator: a map phase with one task per input, conversion of the
    intermediate mapping into one entry per key, and a reduce phase with one task
    per such entry. The tasks themselves run elsewhere; each phase is represented by
    the trace of events its collector receives. */
module Master {
  import opened Entries
  import opened Collector
  import opened KVSlice

  /** How the coordinator ends: with the final mapping, or stuck in one phase's
      collector still awaiting `outstanding` completion signals. */
  datatype Run =
    | Finished(final: Results)
    | HungInMap(outstanding: nat)
    | HungInReduce(outstanding: nat)

  /** A trace that tasks keeping the completion contract can produce when task i runs
      fn on tasks[i]: one completion signal per task, every result message received
      before the last completion signal, and exactly the messages fn emits, in some
      interleaving. */
  ghost predicate Conforms(trace: seq<Event>, tasks: seq<MRInput>, fn: MRInput -> seq<MRInput>)
  {
    && DoneCount(trace) == |tasks|
    && (trace != [] ==> trace[|trace| - 1] == Done)
    && multiset(Messages(trace)) == multiset(FlatMap(tasks, fn))
  }

  function AsEvent(msg: MRInput): seq<Event>
  {
    [Result(msg)]
  }

  /** The events of one task run alone: its result messages, then its completion signal. */
  function TaskEvents(fn: MRInput -> seq<MRInput>): MRInput -> seq<Event>
  {
    (task: MRInput) => FlatMap(fn(task), AsEvent) + [Done]
  }

  /** The trace of a schedule that runs the tasks one after another. */
  function SerialTrace(tasks: seq<MRInput>, fn: MRInput -> seq<MRInput>): seq<Event>
  {
    FlatMap(tasks, TaskEvents(fn))
  }

  lemma {:induction false} ResultsOnly(ms: seq<MRInput>)
    ensures DoneCount(FlatMap(ms, AsEvent)) == 0
    ensures Messages(FlatMap(ms, AsEvent)) == ms
  {
    if ms != [] {
      ResultsOnly(ms[1..]);
      var rest := FlatMap(ms[1..], AsEvent);
      assert FlatMap(ms, AsEvent) == [Result(ms[0])] + rest;
      DoneCountAppend([Result(ms[0])], rest);
      AppendEvent([], Result(ms[0]));
      assert [] + [Result(ms[0])] == [Result(ms[0])];
      FlatMapAppend([Result(ms[0])], rest, MessageOf);
      assert ms == [ms[0]] + ms[1..];
    }
  }

  /** A task run alone sends one completion signal, last, after exactly the
      messages fn emits. */
  lemma TaskEventsKeepContract(fn: MRInput -> seq<MRInput>, task: MRInput)
    ensures var events := TaskEvents(fn)(task);
      && DoneCount(events) == 1
      && events[|events| - 1] == Done
      && Messages(events) == fn(task)
  {
    var results := FlatMap(fn(task), AsEvent);
    ResultsOnly(fn(task));
    AppendEvent(results, Done);
    assert TaskEvents(fn)(task) == results + [Done];
  }

  /** Running the tasks one after another is a schedule the model admits, and its
      collector receives exactly the messages the tasks emit, in task order. */
  lemma SerialTraceConforms(tasks: seq<MRInput>, fn: MRInput -> seq<MRInput>)
    ensures Conforms(SerialTrace(tasks, fn), tasks, fn)
    ensures Messages(SerialTrace(tasks, fn)) == FlatMap(tasks, fn)
  {
    SerialDoneCount(tasks, fn);
    SerialMessages(tasks, fn);
    SerialEndsWithDone(tasks, fn);
  }

  lemma {:induction false} SerialDoneCount(tasks: seq<MRInput>, fn: MRInput -> seq<MRInput>)
    ensures DoneCount(SerialTrace(tasks, fn)) == |tasks|
  {
    if tasks != [] {
      SerialDoneCount(tasks[1..], fn);
      TaskEventsKeepContract(fn, tasks[0]);
      DoneCountAppend(TaskEvents(fn)(tasks[0]), SerialTrace(tasks[1..], fn));
    }
  }

  lemma {:induction false} SerialMessages(tasks: seq<MRInput>, fn: MRInput -> seq<MRInput>)
    ensures Messages(SerialTrace(tasks, fn)) == FlatMap(tasks, fn)
  {
    if tasks != [] {
      SerialMessages(tasks[1..], fn);
      TaskEventsKeepContract(fn, tasks[0]);
      FlatMapAppend(TaskEvents(fn)(tasks[0]), SerialTrace(tasks[1..], fn), MessageOf);
    }
  }

  lemma {:induction false} SerialEndsWithDone(tasks: seq<MRInput>, fn: MRInput -> seq<MRInput>)
    ensures var trace := SerialTrace(tasks, fn); trace != [] ==> trace[|trace| - 1] == Done
  {
    if tasks != [] {
      SerialEndsWithDone(tasks[1..], fn);
      TaskEventsKeepContract(fn, tasks[0]);
      var first, rest := TaskEvents(fn)(tasks[0]), SerialTrace(tasks[1..], fn);
      var whole := SerialTrace(tasks, fn);
      assert whole == first + rest;
      if rest == [] {
        assert whole == first;
      } else {
        assert whole[|whole| - 1] == rest[|rest| - 1];
      }
    }
  }

  /** A phase whose tasks all keep the completion contract: the collector returns
      after the whole trace, with exactly the keys the tasks emitted, and for each key
      exactly the values emitted for it, in some arrival order. */
  lemma PhaseCollectsEverything(trace: seq<Event>, tasks: seq<MRInput>, fn: MRInput -> seq<MRInput>)
    requires Conforms(trace, tasks, fn)
    ensures Collected(trace, |tasks|) == Returned(Aggregate(trace), |trace|)
    ensures Aggregate(trace).Keys == KeysOf(FlatMap(tasks, fn))
    ensures forall k :: k in Aggregate(trace) ==>
      multiset(Aggregate(trace)[k]) == multiset(ValuesOf(FlatMap(tasks, fn), k))
  {
    assert trace[..|trace|] == trace;
    if trace != [] {
      var init := trace[..|trace| - 1];
      assert trace == init + [Done];
      AppendEvent(init, Done);
      EventsConsumedUnique(trace, |tasks|, |trace|);
    }
    AggregateIsPerKeyConcatenation(trace);
    KeysOfPermutation(Messages(trace), FlatMap(tasks, fn));
    forall k | k in Aggregate(trace)
      ensures multiset(Aggregate(trace)[k]) == multiset(ValuesOf(FlatMap(tasks, fn), k))
    {
      FlatMapPermutation(Messages(trace), FlatMap(tasks, fn), ValuesIfKey(k));
    }
  }

  /** The reduce phase's result does not depend on the order in which the
      intermediate keys were enumerated: any two enumerations lead the reduce tasks
      to emit the same keys, each with the same values up to order. */
  lemma ReduceOrderIrrelevant(a: seq<MRInput>, b: seq<MRInput>, intermediate: Results,
                              reduceFn: MRInput -> seq<MRInput>, k: string)
    requires Enumerates(a, intermediate) && Enumerates(b, intermediate)
    ensures KeysOf(FlatMap(a, reduceFn)) == KeysOf(FlatMap(b, reduceFn))
    ensures multiset(ValuesOf(FlatMap(a, reduceFn), k)) == multiset(ValuesOf(FlatMap(b, reduceFn), k))
  {
    EnumerationsArePermutations(a, b, intermediate);
    FlatMapPermutation(a, b, reduceFn);
    KeysOfPermutation(FlatMap(a, reduceFn), FlatMap(b, reduceFn));
    FlatMapPermutation(FlatMap(a, reduceFn), FlatMap(b, reduceFn), ValuesIfKey(k));
  }

  /** Both phases under schedules whose tasks keep the completion contract: the map
      phase returns after its whole trace, the reduce phase runs one task per distinct
      intermediate key, and the final mapping holds exactly the keys the reduce tasks
      emit. */
  lemma MapReduceUnderConformingSchedules(inputs: seq<MRInput>, mapFn: MRInput -> seq<MRInput>,
                                          mapTrace: seq<Event>, reduceTasks: seq<MRInput>,
                                          reduceFn: MRInput -> seq<MRInput>, reduceTrace: seq<Event>)
    requires Conforms(mapTrace, inputs, mapFn)
    requires Enumerates(reduceTasks, Collected(mapTrace, |inputs|).results)
    requires Conforms(reduceTrace, reduceTasks, reduceFn)
    ensures Collected(mapTrace, |inputs|) == Returned(Aggregate(mapTrace), |mapTrace|)
    ensures KeysOf(reduceTasks) == KeysOf(FlatMap(inputs, mapFn))
    ensures |reduceTasks| == |KeysOf(FlatMap(inputs, mapFn))|
    ensures Collected(reduceTrace, |reduceTasks|) == Returned(Aggregate(reduceTrace), |reduceTrace|)
    ensures Aggregate(reduceTrace).Keys == KeysOf(FlatMap(reduceTasks, reduceFn))
  {
    PhaseCollectsEverything(mapTrace, inputs, mapFn);
    EnumerationRoundTrip(reduceTasks, Aggregate(mapTrace));
    PhaseCollectsEverything(reduceTrace, reduceTasks, reduceFn);
  }

  /** A map function that emits one entry per word with the single value "1". */
  function CountWords(doc: MRInput): seq<MRInput>
  {
    FlatMap(doc.values, CountOne)
  }

  function CountOne(word: string): seq<MRInput>
  {
    [MRInput(word, ["1"])]
  }

  const Documents: seq<MRInput> := [MRInput("doc1", ["the", "cat"]), MRInput("doc2", ["the", "dog"])]
  const WordOnes: seq<MRInput> :=
    [MRInput("the", ["1"]), MRInput("cat", ["1"]), MRInput("the", ["1"]), MRInput("dog", ["1"])]

  lemma CountWordsEmits()
    ensures FlatMap(Documents, CountWords) == WordOnes
  {
    assert CountWords(Documents[0]) == WordOnes[..2] by {
      assert Documents[0].values[1..][1..] == [];
    }
    assert CountWords(Documents[1]) == WordOnes[2..] by {
      assert Documents[1].values[1..][1..] == [];
    }
    assert Documents[1..][1..] == [];
  }

  lemma WordOnesPerKey()
    ensures KeysOf(WordOnes) == {"the", "cat", "dog"}
    ensures ValuesOf(WordOnes, "the") == ["1", "1"]
    ensures ValuesOf(WordOnes, "cat") == ["1"]
  {
    assert WordOnes[0] in WordOnes && WordOnes[1] in WordOnes && WordOnes[3] in WordOnes;
    assert WordOnes[1..][1..][1..][1..] == [];
  }

  /** Word count over two documents: however the map tasks interleave, the
      intermediate mapping holds exactly the three words, and "the" received one
      "1" from each document. */
  lemma WordCountIntermediate(mapTrace: seq<Event>)
    requires Conforms(mapTrace, Documents, CountWords)
    ensures Collected(mapTrace, 2).Returned?
    ensures Collected(mapTrace, 2).results.Keys == {"the", "cat", "dog"}
    ensures multiset(Collected(mapTrace, 2).results["the"]) == multiset{"1", "1"}
    ensures multiset(Collected(mapTrace, 2).results["cat"]) == multiset{"1"}
  {
    PhaseCollectsEverything(mapTrace, Documents, CountWords);
    CountWordsEmits();
    WordOnesPerKey();
  }

  /** The coordinator: collect the map phase, convert the intermediate mapping, collect
      the reduce phase with one task per intermediate entry. */
  method Master(inputs: seq<MRInput>, mapTrace: seq<Event>, reduceTrace: seq<Event>)
    returns (run: Run, reduceTasks: seq<MRInput>)
    ensures run.HungInMap? <==> DoneCount(mapTrace) < |inputs|
    ensures run.HungInMap? ==> run.outstanding == |inputs| - DoneCount(mapTrace) && reduceTasks == []
    ensures !run.HungInMap? ==>
      var intermediate := Collected(mapTrace, |inputs|).results;
      Enumerates(reduceTasks, intermediate) && |reduceTasks| == |intermediate|
    ensures !run.HungInMap? ==> (run.HungInReduce? <==> DoneCount(reduceTrace) < |reduceTasks|)
    ensures run.HungInReduce? ==> run.outstanding == |reduceTasks| - DoneCount(reduceTrace)
    ensures run.Finished? ==> run.final == Collected(reduceTrace, |reduceTasks|).results
    ensures inputs == [] ==> run == Finished(map[]) && reduceTasks == []
  {
    var numResults := |inputs|;
    var intermediateResults := Collect(mapTrace, numResults);
    if intermediateResults.Blocked? {
      return HungInMap(intermediateResults.outstanding), [];
    }
    reduceTasks := MapToKVSlice(intermediateResults.results);
    numResults := |reduceTasks|;
    var finalResults := Collect(reduceTrace, numResults);
    if finalResults.Blocked? {
      run := HungInReduce(finalResults.outstanding);
    } else {
      run := Finished(finalResults.results);
    }
  }
}
