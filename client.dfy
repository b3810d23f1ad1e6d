/**
 * The client's side of a distributed run: the handshake that obtains a job
 * index, the order of the recorded columns, the conversion of each trial's
 * output dictionary to a row, the collection of rows, and their one-time
 * return to the server in batches of at most 255 rows.
 */
module ClientProgram {
  import opened Wrappers
  import opened Exceptions
  import opened Machine
  import opened Randomness
  import opened ExpressionTrees
  import opened SimulationVariables
  import opened SimulationDefinitions
  import opened Simulating
  import opened ServerProgram

  // ---------------------------------------------------------------- handshake

  /**
   * `GetJobIndexFromServer` as written: a refusal is reported on the console
   * but not acted on, and the four bytes read from the closed connection stay
   * zero, so the client goes on with job 0.
   */
  function JobIndexAsWritten(reply: Reply): (jobIndex: uint32)
  {
    match reply
    case Accepted(i) => i
    case Refused => 0
  }

  /** The handshake as intended: a refusal ends the run, an acceptance yields the job index. */
  function JobIndexFromReply(reply: Reply): (jobIndex: Option<uint32>)
    ensures jobIndex.Some? <==> reply.Accepted?
    ensures jobIndex.Some? ==> jobIndex.value == reply.jobIndex
  {
    match reply
    case Accepted(i) => Some(i)
    case Refused => None
  }

  /** As written, a refused client cannot tell the refusal from being handed job 0. */
  lemma RefusalLooksLikeJobZero()
    ensures JobIndexAsWritten(Refused) == JobIndexAsWritten(Accepted(0))
    ensures JobIndexFromReply(Refused) != JobIndexFromReply(Accepted(0))
  {
  }

  // ---------------------------------------------------------------- recorded order

  /**
   * The recorded-variable order: the `j`-th recorded variable, in declaration
   * order, gets position `j`; `Dictionary.Add` throws on a repeated name.
   */
  function RecordedOrder(vs: seq<SimVar>): Result<map<string, int>, Exception>
  {
    if vs == [] then Ok(map[])
    else
      var v := vs[|vs| - 1];
      var order :- RecordedOrder(vs[..|vs| - 1]);
      if !v.recorded then Ok(order)
      else if v.name in order then Err(DuplicateKey(v.name))
      else Ok(order[v.name := |RecordedNames(vs[..|vs| - 1])|])
  }

  /** The loop of `ClientProgram.Run` that fills `recordedVariableOrders` with the counter `nextOrderIndex`. */
  method BuildRecordedOrder(vs: seq<SimVar>) returns (r: Result<map<string, int>, Exception>)
    ensures r == RecordedOrder(vs)
  {
    var nextOrderIndex := 0;
    var recordedVariableOrders: map<string, int> := map[];
    for k := 0 to |vs|
      invariant nextOrderIndex == |RecordedNames(vs[..k])|
      invariant RecordedOrder(vs[..k]) == Ok(recordedVariableOrders)
    {
      assert vs[..k + 1][..k] == vs[..k];
      var simVar := vs[k];
      if simVar.recorded {
        if simVar.name in recordedVariableOrders {
          RecordedOrderFailurePersists(vs, k + 1);
          return Err(DuplicateKey(simVar.name));
        }
        recordedVariableOrders := recordedVariableOrders[simVar.name := nextOrderIndex];
        nextOrderIndex := nextOrderIndex + 1;
      }
    }
    assert vs[..|vs|] == vs;
    return Ok(recordedVariableOrders);
  }

  lemma {:induction false} RecordedOrderFailurePersists(vs: seq<SimVar>, k: nat)
    requires k <= |vs| && RecordedOrder(vs[..k]).Err?
    ensures RecordedOrder(vs) == RecordedOrder(vs[..k])
    decreases |vs| - k
  {
    if k < |vs| {
      assert vs[..k + 1][..k] == vs[..k];
      RecordedOrderFailurePersists(vs, k + 1);
    } else {
      assert vs[..k] == vs;
    }
  }

  /** The order maps exactly the recorded names, each to its position among them. */
  lemma {:induction false} RecordedOrderMeaning(vs: seq<SimVar>)
    requires RecordedOrder(vs).Ok?
    ensures var order := RecordedOrder(vs).value;
      var names := RecordedNames(vs);
      order.Keys == (set n | n in names) &&
      forall j :: 0 <= j < |names| ==> order[names[j]] == j
  {
    if vs != [] {
      var init := vs[..|vs| - 1];
      var v := vs[|vs| - 1];
      RecordedOrderMeaning(init);
      if v.recorded {
        var ni := RecordedNames(init);
        var names := RecordedNames(vs);
        var oi := RecordedOrder(init).value;
        assert names == ni + [v.name];
        forall j | 0 <= j < |names| ensures RecordedOrder(vs).value[names[j]] == j {
          if j < |ni| {
            assert names[j] == ni[j] && ni[j] in oi;
          }
        }
      }
    }
  }

  /** Building the order fails exactly when a recorded name repeats. */
  lemma {:induction false} RecordedOrderSucceedsIff(vs: seq<SimVar>)
    ensures RecordedOrder(vs).Ok? <==> NoRepeats(RecordedNames(vs))
  {
    if vs != [] {
      var init := vs[..|vs| - 1];
      var v := vs[|vs| - 1];
      RecordedOrderSucceedsIff(init);
      if v.recorded {
        var ni := RecordedNames(init);
        assert RecordedNames(vs) == ni + [v.name];
        NoRepeatsSnoc(ni, v.name);
        if RecordedOrder(init).Ok? {
          RecordedOrderMeaning(init);
          assert v.name in RecordedOrder(init).value <==> v.name in ni;
        }
      } else {
        assert RecordedNames(vs) == RecordedNames(init);
      }
    }
  }

  // ---------------------------------------------------------------- rows

  /** Every result name has an order entry that is a position of the output array. */
  predicate Placed(results: Mapping, order: map<string, int>)
  {
    forall n :: n in results ==> n in order && 0 <= order[n] < |results|
  }

  /** No two result names share a position. */
  predicate Injective(results: Mapping, order: map<string, int>)
  {
    forall n, m :: n in results && m in results && n in order && m in order && n != m ==> order[n] != order[m]
  }

  /**
   * The slots of `row` after the names in `done` have been written: each of
   * them has an order entry inside the row; a slot is 0.0 when no written name
   * is placed there and otherwise holds the value of a written name placed
   * there; when no two names share a slot, every written name's value is in its slot.
   */
  predicate Slots(row: seq<real>, done: set<string>, results: Mapping, order: map<string, int>)
  {
    (forall n :: n in done ==> n in results && n in order && 0 <= order[n] < |row|) &&
    (forall i :: 0 <= i < |row| ==>
       (row[i] == 0.0 && forall n :: n in done ==> order[n] != i) ||
       (exists n :: n in done && order[n] == i && row[i] == results[n])) &&
    (Injective(results, order) ==> forall n :: n in done ==> row[order[n]] == results[n])
  }

  /** A row for the results: one slot per result, every result written. */
  predicate RowFor(row: Row, results: Mapping, order: map<string, int>)
  {
    |row| == |results| && Slots(row, results.Keys, results, order)
  }

  /** Writing one more name's value into its slot. */
  lemma SlotsStep(row: seq<real>, done: set<string>, results: Mapping, order: map<string, int>, name: string)
    requires Slots(row, done, results, order)
    requires name in results && name in order && 0 <= order[name] < |row| && name !in done
    ensures Slots(row[order[name] := results[name]], done + {name}, results, order)
  {
    var row' := row[order[name] := results[name]];
    var done' := done + {name};
    forall i | 0 <= i < |row'|
      ensures (row'[i] == 0.0 && forall n :: n in done' ==> order[n] != i) ||
              (exists n :: n in done' && order[n] == i && row'[i] == results[n])
    {
      if i == order[name] {
        assert name in done' && order[name] == i && row'[i] == results[name];
      }
    }
    if Injective(results, order) {
      forall n | n in done' ensures row'[order[n]] == results[n] {
        if n != name {
          assert order[n] != order[name];
        }
      }
    }
  }

  /**
   * `ResultsDictionaryToResultArray`: each result goes to the slot its order
   * entry names, the names visited in the dictionary's (unspecified) key order.
   * A name without an entry throws; an entry outside the array throws.
   */
  method ResultsDictionaryToResultArray(results: Mapping, recordedVariableOrder: map<string, int>)
    returns (r: Result<Row, Exception>)
    ensures r.Ok? <==> Placed(results, recordedVariableOrder)
    ensures r.Ok? ==> RowFor(r.value, results, recordedVariableOrder)
    ensures r.Err? ==>
      (r.error.MissingOrderEntry? && r.error.key in results && r.error.key !in recordedVariableOrder) ||
      (r.error == IndexOutOfRange &&
       exists n :: n in results && n in recordedVariableOrder && !(0 <= recordedVariableOrder[n] < |results|))
  {
    var order := recordedVariableOrder;
    var output := new real[|results|](_ => 0.0);
    var remaining := results.Keys;
    ghost var done: set<string> := {};
    while remaining != {}
      invariant remaining <= results.Keys && done == results.Keys - remaining
      invariant Slots(output[..], done, results, order)
      decreases |remaining|
    {
      var varName :| varName in remaining;
      if varName !in order {
        assert !Placed(results, order);
        return Err(MissingOrderEntry(varName));
      }
      var index := order[varName];
      if !(0 <= index < output.Length) {
        assert varName in results && !(0 <= order[varName] < |results|);
        return Err(IndexOutOfRange);
      }
      ghost var row := output[..];
      SlotsStep(row, done, results, order, varName);
      output[index] := results[varName];
      assert output[..] == row[index := results[varName]];
      remaining := remaining - {varName};
      done := done + {varName};
    }
    assert done == results.Keys;
    assert Placed(results, order);
    return Ok(output[..]);
  }

  /** The order built from the definition places the recorded names of a trial, each in its own slot. */
  lemma RecordedOrderPlaces(vs: seq<SimVar>, results: Mapping)
    requires RecordedOrder(vs).Ok?
    requires results.Keys == (set n | n in RecordedNames(vs))
    ensures Placed(results, RecordedOrder(vs).value)
    ensures Injective(results, RecordedOrder(vs).value)
  {
    var order := RecordedOrder(vs).value;
    var names := RecordedNames(vs);
    RecordedOrderMeaning(vs);
    RecordedOrderSucceedsIff(vs);
    NoRepeatsCardinality(names);
    assert |results| == |names|;
    forall n | n in results ensures n in order && 0 <= order[n] < |results| {
      var j :| 0 <= j < |names| && names[j] == n;
    }
    forall n, m | n in results && m in results && n != m ensures order[n] != order[m] {
      var i :| 0 <= i < |names| && names[i] == n;
      var j :| 0 <= j < |names| && names[j] == m;
    }
  }

  /**
   * With the order built from the definition and the dictionary of a trial,
   * the row is that trial's recorded values in recorded order.
   */
  lemma RowOfRecordedValues(vs: seq<SimVar>, results: Mapping, row: Row)
    requires RecordedOrder(vs).Ok?
    requires results.Keys == (set n | n in RecordedNames(vs))
    requires RowFor(row, results, RecordedOrder(vs).value)
    ensures row == RecordedRow(vs, results)
  {
    var order := RecordedOrder(vs).value;
    var names := RecordedNames(vs);
    RecordedOrderPlaces(vs, results);
    RecordedOrderMeaning(vs);
    RecordedOrderSucceedsIff(vs);
    NoRepeatsCardinality(names);
    assert |row| == |names|;
    forall j | 0 <= j < |names| ensures row[j] == results[names[j]] {
      assert names[j] in results && order[names[j]] == j;
    }
  }

  /** The recorded values of a trial's dictionary, in recorded order. */
  function RecordedRow(vs: seq<SimVar>, results: Mapping): (row: Row)
    requires results.Keys == (set n | n in RecordedNames(vs))
    ensures |row| == |RecordedNames(vs)|
  {
    var names := RecordedNames(vs);
    seq(|names|, j requires 0 <= j < |names| => results[names[j]])
  }

  /** The row of the trial run with `seed`. */
  function TrialRow(d: SimulationDefinition, seed: int32, sampler: Sampler, ops: DivisionOps): Row
    requires Simulate(d, seed, sampler, ops).Ok?
  {
    SimulateOutput(d, seed, sampler, ops);
    RecordedRow(d.variables, Simulate(d, seed, sampler, ops).value)
  }

  /** The rows of the trials of `seeds`, in seed order. */
  function TrialRows(d: SimulationDefinition, seeds: seq<int32>, sampler: Sampler, ops: DivisionOps): (rows: seq<Row>)
    requires forall t :: 0 <= t < |seeds| ==> Simulate(d, seeds[t], sampler, ops).Ok?
    ensures |rows| == |seeds|
  {
    seq(|seeds|, t requires 0 <= t < |seeds| => TrialRow(d, seeds[t], sampler, ops))
  }

  // ---------------------------------------------------------------- batches

  /** The connection that carries one batch: its row count, then its values row after row. */
  function Encode(rows: seq<Row>): Response
    requires |rows| <= MaxReturnedResultCount
  {
    Response(|rows|, Flatten(rows))
  }

  /** `ReturnSingleResultsBatchToServer`: more than 255 rows throw, otherwise one connection. */
  function SingleBatch(rows: seq<Row>): (r: Result<Response, Exception>)
    ensures r.Err? <==> |rows| > MaxReturnedResultCount
  {
    if |rows| > MaxReturnedResultCount then Err(TooManyResults) else Ok(Encode(rows))
  }

  /** The server reads a client's batch back as the rows that went into it. */
  lemma BatchRoundTrip(rows: seq<Row>, rowLength: nat)
    requires |rows| <= MaxReturnedResultCount
    requires forall i :: 0 <= i < |rows| ==> |rows[i]| == rowLength
    ensures WellFormed(Encode(rows), rowLength)
    ensures DecodeRows(Encode(rows).values, rowLength, Encode(rows).count as int) == rows
  {
    DecodeFlatten(rows, rowLength);
  }

  /** The count byte, then each row's values, one write per value. */
  method ReturnSingleResultsBatchToServer(results: seq<Row>) returns (r: Result<Response, Exception>)
    ensures r == SingleBatch(results)
  {
    if |results| > MaxReturnedResultCount {
      return Err(TooManyResults);
    }
    var written: seq<real> := [];
    for i := 0 to |results|
      invariant written == Flatten(results[..i])
    {
      var resultArray := results[i];
      for j := 0 to |resultArray|
        invariant written == Flatten(results[..i]) + resultArray[..j]
      {
        written := written + [resultArray[j]];
      }
      assert resultArray[..|resultArray|] == resultArray;
      assert results[..i + 1][..i] == results[..i];
    }
    assert results[..|results|] == results;
    return Ok(Response(|results|, written));
  }

  /** The connections for a list of batches, in order. */
  function EncodeAll(batches: seq<seq<Row>>): (sent: seq<Response>)
    requires forall k :: 0 <= k < |batches| ==> |batches[k]| <= MaxReturnedResultCount
    ensures |sent| == |batches|
  {
    if batches == [] then [] else [Encode(batches[0])] + EncodeAll(batches[1..])
  }

  /** The rows of the batches, batch after batch. */
  function Concat(batches: seq<seq<Row>>): seq<Row>
  {
    if batches == [] then [] else batches[0] + Concat(batches[1..])
  }

  /** The length of the batch the loop as written sends from `idx`: `n % 255` for the final one, else 255. */
  function AsWrittenBatchLength(n: nat, idx: nat): (batchLength: nat)
    requires idx % 255 == 0 && idx <= n
    ensures idx + batchLength <= n && batchLength <= MaxReturnedResultCount
  {
    FinalSliceFits(n, idx);
    if idx + MaxReturnedResultCount >= n then n % MaxReturnedResultCount else MaxReturnedResultCount
  }

  /** The final batch of the loop as written stays within the rows. */
  lemma FinalSliceFits(n: nat, idx: nat)
    requires idx % 255 == 0 && idx <= n
    ensures idx + n % 255 <= n
  {
    assert idx == 255 * (idx / 255);
    assert n == 255 * (n / 255) + n % 255;
    MulAtLeast(255, idx / 255 - n / 255);
  }

  /**
   * The do-while loop of `ReturnResultsToServer` from `idx` on: a batch is
   * final when `idx + 255 >= n` and is then `n % 255` rows long, otherwise 255;
   * the loop goes on while `idx <= n`.
   */
  function AsWrittenFrom(rows: seq<Row>, idx: nat): (batches: seq<seq<Row>>)
    requires idx % 255 == 0 && idx <= |rows|
    ensures forall k :: 0 <= k < |batches| ==> |batches[k]| <= MaxReturnedResultCount
    decreases |rows| - idx
  {
    var n := |rows|;
    var batchLength := AsWrittenBatchLength(n, idx);
    [rows[idx .. idx + batchLength]] +
    (if idx + MaxReturnedResultCount <= n then AsWrittenFrom(rows, idx + MaxReturnedResultCount) else [])
  }

  /** The batches `ReturnResultsToServer` sends as written: all rows at once when there are at most 255. */
  function AsWrittenBatches(rows: seq<Row>): (batches: seq<seq<Row>>)
    ensures forall k :: 0 <= k < |batches| ==> |batches[k]| <= MaxReturnedResultCount
  {
    if |rows| <= MaxReturnedResultCount then [rows] else AsWrittenFrom(rows, 0)
  }

  /** Consecutive slices of 255 rows from `idx`, the last one holding what remains. */
  function CorrectedFrom(rows: seq<Row>, idx: nat): (batches: seq<seq<Row>>)
    requires idx <= |rows|
    ensures forall k :: 0 <= k < |batches| ==> |batches[k]| <= MaxReturnedResultCount
    decreases |rows| - idx
  {
    if idx == |rows| then []
    else
      var end := if idx + MaxReturnedResultCount < |rows| then idx + MaxReturnedResultCount else |rows|;
      [rows[idx..end]] + CorrectedFrom(rows, end)
  }

  /** The batches as intended: all rows at once when there are at most 255, else slices of 255 and a remainder. */
  function CorrectedBatches(rows: seq<Row>): (batches: seq<seq<Row>>)
    ensures forall k :: 0 <= k < |batches| ==> |batches[k]| <= MaxReturnedResultCount
  {
    if |rows| <= MaxReturnedResultCount then [rows] else CorrectedFrom(rows, 0)
  }

  lemma EncodeAllCons(batch: seq<Row>, rest: seq<seq<Row>>)
    requires |batch| <= MaxReturnedResultCount
    requires forall k :: 0 <= k < |rest| ==> |rest[k]| <= MaxReturnedResultCount
    ensures EncodeAll([batch] + rest) == [Encode(batch)] + EncodeAll(rest)
  {
    assert ([batch] + rest)[1..] == rest;
  }

  /** `ReturnResultsToServer` as written. */
  method ReturnResultsToServer(results: seq<Row>) returns (sent: seq<Response>)
    ensures sent == EncodeAll(AsWrittenBatches(results))
  {
    if |results| <= MaxReturnedResultCount {
      var single := ReturnSingleResultsBatchToServer(results);
      EncodeAllCons(results, []);
      return [single.value];
    }
    sent := SendAsWrittenLoop(results);
  }

  /** The do-while loop of `ReturnResultsToServer`, for more than 255 rows. */
  method SendAsWrittenLoop(results: seq<Row>) returns (sent: seq<Response>)
    ensures sent == Pending(results, 0)
  {
    var n := |results|;
    sent := [];
    // The do-while's first round starts at 0 <= n, so its test can come first.
    var resultArrayIndex := 0;
    while resultArrayIndex <= n
      invariant resultArrayIndex % 255 == 0 && resultArrayIndex <= n + MaxReturnedResultCount
      invariant sent + Pending(results, resultArrayIndex) == Pending(results, 0)
      decreases n + MaxReturnedResultCount - resultArrayIndex
    {
      sent := SendAsWrittenBatch(results, resultArrayIndex, sent);
      ModShift(resultArrayIndex, 1, 255);
      resultArrayIndex := resultArrayIndex + MaxReturnedResultCount;
    }
  }

  /** What the loop as written still sends from `idx` on: nothing once `idx` has passed the rows. */
  ghost function Pending(rows: seq<Row>, idx: nat): seq<Response>
    requires idx % 255 == 0
  {
    if idx <= |rows| then EncodeAll(AsWrittenFrom(rows, idx)) else []
  }

  /** One round of the do-while loop of `ReturnResultsToServer`: the batch starting at `idx` is sent after `sent`. */
  method SendAsWrittenBatch(results: seq<Row>, idx: nat, sent: seq<Response>) returns (sentAfter: seq<Response>)
    requires idx % 255 == 0 && idx <= |results|
    ensures sentAfter + Pending(results, idx + MaxReturnedResultCount) == sent + Pending(results, idx)
  {
    var n := |results|;
    var isFinalBatch := idx + MaxReturnedResultCount >= n;
    var batchLength := if isFinalBatch then n % MaxReturnedResultCount else MaxReturnedResultCount;
    assert batchLength == AsWrittenBatchLength(n, idx);
    AsWrittenStep(results, idx, sent);
    var resultArrayBatch := results[idx .. idx + batchLength];
    var single := ReturnSingleResultsBatchToServer(resultArrayBatch);
    sentAfter := sent + [single.value];
  }

  /** One round of the loop as written: the batch it sends, and where it goes on. */
  lemma AsWrittenStep(rows: seq<Row>, idx: nat, sent: seq<Response>)
    requires idx % 255 == 0 && idx <= |rows|
    ensures var n := |rows|;
      var batchLength := AsWrittenBatchLength(n, idx);
      sent + EncodeAll(AsWrittenFrom(rows, idx)) ==
        (sent + [Encode(rows[idx .. idx + batchLength])]) +
        (if idx + MaxReturnedResultCount <= n then EncodeAll(AsWrittenFrom(rows, idx + MaxReturnedResultCount)) else [])
  {
    var n := |rows|;
    var batchLength := AsWrittenBatchLength(n, idx);
    var rest := if idx + MaxReturnedResultCount <= n then AsWrittenFrom(rows, idx + MaxReturnedResultCount) else [];
    assert AsWrittenFrom(rows, idx) == [rows[idx .. idx + batchLength]] + rest;
    EncodeAllCons(rows[idx .. idx + batchLength], rest);
  }

  /** `ReturnResultsToServer` with the batching corrected: the final batch carries the `n - idx` remaining rows. */
  method ReturnResultsToServerCorrected(results: seq<Row>) returns (sent: seq<Response>)
    ensures sent == EncodeAll(CorrectedBatches(results))
  {
    var n := |results|;
    if n <= MaxReturnedResultCount {
      var single := ReturnSingleResultsBatchToServer(results);
      EncodeAllCons(results, []);
      return [single.value];
    }
    sent := [];
    var resultArrayIndex := 0;
    while resultArrayIndex < n
      invariant resultArrayIndex <= n
      invariant sent + EncodeAll(CorrectedFrom(results, resultArrayIndex)) == EncodeAll(CorrectedFrom(results, 0))
      decreases n - resultArrayIndex
    {
      var batchLength := if resultArrayIndex + MaxReturnedResultCount < n then MaxReturnedResultCount else n - resultArrayIndex;
      CorrectedStep(results, resultArrayIndex, sent);
      var resultArrayBatch := results[resultArrayIndex .. resultArrayIndex + batchLength];
      var single := ReturnSingleResultsBatchToServer(resultArrayBatch);
      sent := sent + [single.value];
      resultArrayIndex := resultArrayIndex + batchLength;
    }
  }

  /** One round of the corrected loop. */
  lemma CorrectedStep(rows: seq<Row>, idx: nat, sent: seq<Response>)
    requires idx < |rows|
    ensures var end := if idx + MaxReturnedResultCount < |rows| then idx + MaxReturnedResultCount else |rows|;
      sent + EncodeAll(CorrectedFrom(rows, idx)) ==
        (sent + [Encode(rows[idx..end])]) + EncodeAll(CorrectedFrom(rows, end))
  {
    var end := if idx + MaxReturnedResultCount < |rows| then idx + MaxReturnedResultCount else |rows|;
    EncodeAllCons(rows[idx..end], CorrectedFrom(rows, end));
  }

  /**
   * The corrected batches carry every row once, in order, each of them full
   * but the last, and none of them empty unless there are no rows at all.
   */
  lemma {:induction false} CorrectedFromMeaning(rows: seq<Row>, idx: nat)
    requires idx <= |rows|
    ensures var b := CorrectedFrom(rows, idx);
      Concat(b) == rows[idx..] &&
      forall k :: 0 <= k < |b| ==> 1 <= |b[k]| && (k < |b| - 1 ==> |b[k]| == MaxReturnedResultCount)
    decreases |rows| - idx
  {
    if idx < |rows| {
      var end := if idx + MaxReturnedResultCount < |rows| then idx + MaxReturnedResultCount else |rows|;
      CorrectedFromMeaning(rows, end);
      var b := CorrectedFrom(rows, idx);
      assert b[1..] == CorrectedFrom(rows, end);
      assert rows[idx..end] + rows[end..] == rows[idx..];
    }
  }

  lemma CorrectedBatchesMeaning(rows: seq<Row>)
    ensures var b := CorrectedBatches(rows);
      Concat(b) == rows &&
      forall k :: 0 <= k < |b| - 1 ==> |b[k]| == MaxReturnedResultCount
  {
    if |rows| <= MaxReturnedResultCount {
      assert Concat([rows]) == rows + Concat([]);
    } else {
      CorrectedFromMeaning(rows, 0);
    }
  }

  /** Off the multiples of 255, the loop as written makes the intended batches. */
  lemma {:induction false} AsWrittenFromAgrees(rows: seq<Row>, idx: nat)
    requires idx % 255 == 0 && idx <= |rows| && |rows| % 255 != 0
    ensures AsWrittenFrom(rows, idx) == CorrectedFrom(rows, idx)
    decreases |rows| - idx
  {
    var n := |rows|;
    assert idx == 255 * (idx / 255);
    assert n == 255 * (n / 255) + n % 255;
    if idx + MaxReturnedResultCount < n {
      AsWrittenFromAgrees(rows, idx + MaxReturnedResultCount);
    } else {
      MulAtLeast(255, idx / 255 - n / 255);
      MulAtLeast(255, n / 255 - idx / 255);
      assert n % 255 == n - idx;
    }
  }

  lemma AsWrittenAgrees(rows: seq<Row>)
    requires |rows| <= MaxReturnedResultCount || |rows| % MaxReturnedResultCount != 0
    ensures AsWrittenBatches(rows) == CorrectedBatches(rows)
  {
    if |rows| > MaxReturnedResultCount {
      AsWrittenFromAgrees(rows, 0);
    }
  }

  /** On a multiple of 255 rows the loop as written sends, from `idx`, everything but the last 255 rows. */
  lemma {:induction false} AsWrittenFromLoses(rows: seq<Row>, idx: nat)
    requires |rows| % 255 == 0 && idx % 255 == 0 && idx + 255 <= |rows|
    ensures Concat(AsWrittenFrom(rows, idx)) == rows[idx .. |rows| - 255]
    decreases |rows| - idx
  {
    var n := |rows|;
    assert idx == 255 * (idx / 255);
    assert n == 255 * (n / 255);
    if idx + 255 < n {
      MulAtLeast(255, n / 255 - idx / 255 - 1);
      AsWrittenFromLoses(rows, idx + 255);
      var b := AsWrittenFrom(rows, idx);
      assert b[1..] == AsWrittenFrom(rows, idx + 255);
      assert rows[idx .. idx + 255] + rows[idx + 255 .. n - 255] == rows[idx .. n - 255];
    } else {
      var last := AsWrittenFrom(rows, n);
      assert last == [[]];
      assert AsWrittenFrom(rows, idx) == [[]] + last;
      assert Concat(last) == [] by {
        assert last[1..] == [];
      }
    }
  }

  /**
   * The loop as written drops the last 255 rows when there are more than 255
   * and their number is a multiple of 255, so the server, which waits for
   * exactly the trial count, never completes.
   */
  lemma AsWrittenLosesLastBatch(rows: seq<Row>)
    requires |rows| > MaxReturnedResultCount && |rows| % MaxReturnedResultCount == 0
    ensures Concat(AsWrittenBatches(rows)) == rows[..|rows| - MaxReturnedResultCount]
    ensures |Concat(AsWrittenBatches(rows))| < |rows|
  {
    AsWrittenFromLoses(rows, 0);
  }

  /** 510 rows: one full batch and two empty ones. */
  lemma AsWritten510(rows: seq<Row>)
    requires |rows| == 510
    ensures AsWrittenBatches(rows) == [rows[..255], [], []]
  {
    var b1 := AsWrittenFrom(rows, 510);
    assert b1 == [[]];
    var b2 := AsWrittenFrom(rows, 255);
    assert b2 == [[]] + b1;
    assert AsWrittenFrom(rows, 0) == [rows[..255]] + b2;
  }

  // ---------------------------------------------------------------- result collection

  /**
   * The state the callbacks of `ClientProgram.Run` share: the rows so far, and
   * whether they have been returned; `sent` is what went to the collection endpoint.
   */
  class ResultCollector {
    const recordedVariableOrder: map<string, int>
    const targetResultCount: nat
    var recordedResults: seq<Row>
    var resultsHaveBeenSentToServer: bool
    var sent: seq<Response>

    /** The number of rows at the moment of the return: the target, but at least one (the check runs after an append). */
    function FirstSendCount(): nat
    {
      if targetResultCount < 1 then 1 else targetResultCount
    }

    /** The rows are returned once, as soon as there are enough of them, and then exactly the rows held at that moment. */
    ghost predicate Valid()
      reads this
    {
      (resultsHaveBeenSentToServer <==> |recordedResults| >= FirstSendCount()) &&
      (resultsHaveBeenSentToServer ==> sent == EncodeAll(CorrectedBatches(recordedResults[..FirstSendCount()]))) &&
      (!resultsHaveBeenSentToServer ==> sent == [])
    }

    constructor (order: map<string, int>, target: nat)
      ensures Valid()
      ensures recordedVariableOrder == order && targetResultCount == target
      ensures recordedResults == [] && !resultsHaveBeenSentToServer && sent == []
    {
      recordedVariableOrder := order;
      targetResultCount := target;
      recordedResults := [];
      resultsHaveBeenSentToServer := false;
      sent := [];
    }

    /** `OnResultComplete`: convert the trial's dictionary, append the row, and return the rows once enough are in. */
    method OnResultComplete(results: Mapping) returns (r: Result<(), Exception>)
      requires Valid()
      modifies this
      ensures Valid()
      ensures r.Ok? <==> Placed(results, recordedVariableOrder)
      ensures r.Err? ==> (recordedResults == old(recordedResults) && sent == old(sent) &&
                          resultsHaveBeenSentToServer == old(resultsHaveBeenSentToServer))
      ensures r.Ok? ==> (|recordedResults| == |old(recordedResults)| + 1 &&
                         recordedResults[..|old(recordedResults)|] == old(recordedResults) &&
                         RowFor(recordedResults[|old(recordedResults)|], results, recordedVariableOrder))
      ensures old(resultsHaveBeenSentToServer) ==> sent == old(sent)
    {
      var resultsArray :- ResultsDictionaryToResultArray(results, recordedVariableOrder);
      ghost var before := recordedResults;
      recordedResults := recordedResults + [resultsArray];
      assert recordedResults[..|before|] == before;
      if resultsHaveBeenSentToServer {
        assert recordedResults[..FirstSendCount()] == before[..FirstSendCount()];
      }
      if |recordedResults| >= targetResultCount {
        if !resultsHaveBeenSentToServer {
          var batches := ReturnResultsToServerCorrected(recordedResults);
          assert recordedResults[..FirstSendCount()] == recordedResults;
          sent := sent + batches;
          resultsHaveBeenSentToServer := true;
        }
      }
      r := Ok(());
    }
  }

  // ---------------------------------------------------------------- run

  /** A trial that succeeds yields a dictionary the recorded order places. */
  lemma TrialIsPlaced(d: SimulationDefinition, seed: int32, sampler: Sampler, ops: DivisionOps)
    requires Simulate(d, seed, sampler, ops).Ok?
    ensures RecordedOrder(d.variables).Ok?
    ensures Placed(Simulate(d, seed, sampler, ops).value, RecordedOrder(d.variables).value)
  {
    SimulateSucceedsIff(d, seed, sampler, ops);
    RecordedNamesNoRepeats(d.variables);
    RecordedOrderSucceedsIff(d.variables);
    SimulateOutput(d, seed, sampler, ops);
    RecordedOrderPlaces(d.variables, Simulate(d, seed, sampler, ops).value);
  }

  /** The row the collector makes of a successful trial's dictionary is the trial's row. */
  lemma TrialRowFor(d: SimulationDefinition, seed: int32, sampler: Sampler, ops: DivisionOps, row: Row)
    requires Simulate(d, seed, sampler, ops).Ok? && RecordedOrder(d.variables).Ok?
    requires RowFor(row, Simulate(d, seed, sampler, ops).value, RecordedOrder(d.variables).value)
    ensures row == TrialRow(d, seed, sampler, ops)
  {
    SimulateOutput(d, seed, sampler, ops);
    RowOfRecordedValues(d.variables, Simulate(d, seed, sampler, ops).value, row);
  }

  /**
   * `ClientProgram.Run` with the handshake and the batching corrected, the
   * trials run one after another. `handshake` is the server's answer to the
   * checksum; the result is what the client sends to the collection endpoint.
   */
  method Run(d: SimulationDefinition, handshake: byte -> Reply, sampler: Sampler, ops: DivisionOps)
    returns (r: Result<seq<Response>, Exception>)
    ensures handshake(Checksum(d)).Refused? ==> r == Ok([])
    ensures handshake(Checksum(d)).Accepted? ==>
      var (lo, hi) := JobBounds(d.trialCount, handshake(Checksum(d)).jobIndex);
      var seeds := SeedsOutcome(lo, hi);
      (r.Ok? <==> RecordedOrder(d.variables).Ok? && seeds.Ok? &&
                  forall t :: 0 <= t < |seeds.value| ==> Simulate(d, seeds.value[t], sampler, ops).Ok?) &&
      (r.Ok? ==> r.value == if |seeds.value| == 0 then []
                            else EncodeAll(CorrectedBatches(TrialRows(d, seeds.value, sampler, ops))))
  {
    var checksum := GenerateChecksum(d);
    var jobIndex := JobIndexFromReply(handshake(checksum));
    if jobIndex.None? {
      return Ok([]);
    }
    var recordedVariableOrders :- BuildRecordedOrder(d.variables);
    var seeds :- GetSeedsFromJobIndex(d, jobIndex.value);
    r := RunJob(d, recordedVariableOrders, seeds, sampler, ops);
  }

  /**
   * The trials of one job: each seed's simulation reports its dictionary to
   * the collector, which returns the rows once all of them are in.
   */
  method RunJob(d: SimulationDefinition, recordedVariableOrders: map<string, int>, seeds: seq<int32>,
                sampler: Sampler, ops: DivisionOps)
    returns (r: Result<seq<Response>, Exception>)
    requires RecordedOrder(d.variables) == Ok(recordedVariableOrders)
    ensures r.Ok? <==> forall t :: 0 <= t < |seeds| ==> Simulate(d, seeds[t], sampler, ops).Ok?
    ensures r.Ok? ==> r.value == if |seeds| == 0 then []
                                 else EncodeAll(CorrectedBatches(TrialRows(d, seeds, sampler, ops)))
  {
    var collector := new ResultCollector(recordedVariableOrders, |seeds|);
    for t := 0 to |seeds|
      invariant collector.Valid()
      invariant collector.recordedVariableOrder == recordedVariableOrders
      invariant collector.targetResultCount == |seeds|
      invariant forall t' :: 0 <= t' < t ==> Simulate(d, seeds[t'], sampler, ops).Ok?
      invariant collector.recordedResults == TrialRows(d, seeds[..t], sampler, ops)
    {
      var started := StartTrial(d, seeds[t], sampler, ops, collector);
      if started.Err? {
        return Err(started.error);
      }
      TrialRowsSnoc(d, seeds, t, sampler, ops);
    }
    assert seeds[..|seeds|] == seeds;
    if |seeds| > 0 {
      assert collector.FirstSendCount() == |seeds|;
      assert collector.recordedResults[..|seeds|] == collector.recordedResults;
    }
    return Ok(collector.sent);
  }

  /** One more trial adds its row to the rows so far. */
  lemma TrialRowsSnoc(d: SimulationDefinition, seeds: seq<int32>, t: nat, sampler: Sampler, ops: DivisionOps)
    requires t < |seeds|
    requires forall t' :: 0 <= t' <= t ==> Simulate(d, seeds[t'], sampler, ops).Ok?
    ensures TrialRows(d, seeds[..t + 1], sampler, ops) ==
      TrialRows(d, seeds[..t], sampler, ops) + [TrialRow(d, seeds[t], sampler, ops)]
  {
  }

  /**
   * One round of the loop of `ClientProgram.Run`: the simulation of `seed`,
   * whose completion callback hands the dictionary to the collector.
   */
  method StartTrial(d: SimulationDefinition, seed: int32, sampler: Sampler, ops: DivisionOps,
                    collector: ResultCollector)
    returns (r: Result<(), Exception>)
    requires collector.Valid() && RecordedOrder(d.variables) == Ok(collector.recordedVariableOrder)
    modifies collector
    ensures collector.Valid()
    ensures r.Ok? <==> Simulate(d, seed, sampler, ops).Ok?
    ensures r.Err? ==> r.error == Simulate(d, seed, sampler, ops).error
    ensures r.Ok? ==> collector.recordedResults == old(collector.recordedResults) + [TrialRow(d, seed, sampler, ops)]
    ensures r.Err? ==> collector.recordedResults == old(collector.recordedResults)
  {
    var output := new SimulationOutput();
    var started := StartSimulation(d, seed, sampler, ops, output);
    if started.Err? {
      return started;
    }
    var results := output.received[0];
    TrialIsPlaced(d, seed, sampler, ops);
    ghost var before := collector.recordedResults;
    var completed := collector.OnResultComplete(results);
    assert completed.Ok?;
    TrialRowFor(d, seed, sampler, ops, collector.recordedResults[|before|]);
    assert collector.recordedResults == before + [TrialRow(d, seed, sampler, ops)];
    return Ok(());
  }
}
