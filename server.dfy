/**
 * The server's bookkeeping: handing out job indices to clients whose
 * definition checksum matches, accumulating the rows that clients return until
 * their number is exactly the trial count, and turning the rows into one value
 * array per recorded variable. Connections are abstract events: the checksum
 * byte a client sends, and the decoded contents of a returned batch.
 */
module ServerProgram {
  import opened Wrappers
  import opened Exceptions
  import opened Machine
  import opened SimulationVariables
  import opened SimulationDefinitions

  /** `ServerProgram.maxReturnedResultCount` (`byte.MaxValue`): the most rows one connection can carry. */
  const MaxReturnedResultCount: nat := 255

  /** One trial's recorded values, in recorded order (`double[]`). */
  type Row = seq<real>

  /** The distribution endpoint's answer to a client: `true` and a job index, or `false` and the connection closed. */
  datatype Reply = Accepted(jobIndex: uint32) | Refused

  /** One connection to the collection endpoint: the row count byte, then the doubles that follow it, decoded. */
  datatype Response = Response(count: byte, values: seq<real>)

  /** The values of the rows, row after row: the order in which a client writes them. */
  function Flatten(rows: seq<Row>): (values: seq<real>)
  {
    if rows == [] then [] else Flatten(rows[..|rows| - 1]) + rows[|rows| - 1]
  }

  // ---------------------------------------------------------------- job distribution

  /** The last job index handed out: the loop stops once the counter exceeds `trialCount / 1024`. */
  function LastJobIndex(trialCount: uint32): (last: nat)
    ensures last < TwoTo32 - 1
  {
    trialCount / ClientJobSize
  }

  /**
   * The replies to the connections `clients` (the checksum byte each client
   * sends) with the counter at `jobIndex`: a mismatch is refused and leaves the
   * counter alone; a match gets the counter, which then moves on; the loop ends
   * right after handing out `lastIndex`, and later connections get no reply.
   */
  function Distribute(checksum: byte, lastIndex: nat, clients: seq<byte>, jobIndex: nat): (replies: seq<Reply>)
    requires jobIndex <= lastIndex < TwoTo32
    ensures |replies| <= |clients|
  {
    if clients == [] then []
    else if clients[0] != checksum then [Refused] + Distribute(checksum, lastIndex, clients[1..], jobIndex)
    else if jobIndex + 1 > lastIndex then [Accepted(jobIndex)]
    else [Accepted(jobIndex)] + Distribute(checksum, lastIndex, clients[1..], jobIndex + 1)
  }

  /** `ServerProgram.DistributeJobsToClients`: the accept loop with its job counter, over the connections in arrival order. */
  method DistributeJobsToClients(d: SimulationDefinition, clients: seq<byte>) returns (replies: seq<Reply>)
    ensures replies == Distribute(Checksum(d), LastJobIndex(d.trialCount), clients, 0)
  {
    var definitionChecksum := GenerateChecksum(d);
    var lastIndex := d.trialCount / ClientJobSize;
    var jobIndex: uint32 := 0;
    replies := [];
    var i := 0;
    while i < |clients|
      invariant i <= |clients| && jobIndex <= lastIndex
      invariant replies + Distribute(definitionChecksum, lastIndex, clients[i..], jobIndex) ==
        Distribute(definitionChecksum, lastIndex, clients, 0)
    {
      DistributeUnfold(definitionChecksum, lastIndex, clients, i, jobIndex);
      if clients[i] == definitionChecksum {
        replies := replies + [Accepted(jobIndex)];
      } else {
        replies := replies + [Refused];
        i := i + 1;
        continue;
      }
      jobIndex := jobIndex + 1;
      i := i + 1;
      if jobIndex > lastIndex {
        return;
      }
    }
  }

  /** One step of the distribution loop. */
  lemma DistributeUnfold(checksum: byte, lastIndex: nat, clients: seq<byte>, i: nat, jobIndex: nat)
    requires i < |clients| && jobIndex <= lastIndex < TwoTo32
    ensures forall replies: seq<Reply> ::
      replies + Distribute(checksum, lastIndex, clients[i..], jobIndex) ==
      if clients[i] != checksum then (replies + [Refused]) + Distribute(checksum, lastIndex, clients[i + 1..], jobIndex)
      else if jobIndex + 1 > lastIndex then replies + [Accepted(jobIndex)]
      else (replies + [Accepted(jobIndex)]) + Distribute(checksum, lastIndex, clients[i + 1..], jobIndex + 1)
  {
    assert clients[i..][1..] == clients[i + 1..];
  }

  /** The number of connections whose checksum matches. */
  function Matches(checksum: byte, clients: seq<byte>): nat
  {
    if clients == [] then 0 else (if clients[0] == checksum then 1 else 0) + Matches(checksum, clients[1..])
  }

  /**
   * The distribution protocol: connections are answered in order, a matching
   * one accepted, a mismatched one refused.
   */
  lemma {:induction false} DistributeAnswers(checksum: byte, lastIndex: nat, clients: seq<byte>, jobIndex: nat)
    requires jobIndex <= lastIndex < TwoTo32
    ensures var r := Distribute(checksum, lastIndex, clients, jobIndex);
      forall k :: 0 <= k < |r| ==> (r[k].Accepted? <==> clients[k] == checksum)
  {
    if clients != [] && (clients[0] != checksum || jobIndex + 1 <= lastIndex) {
      var j' := if clients[0] == checksum then jobIndex + 1 else jobIndex;
      DistributeAnswers(checksum, lastIndex, clients[1..], j');
    }
  }

  /**
   * The job counter: an accepted connection gets the starting index plus the
   * number of matching connections before it, and never more than the last index.
   */
  lemma {:induction false} DistributeIndices(checksum: byte, lastIndex: nat, clients: seq<byte>, jobIndex: nat)
    requires jobIndex <= lastIndex < TwoTo32
    ensures var r := Distribute(checksum, lastIndex, clients, jobIndex);
      forall k :: 0 <= k < |r| && r[k].Accepted? ==>
        r[k].jobIndex == jobIndex + Matches(checksum, clients[..k]) <= lastIndex
  {
    if clients != [] {
      var r := Distribute(checksum, lastIndex, clients, jobIndex);
      var rest := clients[1..];
      assert clients[..0] == [];
      if clients[0] != checksum || jobIndex + 1 <= lastIndex {
        var j' := if clients[0] == checksum then jobIndex + 1 else jobIndex;
        DistributeIndices(checksum, lastIndex, rest, j');
        var r' := Distribute(checksum, lastIndex, rest, j');
        assert r == [r[0]] + r';
        forall k | 0 < k < |r| && r[k].Accepted?
          ensures r[k].jobIndex == jobIndex + Matches(checksum, clients[..k])
        {
          assert r[k] == r'[k - 1];
          assert clients[..k][1..] == rest[..k - 1];
        }
      }
    }
  }

  /** Connections go unanswered only after the reply that hands out the last index. */
  lemma {:induction false} DistributeStops(checksum: byte, lastIndex: nat, clients: seq<byte>, jobIndex: nat)
    requires jobIndex <= lastIndex < TwoTo32
    ensures var r := Distribute(checksum, lastIndex, clients, jobIndex);
      |r| < |clients| ==> r != [] && r[|r| - 1] == Accepted(lastIndex)
  {
    if clients != [] && (clients[0] != checksum || jobIndex + 1 <= lastIndex) {
      var j' := if clients[0] == checksum then jobIndex + 1 else jobIndex;
      DistributeStops(checksum, lastIndex, clients[1..], j');
    }
  }

  /**
   * When enough matching clients connect, every index from the start to the
   * last one is handed out, the last one to the reply that ends the loop.
   */
  lemma {:induction false} DistributeIssuesAll(checksum: byte, lastIndex: nat, clients: seq<byte>, jobIndex: nat)
    requires jobIndex <= lastIndex < TwoTo32
    requires Matches(checksum, clients) > lastIndex - jobIndex
    ensures var r := Distribute(checksum, lastIndex, clients, jobIndex);
      r != [] && r[|r| - 1] == Accepted(lastIndex)
  {
    if clients[0] != checksum || jobIndex + 1 <= lastIndex {
      var j' := if clients[0] == checksum then jobIndex + 1 else jobIndex;
      DistributeIssuesAll(checksum, lastIndex, clients[1..], j');
    }
  }

  /** Every seed below the trial count belongs to a job whose index the server hands out. */
  lemma IssuedJobsCoverSeeds(trialCount: uint32, seed: int)
    requires 0 <= seed < trialCount <= IntMax
    ensures var j := seed / ClientJobSize;
      0 <= j <= LastJobIndex(trialCount) &&
      (var (lo, hi) := JobBounds(trialCount, j);
       SeedsOutcome(lo, hi).Ok? && seed in SeedsOutcome(lo, hi).value)
  {
    var j := seed / ClientJobSize;
    DivMonotone(seed, trialCount, ClientJobSize);
    assert ClientJobSize * j <= seed;
    SeedPartition(trialCount, seed, j);
  }

  /**
   * The jobs the server hands out do not overlap: a seed below the trial
   * count is in no handed-out job but job `seed / 1024`.
   */
  lemma IssuedJobsDisjoint(trialCount: uint32, seed: int, index: uint32)
    requires 0 <= seed < trialCount <= IntMax && index <= LastJobIndex(trialCount)
    ensures var (lo, hi) := JobBounds(trialCount, index);
      var o := SeedsOutcome(lo, hi);
      o.Ok? && seed in o.value ==> index == seed / ClientJobSize
  {
    assert ClientJobSize * index <= trialCount;
    SeedPartition(trialCount, seed, index);
  }

  /**
   * With 3000000000 trials the server hands out job 2097152, whose seeds have
   * wrapped: they are negative, starting at `int.MinValue`.
   */
  lemma WrappingJobIsIssued()
    ensures 2097152 <= LastJobIndex(3000000000)
    ensures var (lo, hi) := JobBounds(3000000000, 2097152);
      SeedsOutcome(lo, hi).Ok? && forall k :: 0 <= k < |SeedsOutcome(lo, hi).value| ==> SeedsOutcome(lo, hi).value[k] < 0
  {
    LargeTrialCountWraps();
  }

  lemma DivMonotone(a: nat, b: nat, d: nat)
    requires a <= b && d > 0
    ensures a / d <= b / d
  {
    var qa, qb := a / d, b / d;
    assert d * qa <= a;
    assert b < d * qb + d;
    MulAtLeast(d, qa - qb);
    assert d * qa - d * qb == d * (qa - qb);
  }

  // ---------------------------------------------------------------- response collection

  /** The rows of a response: `count` rows of `rowLength` consecutive values each. */
  function DecodeRows(values: seq<real>, rowLength: nat, count: nat): (rows: seq<Row>)
    requires count * rowLength <= |values|
    ensures |rows| == count
    ensures forall i :: 0 <= i < count ==> |rows[i]| == rowLength
  {
    if count == 0 then []
    else
      assert (count - 1) * rowLength + rowLength == count * rowLength;
      DecodeRows(values, rowLength, count - 1) + [values[(count - 1) * rowLength .. count * rowLength]]
  }

  /** A well-formed response: exactly the values of its rows. */
  predicate WellFormed(r: Response, rowLength: nat)
  {
    |r.values| == r.count as int * rowLength
  }

  /** Reading one response: the count byte, then `count` rows, each filled value by value into a fresh buffer. */
  method ReadResponse(r: Response, singleResultsLength: nat) returns (clientResults: seq<Row>)
    requires WellFormed(r, singleResultsLength)
    ensures clientResults == DecodeRows(r.values, singleResultsLength, r.count as int)
  {
    var responseValuesCount := r.count;
    clientResults := [];
    var position := 0;
    for resultIndex := 0 to responseValuesCount as int
      invariant position == resultIndex * singleResultsLength
      invariant clientResults == DecodeRows(r.values, singleResultsLength, resultIndex)
    {
      RowFits(resultIndex, responseValuesCount as int, singleResultsLength);
      var singleResultsBuffer := new real[singleResultsLength](_ => 0.0);
      for resultValueIndex := 0 to singleResultsLength
        invariant singleResultsBuffer[..resultValueIndex] == r.values[position .. position + resultValueIndex]
      {
        singleResultsBuffer[resultValueIndex] := r.values[position + resultValueIndex];
      }
      assert singleResultsBuffer[..] == r.values[position .. position + singleResultsLength];
      clientResults := clientResults + [singleResultsBuffer[..]];
      position := position + singleResultsLength;
    }
  }

  /** Row `i` of `count` rows lies within the values. */
  lemma RowFits(i: nat, count: nat, rowLength: nat)
    requires i < count
    ensures i * rowLength + rowLength == (i + 1) * rowLength <= count * rowLength
  {
    MulMonotone(i + 1, count, rowLength);
  }

  lemma MulMonotone(a: nat, b: nat, c: nat)
    requires a <= b
    ensures a * c <= b * c
  {
    if c > 0 && b > a {
      MulAtLeast(c, b - a);
    }
    assert b * c == a * c + (b - a) * c;
  }

  /** The number of rows the responses carry. */
  function RowCount(responses: seq<Response>): nat
  {
    if responses == [] then 0 else responses[0].count as int + RowCount(responses[1..])
  }

  /**
   * The collection loop over the connections in arrival order, with `collected`
   * rows so far: each connection's rows are appended, and the loop stops only
   * when the number of rows equals the target exactly. `None`: still waiting.
   */
  function Collect(targetCount: nat, rowLength: nat, responses: seq<Response>, collected: seq<Row>): Option<seq<Row>>
    requires forall k :: 0 <= k < |responses| ==> WellFormed(responses[k], rowLength)
  {
    if responses == [] then None
    else
      var r := responses[0];
      assert WellFormed(r, rowLength);
      var results := collected + DecodeRows(r.values, rowLength, r.count as int);
      if |results| == targetCount then Some(results)
      else Collect(targetCount, rowLength, responses[1..], results)
  }

  /** `ServerProgram.CollectResponses`: the accept loop on the collection endpoint. */
  method CollectResponses(targetCount: uint32, singleResultsLength: nat, responses: seq<Response>)
    returns (r: Option<seq<Row>>)
    requires forall k :: 0 <= k < |responses| ==> WellFormed(responses[k], singleResultsLength)
    ensures r == Collect(targetCount, singleResultsLength, responses, [])
  {
    var results: seq<Row> := [];
    for i := 0 to |responses|
      invariant Collect(targetCount, singleResultsLength, responses, []) ==
        Collect(targetCount, singleResultsLength, responses[i..], results)
    {
      assert responses[i..][1..] == responses[i + 1..];
      var clientResults := ReadResponse(responses[i], singleResultsLength);
      results := results + clientResults;
      if |results| == targetCount as int {
        return Some(results);
      }
    }
    assert responses[|responses|..] == [];
    return None;
  }

  /**
   * The collection stops exactly when, after some connection, the rows so far
   * number the target; it then holds that many rows, the earlier ones first.
   * CollectMeaning says which rows they are.
   */
  lemma {:induction false} CollectStopsIff(targetCount: nat, rowLength: nat, responses: seq<Response>, collected: seq<Row>)
    requires forall k :: 0 <= k < |responses| ==> WellFormed(responses[k], rowLength)
    ensures var c := Collect(targetCount, rowLength, responses, collected);
      (c.Some? <==> exists k :: 1 <= k <= |responses| && |collected| + RowCount(responses[..k]) == targetCount) &&
      (c.Some? ==> |c.value| == targetCount && c.value[..|collected|] == collected)
  {
    if responses != [] {
      var r := responses[0];
      var results := collected + DecodeRows(r.values, rowLength, r.count as int);
      assert responses[..1][1..] == [];
      if |results| != targetCount {
        CollectStopsIff(targetCount, rowLength, responses[1..], results);
        var c := Collect(targetCount, rowLength, responses, collected);
        if c.Some? {
          var k :| 1 <= k <= |responses[1..]| && |results| + RowCount(responses[1..][..k]) == targetCount;
          assert responses[..k + 1][1..] == responses[1..][..k];
          assert c.value[..|collected|] == c.value[..|results|][..|collected|];
        }
        if exists k :: 1 <= k <= |responses| && |collected| + RowCount(responses[..k]) == targetCount {
          var k :| 1 <= k <= |responses| && |collected| + RowCount(responses[..k]) == targetCount;
          assert k != 1;
          assert responses[..k][1..] == responses[1..][..k - 1];
        }
      }
    }
  }

  /** The rows of the responses, each response's rows in order, the responses in arrival order. */
  function AllRows(responses: seq<Response>, rowLength: nat): (rows: seq<Row>)
    requires forall k :: 0 <= k < |responses| ==> WellFormed(responses[k], rowLength)
    ensures |rows| == RowCount(responses)
  {
    if responses == [] then []
    else
      assert WellFormed(responses[0], rowLength);
      DecodeRows(responses[0].values, rowLength, responses[0].count as int) + AllRows(responses[1..], rowLength)
  }

  /**
   * What a finished collection holds: the rows so far, then the rows of the
   * connections up to the first one after which the total is the target, in
   * arrival order and each connection's rows in the order they were read.
   */
  lemma {:induction false} CollectMeaning(targetCount: nat, rowLength: nat, responses: seq<Response>, collected: seq<Row>)
    returns (k: nat)
    requires forall k :: 0 <= k < |responses| ==> WellFormed(responses[k], rowLength)
    requires Collect(targetCount, rowLength, responses, collected).Some?
    ensures 1 <= k <= |responses|
    ensures Collect(targetCount, rowLength, responses, collected) == Some(collected + AllRows(responses[..k], rowLength))
    ensures |collected| + RowCount(responses[..k]) == targetCount
    ensures forall j :: 1 <= j < k ==> |collected| + RowCount(responses[..j]) != targetCount
    decreases |responses|, 1
  {
    var r := responses[0];
    assert WellFormed(r, rowLength);
    var results := collected + DecodeRows(r.values, rowLength, r.count as int);
    if |results| == targetCount {
      k := 1;
      AllRowsPrefix(responses, 1, rowLength);
      assert responses[1..][..0] == [];
      assert AllRows(responses[..1], rowLength) == DecodeRows(r.values, rowLength, r.count as int) + [];
      assert Collect(targetCount, rowLength, responses, collected) == Some(results);
      assert results == collected + AllRows(responses[..1], rowLength);
    } else {
      k := CollectMeaningLater(targetCount, rowLength, responses, collected);
    }
  }

  /** `CollectMeaning` when the first connection does not reach the target. */
  lemma CollectMeaningLater(targetCount: nat, rowLength: nat, responses: seq<Response>, collected: seq<Row>)
    returns (k: nat)
    requires forall k :: 0 <= k < |responses| ==> WellFormed(responses[k], rowLength)
    requires Collect(targetCount, rowLength, responses, collected).Some? && responses != []
    requires |collected| + responses[0].count as int != targetCount
    ensures 1 <= k <= |responses|
    ensures Collect(targetCount, rowLength, responses, collected) == Some(collected + AllRows(responses[..k], rowLength))
    ensures |collected| + RowCount(responses[..k]) == targetCount
    ensures forall j :: 1 <= j < k ==> |collected| + RowCount(responses[..j]) != targetCount
    decreases |responses|, 0
  {
    var r := responses[0];
    assert WellFormed(r, rowLength);
    var rows := DecodeRows(r.values, rowLength, r.count as int);
    var results := collected + rows;
    var k' := CollectMeaning(targetCount, rowLength, responses[1..], results);
    k := k' + 1;
    AllRowsPrefix(responses, k, rowLength);
    var rest := AllRows(responses[1..][..k'], rowLength);
    assert collected + (rows + rest) == results + rest;
    forall j | 1 <= j < k ensures |collected| + RowCount(responses[..j]) != targetCount {
      AllRowsPrefix(responses, j, rowLength);
    }
  }

  /** The rows of the first `k` responses: those of the first, then those of the next `k - 1`. */
  lemma AllRowsPrefix(responses: seq<Response>, k: nat, rowLength: nat)
    requires forall k :: 0 <= k < |responses| ==> WellFormed(responses[k], rowLength)
    requires 1 <= k <= |responses|
    ensures AllRows(responses[..k], rowLength) ==
      DecodeRows(responses[0].values, rowLength, responses[0].count as int) + AllRows(responses[1..][..k - 1], rowLength)
    ensures RowCount(responses[..k]) == responses[0].count as int + RowCount(responses[1..][..k - 1])
  {
    assert responses[..k][0] == responses[0];
    assert responses[..k][1..] == responses[1..][..k - 1];
  }

  /** Once the rows outnumber the target the loop never stops, whatever connections follow. */
  lemma {:induction false} CollectPastTarget(targetCount: nat, rowLength: nat, responses: seq<Response>, collected: seq<Row>)
    requires forall k :: 0 <= k < |responses| ==> WellFormed(responses[k], rowLength)
    requires |collected| > targetCount
    ensures Collect(targetCount, rowLength, responses, collected) == None
  {
    if responses != [] {
      var r := responses[0];
      CollectPastTarget(targetCount, rowLength, responses[1..],
                        collected + DecodeRows(r.values, rowLength, r.count as int));
    }
  }

  /** A client's batch, read back: the rows it wrote, when each has the agreed length. */
  lemma {:induction false} DecodeFlatten(rows: seq<Row>, rowLength: nat)
    requires forall i :: 0 <= i < |rows| ==> |rows[i]| == rowLength
    ensures |Flatten(rows)| == |rows| * rowLength
    ensures DecodeRows(Flatten(rows), rowLength, |rows|) == rows
  {
    if rows != [] {
      var init := rows[..|rows| - 1];
      DecodeFlatten(init, rowLength);
      var values := Flatten(rows);
      assert values == Flatten(init) + rows[|rows| - 1];
      assert (|rows| - 1) * rowLength + rowLength == |rows| * rowLength;
      assert values[..|Flatten(init)|] == Flatten(init);
      DecodePrefix(values, Flatten(init), rowLength, |rows| - 1);
      assert values[(|rows| - 1) * rowLength .. |rows| * rowLength] == rows[|rows| - 1];
      assert init + [rows[|rows| - 1]] == rows;
    }
  }

  /** Decoding reads only the values of the requested rows. */
  lemma {:induction false} DecodePrefix(values: seq<real>, prefix: seq<real>, rowLength: nat, count: nat)
    requires count * rowLength <= |prefix| <= |values| && values[..|prefix|] == prefix
    ensures DecodeRows(values, rowLength, count) == DecodeRows(prefix, rowLength, count)
  {
    if count > 0 {
      RowFits(count - 1, count, rowLength);
      DecodePrefix(values, prefix, rowLength, count - 1);
      var lo, hi := (count - 1) * rowLength, count * rowLength;
      forall i | lo <= i < hi ensures values[i] == prefix[i] {
        assert values[..|prefix|][i] == values[i];
      }
      assert values[lo..hi] == prefix[lo..hi];
    }
  }

  /**
   * The overshoot: a target that falls strictly inside the second connection's
   * rows is passed over and never reached again.
   */
  lemma CollectOvershoot(targetCount: nat, rowLength: nat, first: Response, second: Response, more: seq<Response>)
    requires WellFormed(first, rowLength) && WellFormed(second, rowLength)
    requires forall k :: 0 <= k < |more| ==> WellFormed(more[k], rowLength)
    requires first.count as int < targetCount < first.count as int + second.count as int
    ensures Collect(targetCount, rowLength, [first, second] + more, []) == None
  {
    var rs := [first, second] + more;
    assert rs[1..] == [second] + more;
    assert rs[1..][1..] == more;
    var afterFirst := [] + DecodeRows(first.values, rowLength, first.count as int);
    var afterSecond := afterFirst + DecodeRows(second.values, rowLength, second.count as int);
    CollectPastTarget(targetCount, rowLength, more, afterSecond);
  }

  // ---------------------------------------------------------------- transposition

  /** The `j`-th value of every row; IndexOutOfRangeException if some row is too short. */
  function Column(results: seq<Row>, j: nat): Result<seq<real>, Exception>
  {
    if forall i :: 0 <= i < |results| ==> j < |results[i]| then Ok(seq(|results|, i requires 0 <= i < |results| => results[i][j]))
    else Err(IndexOutOfRange)
  }

  /**
   * The value arrays of the recorded variables: the `j`-th recorded
   * variable, in declaration order, gets column `j`; `Dictionary.Add` throws on
   * a repeated name.
   */
  function Transposed(vs: seq<SimVar>, results: seq<Row>): Result<map<string, seq<real>>, Exception>
  {
    if vs == [] then Ok(map[])
    else
      var v := vs[|vs| - 1];
      var m :- Transposed(vs[..|vs| - 1], results);
      if !v.recorded then Ok(m)
      else
        var values :- Column(results, |RecordedNames(vs[..|vs| - 1])|);
        if v.name in m then Err(DuplicateKey(v.name)) else Ok(m[v.name := values])
  }

  /** The transposition of `ServerProgram.OnAllResponsesCollected` (the statistics and the output that follow are not modelled). */
  method OnAllResponsesCollected(d: SimulationDefinition, results: seq<Row>)
    returns (r: Result<map<string, seq<real>>, Exception>)
    ensures r == Transposed(d.variables, results)
  {
    var vs := d.variables;
    var resultsValueIndex := 0;
    var recordedVariablesResults: map<string, seq<real>> := map[];
    for k := 0 to |vs|
      invariant resultsValueIndex == |RecordedNames(vs[..k])|
      invariant Transposed(vs[..k], results) == Ok(recordedVariablesResults)
    {
      assert vs[..k + 1][..k] == vs[..k];
      var simVar := vs[k];
      if simVar.recorded {
        var simVarValues := CopyColumn(results, resultsValueIndex);
        if simVarValues.Err? {
          TransposedFailurePersists(vs, results, k + 1);
          return Err(IndexOutOfRange);
        }
        if simVar.name in recordedVariablesResults {
          TransposedFailurePersists(vs, results, k + 1);
          return Err(DuplicateKey(simVar.name));
        }
        recordedVariablesResults := recordedVariablesResults[simVar.name := simVarValues.value];
        resultsValueIndex := resultsValueIndex + 1;
      }
    }
    assert vs[..|vs|] == vs;
    return Ok(recordedVariablesResults);
  }

  /** The inner loop of `OnAllResponsesCollected`: value `j` of every row, in row order, into a new array. */
  method CopyColumn(results: seq<Row>, j: nat) returns (r: Result<seq<real>, Exception>)
    ensures r == Column(results, j)
  {
    var simVarValues := new real[|results|](_ => 0.0);
    for i := 0 to |results|
      invariant forall i' :: 0 <= i' < i ==> j < |results[i']|
      invariant simVarValues[..i] == seq(i, i' requires 0 <= i' < i => results[i'][j])
    {
      if j >= |results[i]| {
        return Err(IndexOutOfRange);
      }
      simVarValues[i] := results[i][j];
    }
    assert simVarValues[..] == simVarValues[..|results|];
    return Ok(simVarValues[..]);
  }

  lemma {:induction false} TransposedFailurePersists(vs: seq<SimVar>, results: seq<Row>, k: nat)
    requires k <= |vs| && Transposed(vs[..k], results).Err?
    ensures Transposed(vs, results) == Transposed(vs[..k], results)
    decreases |vs| - k
  {
    if k < |vs| {
      assert vs[..k + 1][..k] == vs[..k];
      TransposedFailurePersists(vs, results, k + 1);
    } else {
      assert vs[..k] == vs;
    }
  }

  /**
   * Transposition: the value array of the `j`-th recorded variable holds the
   * `j`-th value of every row, in row order, and there is one array per recorded variable.
   */
  lemma {:induction false} TransposedMeaning(vs: seq<SimVar>, results: seq<Row>)
    requires Transposed(vs, results).Ok?
    ensures var m := Transposed(vs, results).value;
      var names := RecordedNames(vs);
      m.Keys == (set n | n in names) &&
      forall j :: 0 <= j < |names| ==>
        |m[names[j]]| == |results| &&
        forall i :: 0 <= i < |results| ==> j < |results[i]| && m[names[j]][i] == results[i][j]
  {
    if vs != [] {
      var init := vs[..|vs| - 1];
      var v := vs[|vs| - 1];
      TransposedMeaning(init, results);
      var mi := Transposed(init, results).value;
      var ni := RecordedNames(init);
      var names := RecordedNames(vs);
      var m := Transposed(vs, results).value;
      if v.recorded {
        var column := Column(results, |ni|).value;
        assert names == ni + [v.name];
        assert v.name !in mi;
        assert m == mi[v.name := column];
        assert m.Keys == mi.Keys + {v.name};
        assert (set n | n in names) == (set n | n in ni) + {v.name};
        forall j | 0 <= j < |names|
          ensures |m[names[j]]| == |results|
          ensures forall i :: 0 <= i < |results| ==> j < |results[i]| && m[names[j]][i] == results[i][j]
        {
          if j < |ni| {
            assert names[j] == ni[j] && ni[j] in mi;
          } else {
            assert names[j] == v.name && m[v.name] == column;
          }
        }
      } else {
        assert names == ni && m == mi;
      }
    }
  }

  /** A column exists exactly when every row is long enough. */
  lemma ColumnSucceedsIff(results: seq<Row>, j: nat)
    ensures Column(results, j).Ok? <==> forall i :: 0 <= i < |results| ==> |results[i]| > j
  {
  }

  /** Transposition succeeds exactly when no recorded name repeats and every row has a value for each recorded variable. */
  lemma {:induction false} TransposedSucceedsIff(vs: seq<SimVar>, results: seq<Row>)
    ensures Transposed(vs, results).Ok? <==>
      NoRepeats(RecordedNames(vs)) && forall i :: 0 <= i < |results| ==> |results[i]| >= |RecordedNames(vs)|
  {
    if vs != [] {
      var init := vs[..|vs| - 1];
      var v := vs[|vs| - 1];
      var ni := RecordedNames(init);
      var names := RecordedNames(vs);
      TransposedSucceedsIff(init, results);
      if v.recorded {
        assert names == ni + [v.name];
        var longEnough := forall i :: 0 <= i < |results| ==> |results[i]| >= |names|;
        var longEnoughInit := forall i :: 0 <= i < |results| ==> |results[i]| >= |ni|;
        assert longEnough ==> longEnoughInit;
        ColumnSucceedsIff(results, |ni|);
        assert Column(results, |ni|).Ok? <==> longEnough;
        NoRepeatsSnoc(ni, v.name);
        if Transposed(init, results).Ok? && Column(results, |ni|).Ok? {
          TransposedMeaning(init, results);
          var mi := Transposed(init, results).value;
          assert v.name in mi <==> v.name in ni;
          assert Transposed(vs, results).Ok? <==> v.name !in mi;
        }
      } else {
        assert names == ni;
        assert Transposed(vs, results) == Transposed(init, results);
      }
    }
  }
}
