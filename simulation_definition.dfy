/**
 * A simulation definition: the number of trials and the ordered variables of
 * one trial, with the checksum that client and server compare and the split
 * of the trials into jobs of 1024 consecutive seeds.
 */
module SimulationDefinitions {
  import opened Wrappers
  import opened Exceptions
  import opened Machine
  import opened ExpressionTrees
  import opened SimulationVariables

  /** The number of trials (seeds) in one job handed to a client. */
  const ClientJobSize: int := 1024

  /** `SimulationDefinition`: the variables in the order of their evaluation. */
  datatype SimulationDefinition = SimulationDefinition(trialCount: uint32, variables: seq<SimVar>)

  /** The names of the variables, in order. */
  function Names(vs: seq<SimVar>): (ns: seq<string>)
    ensures |ns| == |vs| && forall i :: 0 <= i < |vs| ==> ns[i] == vs[i].name
  {
    if vs == [] then [] else Names(vs[..|vs| - 1]) + [vs[|vs| - 1].name]
  }

  /** The names of the recorded variables, in order. */
  function RecordedNames(vs: seq<SimVar>): seq<string>
  {
    if vs == [] then []
    else RecordedNames(vs[..|vs| - 1]) + (if vs[|vs| - 1].recorded then [vs[|vs| - 1].name] else [])
  }

  /** The set of the variables' names. */
  function NameSet(vs: seq<SimVar>): set<string>
  {
    set i | 0 <= i < |vs| :: vs[i].name
  }

  /** No name is declared twice. */
  predicate DistinctNames(vs: seq<SimVar>)
  {
    forall i, j :: 0 <= i < j < |vs| ==> vs[i].name != vs[j].name
  }

  /** The names of a longer prefix: those of the shorter one and the next name; all of them are names of the whole list. */
  lemma NameSetPrefix(vs: seq<SimVar>, k: nat)
    requires k < |vs|
    ensures NameSet(vs[..k + 1]) == NameSet(vs[..k]) + {vs[k].name}
    ensures NameSet(vs[..k]) <= NameSet(vs) && vs[k].name in NameSet(vs)
  {
    var p := vs[..k + 1];
    forall n | n in NameSet(p) ensures n in NameSet(vs[..k]) + {vs[k].name} {
      var i :| 0 <= i < |p| && p[i].name == n;
      if i < k { assert vs[..k][i] == p[i]; }
    }
    forall n | n in NameSet(vs[..k]) ensures n in NameSet(p) && n in NameSet(vs) {
      var i :| 0 <= i < k && vs[..k][i].name == n;
      assert p[i] == vs[..k][i] == vs[i];
    }
    assert p[k] == vs[k];
  }

  /** The names of a list: those of all but its last variable, and the last one's. */
  lemma NameSetLast(vs: seq<SimVar>)
    requires vs != []
    ensures NameSet(vs) == NameSet(vs[..|vs| - 1]) + {vs[|vs| - 1].name}
  {
    NameSetPrefix(vs, |vs| - 1);
    assert vs[..|vs|] == vs;
  }

  /** No string occurs twice. */
  predicate NoRepeats(s: seq<string>)
  {
    forall i, j :: 0 <= i < j < |s| ==> s[i] != s[j]
  }

  /** A list extended by one entry has no repeats exactly when the list has none and lacks the entry. */
  lemma NoRepeatsSnoc(s: seq<string>, x: string)
    ensures NoRepeats(s + [x]) <==> NoRepeats(s) && x !in s
  {
    var t := s + [x];
    if NoRepeats(t) {
      forall i, j | 0 <= i < j < |s| ensures s[i] != s[j] {
        assert t[i] == s[i] && t[j] == s[j];
      }
      forall i | 0 <= i < |s| ensures s[i] != x {
        assert t[i] == s[i] && t[|s|] == x;
      }
    }
    if NoRepeats(s) && x !in s {
      forall i, j | 0 <= i < j < |t| ensures t[i] != t[j] {
        if j < |s| { assert t[i] == s[i] && t[j] == s[j]; }
        else { assert t[i] == s[i]; }
      }
    }
  }

  /** Distinct names make distinct recorded names. */
  lemma {:induction false} RecordedNamesNoRepeats(vs: seq<SimVar>)
    requires DistinctNames(vs)
    ensures NoRepeats(RecordedNames(vs))
    ensures forall n :: n in RecordedNames(vs) ==> n in NameSet(vs)
  {
    if vs != [] {
      var init := vs[..|vs| - 1];
      var v := vs[|vs| - 1];
      assert DistinctNames(init) by {
        forall i, j | 0 <= i < j < |init| ensures init[i].name != init[j].name {
          assert vs[i] == init[i] && vs[j] == init[j];
        }
      }
      RecordedNamesNoRepeats(init);
      NameSetLast(vs);
      assert v.name !in NameSet(init) by {
        forall i | 0 <= i < |init| ensures init[i].name != v.name {
          assert vs[i] == init[i];
        }
      }
    }
  }

  /** A list without repeats has as many distinct elements as entries. */
  lemma {:induction false} NoRepeatsCardinality(s: seq<string>)
    requires NoRepeats(s)
    ensures |set n | n in s| == |s|
  {
    if s != [] {
      var init := s[..|s| - 1];
      assert NoRepeats(init) by {
        forall i, j | 0 <= i < j < |init| ensures init[i] != init[j] {
          assert s[i] == init[i] && s[j] == init[j];
        }
      }
      NoRepeatsCardinality(init);
      assert s == init + [s[|s| - 1]];
      assert (set n | n in s) == (set n | n in init) + {s[|s| - 1]};
      assert s[|s| - 1] !in init by {
        forall i | 0 <= i < |init| ensures init[i] != s[|s| - 1] {
          assert s[i] == init[i];
        }
      }
    }
  }

  /** Every expression refers only to variables declared before it. */
  predicate DeclaredBeforeUse(vs: seq<SimVar>)
  {
    forall k :: 0 <= k < |vs| && vs[k].kind.Expression? ==> Vars(vs[k].kind.tree) <= NameSet(vs[..k])
  }

  // ---------------------------------------------------------------- checksum

  /** The sum of the characters of `s`, each cast to a byte (`(byte)c` keeps its low eight bits). */
  function CharSum(s: string): nat
  {
    if s == [] then 0 else CharSum(s[..|s| - 1]) + (s[|s| - 1] as int) % 256
  }

  /** What one variable adds to the checksum: its name's characters and one if it is recorded. */
  function Weight(v: SimVar): nat
  {
    CharSum(v.name) + if v.recorded then 1 else 0
  }

  function WeightSum(vs: seq<SimVar>): nat
  {
    if vs == [] then 0 else WeightSum(vs[..|vs| - 1]) + Weight(vs[|vs| - 1])
  }

  /** The checksum as a closed form: the byte sum, modulo 256, of the trial count and the variables' weights. */
  function Checksum(d: SimulationDefinition): byte
  {
    (d.trialCount + WeightSum(d.variables)) % 256
  }

  /**
   * `SimulationDefinition.GenerateChecksum`: a byte accumulator, wrapping at 256,
   * to which the trial count, every character of every name and one per
   * recorded variable are added.
   */
  method GenerateChecksum(d: SimulationDefinition) returns (value: byte)
    ensures value == Checksum(d)
  {
    value := 0;
    value := (value + d.trialCount % 256) % 256;
    ModAdd(d.trialCount, 0, 256);
    for i := 0 to |d.variables|
      invariant value == (d.trialCount + WeightSum(d.variables[..i])) % 256
    {
      var v := d.variables[i];
      ghost var before := d.trialCount + WeightSum(d.variables[..i]);
      value := AddNameCharacters(value, v.name, before);
      if v.recorded {
        ModAdd(before + CharSum(v.name), 1, 256);
        value := (value + 1) % 256;
      }
      assert d.variables[..i + 1][..i] == d.variables[..i];
    }
    assert d.variables[..|d.variables|] == d.variables;
  }

  /** The inner loop of `GenerateChecksum`: adds every character of `name`, as a byte, to the accumulator. */
  method AddNameCharacters(value: byte, name: string, ghost before: int) returns (r: byte)
    requires value == before % 256
    ensures r == (before + CharSum(name)) % 256
  {
    r := value;
    for j := 0 to |name|
      invariant r == (before + CharSum(name[..j])) % 256
    {
      assert name[..j + 1][..j] == name[..j];
      ModAdd(before + CharSum(name[..j]), (name[j] as int) % 256, 256);
      r := (r + (name[j] as int) % 256) % 256;
    }
    assert name[..|name|] == name;
  }

  lemma {:induction false} WeightSumAppend(a: seq<SimVar>, b: seq<SimVar>)
    ensures WeightSum(a + b) == WeightSum(a) + WeightSum(b)
  {
    if b != [] {
      WeightSumAppend(a, b[..|b| - 1]);
      assert (a + b)[..|a + b| - 1] == a + b[..|b| - 1];
    } else {
      assert a + b == a;
    }
  }

  /** The weights do not depend on the order of the variables. */
  lemma {:induction false} WeightSumPermutation(a: seq<SimVar>, b: seq<SimVar>)
    requires multiset(a) == multiset(b)
    ensures WeightSum(a) == WeightSum(b)
  {
    if a != [] {
      var x := a[|a| - 1];
      var a' := a[..|a| - 1];
      assert a == a' + [x];
      assert x in multiset(b);
      var k :| 0 <= k < |b| && b[k] == x;
      var b' := b[..k] + b[k + 1..];
      RemoveLast(a, b, k);
      WeightSumPermutation(a', b');
      WeightSumRemove(b, k);
    }
  }

  /** Taking the last element of `a` out of `a` and the same element out of `b` keeps the multisets equal. */
  lemma RemoveLast(a: seq<SimVar>, b: seq<SimVar>, k: nat)
    requires multiset(a) == multiset(b) && a != [] && k < |b| && b[k] == a[|a| - 1]
    ensures multiset(a[..|a| - 1]) == multiset(b[..k] + b[k + 1..])
  {
    var x := a[|a| - 1];
    var a' := a[..|a| - 1];
    assert a == a' + [x];
    assert b == b[..k] + [x] + b[k + 1..];
    assert multiset(b) == multiset(b[..k]) + multiset([x]) + multiset(b[k + 1..]);
    assert multiset(a) == multiset(a') + multiset([x]);
    assert multiset(b[..k] + b[k + 1..]) == multiset(b[..k]) + multiset(b[k + 1..]);
    assert multiset(a') == multiset(a) - multiset([x]);
    assert multiset(b[..k] + b[k + 1..]) == multiset(b) - multiset([x]);
  }

  /** A sequence is what comes before its `k`-th element, that element, and what comes after it. */
  lemma SliceAround<T>(b: seq<T>, k: nat)
    requires k < |b|
    ensures b == (b[..k] + [b[k]]) + b[k + 1..]
  {
    assert b[k..] == [b[k]] + b[k + 1..];
    assert b == b[..k] + b[k..];
  }

  /** Taking out one variable takes out its weight. */
  lemma WeightSumRemove(b: seq<SimVar>, k: nat)
    requires k < |b|
    ensures WeightSum(b) == WeightSum(b[..k] + b[k + 1..]) + Weight(b[k])
  {
    var left, x, right := b[..k], b[k], b[k + 1..];
    SliceAround(b, k);
    WeightSumAppend(left + [x], right);
    WeightSumAppend(left, [x]);
    assert WeightSum([x]) == Weight(x) by {
      assert [x][..0] == [];
    }
    WeightSumAppend(left, right);
  }

  /**
   * The checksum is a weak equality test: changing the kinds, bounds and
   * expressions of the variables goes unnoticed.
   */
  lemma ChecksumIgnoresKinds(d1: SimulationDefinition, d2: SimulationDefinition)
    requires d1.trialCount == d2.trialCount
    requires |d1.variables| == |d2.variables|
    requires forall i :: 0 <= i < |d1.variables| ==>
      d1.variables[i].name == d2.variables[i].name && d1.variables[i].recorded == d2.variables[i].recorded
    ensures Checksum(d1) == Checksum(d2)
  {
    SameWeights(d1.variables, d2.variables);
  }

  lemma {:induction false} SameWeights(a: seq<SimVar>, b: seq<SimVar>)
    requires |a| == |b|
    requires forall i :: 0 <= i < |a| ==> a[i].name == b[i].name && a[i].recorded == b[i].recorded
    ensures WeightSum(a) == WeightSum(b)
  {
    if a != [] {
      SameWeights(a[..|a| - 1], b[..|b| - 1]);
    }
  }

  /** Nor is reordering noticed: permuting the variables leaves the checksum unchanged. */
  lemma ChecksumPermutation(d1: SimulationDefinition, d2: SimulationDefinition)
    requires d1.trialCount == d2.trialCount && multiset(d1.variables) == multiset(d2.variables)
    ensures Checksum(d1) == Checksum(d2)
  {
    WeightSumPermutation(d1.variables, d2.variables);
  }

  /** Trial counts that differ by a multiple of 256 give the same checksum; a nonzero difference below 256 is always caught. */
  lemma ChecksumTrialCount(d1: SimulationDefinition, d2: SimulationDefinition)
    requires d1.variables == d2.variables
    ensures (d1.trialCount - d2.trialCount) % 256 == 0 <==> Checksum(d1) == Checksum(d2)
  {
    var w := WeightSum(d1.variables);
    ModUnique(d1.trialCount + w, 256, (d1.trialCount + w) / 256, Checksum(d1));
    ModUnique(d2.trialCount + w, 256, (d2.trialCount + w) / 256, Checksum(d2));
    var q := (d1.trialCount + w) / 256 - (d2.trialCount + w) / 256;
    assert d1.trialCount - d2.trialCount == 256 * q + (Checksum(d1) - Checksum(d2));
    if Checksum(d1) >= Checksum(d2) {
      ModUnique(d1.trialCount - d2.trialCount, 256, q, Checksum(d1) - Checksum(d2));
    } else {
      ModUnique(d1.trialCount - d2.trialCount, 256, q - 1, 256 + Checksum(d1) - Checksum(d2));
    }
  }

  // ------------------------------------------------------------------- seeds

  /**
   * The first and last seed of job `index`, computed as the source does: in
   * unchecked `uint` and `int` arithmetic, the last job (detected by a
   * floating-point comparison, exact for these magnitudes) ending at the trial count.
   */
  function JobBounds(trialCount: uint32, index: uint32): (int32, int32)
  {
    var minSeed := WrapInt32(WrapUInt32(ClientJobSize * index));
    var isFinal := trialCount < ClientJobSize ||
      ((trialCount - ClientJobSize) as real) / (ClientJobSize as real) < index as real;
    var maxSeed :=
      if isFinal then WrapInt32(WrapInt32(trialCount) - 1)
      else WrapInt32(WrapInt32(WrapUInt32(ClientJobSize * WrapUInt32(index + 1))) - 1);
    (minSeed, maxSeed)
  }

  /**
   * The outcome of filling an array of length `maxSeed - minSeed + 1` (unchecked)
   * with the seeds `minSeed, minSeed + 1, ...` while they do not exceed `maxSeed`:
   * OverflowException for a negative length, IndexOutOfRangeException when the
   * loop outruns the array (it never stops if `maxSeed` is `int.MaxValue`), and
   * otherwise the array, zeros included where the loop did not reach.
   */
  function SeedsOutcome(minSeed: int32, maxSeed: int32): Result<seq<int32>, Exception>
  {
    var len := WrapInt32(maxSeed - minSeed + 1);
    if len < 0 then Err(Overflow)
    else if minSeed > maxSeed then Ok(seq(len, _ => 0))
    else if maxSeed == IntMax || maxSeed - minSeed + 1 > len then Err(IndexOutOfRange)
    else Ok(seq(len, k requires 0 <= k < len => minSeed + k))
  }

  /** `SimulationDefinition.GetSeedsFromJobIndex`: the seeds of the job with the given index. */
  method GetSeedsFromJobIndex(d: SimulationDefinition, index: uint32) returns (r: Result<seq<int32>, Exception>)
    ensures r == SeedsOutcome(JobBounds(d.trialCount, index).0, JobBounds(d.trialCount, index).1)
  {
    var (minSeed, maxSeed) := JobBounds(d.trialCount, index);
    r := FillSeeds(minSeed, maxSeed);
  }

  /** The array-filling loop of `GetSeedsFromJobIndex`, for given bounds. */
  method FillSeeds(minSeed: int32, maxSeed: int32) returns (r: Result<seq<int32>, Exception>)
    ensures r == SeedsOutcome(minSeed, maxSeed)
  {
    var len := WrapInt32(maxSeed - minSeed + 1);
    if len < 0 {
      return Err(Overflow);
    }
    var output := new int32[len](_ => 0);
    var outputIndex := 0;
    var i := minSeed;
    while i <= maxSeed
      invariant 0 <= outputIndex <= len
      invariant i == WrapInt32(minSeed + outputIndex)
      invariant forall j :: 0 <= j < outputIndex ==> output[j] == WrapInt32(minSeed + j)
      invariant forall j :: outputIndex <= j < len ==> output[j] == 0
      invariant maxSeed < IntMax ==>
        if minSeed <= maxSeed then minSeed + outputIndex <= maxSeed + 1 else outputIndex == 0
      decreases len - outputIndex
    {
      if outputIndex >= len {
        assert minSeed <= maxSeed;
        assert maxSeed == IntMax || maxSeed - minSeed + 1 > len;
        return Err(IndexOutOfRange);
      }
      output[outputIndex] := i;
      outputIndex := outputIndex + 1;
      WrapInt32Succ(minSeed + outputIndex - 1);
      i := WrapInt32(i + 1);
    }
    if minSeed > maxSeed {
      assert output[..] == seq(len, _ => 0);
    } else {
      assert maxSeed < IntMax;
      assert outputIndex == maxSeed - minSeed + 1;
      assert len == outputIndex;
      assert output[..] == seq(len, k requires 0 <= k < len => minSeed + k);
    }
    r := Ok(output[..]);
  }

  /** The seeds `[start, start + n)`. */
  function SeedRange(start: int, n: nat): seq<int>
  {
    seq(n, k => start + k)
  }

  function Min(a: int, b: int): int { if a < b then a else b }

  /** The floating-point test for the last job means: this job reaches the trial count. */
  lemma FinalJobTest(trialCount: uint32, index: uint32)
    ensures (trialCount < ClientJobSize ||
             ((trialCount - ClientJobSize) as real) / (ClientJobSize as real) < index as real)
        <==> trialCount < ClientJobSize * (index + 1)
  {
  }

  /**
   * Without wrap-around (trial count and first seed within `int`), job `index`
   * holds the seeds from `1024 * index` up to the next multiple of 1024 or the
   * trial count, whichever comes first; a job starting past the trial count throws.
   */
  lemma JobSeeds(trialCount: uint32, index: uint32)
    requires trialCount <= IntMax && ClientJobSize * index <= IntMax
    ensures var (lo, hi) := JobBounds(trialCount, index);
      && (ClientJobSize * index <= trialCount ==>
            SeedsOutcome(lo, hi) ==
              Ok(SeedRange(ClientJobSize * index, Min(ClientJobSize, trialCount - ClientJobSize * index))))
      && (ClientJobSize * index > trialCount ==> SeedsOutcome(lo, hi) == Err(Overflow))
  {
    FinalJobTest(trialCount, index);
    var (lo, hi) := JobBounds(trialCount, index);
    assert lo == ClientJobSize * index;
    if trialCount >= ClientJobSize * (index + 1) {
      assert hi == ClientJobSize * (index + 1) - 1;
      assert SeedsOutcome(lo, hi).value == SeedRange(lo, ClientJobSize);
    } else {
      assert hi == trialCount - 1;
      if lo < trialCount {
        assert SeedsOutcome(lo, hi).value == SeedRange(lo, trialCount - lo);
      } else if lo == trialCount {
        assert hi - lo + 1 == 0 && WrapInt32(hi - lo + 1) == 0;
        assert |SeedsOutcome(lo, hi).value| == 0;
        assert SeedRange(lo, 0) == [];
      }
    }
  }

  /**
   * The jobs partition the seeds: within the no-wrap range every seed below
   * the trial count is in job `seed / 1024`, at position `seed % 1024`, and in no other job.
   */
  lemma SeedPartition(trialCount: uint32, seed: int, index: uint32)
    requires trialCount <= IntMax && 0 <= seed < trialCount
    requires ClientJobSize * index <= IntMax
    ensures var j := seed / ClientJobSize;
      && 0 <= j < TwoTo32
      && (var (lo, hi) := JobBounds(trialCount, j);
          var o := SeedsOutcome(lo, hi);
          o.Ok? && seed % ClientJobSize < |o.value| && o.value[seed % ClientJobSize] == seed)
    ensures var (lo, hi) := JobBounds(trialCount, index);
      var o := SeedsOutcome(lo, hi);
      o.Ok? && seed in o.value ==> index == seed / ClientJobSize
  {
    var j := seed / ClientJobSize;
    JobSeeds(trialCount, j);
    JobSeeds(trialCount, index);
    var (lo, hi) := JobBounds(trialCount, index);
    var o := SeedsOutcome(lo, hi);
    if o.Ok? && seed in o.value {
      var k :| 0 <= k < |o.value| && o.value[k] == seed;
      assert seed == ClientJobSize * index + k && k < ClientJobSize;
      ModUnique(seed, ClientJobSize, index, k);
    }
  }

  /**
   * Past `int.MaxValue` the seeds wrap: with 3000000000 trials, job 2097152
   * starts at `(int)(1024 * 2097152)`, which is `int.MinValue`, and holds 1024
   * negative seeds, none of them in the range `[0, 3000000000)` of trials.
   */
  lemma LargeTrialCountWraps()
    ensures JobBounds(3000000000, 2097152) == (IntMin, IntMin + 1023)
    ensures SeedsOutcome(IntMin, IntMin + 1023) == Ok(SeedRange(IntMin, ClientJobSize))
    ensures forall k :: 0 <= k < ClientJobSize ==> SeedRange(IntMin, ClientJobSize)[k] < 0
  {
    assert WrapUInt32(ClientJobSize * 2097152) == 0x8000_0000;
    assert WrapInt32(0x8000_0000) == IntMin;
    assert WrapUInt32(2097152 + 1) == 2097153;
    assert WrapUInt32(ClientJobSize * 2097153) == 0x8000_0400;
    assert WrapInt32(0x8000_0400) == IntMin + 1024;
    assert WrapInt32(IntMin + 1024 - 1) == IntMin + 1023;
    assert WrapInt32(IntMin + 1023 - IntMin + 1) == 1024;
    assert SeedsOutcome(IntMin, IntMin + 1023).value == SeedRange(IntMin, ClientJobSize);
    forall k | 0 <= k < ClientJobSize ensures SeedRange(IntMin, ClientJobSize)[k] < 0 {
      assert SeedRange(IntMin, ClientJobSize)[k] == IntMin + k;
    }
  }
}
