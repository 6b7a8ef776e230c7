/**
 Per-file counting of fqstat: for one FASTQ file, abstracted as the sequence
 of its records' sequence lengths, count every record and count the records
 whose length is strictly greater than the nucleotide threshold.

 The threshold is an `int`: the command line parses it with `int`, so it may
 be zero or negative, and nothing clamps it.
 */
module Counting {

  /** A record is a target when its sequence is strictly longer than the threshold. */
  predicate IsTarget(length: nat, threshold: int) {
    length > threshold
  }

  /** Reference definition: the positions of the target records. */
  function TargetIndices(lengths: seq<nat>, threshold: int): set<nat> {
    set i: nat | i < |lengths| && IsTarget(lengths[i], threshold)
  }

  /** Positions of the records whose length is exactly the threshold. */
  function ExactIndices(lengths: seq<nat>, threshold: int): set<nat> {
    set i: nat | i < |lengths| && lengths[i] == threshold
  }

  /** Number of target records, consuming the records in file order. */
  function CountTargets(lengths: seq<nat>, threshold: int): (r: nat)
    ensures r <= |lengths|
    decreases |lengths|
  {
    if |lengths| == 0 then 0
    else
      var last := |lengths| - 1;
      CountTargets(lengths[..last], threshold) + (if IsTarget(lengths[last], threshold) then 1 else 0)
  }

  /**
   The loop over the parsed records: both counters start at zero, the record
   counter goes up once per record, the target counter once per target.
   */
  method CountRecords(lengths: seq<nat>, threshold: int) returns (totalRecords: nat, totalTargets: nat)
    ensures totalRecords == |lengths|
    ensures totalTargets == CountTargets(lengths, threshold)
    ensures totalTargets <= totalRecords
  {
    totalRecords := 0;
    totalTargets := 0;
    while totalRecords < |lengths|
      invariant totalRecords <= |lengths|
      invariant totalTargets == CountTargets(lengths[..totalRecords], threshold)
      invariant totalTargets <= totalRecords
      decreases |lengths| - totalRecords
    {
      var length := lengths[totalRecords];
      assert lengths[..totalRecords + 1][..totalRecords] == lengths[..totalRecords];
      totalRecords := totalRecords + 1;
      if length > threshold {
        totalTargets := totalTargets + 1;
      }
    }
    assert lengths[..totalRecords] == lengths;
  }

  /** The positions of a sequence extended by one record. */
  lemma TargetIndicesSnoc(lengths: seq<nat>, length: nat, threshold: int)
    ensures TargetIndices(lengths + [length], threshold)
         == TargetIndices(lengths, threshold) + (if IsTarget(length, threshold) then {|lengths|} else {})
  {
  }

  /** The recursive count agrees with the number of target positions. */
  lemma {:induction false} CountTargetsIsTargetIndices(lengths: seq<nat>, threshold: int)
    ensures CountTargets(lengths, threshold) == |TargetIndices(lengths, threshold)|
    decreases |lengths|
  {
    if |lengths| > 0 {
      var last := |lengths| - 1;
      var init := lengths[..last];
      assert lengths == init + [lengths[last]];
      CountTargetsIsTargetIndices(init, threshold);
      TargetIndicesSnoc(init, lengths[last], threshold);
      var before := TargetIndices(init, threshold);
      assert last !in before;
      if IsTarget(lengths[last], threshold) {
        assert before * {last} == {};
        assert |before + {last}| == |before| + 1;
      }
    }
  }

  /** Every record is a target exactly when the count equals the number of records. */
  lemma {:induction false} AllTargets(lengths: seq<nat>, threshold: int)
    ensures CountTargets(lengths, threshold) == |lengths|
        <==> forall i | 0 <= i < |lengths| :: lengths[i] > threshold
    decreases |lengths|
  {
    if |lengths| > 0 {
      var last := |lengths| - 1;
      var init := lengths[..last];
      AllTargets(init, threshold);
      assert forall i | 0 <= i < last :: init[i] == lengths[i];
    }
  }

  /** No record is a target exactly when the count is zero. */
  lemma {:induction false} NoTargets(lengths: seq<nat>, threshold: int)
    ensures CountTargets(lengths, threshold) == 0
        <==> forall i | 0 <= i < |lengths| :: lengths[i] <= threshold
    decreases |lengths|
  {
    if |lengths| > 0 {
      var last := |lengths| - 1;
      var init := lengths[..last];
      NoTargets(init, threshold);
      assert forall i | 0 <= i < last :: init[i] == lengths[i];
    }
  }

  /** Raising the threshold never increases the count of targets. */
  lemma {:induction false} CountTargetsMonotone(lengths: seq<nat>, low: int, high: int)
    requires low <= high
    ensures CountTargets(lengths, high) <= CountTargets(lengths, low)
    decreases |lengths|
  {
    if |lengths| > 0 {
      CountTargetsMonotone(lengths[..|lengths| - 1], low, high);
    }
  }

  /**
   The strict comparison at the boundary: lowering the threshold by one adds
   exactly the records whose length equals the threshold, so those records are
   not targets at the threshold itself.
   */
  lemma ThresholdStep(lengths: seq<nat>, threshold: int)
    ensures CountTargets(lengths, threshold - 1)
         == CountTargets(lengths, threshold) + |ExactIndices(lengths, threshold)|
  {
    var above := TargetIndices(lengths, threshold);
    var exact := ExactIndices(lengths, threshold);
    assert TargetIndices(lengths, threshold - 1) == above + exact;
    assert above * exact == {};
    CountTargetsIsTargetIndices(lengths, threshold);
    CountTargetsIsTargetIndices(lengths, threshold - 1);
  }
}
