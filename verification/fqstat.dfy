/**
 The scan of fqstat: after a header line naming the threshold, each matched
 file, in the order the search returned them, gets one output line holding
 its stem and the fraction of its records that are targets. Counters start
 afresh for every file. A file with no records makes the fraction a division
 by zero, which raises and ends the run: the lines already printed stay, no
 later file is read.

 Output is abstract: the header is its threshold, a line is a (stem, percent)
 pair, and percent is an exact `real` rather than a floating-point number.
 */
module FqStat {
  import opened Counting

  datatype Option<T> = None | Some(value: T)

  /** A matched file: its stem and the sequence lengths of its records, in file order. */
  datatype FastqFile = FastqFile(stem: string, lengths: seq<nat>)

  /** The two counters kept for one file. */
  datatype Counts = Counts(totalRecords: nat, totalTargets: nat)

  /** One output line after the header. */
  datatype Line = Line(stem: string, percent: real)

  /** How the run ended: after the last file, or on the division by zero for the named file. */
  datatype Outcome = Finished | ZeroDivision(stem: string)

  /** What a run produces: the header's threshold, the lines printed, how it ended. */
  datatype Output = Output(threshold: int, lines: seq<Line>, outcome: Outcome)

  /** The counters of one file: they depend on that file's records and the threshold only. */
  function FileCounts(file: FastqFile, threshold: int): Counts {
    Counts(|file.lengths|, CountTargets(file.lengths, threshold))
  }

  /** The fraction of target records; there is none when the file has no records. */
  function Percent(c: Counts): (r: Option<real>)
    ensures r.Some? <==> c.totalRecords > 0
    ensures r.Some? ==> r.value * c.totalRecords as real == c.totalTargets as real
    ensures r.Some? && c.totalTargets <= c.totalRecords ==> 0.0 <= r.value <= 1.0
  {
    if c.totalRecords == 0 then None
    else Some(c.totalTargets as real / c.totalRecords as real)
  }

  /** The output line for one file, or none when its division fails. */
  function FileLine(file: FastqFile, threshold: int): (r: Option<Line>)
    ensures r.Some? <==> |file.lengths| > 0
    ensures r.Some? ==> r.value.stem == file.stem
    ensures r.Some? ==> 0.0 <= r.value.percent <= 1.0
    ensures r.Some? ==> r.value.percent * |file.lengths| as real
                        == CountTargets(file.lengths, threshold) as real
  {
    match Percent(FileCounts(file, threshold))
    case None => None
    case Some(p) => Some(Line(file.stem, p))
  }

  /** The whole run over the matched files, in search order. */
  function Scan(files: seq<FastqFile>, threshold: int): (out: Output)
    ensures out.threshold == threshold
    ensures |out.lines| <= |files|
    ensures out.outcome == Finished ==> |out.lines| == |files|
    decreases |files|
  {
    if |files| == 0 then Output(threshold, [], Finished)
    else
      match FileLine(files[0], threshold)
      case None => Output(threshold, [], ZeroDivision(files[0].stem))
      case Some(line) =>
        var rest := Scan(files[1..], threshold);
        Output(threshold, [line] + rest.lines, rest.outcome)
  }

  /**
   What the run prints: line i belongs to file i, in search order, and is
   computed from that file alone; the run finishes exactly when every file has
   a record, and otherwise stops at the first file without one, having printed
   a line for each file before it.
   */
  lemma {:induction false} ScanLines(files: seq<FastqFile>, threshold: int)
    ensures var out := Scan(files, threshold);
      && (forall i | 0 <= i < |out.lines| :: FileLine(files[i], threshold) == Some(out.lines[i]))
      && (out.outcome == Finished <==> forall i | 0 <= i < |files| :: |files[i].lengths| > 0)
      && (out.outcome.ZeroDivision? ==>
            && |out.lines| < |files|
            && |files[|out.lines|].lengths| == 0
            && out.outcome.stem == files[|out.lines|].stem)
    decreases |files|
  {
    if |files| > 0 {
      ScanLines(files[1..], threshold);
      assert forall i | 0 < i < |files| :: files[i] == files[1..][i - 1];
    }
  }

  /**
   Scanning two lists one after the other, when the first finishes: the second
   continues as if scanned alone, so a file's line never depends on the files
   before it.
   */
  lemma {:induction false} ScanAppendFinished(first: seq<FastqFile>, second: seq<FastqFile>, threshold: int)
    requires Scan(first, threshold).outcome == Finished
    ensures Scan(first + second, threshold)
         == Output(threshold, Scan(first, threshold).lines + Scan(second, threshold).lines,
                   Scan(second, threshold).outcome)
    decreases |first|
  {
    if |first| == 0 {
      assert first + second == second;
    } else {
      var whole := first + second;
      assert whole[0] == first[0];
      assert whole[1..] == first[1..] + second;
      var line := FileLine(first[0], threshold).value;
      ScanAppendFinished(first[1..], second, threshold);
      var rest := Scan(first[1..], threshold);
      var tail := Scan(second, threshold);
      assert [line] + (rest.lines + tail.lines) == ([line] + rest.lines) + tail.lines;
    }
  }

  /** When the first list aborts on a file with no records, nothing of the second is read. */
  lemma {:induction false} ScanAppendAborted(first: seq<FastqFile>, second: seq<FastqFile>, threshold: int)
    requires Scan(first, threshold).outcome.ZeroDivision?
    ensures Scan(first + second, threshold) == Scan(first, threshold)
    decreases |first|
  {
    var whole := first + second;
    assert whole[0] == first[0];
    assert whole[1..] == first[1..] + second;
    if FileLine(first[0], threshold).Some? {
      ScanAppendAborted(first[1..], second, threshold);
    }
  }

  /** The run as the source writes it: an outer loop over files around the per-file loop. */
  method RunFqStat(files: seq<FastqFile>, threshold: int) returns (out: Output)
    ensures out == Scan(files, threshold)
  {
    var lines: seq<Line> := [];
    var i := 0;
    while i < |files|
      invariant i <= |files|
      invariant Scan(files[..i], threshold) == Output(threshold, lines, Finished)
      decreases |files| - i
    {
      var file := files[i];
      var totalRecords, totalTargets := CountRecords(file.lengths, threshold);
      if totalRecords == 0 {
        assert files == files[..i] + files[i..];
        ScanAppendFinished(files[..i], files[i..], threshold);
        return Output(threshold, lines, ZeroDivision(file.stem));
      }
      var percent := totalTargets as real / totalRecords as real;
      lines := lines + [Line(file.stem, percent)];
      assert files[..i + 1] == files[..i] + [file];
      ScanAppendFinished(files[..i], [file], threshold);
      i := i + 1;
    }
    assert files[..i] == files;
    out := Output(threshold, lines, Finished);
  }

  /** Scenario: lengths 25 and 35 at threshold 30 give one target of two records. */
  lemma HalfOfTwoRecords()
    ensures Scan([FastqFile("sample", [25, 35])], 30)
         == Output(30, [Line("sample", 0.5)], Finished)
  {
  }

  /** Percent is 1 exactly when every record is a target, 0 exactly when none is. */
  lemma PercentExtremes(file: FastqFile, threshold: int)
    requires |file.lengths| > 0
    ensures FileLine(file, threshold).value.percent == 1.0
        <==> forall i | 0 <= i < |file.lengths| :: file.lengths[i] > threshold
    ensures FileLine(file, threshold).value.percent == 0.0
        <==> forall i | 0 <= i < |file.lengths| :: file.lengths[i] <= threshold
  {
    AllTargets(file.lengths, threshold);
    NoTargets(file.lengths, threshold);
  }

  /** Raising the threshold never raises a file's percent. */
  lemma PercentMonotone(file: FastqFile, low: int, high: int)
    requires |file.lengths| > 0
    requires low <= high
    ensures FileLine(file, high).value.percent <= FileLine(file, low).value.percent
  {
    CountTargetsMonotone(file.lengths, low, high);
    QuotientMonotone(CountTargets(file.lengths, high) as real,
                     CountTargets(file.lengths, low) as real,
                     |file.lengths| as real);
  }

  /** Dividing by the same positive record count keeps the order of the target counts. */
  lemma QuotientMonotone(smaller: real, larger: real, records: real)
    requires smaller <= larger
    requires records > 0.0
    ensures smaller / records <= larger / records
  {
  }
}
