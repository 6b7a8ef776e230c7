# fqstat, per-file target counting

fqstat searches a directory tree for FASTQ files. For each matched file it
counts the records and the "targets", meaning records whose nucleotide
sequence is strictly longer than a threshold (`--nucleotides`, default 30).
It prints a header line, then one line per file with the file's stem and
the fraction `targets / records`.

This project models that counting and reporting. Each matched file is
abstracted to its stem and the sequence lengths of its records, in file
order (`FqStat.FastqFile`). The threshold is an unbounded `int`, because the
command line parses it with `int` and never clamps it. The fraction is an
exact `real`.

- `counting.dfy`, module `Counting`: the inner loop over one file's
  records. `CountTargets` is a recursive count. `TargetIndices` is an
  independent set-of-positions definition. `CountRecords` is the loop with
  the two counters. `IsTarget` is the strict `>` test at fqstat/fqstat.py:57,
  and every count is built on it.
- `fqstat.dfy`, module `FqStat`: the fraction, the per-file output line and
  the outer loop over files. `Scan` is a functional fold and `RunFqStat` is
  the imperative loop. `FileCounts` gives one file's two counters
  (fqstat/fqstat.py:50-58), and the fraction and output line are built on
  it. The outer loop returns an `Output`, which holds:
  - the header's threshold;
  - the lines printed;
  - how the run ended: `Finished`, or `ZeroDivision(stem)` when a file has no
    records.

  The source divides without a guard, so a file with no records raises and
  ends the run. The lines already printed remain, and no later file is read.

## Behaviour

- An empty list of matched files prints the header alone and finishes
  (`Scan` of `[]` is `Output(n, [], Finished)`).
- A file with zero records raises `ZeroDivisionError` at fqstat/fqstat.py:60
  and ends the run. The model records this as the `ZeroDivision` outcome.
- Output is tab-separated lines on standard output. Nothing else is written.

## Model

| member | source | states |
|---|---|---|
| Counting.CountTargets | fqstat/fqstat.py:55-58 | the number of target records never exceeds the number of records |
| Counting.CountRecords | fqstat/fqstat.py:50-58 | the loop leaves `total_records` equal to the number of records whatever their lengths, `total_targets` equal to the number of targets, and `total_targets <= total_records` (also a loop invariant) |
| Counting.CountTargetsIsTargetIndices | fqstat/fqstat.py:57-58 | the count equals the number of positions whose length is strictly greater than the threshold |
| Counting.AllTargets | fqstat/fqstat.py:57-58 | every record is counted as a target if and only if every record is longer than the threshold |
| Counting.NoTargets | fqstat/fqstat.py:57-58 | no record is counted if and only if no record is longer than the threshold |
| Counting.CountTargetsMonotone | fqstat/fqstat.py:57 | raising the threshold never increases the number of targets for the same records |
| Counting.ThresholdStep | fqstat/fqstat.py:57 | the count at threshold `n - 1` exceeds the count at `n` by exactly the number of records of length `n`, so a record of length exactly `n` is not a target at `n` |
| FqStat.Percent | fqstat/fqstat.py:60 | the division is defined exactly when there is at least one record; then `percent * records == targets`, and `percent` lies in [0, 1] when `targets <= records` |
| FqStat.FileLine | fqstat/fqstat.py:55-61 | a file gets a line exactly when it has a record; the line carries the file's stem and a percent in [0, 1] with `percent * records == targets` |
| FqStat.Scan | fqstat/fqstat.py:47-61 | the output's header carries the threshold; there are at most as many lines as files, and exactly one per file when the run finishes |
| FqStat.ScanLines | fqstat/fqstat.py:48-61 | line `i` is the line of file `i`, computed from that file alone; the run finishes if and only if every file has a record; otherwise it stops at the first file without one, after one line for each earlier file |
| FqStat.ScanAppendFinished | fqstat/fqstat.py:48-51 | counters reset per file: after a finished list, scanning more files appends exactly the lines and the outcome those files give on their own |
| FqStat.ScanAppendAborted | fqstat/fqstat.py:48-60 | once a file's division fails, files after it change nothing in the output |
| FqStat.RunFqStat | fqstat/fqstat.py:44-61 | the imperative outer loop, with fresh counters per file, produces exactly the output of the fold `Scan` |
| FqStat.HalfOfTwoRecords | fqstat/fqstat.py:55-61 | a file `sample` with records of lengths 25 and 35 at threshold 30 gives the single line `("sample", 0.5)` |
| FqStat.PercentExtremes | fqstat/fqstat.py:57-60 | a file's percent is 1 if and only if every record is longer than the threshold, and 0 if and only if none is |
| FqStat.PercentMonotone | fqstat/fqstat.py:57-60 | raising the threshold never raises a file's percent |

## Left out

- File search (`search`, `Path.glob`, fqstat/fqstat.py:21-42): filesystem traversal. The matched files are an input list, in the order the search returned them.
- FASTQ parsing (`SeqIO.parse`, fqstat/fqstat.py:55): Biopython is not part of this model. Each file is given as the sequence lengths of its records. Parse errors from malformed files are not modelled.
- Opening files and file handles (fqstat/fqstat.py:49): I/O. Unreadable files are not modelled.
- Printing and text formatting (`err` and `print`, fqstat/fqstat.py:13-19, 47, 61): the header is represented by its threshold and a line by a (stem, percent) pair. Python's float division and float-to-string rendering are replaced by exact `real` division.
- FqStat.Percent: the percent is an exact `real`, not a correctly rounded double. Its `percent * records == targets` clause, and the same clause on `FqStat.FileLine`, hold for exact reals only. For example, a double computing `1/49*49` gives `0.9999999999999999`.
- The command line (`cli`, fqstat/fqstat.py:63-112): argument parsing only. The `verbose` flag is accepted but never used by `fqstat` (fqstat/fqstat.py:44), so the model has no such parameter.
- Stems are opaque strings. How a path's stem is computed is part of the left-out path handling.
- setup.py: packaging metadata, no logic.
