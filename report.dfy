/**
 * The results file and the two procedures that write it:
 * `process_xml_files_recursively`, which appends the lines of one scan, and
 * `main`, which truncates the file once and then scans once per target code.
 * The file is a sequence of lines; a ghost log records every write made to
 * it, so that the contracts can say in which order the writes happened.
 */
module Report {
  import opened Wrappers
  import opened PyStrings
  import opened Xml
  import opened CodeLoader
  import opened Scanner
  import opened Seqs

  /** One write to the results file. */
  datatype Event =
    | Truncated             // `open(results_file, 'w')`
    | Appended(line: string) // `result_f.write(line)` on the file opened with mode 'a'

  /** The writes that append `lines`, one after the other. */
  function Appends(lines: seq<string>): (events: seq<Event>)
    ensures |events| == |lines|
  {
    if lines == [] then [] else [Appended(lines[0])] + Appends(lines[1..])
  }

  /** The `i`-th write appends the `i`-th line. */
  lemma {:induction false} AppendsAt(lines: seq<string>, i: nat)
    requires i < |lines|
    ensures Appends(lines)[i] == Appended(lines[i])
  {
    if i > 0 {
      AppendsAt(lines[1..], i - 1);
    }
  }

  /** Appending two runs of lines is appending one, then the other. */
  lemma {:induction false} AppendsConcat(a: seq<string>, b: seq<string>)
    ensures Appends(a + b) == Appends(a) + Appends(b)
  {
    if a == [] {
      ConcatEmpty(b);
      ConcatEmpty(Appends(b));
    } else {
      TailOfConcat(a, b);
      AppendsConcat(a[1..], b);
      ConcatAssoc([Appended(a[0])], Appends(a[1..]), Appends(b));
    }
  }

  /** Appending a single line is a single write. */
  lemma AppendsSingle(line: string)
    ensures Appends([line]) == [Appended(line)]
  {
    SingletonTail(line);
    ConcatEmpty([Appended(line)]);
  }

  /** Appending one more line is one more write. */
  lemma AppendsSnoc(a: seq<string>, line: string)
    ensures Appends(a + [line]) == Appends(a) + [Appended(line)]
  {
    AppendsConcat(a, [line]);
    AppendsSingle(line);
  }

  /** Appending `done` and then `more` to a file appends `done + more`, and logs it so. */
  lemma AppendMore(lines: seq<string>, log: seq<Event>, done: seq<string>, more: seq<string>)
    ensures (lines + done) + more == lines + (done + more)
    ensures (log + Appends(done)) + Appends(more) == log + Appends(done + more)
  {
    ConcatAssoc(lines, done, more);
    ConcatAssoc(log, Appends(done), Appends(more));
    AppendsConcat(done, more);
  }

  /** What the file holds after `events`, when it held `initial` before them. */
  function Replay(initial: seq<string>, events: seq<Event>): seq<string> {
    if events == [] then initial
    else
      var before := Replay(initial, events[..|events| - 1]);
      match events[|events| - 1]
      case Truncated => []
      case Appended(line) => before + [line]
  }

  /** Appending never overwrites: the file keeps what it held and gains the new lines at its end. */
  lemma {:induction false} ReplayAppends(initial: seq<string>, events: seq<Event>, lines: seq<string>)
    ensures Replay(initial, events + Appends(lines)) == Replay(initial, events) + lines
    decreases |lines|
  {
    if lines == [] {
      ConcatEmpty(events);
      ConcatEmpty(Replay(initial, events));
    } else {
      var n := |lines| - 1;
      var front, last := lines[..n], lines[n];
      TakeSnoc(lines, n);
      assert lines[..n + 1] == lines;
      AppendsSnoc(front, last);
      var prefix := events + Appends(front);
      ConcatAssoc(events, Appends(front), [Appended(last)]);
      DropLast(prefix, Appended(last));
      ReplayAppends(initial, events, front);
      ConcatAssoc(Replay(initial, events), front, [last]);
    }
  }

  /** After a truncation followed by appends, the file holds exactly the appended lines, whatever it held before. */
  lemma ReplayAfterTruncate(initial: seq<string>, events: seq<Event>, lines: seq<string>)
    ensures Replay(initial, events + [Truncated] + Appends(lines)) == lines
  {
    var cut := events + [Truncated];
    DropLast(events, Truncated);
    ReplayAppends(initial, cut, lines);
    ConcatEmpty(lines);
  }

  /** In a truncation followed by appends, the truncation is the first write and the only one. */
  lemma TruncatedOnlyFirst(lines: seq<string>)
    ensures var events := [Truncated] + Appends(lines);
            forall i :: 0 <= i < |events| ==> (events[i].Truncated? <==> i == 0)
  {
    var events := [Truncated] + Appends(lines);
    forall i | 1 <= i < |events| ensures events[i].Appended? {
      AppendsAt(lines, i - 1);
    }
  }

  /** The results file: its lines, and the ghost log of the writes made to it here. */
  class ReportFile {
    var lines: seq<string>
    ghost var log: seq<Event>

    /** A results file that already holds `existing`, possibly left over from an earlier run. */
    constructor (existing: seq<string>)
      ensures lines == existing && log == []
    {
      lines := existing;
      log := [];
    }

    /** `open(results_file, 'w').close()`: empty the file. */
    method Truncate()
      modifies this
      ensures lines == [] && log == old(log) + [Truncated]
    {
      lines := [];
      log := log + [Truncated];
    }

    /** `result_f.write(line)` on the file opened for appending. */
    method Write(line: string)
      modifies this
      ensures lines == old(lines) + [line] && log == old(log) + [Appended(line)]
    {
      lines := lines + [line];
      log := log + [Appended(line)];
    }
  }

  /**
   * One pass of the loop over the candidates, for a candidate with text: its
   * stripped text is compared with the target, and a match writes its line.
   */
  method ScanCandidate(report: ReportFile, path: string, candidate: Element, target: string)
    requires candidate.text.Some?
    modifies report
    ensures report.lines == old(report.lines) + MatchLines(path, [candidate], target)
    ensures report.log == old(report.log) + Appends(MatchLines(path, [candidate], target))
  {
    MatchLinesSingle(path, candidate, target);
    var code := Strip(candidate.text.value);
    if code == target {
      var line := ReportLine(path, code);
      report.Write(line);
      AppendsSingle(line);
    } else {
      ConcatEmpty(old(report.lines));
      ConcatEmpty(old(report.log));
    }
  }

  /** After one more candidate with text, the file and its log hold the lines of one more candidate. */
  lemma CandidateStep(lines0: seq<string>, log0: seq<Event>, path: string, found: seq<Element>, j: nat, target: string)
    requires j < |found| && TextBefore(found, j) && found[j].text.Some?
    ensures TextBefore(found, j + 1)
    ensures (lines0 + MatchLines(path, found[..j], target)) + MatchLines(path, [found[j]], target)
         == lines0 + MatchLines(path, found[..j + 1], target)
    ensures (log0 + Appends(MatchLines(path, found[..j], target))) + Appends(MatchLines(path, [found[j]], target))
         == log0 + Appends(MatchLines(path, found[..j + 1], target))
  {
    MatchLinesStepText(path, found, j, target);
    AppendMore(lines0, log0, MatchLines(path, found[..j], target), MatchLines(path, [found[j]], target));
  }

  /**
   * The loop over the `ContractCode` candidates of one file at `path`, in
   * document order: a matching candidate writes its line, and a candidate
   * without text raises, which ends the file; the loop stops there.
   */
  method ScanCandidates(report: ReportFile, path: string, found: seq<Element>, target: string)
    modifies report
    ensures report.lines == old(report.lines) + MatchLines(path, found, target)
    ensures report.log == old(report.log) + Appends(MatchLines(path, found, target))
  {
    ghost var lines0, log0 := report.lines, report.log;
    var j := 0;
    while j < |found| && found[j].text.Some?
      invariant TextBefore(found, j)
      invariant report.lines == lines0 + MatchLines(path, found[..j], target)
      invariant report.log == log0 + Appends(MatchLines(path, found[..j], target))
    {
      ScanCandidate(report, path, found[j], target);
      CandidateStep(lines0, log0, path, found, j, target);
      j := j + 1;
    }
    MatchLinesLoopExit(path, found, j, target);
  }

  /**
   * The body of the `try` for one selected file at `path`: a file that does
   * not parse writes nothing; otherwise its candidates are the elements of the
   * root's namespace named `ContractCode`.
   */
  method ScanFile(report: ReportFile, path: string, outcome: FileOutcome, target: string)
    modifies report
    ensures report.lines == old(report.lines) + FileLines(path, outcome, target)
    ensures report.log == old(report.log) + Appends(FileLines(path, outcome, target))
  {
    match outcome {
      case Parsed(root) =>
        var namespace := Namespace(root.tag);
        var found := FindAll(root, namespace);
        ScanCandidates(report, path, found, target);
      case _ =>
        ConcatEmpty(old(report.lines));
        ConcatEmpty(old(report.log));
    }
  }

  /**
   * The body of the loop over the files of the walk, for one file: it is read
   * only when its name is selected.
   */
  method ScanEntry(report: ReportFile, entry: WalkEntry, target: string)
    modifies report
    ensures report.lines == old(report.lines) + EntryLines(entry, target)
    ensures report.log == old(report.log) + Appends(EntryLines(entry, target))
  {
    if IsXmlName(entry.name) {
      ScanFile(report, Join(entry.dir, entry.name), entry.outcome, target);
    } else {
      ConcatEmpty(old(report.lines));
      ConcatEmpty(old(report.log));
    }
  }

  /** After one more file of the walk, the results file and its log hold the lines of one more file. */
  lemma EntryStep(lines0: seq<string>, log0: seq<Event>, walk: seq<WalkEntry>, i: nat, target: string)
    requires i < |walk|
    ensures (lines0 + Scan(walk[..i], target)) + EntryLines(walk[i], target) == lines0 + Scan(walk[..i + 1], target)
    ensures (log0 + Appends(Scan(walk[..i], target))) + Appends(EntryLines(walk[i], target))
         == log0 + Appends(Scan(walk[..i + 1], target))
  {
    ScanStep(walk, i, target);
    AppendMore(lines0, log0, Scan(walk[..i], target), EntryLines(walk[i], target));
  }

  /** `process_xml_files_recursively`: every file of the walk, in walk order. */
  method ProcessXmlFilesRecursively(report: ReportFile, walk: seq<WalkEntry>, target: string)
    modifies report
    ensures report.lines == old(report.lines) + Scan(walk, target)
    ensures report.log == old(report.log) + Appends(Scan(walk, target))
  {
    ghost var lines0, log0 := report.lines, report.log;
    for i := 0 to |walk|
      invariant report.lines == lines0 + Scan(walk[..i], target)
      invariant report.log == log0 + Appends(Scan(walk[..i], target))
    {
      ScanEntry(report, walk[i], target);
      EntryStep(lines0, log0, walk, i, target);
    }
    assert walk[..|walk|] == walk;
  }

  /** After one more code, the results file and its log hold one more full scan. */
  lemma CodeStep(lines0: seq<string>, log0: seq<Event>, walk: seq<WalkEntry>, order: seq<string>, c: string)
    ensures (lines0 + RunLines(walk, order)) + Scan(walk, c) == lines0 + RunLines(walk, order + [c])
    ensures (log0 + Appends(RunLines(walk, order))) + Appends(Scan(walk, c)) == log0 + Appends(RunLines(walk, order + [c]))
  {
    RunSnoc(walk, order, c);
    AppendMore(lines0, log0, RunLines(walk, order), Scan(walk, c));
  }

  /**
   * `for target_code in target_codes`: one full scan of the walk per code, in
   * the iteration order of the set, which the ghost `order` reports.
   */
  method ScanAllCodes(report: ReportFile, walk: seq<WalkEntry>, codes: set<string>) returns (ghost order: seq<string>)
    modifies report
    ensures Enumerates(order, codes)
    ensures report.lines == old(report.lines) + RunLines(walk, order)
    ensures report.log == old(report.log) + Appends(RunLines(walk, order))
  {
    ghost var lines0, log0 := report.lines, report.log;
    order := [];
    ghost var done: set<string> := {};
    var remaining := codes;
    ConcatEmpty(lines0);
    ConcatEmpty(log0);
    while remaining != {}
      invariant EnumeratesPart(order, done, remaining, codes)
      invariant report.lines == lines0 + RunLines(walk, order)
      invariant report.log == log0 + Appends(RunLines(walk, order))
      decreases |remaining|
    {
      var targetCode :| targetCode in remaining;
      ProcessXmlFilesRecursively(report, walk, targetCode);
      CodeStep(lines0, log0, walk, order, targetCode);
      EnumeratesStep(order, done, remaining, codes, targetCode);
      order := order + [targetCode];
      done := done + {targetCode};
      remaining := remaining - {targetCode};
    }
  }

  /**
   * `main`, once the paths are known: truncate the results file; stop when the
   * codes file is missing; otherwise load the codes and scan the walk once per
   * code, in the iteration order of the set, which the ghost `order` reports.
   * An empty set of codes scans nothing.
   */
  method Run(report: ReportFile, codesFile: Option<seq<string>>, walk: seq<WalkEntry>) returns (ghost order: seq<string>)
    modifies report
    ensures Enumerates(order, LoadTargetCodes(codesFile))
    ensures LoadTargetCodes(codesFile) == {} ==> order == [] && report.lines == []
    ensures report.lines == RunLines(walk, order)
    ensures report.log == old(report.log) + [Truncated] + Appends(report.lines)
  {
    report.Truncate();
    if codesFile.None? {
      order := [];
      return;
    }
    var targetCodes := LoadTargetCodes(codesFile);
    order := ScanAllCodes(report, walk, targetCodes);
    ConcatEmpty(RunLines(walk, order));
    if targetCodes == {} {
      EnumeratesNone(walk, order, targetCodes);
    }
  }
}
