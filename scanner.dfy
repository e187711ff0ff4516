/**
 * What one pass of `process_xml_files_recursively` writes, and what the whole
 * run writes, as functions of the directory walk and the target codes. The
 * walk is given as the sequence of files `os.walk` yields, each with the
 * outcome of parsing it.
 */
module Scanner {
  import opened PyStrings
  import opened Xml
  import opened Seqs

  /** What `ET.parse` makes of a file. */
  datatype FileOutcome =
    | ParseError            // `ET.ParseError`: the markup is not well-formed
    | OtherError            // any other exception while reading or parsing (I/O, decoding)
    | Parsed(root: Element)

  /** One file of the walk: its directory, its name and what parsing it gives. */
  datatype WalkEntry = WalkEntry(dir: string, name: string, outcome: FileOutcome)

  /**
   * `os.path.join(dir, name)` for two parts, by the POSIX rules: the path ends
   * with the file name, and a relative name keeps the directory in front.
   */
  function Join(dir: string, name: string): (path: string)
    ensures EndsWith(path, name)
    ensures (name == "" || name[0] != '/') ==> |dir| <= |path| && path[..|dir|] == dir
  {
    if name != "" && name[0] == '/' then name
    else if dir == "" || dir[|dir| - 1] == '/' then dir + name
    else dir + "/" + name
  }

  /** `filename.lower().endswith(".xml")`: the file selection test. */
  predicate IsXmlName(name: string) {
    EndsWith(Lower(name), ".xml")
  }

  /** The selection test looks at the last four characters only, ignoring the case of the letters. */
  lemma XmlNameByCharacters(name: string)
    ensures IsXmlName(name) <==>
      |name| >= 4 && name[|name| - 4] == '.' && name[|name| - 3] in {'x', 'X'}
      && name[|name| - 2] in {'m', 'M'} && name[|name| - 1] in {'l', 'L'}
  {
    var low := Lower(name);
    if |name| >= 4 {
      var n := |name|;
      LowerAt(name, n - 4);
      LowerAt(name, n - 3);
      LowerAt(name, n - 2);
      LowerAt(name, n - 1);
      assert low[n - 4..] == [low[n - 4], low[n - 3], low[n - 2], low[n - 1]];
    }
  }

  /** Whatever the name before it, an upper- or mixed-case extension is selected and a backup copy is not. */
  lemma XmlNameExamples(stem: string)
    ensures IsXmlName(stem + ".XML") && IsXmlName(stem + ".Xml")
    ensures !IsXmlName(stem + ".xml.bak") && !IsXmlName("xml")
  {
    XmlNameByCharacters(stem + ".XML");
    XmlNameByCharacters(stem + ".Xml");
    XmlNameByCharacters(stem + ".xml.bak");
    XmlNameByCharacters("xml");
  }

  /** The text before the file path in a report line. */
  const FilePrefix: string := "Файл: "
  /** The text between the file path and the code in a report line. */
  const CodeInfix: string := ", ContractCode найден: "

  /** The report line for one match. */
  function ReportLine(path: string, code: string): string {
    FilePrefix + path + CodeInfix + code + "\n"
  }

  /** A report line names its file unambiguously: for one code, different paths give different lines. */
  lemma ReportLineNamesPath(p1: string, p2: string, code: string)
    requires ReportLine(p1, code) == ReportLine(p2, code)
    ensures p1 == p2
  {
    var n := |FilePrefix|;
    assert ReportLine(p1, code)[n..n + |p1|] == p1;
    assert ReportLine(p2, code)[n..n + |p2|] == p2;
  }

  /** Every candidate has text, so reading it cannot raise. */
  predicate AllHaveText(candidates: seq<Element>) {
    forall k :: 0 <= k < |candidates| ==> candidates[k].text.Some?
  }

  /**
   * The lines written for the candidates of one file, in order: one per
   * candidate whose stripped text is the target. The first candidate without
   * text makes `code_element.text.strip()` raise, which ends the file.
   */
  function MatchLines(path: string, candidates: seq<Element>, target: string): (lines: seq<string>)
    ensures |lines| <= |candidates|
  {
    if candidates == [] || candidates[0].text.None? then []
    else
      (if Strip(candidates[0].text.value) == target then [ReportLine(path, target)] else [])
      + MatchLines(path, candidates[1..], target)
  }

  /** Every line written for a file names that file and the target code. */
  lemma {:induction false} MatchLinesForm(path: string, candidates: seq<Element>, target: string)
    ensures forall l :: l in MatchLines(path, candidates, target) ==> l == ReportLine(path, target)
  {
    if candidates != [] && candidates[0].text.Some? {
      MatchLinesForm(path, candidates[1..], target);
    }
  }

  /** The lines for candidates that all have text are followed by those of the candidates after them. */
  lemma {:induction false} MatchLinesConcat(path: string, front: seq<Element>, rest: seq<Element>, target: string)
    requires AllHaveText(front)
    ensures MatchLines(path, front + rest, target) == MatchLines(path, front, target) + MatchLines(path, rest, target)
  {
    if front == [] {
      ConcatEmpty(rest);
    } else {
      var tail := front[1..];
      assert AllHaveText(tail) by {
        forall k | 0 <= k < |tail| ensures tail[k].text.Some? {
          assert tail[k] == front[k + 1];
        }
      }
      TailOfConcat(front, rest);
      MatchLinesConcat(path, tail, rest, target);
      var head := if Strip(front[0].text.value) == target then [ReportLine(path, target)] else [];
      assert MatchLines(path, front, target) == head + MatchLines(path, tail, target);
      ConcatAssoc(head, MatchLines(path, tail, target), MatchLines(path, rest, target));
    }
  }

  /** A candidate without text stops the file: the lines already found stay, later candidates give nothing. */
  lemma MatchLinesStopAtMissingText(path: string, front: seq<Element>, missing: Element, rest: seq<Element>, target: string)
    requires AllHaveText(front) && missing.text.None?
    ensures MatchLines(path, front + [missing] + rest, target) == MatchLines(path, front, target)
  {
    ConcatAssoc(front, [missing], rest);
    MatchLinesConcat(path, front, [missing] + rest, target);
    ConcatEmpty(MatchLines(path, front, target));
  }

  /** The candidate has text, and its stripped text is the target. */
  predicate IsMatch(candidate: Element, target: string) {
    candidate.text.Some? && Strip(candidate.text.value) == target
  }

  /** The positions of the candidates whose stripped text is the target. */
  function MatchPositions(candidates: seq<Element>, target: string): set<nat> {
    set k: nat | k < |candidates| && IsMatch(candidates[k], target)
  }

  /** The lines for candidates that all have text: those of all but the last, then those of the last. */
  lemma MatchLinesSnoc(path: string, s: seq<Element>, target: string)
    requires s != [] && AllHaveText(s)
    ensures MatchLines(path, s, target) == MatchLines(path, s[..|s| - 1], target) + MatchLines(path, [s[|s| - 1]], target)
  {
    SplitLast(s);
    MatchLinesConcat(path, s[..|s| - 1], [s[|s| - 1]], target);
  }

  /** The matching positions: those before the last candidate, and the last one when it matches. */
  lemma PositionsSnoc(s: seq<Element>, target: string)
    requires s != []
    ensures MatchPositions(s, target) == MatchPositions(s[..|s| - 1], target) + (if IsMatch(s[|s| - 1], target) then {|s| - 1} else {})
  {
  }

  /** A single candidate with text gives its line exactly when it matches. */
  lemma MatchLinesSingle(path: string, x: Element, target: string)
    requires x.text.Some?
    ensures MatchLines(path, [x], target) == if IsMatch(x, target) then [ReportLine(path, target)] else []
  {
    SingletonTail(x);
    ConcatEmpty(if IsMatch(x, target) then [ReportLine(path, target)] else []);
  }

  /** When every candidate has text there is one line per matching candidate: equal codes are not merged. */
  lemma {:induction false} MatchLinesCount(path: string, candidates: seq<Element>, target: string)
    requires AllHaveText(candidates)
    ensures |MatchLines(path, candidates, target)| == |MatchPositions(candidates, target)|
  {
    if candidates != [] {
      var n := |candidates| - 1;
      MatchLinesCount(path, candidates[..n], target);
      MatchLinesSnoc(path, candidates, target);
      MatchLinesSingle(path, candidates[n], target);
      PositionsSnoc(candidates, target);
      assert n !in MatchPositions(candidates[..n], target);
    }
  }

  /** The first `j` candidates have text: the loop over them has not raised. */
  predicate TextBefore(s: seq<Element>, j: nat) {
    j <= |s| && forall k :: 0 <= k < j ==> s[k].text.Some?
  }

  /** The first `j` candidates having text is the front `s[..j]` having text. */
  lemma TextBeforeIsFront(s: seq<Element>, j: nat)
    requires TextBefore(s, j)
    ensures AllHaveText(s[..j])
  {
    var front := s[..j];
    forall k | 0 <= k < |front| ensures front[k].text.Some? {
      assert front[k] == s[k];
    }
  }

  /** The loop over the candidates of a file ends after the last candidate or at the first one without text: the file's lines are those written so far. */
  lemma MatchLinesLoopExit(path: string, s: seq<Element>, j: nat, target: string)
    requires TextBefore(s, j) && (j == |s| || s[j].text.None?)
    ensures MatchLines(path, s, target) == MatchLines(path, s[..j], target)
  {
    if j < |s| {
      TextBeforeIsFront(s, j);
      SplitAround(s, j);
      MatchLinesStopAtMissingText(path, s[..j], s[j], s[j + 1..], target);
    } else {
      assert s[..j] == s;
    }
  }

  /** A step of the loop over the candidates of a file that reaches a candidate with text: the candidate's own lines are added. */
  lemma MatchLinesStepText(path: string, s: seq<Element>, j: nat, target: string)
    requires j < |s| && TextBefore(s, j) && s[j].text.Some?
    ensures TextBefore(s, j + 1)
    ensures MatchLines(path, s[..j + 1], target) == MatchLines(path, s[..j], target) + MatchLines(path, [s[j]], target)
  {
    var t := s[..j + 1];
    TextBeforeIsFront(s, j + 1);
    TakeOfTake(s, j, j + 1);
    MatchLinesSnoc(path, t, target);
  }

  /** The lines one selected file contributes: none when it does not parse. */
  function FileLines(path: string, outcome: FileOutcome, target: string): seq<string> {
    match outcome
    case Parsed(root) => MatchLines(path, FindAll(root, Namespace(root.tag)), target)
    case _ => []
  }

  /** The lines one file of the walk contributes: none unless its name is selected. */
  function EntryLines(entry: WalkEntry, target: string): seq<string> {
    if IsXmlName(entry.name) then FileLines(Join(entry.dir, entry.name), entry.outcome, target) else []
  }

  /** `line` is the report line of a selected, parsed file of the walk. */
  predicate WrittenFor(entry: WalkEntry, line: string, target: string) {
    IsXmlName(entry.name) && entry.outcome.Parsed? && line == ReportLine(Join(entry.dir, entry.name), target)
  }

  /** The report lines one scan for `target` appends, file after file in walk order. */
  function Scan(walk: seq<WalkEntry>, target: string): seq<string> {
    if walk == [] then [] else EntryLines(walk[0], target) + Scan(walk[1..], target)
  }

  /** Every line a file contributes names that file, which is selected and parsed, and the target code. */
  lemma EntryLinesForm(entry: WalkEntry, target: string)
    ensures forall l :: l in EntryLines(entry, target) ==> WrittenFor(entry, l, target)
  {
    if IsXmlName(entry.name) && entry.outcome.Parsed? {
      var root := entry.outcome.root;
      MatchLinesForm(Join(entry.dir, entry.name), FindAll(root, Namespace(root.tag)), target);
    }
  }

  /** Every line of a scan names the target and a selected file of the walk that parsed. */
  lemma {:induction false} ScanLinesOrigin(walk: seq<WalkEntry>, target: string)
    ensures forall l :: l in Scan(walk, target) ==> exists i :: 0 <= i < |walk| && WrittenFor(walk[i], l, target)
  {
    if walk != [] {
      ScanLinesOrigin(walk[1..], target);
      EntryLinesForm(walk[0], target);
      forall l | l in Scan(walk, target) ensures exists i :: 0 <= i < |walk| && WrittenFor(walk[i], l, target) {
        assert Scan(walk, target) == EntryLines(walk[0], target) + Scan(walk[1..], target);
        if l in EntryLines(walk[0], target) {
          assert WrittenFor(walk[0], l, target);
        } else {
          assert l in Scan(walk[1..], target);
          var j :| 0 <= j < |walk[1..]| && WrittenFor(walk[1..][j], l, target);
          assert walk[1..][j] == walk[j + 1];
        }
      }
    }
  }

  /** Scanning a single file gives that file's lines. */
  lemma ScanSingle(entry: WalkEntry, target: string)
    ensures Scan([entry], target) == EntryLines(entry, target)
  {
    SingletonTail(entry);
    ConcatEmpty(EntryLines(entry, target));
  }

  /** Scanning two runs of files is scanning one, then the other: files are handled in walk order. */
  lemma {:induction false} ScanConcat(w1: seq<WalkEntry>, w2: seq<WalkEntry>, target: string)
    ensures Scan(w1 + w2, target) == Scan(w1, target) + Scan(w2, target)
  {
    if w1 == [] {
      ConcatEmpty(w2);
      ConcatEmpty(Scan(w2, target));
    } else {
      TailOfConcat(w1, w2);
      ScanConcat(w1[1..], w2, target);
      ConcatAssoc(EntryLines(w1[0], target), Scan(w1[1..], target), Scan(w2, target));
    }
  }

  /** One step of the loop over the walk: the files up to `i` are those before it, then file `i`. */
  lemma ScanStep(walk: seq<WalkEntry>, i: nat, target: string)
    requires i < |walk|
    ensures Scan(walk[..i + 1], target) == Scan(walk[..i], target) + EntryLines(walk[i], target)
  {
    TakeSnoc(walk, i);
    ScanConcat(walk[..i], [walk[i]], target);
    ScanSingle(walk[i], target);
  }

  /** A file is an independent step of the scan: what it contributes sits between the files before and after it. */
  lemma ScanAroundEntry(w1: seq<WalkEntry>, entry: WalkEntry, w2: seq<WalkEntry>, target: string)
    ensures Scan(w1 + [entry] + w2, target) == Scan(w1, target) + EntryLines(entry, target) + Scan(w2, target)
  {
    ScanConcat(w1 + [entry], w2, target);
    ScanConcat(w1, [entry], target);
    ScanSingle(entry, target);
  }

  /** A walk of three files writes the lines of each, in walk order. */
  lemma ScanThree(e0: WalkEntry, e1: WalkEntry, e2: WalkEntry, target: string)
    ensures Scan([e0, e1, e2], target) == EntryLines(e0, target) + EntryLines(e1, target) + EntryLines(e2, target)
  {
    ThreeElements(e0, e1, e2);
    ScanAroundEntry([e0], e1, [e2], target);
    ScanSingle(e0, target);
    ScanSingle(e2, target);
  }

  /**
   * A file that is not selected, or that fails to parse, contributes nothing,
   * and the files after it are still scanned.
   */
  lemma SkippedEntryContributesNothing(w1: seq<WalkEntry>, entry: WalkEntry, w2: seq<WalkEntry>, target: string)
    requires !IsXmlName(entry.name) || !entry.outcome.Parsed?
    ensures Scan(w1 + [entry] + w2, target) == Scan(w1 + w2, target)
  {
    var front, back := Scan(w1, target), Scan(w2, target);
    ScanAroundEntry(w1, entry, w2, target);
    ConcatEmpty(front);
    ScanConcat(w1, w2, target);
  }

  /** A selected file that parses contributes the lines of its root namespace's `ContractCode` elements. */
  lemma EntryLinesOfParsed(entry: WalkEntry, target: string)
    requires IsXmlName(entry.name) && entry.outcome.Parsed?
    ensures EntryLines(entry, target)
         == MatchLines(Join(entry.dir, entry.name), FindAll(entry.outcome.root, Namespace(entry.outcome.root.tag)), target)
  {
  }

  /**
   * A parsed file whose candidate at position `k` has no text contributes the
   * lines of the candidates before `k`, and the following files are still scanned.
   */
  lemma MissingTextEndsOnlyThatFile(w1: seq<WalkEntry>, entry: WalkEntry, w2: seq<WalkEntry>, target: string, k: nat)
    requires IsXmlName(entry.name) && entry.outcome.Parsed?
    requires var c := FindAll(entry.outcome.root, Namespace(entry.outcome.root.tag));
             k < |c| && TextBefore(c, k) && c[k].text.None?
    ensures var c := FindAll(entry.outcome.root, Namespace(entry.outcome.root.tag));
            Scan(w1 + [entry] + w2, target)
              == Scan(w1, target) + MatchLines(Join(entry.dir, entry.name), c[..k], target) + Scan(w2, target)
  {
    var c := FindAll(entry.outcome.root, Namespace(entry.outcome.root.tag));
    EntryLinesOfParsed(entry, target);
    MatchLinesLoopExit(Join(entry.dir, entry.name), c, k, target);
    ScanAroundEntry(w1, entry, w2, target);
  }

  /** `order` lists every member of `codes` exactly once: an enumeration of the set. */
  predicate Enumerates(order: seq<string>, codes: set<string>) {
    (forall c :: c in codes ==> c in order)
    && (forall i :: 0 <= i < |order| ==> order[i] in codes)
    && (forall i, j :: 0 <= i < j < |order| ==> order[i] != order[j])
  }

  /** The report of a run that scans the codes in `order`: one full scan per code, one after the other. */
  function RunLines(walk: seq<WalkEntry>, order: seq<string>): seq<string> {
    if order == [] then [] else Scan(walk, order[0]) + RunLines(walk, order[1..])
  }

  /** Running with a single code is one scan for it. */
  lemma RunSingle(walk: seq<WalkEntry>, c: string)
    ensures RunLines(walk, [c]) == Scan(walk, c)
  {
    SingletonTail(c);
    ConcatEmpty(Scan(walk, c));
  }

  /** Scanning two runs of codes is scanning one, then the other. */
  lemma {:induction false} RunConcat(walk: seq<WalkEntry>, o1: seq<string>, o2: seq<string>)
    ensures RunLines(walk, o1 + o2) == RunLines(walk, o1) + RunLines(walk, o2)
  {
    if o1 == [] {
      ConcatEmpty(o2);
      ConcatEmpty(RunLines(walk, o2));
    } else {
      TailOfConcat(o1, o2);
      RunConcat(walk, o1[1..], o2);
      ConcatAssoc(Scan(walk, o1[0]), RunLines(walk, o1[1..]), RunLines(walk, o2));
    }
  }

  /** Scanning for one more code appends one more full scan. */
  lemma RunSnoc(walk: seq<WalkEntry>, order: seq<string>, c: string)
    ensures RunLines(walk, order + [c]) == RunLines(walk, order) + Scan(walk, c)
  {
    RunConcat(walk, order, [c]);
    RunSingle(walk, c);
  }

  /** The lines of the code scanned `k`-th follow all lines of the codes before it and precede those of the codes after it. */
  lemma RunGroupsByCode(walk: seq<WalkEntry>, order: seq<string>, k: nat)
    requires k < |order|
    ensures RunLines(walk, order) == RunLines(walk, order[..k]) + Scan(walk, order[k]) + RunLines(walk, order[k + 1..])
  {
    SplitAround(order, k);
    RunConcat(walk, order[..k] + [order[k]], order[k + 1..]);
    RunConcat(walk, order[..k], [order[k]]);
    RunSingle(walk, order[k]);
  }

  /** The only enumeration of no codes is the empty one, and it scans nothing. */
  lemma EnumeratesNone(walk: seq<WalkEntry>, order: seq<string>, codes: set<string>)
    requires Enumerates(order, codes) && codes == {}
    ensures order == [] && RunLines(walk, order) == []
  {
    EnumerationSize(order, codes);
  }

  /** An enumeration lists as many codes as the set holds: one scan per code, no more, no fewer. */
  lemma {:induction false} EnumerationSize(order: seq<string>, codes: set<string>)
    requires Enumerates(order, codes)
    ensures |order| == |codes|
    decreases |order|
  {
    if order != [] {
      EnumeratesTail(order, codes);
      EnumerationSize(order[1..], codes - {order[0]});
    }
  }

  /** Adding a code not yet listed to the end of an enumeration enumerates the larger set. */
  lemma EnumeratesSnoc(order: seq<string>, codes: set<string>, c: string)
    requires Enumerates(order, codes) && c !in codes
    ensures Enumerates(order + [c], codes + {c})
  {
    var longer := order + [c];
    assert forall i :: 0 <= i < |order| ==> longer[i] == order[i];
    assert longer[|order|] == c;
  }

  /** `order` enumerates the codes `done` so far, and `remaining` holds the others. */
  predicate EnumeratesPart(order: seq<string>, done: set<string>, remaining: set<string>, codes: set<string>) {
    done + remaining == codes && done !! remaining && Enumerates(order, done)
  }

  /** Moving one remaining code to the end of the enumeration keeps it a partial enumeration, with fewer codes left. */
  lemma EnumeratesStep(order: seq<string>, done: set<string>, remaining: set<string>, codes: set<string>, c: string)
    requires EnumeratesPart(order, done, remaining, codes) && c in remaining
    ensures EnumeratesPart(order + [c], done + {c}, remaining - {c}, codes)
    ensures |remaining - {c}| < |remaining|
  {
    EnumeratesSnoc(order, done, c);
  }

  /** Dropping the first code of an enumeration enumerates the rest of the set. */
  lemma EnumeratesTail(order: seq<string>, codes: set<string>)
    requires Enumerates(order, codes) && order != []
    ensures Enumerates(order[1..], codes - {order[0]})
  {
    var tail, rest := order[1..], codes - {order[0]};
    forall x | x in rest ensures x in tail {
      var i :| 0 <= i < |order| && order[i] == x;
      assert tail[i - 1] == x;
    }
    forall i | 0 <= i < |tail| ensures tail[i] in rest {
      assert tail[i] == order[i + 1];
    }
    forall i, j | 0 <= i < j < |tail| ensures tail[i] != tail[j] {
      assert tail[i] == order[i + 1] && tail[j] == order[j + 1];
    }
  }

  /** Dropping the code at position `k` of an enumeration enumerates the rest of the set. */
  lemma EnumeratesWithout(order: seq<string>, codes: set<string>, k: nat)
    requires Enumerates(order, codes) && k < |order|
    ensures Enumerates(order[..k] + order[k + 1..], codes - {order[k]})
  {
    var others, rest := order[..k] + order[k + 1..], codes - {order[k]};
    assert forall i :: 0 <= i < |others| ==> others[i] == order[if i < k then i else i + 1];
    forall x | x in rest ensures x in others {
      var i :| 0 <= i < |order| && order[i] == x;
      assert others[if i < k then i else i - 1] == x;
    }
  }

  /**
   * Whatever order the set of codes is enumerated in, the report holds the
   * same lines the same number of times; only the order of the per-code
   * blocks can differ.
   */
  lemma {:induction false} RunContentIndependentOfOrder(walk: seq<WalkEntry>, o1: seq<string>, o2: seq<string>, codes: set<string>)
    requires Enumerates(o1, codes) && Enumerates(o2, codes)
    ensures multiset(RunLines(walk, o1)) == multiset(RunLines(walk, o2))
    decreases |o1|
  {
    if o1 == [] {
      assert o2 == [];
    } else {
      var c := o1[0];
      var k :| 0 <= k < |o2| && o2[k] == c;
      var others := o2[..k] + o2[k + 1..];
      EnumeratesTail(o1, codes);
      EnumeratesWithout(o2, codes, k);
      RunContentIndependentOfOrder(walk, o1[1..], others, codes - {c});
      RunGroupsByCode(walk, o2, k);
      RunConcat(walk, o2[..k], o2[k + 1..]);
      var before, here, after := RunLines(walk, o2[..k]), Scan(walk, c), RunLines(walk, o2[k + 1..]);
      assert multiset(RunLines(walk, o2)) == multiset(before) + multiset(here) + multiset(after);
      assert multiset(RunLines(walk, others)) == multiset(before) + multiset(after);
      assert RunLines(walk, o1) == here + RunLines(walk, o1[1..]);
      assert multiset(RunLines(walk, o1)) == multiset(here) + multiset(RunLines(walk, others));
    }
  }
}
