/**
 * Loading the target codes (`load_target_codes`): the lines of the codes file
 * become a set of stripped, non-blank codes. The file is given as its lines,
 * `None` standing for a file that does not exist.
 */
module CodeLoader {
  import opened Wrappers
  import opened PyStrings

  /** A code as the loader keeps it: non-empty and with no surrounding whitespace. */
  predicate IsTrimmedCode(c: string) {
    c != "" && NoEdgeIn(c, Whitespace)
  }

  /** A trimmed code is left alone by `strip()`, so codes compare equal to stripped element text. */
  lemma TrimmedCodeIsStripped(c: string)
    requires IsTrimmedCode(c)
    ensures Strip(c) == c
  {
    StripCharsOfPadded([], c, [], Whitespace);
    assert [] + c + [] == c;
  }

  /** `load_target_codes(file)`: the stripped form of every non-blank line; nothing for a missing file. */
  function LoadTargetCodes(file: Option<seq<string>>): (codes: set<string>)
    ensures file.None? ==> codes == {}
    ensures forall c :: c in codes ==> IsTrimmedCode(c)
    ensures file.Some? ==> forall i :: 0 <= i < |file.value| && Strip(file.value[i]) != "" ==> Strip(file.value[i]) in codes
    ensures file.Some? ==> forall c :: c in codes ==> exists i :: 0 <= i < |file.value| && Strip(file.value[i]) == c
  {
    match file
    case None => {}
    case Some(lines) =>
      set i | 0 <= i < |lines| && Strip(lines[i]) != "" :: Strip(lines[i])
  }

  /** The codes of two runs of lines are the codes of each run: line order and repetition do not matter. */
  lemma LoadConcat(a: seq<string>, b: seq<string>)
    ensures LoadTargetCodes(Some(a + b)) == LoadTargetCodes(Some(a)) + LoadTargetCodes(Some(b))
  {
    var ab := a + b;
    var l, la, lb := LoadTargetCodes(Some(ab)), LoadTargetCodes(Some(a)), LoadTargetCodes(Some(b));
    forall c | c in l ensures c in la + lb {
      var i :| 0 <= i < |ab| && Strip(ab[i]) == c;
      if i < |a| { assert ab[i] == a[i]; } else { assert ab[i] == b[i - |a|]; }
    }
    forall c | c in la + lb ensures c in l {
      if c in la {
        var i :| 0 <= i < |a| && Strip(a[i]) == c;
        assert ab[i] == a[i];
      } else {
        var i :| 0 <= i < |b| && Strip(b[i]) == c;
        assert ab[|a| + i] == b[i];
      }
    }
  }

  /** A blank line contributes nothing. */
  lemma LoadBlankLine(line: string)
    requires Strip(line) == ""
    ensures LoadTargetCodes(Some([line])) == {}
  {
    var l := LoadTargetCodes(Some([line]));
    assert forall c :: c !in l;
  }

  /** A non-blank line contributes exactly its stripped form. */
  lemma LoadCodeLine(line: string)
    requires Strip(line) != ""
    ensures LoadTargetCodes(Some([line])) == {Strip(line)}
  {
    var l := LoadTargetCodes(Some([line]));
    assert [line][0] == line;
    assert Strip(line) in l;
    assert forall c :: c in l ==> c == Strip(line);
  }

  /** A blank line anywhere in the file changes nothing. */
  lemma BlankLineIgnored(a: seq<string>, blank: string, b: seq<string>)
    requires Strip(blank) == ""
    ensures LoadTargetCodes(Some(a + [blank] + b)) == LoadTargetCodes(Some(a + b))
  {
    LoadConcat(a + [blank], b);
    LoadConcat(a, [blank]);
    LoadBlankLine(blank);
    LoadConcat(a, b);
  }

  /** A line whose code is already loaded adds no new member: duplicates collapse. */
  lemma DuplicateLineCollapses(lines: seq<string>, k: nat, line: string)
    requires k < |lines| && Strip(lines[k]) == Strip(line)
    ensures LoadTargetCodes(Some(lines + [line])) == LoadTargetCodes(Some(lines))
  {
    var before := LoadTargetCodes(Some(lines));
    LoadConcat(lines, [line]);
    assert LoadTargetCodes(Some([line])) <= before by {
      if Strip(line) != "" {
        LoadCodeLine(line);
        assert Strip(lines[k]) in before;
      } else {
        LoadBlankLine(line);
      }
    }
  }

  /** There are never more codes than lines. */
  lemma {:induction false} LoadCardinality(lines: seq<string>)
    ensures |LoadTargetCodes(Some(lines))| <= |lines|
  {
    if lines != [] {
      assert lines == [lines[0]] + lines[1..];
      LoadConcat([lines[0]], lines[1..]);
      if Strip(lines[0]) == "" { LoadBlankLine(lines[0]); } else { LoadCodeLine(lines[0]); }
      LoadCardinality(lines[1..]);
    }
  }
}
