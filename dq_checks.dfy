/**
 * The two data-quality checks the upload Lambda runs on a newly created
 * hit-level file before splitting it: the reported content type, and the
 * header row of the tab-separated body.
 */
module DqChecks {
  import opened Text

  /**
   * `check_file_format`: the object's reported `content-type` header must be
   * exactly the configured file type; nothing is normalised (case, spacing
   * and `; charset=` parameters all count).
   */
  function CheckFileFormat(contentType: string, fileType: string): (ok: bool)
    ensures ok <==> contentType == fileType
    ensures |contentType| != |fileType| ==> !ok
  {
    contentType == fileType
  }

  /**
   * The header fields `contents.split('\n')[0].split('\t')`: joined again
   * with tabs they give the text before the first newline.
   */
  function HeaderFields(contents: string): (fields: seq<string>)
    ensures |fields| >= 1
    ensures forall i :: 0 <= i < |fields| ==> '\t' !in fields[i]
    ensures var line := Join(fields, '\t');
      && |line| <= |contents| && contents[..|line|] == line && '\n' !in line
      && (|line| < |contents| ==> contents[|line|] == '\n')
  {
    var line := Split(contents, '\n')[0];
    FirstPiece(contents, '\n');
    SplitJoin(line, '\t');
    Split(line, '\t')
  }

  /**
   * `check_file_columns`. A field count different from the expected column
   * count fails. Otherwise the loop over the expected names returns on its
   * first iteration, so the verdict is whether the FIRST expected name is
   * among the header fields. (The header always has at least one field, so
   * an empty expected list always fails on the count.)
   */
  function CheckFileColumns(contents: string, expected: seq<string>): (ok: bool)
    ensures |HeaderFields(contents)| != |expected| ==> !ok
    ensures |HeaderFields(contents)| == |expected| ==>
      (ok <==> expected[0] in HeaderFields(contents))
  {
    var actual := HeaderFields(contents);
    if |actual| != |expected| then false
    else expected[0] in actual
  }

  /** The check the column names evidently call for: every expected name present. */
  predicate AllColumnsPresent(contents: string, expected: seq<string>)
  {
    var actual := HeaderFields(contents);
    |actual| == |expected| && forall i :: 0 <= i < |expected| ==> expected[i] in actual
  }

  /** Only the first line is read: whatever follows the first newline never changes the verdict. */
  lemma ColumnsIgnoreLaterLines(header: string, rest: string, expected: seq<string>)
    requires '\n' !in header
    ensures CheckFileColumns(header + "\n" + rest, expected) == CheckFileColumns(header, expected)
  {
    SplitAfterPiece(header, rest, '\n');
    NoSeparator(header, '\n');
  }

  /** Expected names after the first are never examined. */
  lemma LaterExpectedNamesIgnored(contents: string, e1: seq<string>, e2: seq<string>)
    requires |e1| == |e2| && |e1| > 0 && e1[0] == e2[0]
    ensures CheckFileColumns(contents, e1) == CheckFileColumns(contents, e2)
  {
  }

  /** The check is weaker than the all-names check it stands for: whatever that accepts, this accepts. */
  lemma StrictImpliesColumnsOk(contents: string, expected: seq<string>)
    requires AllColumnsPresent(contents, expected)
    ensures CheckFileColumns(contents, expected)
  {
  }

  /**
   * ... and strictly weaker: a two-field header whose first field is the
   * first expected name passes even when the second expected name is absent.
   */
  lemma ColumnsOkMissingSecondName(first: string, other: string, second: string)
    requires '\t' !in first && '\t' !in other && '\n' !in first && '\n' !in other
    requires second != first && second != other
    ensures CheckFileColumns(first + "\t" + other, [first, second])
    ensures !AllColumnsPresent(first + "\t" + other, [first, second])
  {
    var line := first + "\t" + other;
    assert '\n' !in line by {
      forall k | 0 <= k < |line| ensures line[k] != '\n' {
        if k < |first| { assert line[k] == first[k]; }
        else if k > |first| { assert line[k] == other[k - |first| - 1]; }
      }
    }
    NoSeparator(line, '\n');
    NoSeparator(other, '\t');
    SplitAfterPiece(first, other, '\t');
    assert HeaderFields(line) == [first, other];
    assert [first, second][1] !in HeaderFields(line);
  }
}
