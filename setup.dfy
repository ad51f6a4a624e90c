/**
 * The version reader of the package's build script (`get_version` in
 * setup.py). It reads a source file's lines in order and, on the first line
 * that mentions `__version__` and holds a quote character, returns the text
 * after the first quote: up to the next quote of the same kind, or to the
 * end of the line when there is no second one. Double quotes are tried
 * before single quotes. When no line qualifies the result is Python's `None`.
 *
 * The file itself is not read here: the reader is given the decoded lines,
 * each with its line terminator, as Python's iteration over a text file
 * yields them.
 */
module Setup {
  import opened Wrappers
  import opened PyStr

  /** The text that marks the line defining the version. */
  const Marker: string := "__version__"

  const DoubleQuote: char := '"'
  const SingleQuote: char := '\''

  /** A line that ends the scan: it mentions the marker and holds a quote of either kind. */
  predicate Qualifies(line: string)
  {
    Contains(line, Marker) && (DoubleQuote in line || SingleQuote in line)
  }

  /** The quote the value is split on: double quotes take precedence over single quotes. */
  function QuoteOf(line: string): (q: char)
  {
    if DoubleQuote in line then DoubleQuote else SingleQuote
  }

  /**
   * One pass of the loop body: the value a single line yields, or None when
   * the scan must go on to the next line. A value, when there is one, is a
   * contiguous piece of the line holding no quote of the kind it was split on.
   */
  function LineVersion(line: string): (r: Option<string>)
    ensures r.Some? <==> Qualifies(line)
    ensures r.Some? ==> Delimits(line, QuoteOf(line), r.value)
  {
    if Contains(line, Marker) then
      if DoubleQuote in line then
        Some(Field(line, DoubleQuote))
      else if SingleQuote in line then
        Some(Field(line, SingleQuote))
      else
        None
    else
      None
  }

  /**
   * The version read from a file's lines: the value of the first line that
   * yields one, and None exactly when no line qualifies.
   */
  function GetVersion(lines: seq<string>): (r: Option<string>)
    ensures r.None? <==> forall k :: 0 <= k < |lines| ==> !Qualifies(lines[k])
    decreases |lines|
  {
    if lines == [] then
      None
    else
      match LineVersion(lines[0])
      case Some(v) => Some(v)
      case None =>
        var r := GetVersion(lines[1..]);
        assert forall k :: 1 <= k < |lines| ==> lines[k] == lines[1..][k - 1];
        r
  }

  /** `k` is the first line of `lines` that qualifies. */
  ghost predicate FirstQualifying(lines: seq<string>, k: nat)
  {
    k < |lines| && Qualifies(lines[k]) && forall j :: 0 <= j < k ==> !Qualifies(lines[j])
  }

  /** The first qualifying line alone decides the result. */
  lemma {:induction false} GetVersionFirstMatch(lines: seq<string>, k: nat)
    requires FirstQualifying(lines, k)
    ensures GetVersion(lines).Some?
    ensures GetVersion(lines) == LineVersion(lines[k])
    decreases k
  {
    if k > 0 {
      assert !Qualifies(lines[0]);
      var rest := lines[1..];
      assert FirstQualifying(rest, k - 1) by {
        assert forall j :: 0 <= j < k - 1 ==> rest[j] == lines[j + 1];
      }
      GetVersionFirstMatch(rest, k - 1);
    }
  }

  /**
   * Every value the reader returns comes from the first qualifying line, is a
   * contiguous piece of it, and holds no quote of the kind it was split on.
   */
  lemma GetVersionSome(lines: seq<string>, v: string)
    requires GetVersion(lines) == Some(v)
    ensures exists k: nat ::
      && FirstQualifying(lines, k)
      && LineVersion(lines[k]) == Some(v)
      && Delimits(lines[k], QuoteOf(lines[k]), v)
  {
    FirstOf(lines);
    var k: nat :| FirstQualifying(lines, k);
    GetVersionFirstMatch(lines, k);
  }

  /** Some line qualifies, so there is a first one. */
  lemma {:induction false} FirstOf(lines: seq<string>)
    requires exists k :: 0 <= k < |lines| && Qualifies(lines[k])
    ensures exists k: nat :: FirstQualifying(lines, k)
    decreases |lines|
  {
    if Qualifies(lines[0]) {
      assert FirstQualifying(lines, 0);
    } else {
      var rest := lines[1..];
      var m :| 0 <= m < |lines| && Qualifies(lines[m]);
      assert Qualifies(rest[m - 1]);
      FirstOf(rest);
      var k: nat :| FirstQualifying(rest, k);
      assert FirstQualifying(lines, k + 1) by {
        forall j | 0 <= j < k + 1 ensures !Qualifies(lines[j]) {
          if j > 0 { assert lines[j] == rest[j - 1]; }
        }
      }
    }
  }

  /**
   * Lines that do not qualify, whether they lack the marker or hold it with
   * no quote, never decide the result: the scan goes on past them.
   */
  lemma {:induction false} GetVersionSkips(pre: seq<string>, post: seq<string>)
    requires forall k :: 0 <= k < |pre| ==> !Qualifies(pre[k])
    ensures GetVersion(pre + post) == GetVersion(post)
    decreases |pre|
  {
    if pre != [] {
      assert (pre + post)[0] == pre[0];
      assert (pre + post)[1..] == pre[1..] + post;
      assert LineVersion(pre[0]).None?;
      assert forall k :: 0 <= k < |pre| - 1 ==> pre[1..][k] == pre[k + 1];
      GetVersionSkips(pre[1..], post);
      assert GetVersion(pre + post) == GetVersion(pre[1..] + post);
    } else {
      assert pre + post == post;
    }
  }

  /** A file of two lines: the first decides when it qualifies, the second otherwise. */
  lemma GetVersionPair(first: string, second: string)
    ensures GetVersion([first, second]) == if Qualifies(first) then LineVersion(first) else LineVersion(second)
  {
    assert [first, second][1..] == [second];
    GetVersionOneLine(second);
  }

  /** Once a qualifying line has been read, the lines after it have no effect. */
  lemma {:induction false} GetVersionIgnoresLater(pre: seq<string>, post: seq<string>)
    requires exists k :: 0 <= k < |pre| && Qualifies(pre[k])
    ensures GetVersion(pre + post) == GetVersion(pre)
  {
    FirstOf(pre);
    var k: nat :| FirstQualifying(pre, k);
    assert FirstQualifying(pre + post, k) by {
      assert forall j :: 0 <= j <= k ==> (pre + post)[j] == pre[j];
    }
    GetVersionFirstMatch(pre, k);
    GetVersionFirstMatch(pre + post, k);
  }

  /**
   * On a marker line whose first double quote is at `i` and whose next
   * double quote is at `j` (or `j` is the end of the line), the line yields
   * the text strictly between them, whatever single quotes it also holds.
   */
  lemma LineVersionDoubleQuoted(line: string, i: nat, j: nat)
    requires Contains(line, Marker)
    requires FirstAt(line, DoubleQuote, i)
    requires i < j <= |line|
    requires DoubleQuote !in line[i + 1..j]
    requires j == |line| || line[j] == DoubleQuote
    ensures LineVersion(line) == Some(line[i + 1..j])
  {
    FieldBetween(line, DoubleQuote, i, j);
  }

  /**
   * On a marker line with no double quote, whose first single quote is at
   * `i` and whose next single quote is at `j` (or the end of the line), the
   * line yields the text strictly between them.
   */
  lemma LineVersionSingleQuoted(line: string, i: nat, j: nat)
    requires Contains(line, Marker)
    requires DoubleQuote !in line
    requires FirstAt(line, SingleQuote, i)
    requires i < j <= |line|
    requires SingleQuote !in line[i + 1..j]
    requires j == |line| || line[j] == SingleQuote
    ensures LineVersion(line) == Some(line[i + 1..j])
  {
    FieldBetween(line, SingleQuote, i, j);
  }

  /**
   * When the first qualifying line holds a double quote at `i` (its first)
   * and the next double quote at `j`, or `j` is the end of the line, the
   * version is the text strictly between them.
   */
  lemma GetVersionDoubleQuoted(lines: seq<string>, k: nat, i: nat, j: nat)
    requires FirstQualifying(lines, k)
    requires FirstAt(lines[k], DoubleQuote, i)
    requires i < j <= |lines[k]|
    requires DoubleQuote !in lines[k][i + 1..j]
    requires j == |lines[k]| || lines[k][j] == DoubleQuote
    ensures GetVersion(lines) == Some(lines[k][i + 1..j])
  {
    GetVersionFirstMatch(lines, k);
    LineVersionDoubleQuoted(lines[k], i, j);
  }

  /**
   * When the first qualifying line holds no double quote, its first single
   * quote at `i` and the next one at `j` (or the end of the line) delimit
   * the version.
   */
  lemma GetVersionSingleQuoted(lines: seq<string>, k: nat, i: nat, j: nat)
    requires FirstQualifying(lines, k)
    requires DoubleQuote !in lines[k]
    requires FirstAt(lines[k], SingleQuote, i)
    requires i < j <= |lines[k]|
    requires SingleQuote !in lines[k][i + 1..j]
    requires j == |lines[k]| || lines[k][j] == SingleQuote
    ensures GetVersion(lines) == Some(lines[k][i + 1..j])
  {
    GetVersionFirstMatch(lines, k);
    LineVersionSingleQuoted(lines[k], i, j);
  }

  /** A file of one line yields what that line yields. */
  lemma GetVersionOneLine(line: string)
    ensures GetVersion([line]) == LineVersion(line)
  {
    assert [line][1..] == [];
  }
}
