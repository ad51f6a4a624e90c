# Version reader of the atlas build script

The build script of the atlas package (`setup.py`) does not import the
package to learn its version. Its `get_version` function reads the
package's `__init__.py` line by line instead. On the first line that
mentions `__version__` and holds a quote character, it returns the text
after the first quote: up to the next quote of the same kind, or to the end
of the line when there is no second one. A double quote is tried before a
single quote. When no line qualifies, the function falls off its end and
returns Python's `None`.

The model has four modules:

- `Wrappers` holds the `Option` type, which stands for "a string or `None`".
- `PyStr` models the Python string operations the reader uses. These are
  the substring test `pat in s` (`Contains`) and `s.split(c)` for one
  character (`Split`). It also models `c.join(parts)` (`Join`), the inverse
  of `Split`, and `s.index(c)` (`Index`). `s.split(c)[1]` is `Field`. It is
  described by `Delimits`: the text after the first `c`, up to the next
  `c` or to the end of the string.
- `Setup` models the loop body (`LineVersion`) and the whole scan
  (`GetVersion`). The scan runs over the file's lines. Each line keeps its
  line terminator, as Python's iteration over a text file yields it.
- `SetupScenarios` works through concrete files. One is the
  `__version__ = "0.9"` line the source's comment shows.

The function is easily summarised as returning "the text between the
first pair of quotes". The code differs from that summary when a line holds
only one quote of the chosen kind: then `split(...)[1]` runs to the end of
the line, newline included. The model follows the code
(`Setup.LineVersionDoubleQuoted` with `j` at the end of the line, and
`SetupScenarios.UnterminatedVersion`).

## Model

| member | source | states |
|---|---|---|
| PyStr.Contains | setup.py:12 | `pat in s` holds exactly when `pat` occurs at some offset of `s` |
| PyStr.NotContainsMissingChar | setup.py:12 | a line lacking one character of the marker does not mention the marker |
| PyStr.Index | setup.py:15 | the position found is a `c` with no `c` before it |
| PyStr.IndexUnique | setup.py:15 | any position holding the first `c` is the one `Index` finds |
| PyStr.Split | setup.py:15 | `split(c)` yields at least one piece, exactly one iff `c` is absent, and no piece holds `c` |
| PyStr.JoinSplit | setup.py:15 | joining the pieces of `split(c)` with `c` gives back the line |
| PyStr.SplitJoin | setup.py:15 | splitting the join of `c`-free pieces gives back the pieces |
| PyStr.SplitCount | setup.py:15 | `split(c)` yields one more piece than the line has `c` characters |
| PyStr.SplitFirst | setup.py:15 | the first piece is a prefix of the line ending at a `c` or at the end of the line |
| PyStr.SplitRest | setup.py:15 | the pieces after the first are the split of the text after the first `c` |
| PyStr.Field | setup.py:15 | `split(c)[1]` exists when `c` occurs and is the text after the first `c`, holding no `c`, up to the next `c` or the end |
| PyStr.FieldShape | setup.py:15 | when `c` occurs there are at least two pieces and the second is delimited as above |
| PyStr.FieldBetween | setup.py:15 | conversely, the text between the first `c` and the next `c` (or the end) is `split(c)[1]` |
| PyStr.DelimitsField | setup.py:15 | the description of `split(c)[1]` admits exactly one text, so every value it accepts is `split(c)[1]` |
| PyStr.FirstAfterHead | setup.py:15 | in a line made of `c`-free text, `c` and a tail, the first `c` follows that text and the tail comes after it |
| PyStr.EnclosedAfterHead | setup.py:15 | in a line made of `c`-free text, `c`, a value, `c` and more, the first two `c` enclose the value |
| Setup.LineVersion | setup.py:12-17 | a line yields a value iff it mentions `__version__` and holds a quote; the value follows the first double quote when there is one, the first single quote otherwise, holds no quote of that kind and ends at the next one or at the end of the line |
| Setup.GetVersion | setup.py:9-17 | the result is `None` iff no line mentions `__version__` together with a quote |
| Setup.GetVersionFirstMatch | setup.py:11-17 | the first qualifying line alone decides the result |
| Setup.GetVersionSome | setup.py:11-17 | every returned value comes from the first qualifying line and is a contiguous quote-free piece of it |
| Setup.FirstOf | setup.py:11 | when some line qualifies there is a first one |
| Setup.GetVersionSkips | setup.py:11-17 | lines lacking the marker, or holding it without a quote, never end the scan |
| Setup.GetVersionIgnoresLater | setup.py:11-17 | lines after a qualifying line have no effect |
| Setup.GetVersionPair | setup.py:11-17 | in a two-line file the first line decides when it qualifies, the second otherwise |
| Setup.GetVersionOneLine | setup.py:11-17 | a one-line file yields what its line yields |
| Setup.LineVersionDoubleQuoted | setup.py:13-15 | on a marker line, the text between the first double quote and the next (or the end of the line) is the value, whatever single quotes the line holds |
| Setup.LineVersionSingleQuoted | setup.py:16-17 | on a marker line with no double quote, the text between the first single quote and the next (or the end of the line) is the value |
| Setup.GetVersionDoubleQuoted | setup.py:11-15 | the same for a whole file, on its first qualifying line |
| Setup.GetVersionSingleQuoted | setup.py:11-17 | the same for a whole file whose first qualifying line has no double quote |
| SetupScenarios.PrefixMentionsMarker | setup.py:12 | a line starting with `__version__ = ` mentions the marker |
| SetupScenarios.AssignmentShape | setup.py:12-17 | in `__version__ = ` + quote + value + quote + rest, the first quote is at offset 14 and the value follows it |
| SetupScenarios.DoubleQuotedLine | setup.py:14 | the quote positions of `__version__ = "0.9"` |
| SetupScenarios.DoubleQuotedVersion | setup.py:14-15 | `__version__ = "0.9"` yields `0.9` |
| SetupScenarios.SingleQuotedLine | setup.py:16-17 | the quote positions of `__version__ = '2.3'` |
| SetupScenarios.SingleQuotedVersion | setup.py:16-17 | `__version__ = '2.3'` yields `2.3` |
| SetupScenarios.BothQuotesLine | setup.py:13-15 | the double-quote positions of `__version__ = "2.3"  # was '2.2'` |
| SetupScenarios.DoubleQuoteWins | setup.py:13-15 | on that line the double-quoted `2.3` is taken, not the single-quoted `2.2` |
| SetupScenarios.UnterminatedLine | setup.py:15 | the quote position of `__version__ = "0.9` with no closing quote |
| SetupScenarios.UnterminatedVersion | setup.py:15 | that line yields `0.9` followed by the newline |
| SetupScenarios.CommentLineSkipped | setup.py:12 | a comment line without the marker does not qualify |
| SetupScenarios.UnquotedMarkerLineSkipped | setup.py:12-17 | a marker line with no quote does not qualify |
| SetupScenarios.UnquotedMarkerThenVersion | setup.py:11-17 | after such a line the scan goes on, and the next line's `'2.3'` is the version |
| SetupScenarios.CommentThenVersion | setup.py:11-17 | a comment line before the version line changes nothing |
| SetupScenarios.FirstVersionLineWins | setup.py:11-17 | of two version lines the first decides |
| SetupScenarios.NoMarker | setup.py:9-17 | a file without the marker yields `None`, even when it holds quotes |

## Left out

- Opening the file is not modelled. This covers the path join relative to the script's directory, the cp437 decoding and newline translation (setup.py:11). The model starts from the decoded lines. A file that cannot be opened raises in Python; that is not modelled.
- Reading `README.rst` into `long_description` (setup.py:6) is file I/O with no logic of its own.
- The `setup(...)` call (setup.py:20-71) only hands the metadata, the version included, to setuptools. What setuptools does with a `None` version is setuptools' concern.
- PyStr.Split: only the one-character separators the reader uses are modelled, not Python's general `str.split`.
