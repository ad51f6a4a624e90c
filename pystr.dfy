/**
 * The few Python string operations that the version reader relies on:
 * the substring test `pat in s`, `s.split(c)` for a one-character
 * separator, its inverse `c.join(parts)`, and `s.index(c)`.
 * A Python `str` is modelled as a Dafny `string` (a sequence of chars).
 */
module PyStr {

  /** `pat` occurs in `s` starting at offset `i`. */
  ghost predicate OccursAt(s: string, pat: string, i: nat)
  {
    i + |pat| <= |s| && s[i..i + |pat|] == pat
  }

  predicate StartsWith(s: string, pat: string)
  {
    |pat| <= |s| && s[..|pat|] == pat
  }

  /** Python's `pat in s` for strings: true exactly when `pat` occurs somewhere in `s`. */
  function Contains(s: string, pat: string): (b: bool)
    ensures b <==> exists i: nat :: OccursAt(s, pat, i)
    decreases |s|
  {
    if StartsWith(s, pat) then
      assert OccursAt(s, pat, 0);
      true
    else if s == [] then
      false
    else
      ContainsStep(s, pat);
      Contains(s[1..], pat)
  }

  /** A string that lacks one of the characters of `pat` cannot contain `pat`. */
  lemma NotContainsMissingChar(s: string, pat: string, x: char)
    requires x in pat && x !in s
    ensures !Contains(s, pat)
  {
  }

  /** Once `pat` is known not to start `s`, it occurs in `s` iff it occurs in `s[1..]`. */
  lemma ContainsStep(s: string, pat: string)
    requires |s| > 0 && !OccursAt(s, pat, 0)
    ensures (exists i: nat :: OccursAt(s, pat, i)) <==> (exists i: nat :: OccursAt(s[1..], pat, i))
  {
    if i: nat :| OccursAt(s, pat, i) {
      assert i > 0;
      assert s[1..][i - 1..i - 1 + |pat|] == s[i..i + |pat|];
      assert OccursAt(s[1..], pat, i - 1);
    }
    if i: nat :| OccursAt(s[1..], pat, i) {
      assert s[1..][i..i + |pat|] == s[i + 1..i + 1 + |pat|];
      assert OccursAt(s, pat, i + 1);
    }
  }

  /** `i` is the position of the first `c` in `s`. */
  ghost predicate FirstAt(s: string, c: char, i: nat)
  {
    i < |s| && s[i] == c && forall j :: 0 <= j < i ==> s[j] != c
  }

  /** A `c` with no `c` before it is the first one. */
  lemma FirstAtPrefix(s: string, c: char, i: nat)
    requires i < |s| && s[i] == c && c !in s[..i]
    ensures FirstAt(s, c, i)
  {
    assert forall j :: 0 <= j < i ==> s[j] == s[..i][j];
  }

  /** In `head + [c] + tail` with no `c` in `head`, the first `c` follows `head`. */
  lemma FirstAfterHead(s: string, head: string, c: char, tail: string)
    requires s == head + [c] + tail && c !in head
    ensures FirstAt(s, c, |head|) && s[|head| + 1..|s|] == tail
  {
    assert s[..|head|] == head;
    FirstAtPrefix(s, c, |head|);
  }

  /** In `head + [c] + v + [c] + rest` with no `c` in `head`, the first two `c` enclose `v`. */
  lemma EnclosedAfterHead(s: string, head: string, c: char, v: string, rest: string)
    requires s == head + [c] + v + [c] + rest && c !in head
    ensures FirstAt(s, c, |head|)
    ensures s[|head| + 1..|head| + 1 + |v|] == v && s[|head| + 1 + |v|] == c
  {
    FirstAfterHead(s, head, c, v + [c] + rest);
  }

  /** Python's `s.index(c)`: the position of the first occurrence of `c`. */
  function Index(s: string, c: char): (i: nat)
    requires c in s
    ensures FirstAt(s, c, i)
  {
    if s[0] == c then 0
    else
      Index(s[1..], c) + 1
  }

  /** The first occurrence is unique: any position that is first is the one `Index` finds. */
  lemma IndexUnique(s: string, c: char, i: nat)
    requires FirstAt(s, c, i)
    ensures Index(s, c) == i
  {
  }

  /**
   * Python's `c.join(parts)` for non-empty `parts` (the only case `Split`
   * produces): the parts with one `c` between each two neighbours.
   */
  function Join(parts: seq<string>, c: char): (s: string)
    requires |parts| >= 1
    decreases |parts|
  {
    if |parts| == 1 then parts[0] else parts[0] + [c] + Join(parts[1..], c)
  }

  /**
   * Python's `s.split(c)` for a one-character separator: cut `s` at every
   * occurrence of `c`. There is more than one piece exactly when `c` occurs,
   * and no piece holds `c`.
   */
  function Split(s: string, c: char): (r: seq<string>)
    ensures |r| >= 1
    ensures |r| == 1 <==> c !in s
    ensures forall k :: 0 <= k < |r| ==> c !in r[k]
    decreases |s|
  {
    if s == [] then [[]]
    else
      var rest := Split(s[1..], c);
      assert s == [s[0]] + s[1..];
      if s[0] == c then
        var r := [[]] + rest;
        assert r[1..] == rest;
        r
      else
        var r := [[s[0]] + rest[0]] + rest[1..];
        assert r[1..] == rest[1..];
        assert forall x :: x in r[0] ==> x == s[0] || x in rest[0];
        r
  }

  /** Joining the pieces of a split with the separator gives back the string. */
  lemma {:induction false} JoinSplit(s: string, c: char)
    ensures Join(Split(s, c), c) == s
    decreases |s|
  {
    if s != [] {
      var rest := Split(s[1..], c);
      JoinSplit(s[1..], c);
      assert s == [s[0]] + s[1..];
      if s[0] == c {
        assert ([[]] + rest)[1..] == rest;
      } else if |rest| == 1 {
      } else {
        JoinPrefix(rest, c);
        var r := [[s[0]] + rest[0]] + rest[1..];
        assert r[1..] == rest[1..];
      }
    }
  }

  /** There is one more piece than there are separators in `s`. */
  lemma {:induction false} SplitCount(s: string, c: char)
    ensures |Split(s, c)| == multiset(s)[c] + 1
    decreases |s|
  {
    if s != [] {
      SplitCount(s[1..], c);
      assert s == [s[0]] + s[1..];
      assert multiset(s) == multiset([s[0]]) + multiset(s[1..]);
    }
  }

  /** Splitting a string that starts with an ordinary character extends the first piece. */
  lemma SplitCons(x: char, s: string, c: char)
    requires x != c
    ensures Split([x] + s, c) == [[x] + Split(s, c)[0]] + Split(s, c)[1..]
  {
    assert ([x] + s)[1..] == s;
  }

  /** Splitting a string that starts with the separator yields an empty first piece. */
  lemma SplitSep(s: string, c: char)
    ensures Split([c] + s, c) == [[]] + Split(s, c)
  {
    assert ([c] + s)[1..] == s;
  }

  /** No piece holds the separator. */
  ghost predicate SeparatorFree(parts: seq<string>, c: char)
  {
    forall k :: 0 <= k < |parts| ==> c !in parts[k]
  }

  /** Joining after moving the first character out of the first piece. */
  lemma JoinPeel(parts: seq<string>, c: char)
    requires |parts| >= 1 && |parts[0]| > 0
    ensures Join(parts, c) == [parts[0][0]] + Join([parts[0][1..]] + parts[1..], c)
  {
    var p := [parts[0][1..]] + parts[1..];
    assert p[1..] == parts[1..];
    assert parts[0] == [parts[0][0]] + parts[0][1..];
  }

  /** Splitting is the inverse of joining pieces that hold no separator. */
  lemma {:induction false} SplitJoin(parts: seq<string>, c: char)
    requires |parts| >= 1
    requires SeparatorFree(parts, c)
    ensures Split(Join(parts, c), c) == parts
    decreases |parts|, |parts[0]|
  {
    var head := parts[0];
    if |head| > 0 {
      // Peel the first character of the first piece.
      var p := [head[1..]] + parts[1..];
      assert SeparatorFree(p, c) by {
        assert p[1..] == parts[1..];
        assert forall x :: x in head[1..] ==> x in head;
      }
      SplitJoin(p, c);
      SplitJoinPeel(parts, c);
    } else if |parts| > 1 {
      var rest := parts[1..];
      assert SeparatorFree(rest, c) by {
        assert forall k :: 0 <= k < |rest| ==> rest[k] == parts[k + 1];
      }
      SplitJoin(rest, c);
      SplitJoinSep(parts, c);
    } else {
      assert parts == [[]];
    }
  }

  /** The inductive step of SplitJoin when the first piece is not empty. */
  lemma SplitJoinPeel(parts: seq<string>, c: char)
    requires |parts| >= 1 && |parts[0]| > 0 && c !in parts[0]
    requires var p := [parts[0][1..]] + parts[1..]; Split(Join(p, c), c) == p
    ensures Split(Join(parts, c), c) == parts
  {
    var head := parts[0];
    var p := [head[1..]] + parts[1..];
    JoinPeel(parts, c);
    SplitCons(head[0], Join(p, c), c);
    assert head == [head[0]] + head[1..];
    assert p[1..] == parts[1..];
  }

  /** The inductive step of SplitJoin when the first piece is empty. */
  lemma SplitJoinSep(parts: seq<string>, c: char)
    requires |parts| >= 2 && parts[0] == []
    requires Split(Join(parts[1..], c), c) == parts[1..]
    ensures Split(Join(parts, c), c) == parts
  {
    SplitSep(Join(parts[1..], c), c);
    assert parts == [[]] + parts[1..];
  }

  /**
   * `Join` unfolded one step on two or more parts: the first part, `c`, then
   * the join of the rest, which starts with `parts[1]` followed by `c` or
   * by nothing more.
   */
  lemma JoinPrefix(parts: seq<string>, c: char)
    requires |parts| >= 2
    ensures Join(parts, c) == parts[0] + [c] + Join(parts[1..], c)
    ensures Join(parts[1..], c) == parts[1] || Join(parts[1..], c)[|parts[1]|] == c
    ensures parts[1] <= Join(parts[1..], c)
  {
    if |parts| > 2 {
      assert parts[1..][1..] == parts[2..];
    }
  }

  /**
   * `f` is the text after the first `c` in `s`, up to the next `c` or to the
   * end of `s` when no `c` follows; so it is a contiguous piece of `s`
   * holding no `c`.
   */
  ghost predicate Delimits(s: string, c: char, f: string)
    requires c in s
  {
    DelimitsAt(s, c, Index(s, c), f)
  }

  /**
   * `f` starts just after position `i` of `s`, holds no `c`, and ends at a
   * `c` or at the end of `s`; so it ends at the next `c` after `i`.
   */
  ghost predicate DelimitsAt(s: string, c: char, i: nat, f: string)
  {
    && c !in f
    && i + 1 + |f| <= |s|
    && s[i + 1..i + 1 + |f|] == f
    && (i + 1 + |f| == |s| || s[i + 1 + |f|] == c)
  }

  /** Python's `s.split(c)[1]`, defined when `c` occurs in `s`. */
  function Field(s: string, c: char): (f: string)
    requires c in s
    ensures Delimits(s, c, f)
  {
    FieldShape(s, c);
    Split(s, c)[1]
  }

  /** The first piece `f` of a split is a prefix of `s` that ends at a separator or at the end of `s`. */
  lemma {:induction false} SplitFirst(s: string, c: char, f: string)
    requires f == Split(s, c)[0]
    ensures |f| <= |s| && s[..|f|] == f && (|f| == |s| || s[|f|] == c)
    decreases |s|
  {
    if s != [] && s[0] != c {
      var g := Split(s[1..], c)[0];
      SplitFirst(s[1..], c, g);
      assert f == [s[0]] + g;
      assert s == [s[0]] + s[1..];
    }
  }

  /** The pieces after the first one are the split of the text after the first separator. */
  lemma {:induction false} SplitRest(s: string, c: char)
    requires c in s
    ensures Split(s, c)[1..] == Split(s[Index(s, c) + 1..], c)
    decreases |s|
  {
    var rest := Split(s[1..], c);
    if s[0] == c {
      assert ([[]] + rest)[1..] == rest;
    } else {
      assert Split(s, c)[1..] == rest[1..] by {
        var r := [[s[0]] + rest[0]] + rest[1..];
        assert Split(s, c) == r && r[1..] == rest[1..];
      }
      assert s[Index(s, c) + 1..] == s[1..][Index(s[1..], c) + 1..] by {
        assert Index(s, c) == Index(s[1..], c) + 1;
      }
      SplitRest(s[1..], c);
    }
  }

  /** When `c` occurs there is a second piece, and it is delimited after the first `c`. */
  lemma FieldShape(s: string, c: char)
    requires c in s
    ensures |Split(s, c)| >= 2 && Delimits(s, c, Split(s, c)[1])
  {
    var i := Index(s, c);
    var f := Split(s, c)[1];
    FieldFollowsIndex(s, c, i, f);
    FieldAfter(s, c, i, f);
  }

  /** The second piece is the first piece of what follows the first separator. */
  lemma FieldFollowsIndex(s: string, c: char, i: nat, f: string)
    requires c in s && i == Index(s, c) && |Split(s, c)| >= 2 && f == Split(s, c)[1]
    ensures f == Split(s[i + 1..], c)[0]
  {
    SplitRest(s, c);
    assert Split(s, c)[1..][0] == f;
  }

  /** The first piece of what follows position `i` is delimited there. */
  lemma FieldAfter(s: string, c: char, i: nat, f: string)
    requires i < |s| && f == Split(s[i + 1..], c)[0]
    ensures DelimitsAt(s, c, i, f)
  {
    var t := s[i + 1..];
    assert c !in f;
    SplitFirst(t, c, f);
    SliceOfSuffix(s, i + 1, |f|);
    if |f| < |t| {
      assert s[i + 1 + |f|] == t[|f|];
    }
  }

  /** A slice of `s` is the same slice taken from the suffix where it starts. */
  lemma SliceOfSuffix(s: string, a: nat, n: nat)
    requires a + n <= |s|
    ensures s[a..a + n] == s[a..][..n]
  {
  }

  /**
   * The converse description of `Field`: whenever `i` is the first `c` and
   * `j` is the next `c` after it (or the end of `s`), the field is `s[i+1..j]`.
   */
  lemma FieldBetween(s: string, c: char, i: nat, j: nat)
    requires FirstAt(s, c, i)
    requires i < j <= |s|
    requires c !in s[i + 1..j]
    requires j == |s| || s[j] == c
    ensures Field(s, c) == s[i + 1..j]
  {
    IndexUnique(s, c, i);
  }

  /** `Delimits` fixes the field: the only text it accepts is `split(c)[1]`. */
  lemma DelimitsField(s: string, c: char, f: string)
    requires c in s && Delimits(s, c, f)
    ensures f == Field(s, c)
  {
    var i := Index(s, c);
    FieldBetween(s, c, i, i + 1 + |f|);
  }
}
