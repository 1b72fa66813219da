/**
 * The Kotlin standard-library string operations that Bundler.kt relies on:
 * `trim`, `split` on a one-character delimiter, `substringAfter`,
 * `findLastAnyOf` and `findAnyOf`.
 */
module Text {
  import opened Results

  /**
   * Kotlin `Char.isWhitespace()`: Java's `isWhitespace` or `isSpaceChar`, i.e.
   * the ASCII controls 9..13 and 28..31 plus every Unicode space, line or
   * paragraph separator.
   */
  predicate IsWhitespace(c: char)
  {
    var n := c as int;
    (9 <= n <= 13) || (28 <= n <= 32) || n == 0xA0 || n == 0x1680 || (0x2000 <= n <= 0x200A)
    || n == 0x2028 || n == 0x2029 || n == 0x202F || n == 0x205F || n == 0x3000
  }

  /** Drops leading whitespace. */
  function TrimStart(s: string): string
  {
    if |s| > 0 && IsWhitespace(s[0]) then TrimStart(s[1..]) else s
  }

  /** Drops trailing whitespace. */
  function TrimEnd(s: string): string
  {
    if |s| > 0 && IsWhitespace(s[|s| - 1]) then TrimEnd(s[..|s| - 1]) else s
  }

  /** Kotlin `String.trim()`: drops whitespace from both ends. */
  function Trim(s: string): string
  {
    TrimEnd(TrimStart(s))
  }

  /** Index of the first `c` in `s`, if any. */
  function IndexOf(s: string, c: char): (r: Option<nat>)
    ensures r.Some? ==> r.value < |s| && s[r.value] == c && c !in s[..r.value]
    ensures r.None? ==> c !in s
  {
    if |s| == 0 then None
    else if s[0] == c then Some(0)
    else match IndexOf(s[1..], c)
      case None => None
      case Some(i) => Some(i + 1)
  }

  /**
   * `findLastAnyOf(setOf(c))` for a one-character string: the index of the
   * last `c` in `s`, if any.
   */
  function LastIndexOf(s: string, c: char): (r: Option<nat>)
    ensures r.Some? ==> r.value < |s| && s[r.value] == c && c !in s[r.value + 1..]
    ensures r.None? ==> c !in s
  {
    if |s| == 0 then None
    else if s[|s| - 1] == c then Some(|s| - 1)
    else LastIndexOf(s[..|s| - 1], c)
  }

  /** Kotlin `substringAfter(c)`: the text after the first `c`, or all of `s` when there is none. */
  function SubstringAfter(s: string, c: char): (r: string)
  {
    match IndexOf(s, c)
    case None => s
    case Some(i) => s[i + 1..]
  }

  /**
   * Kotlin `split(d)` for a one-character delimiter: every piece between
   * delimiters, empty pieces included, so the result is never empty.
   */
  function Split(s: string, d: char): (r: seq<string>)
    ensures |r| >= 1
    ensures forall k :: 0 <= k < |r| ==> d !in r[k]
  {
    if |s| == 0 then [""]
    else
      var rest := Split(s[1..], d);
      if s[0] == d then [""] + rest
      else [[s[0]] + rest[0]] + rest[1..]
  }

  /** The pieces joined with one `d` between neighbours. */
  function Join(ts: seq<string>, d: char): string
  {
    if |ts| == 0 then ""
    else if |ts| == 1 then ts[0]
    else ts[0] + [d] + Join(ts[1..], d)
  }

  /** `pat` occurs in `s` at index `i`. */
  predicate OccursAt(s: string, pat: string, i: nat)
  {
    i + |pat| <= |s| && s[i..i + |pat|] == pat
  }

  /** Some pattern of `pats` occurs in `s` at index `i`. */
  predicate AnyOccursAt(s: string, pats: seq<string>, i: nat)
  {
    exists k :: 0 <= k < |pats| && OccursAt(s, pats[k], i)
  }

  /** The smallest index at or after `from` where some pattern occurs. */
  function FindAnyFrom(s: string, pats: seq<string>, from: nat): (r: Option<nat>)
    requires from <= |s|
    ensures r.Some? ==> from <= r.value <= |s| && AnyOccursAt(s, pats, r.value)
    ensures forall j :: from <= j <= |s| && (r.None? || j < r.value) ==> !AnyOccursAt(s, pats, j)
    decreases |s| - from
  {
    if AnyOccursAt(s, pats, from) then Some(from)
    else if from == |s| then None
    else FindAnyFrom(s, pats, from + 1)
  }

  /**
   * Kotlin `findAnyOf(pats)?.first`: the first index, scanning 0..|s|, at
   * which some pattern of `pats` occurs.
   */
  function FindAny(s: string, pats: seq<string>): (r: Option<nat>)
    ensures r.Some? ==> r.value <= |s| && AnyOccursAt(s, pats, r.value)
    ensures forall j :: 0 <= j <= |s| && (r.None? || j < r.value) ==> !AnyOccursAt(s, pats, j)
  {
    FindAnyFrom(s, pats, 0)
  }

  /** `TrimStart` keeps a suffix that does not start with whitespace, and drops only whitespace. */
  lemma {:induction false} TrimStartSuffix(s: string)
    ensures var r := TrimStart(s);
      |r| <= |s| && r == s[|s| - |r|..] && (r == [] || !IsWhitespace(r[0]))
    ensures forall k :: 0 <= k < |s| - |TrimStart(s)| ==> IsWhitespace(s[k])
  {
    if |s| > 0 && IsWhitespace(s[0]) {
      var t := s[1..];
      TrimStartSuffix(t);
      var r := TrimStart(t);
      assert TrimStart(s) == r;
      assert s[|s| - |r|..] == t[|t| - |r|..];
      forall k | 0 <= k < |s| - |r|
        ensures IsWhitespace(s[k])
      {
        if k > 0 {
          assert s[k] == t[k - 1];
        }
      }
    }
  }

  /** `TrimEnd` keeps a prefix that does not end with whitespace, and drops only whitespace. */
  lemma {:induction false} TrimEndPrefix(s: string)
    ensures var r := TrimEnd(s);
      |r| <= |s| && r == s[..|r|] && (r == [] || !IsWhitespace(r[|r| - 1]))
    ensures forall k :: |TrimEnd(s)| <= k < |s| ==> IsWhitespace(s[k])
  {
    if |s| > 0 && IsWhitespace(s[|s| - 1]) {
      var t := s[..|s| - 1];
      TrimEndPrefix(t);
      var r := TrimEnd(t);
      assert TrimEnd(s) == r;
      assert s[..|r|] == t[..|r|];
      forall k | |r| <= k < |s|
        ensures IsWhitespace(s[k])
      {
        if k < |t| {
          assert s[k] == t[k];
        }
      }
    }
  }

  /** What `trim` returns neither starts nor ends with whitespace. */
  lemma TrimEnds(s: string)
    ensures Trim(s) == [] || (!IsWhitespace(Trim(s)[0]) && !IsWhitespace(Trim(s)[|Trim(s)| - 1]))
  {
    var t := TrimStart(s);
    TrimStartSuffix(s);
    TrimEndPrefix(t);
  }

  /**
   * `trim` keeps an infix of `s`, and everything it cuts off, on either
   * side, is whitespace.
   */
  lemma TrimIsInfix(s: string)
    ensures var i := |s| - |TrimStart(s)|;
      0 <= i && i + |Trim(s)| <= |s| && Trim(s) == s[i..i + |Trim(s)|]
      && (forall k :: 0 <= k < i ==> IsWhitespace(s[k]))
      && (forall k :: i + |Trim(s)| <= k < |s| ==> IsWhitespace(s[k]))
  {
    var t := TrimStart(s);
    var r := TrimEnd(t);
    var i := |s| - |t|;
    TrimStartSuffix(s);
    TrimEndPrefix(t);
    assert r == t[..|r|] == s[i..i + |r|];
    forall k | i + |r| <= k < |s|
      ensures IsWhitespace(s[k])
    {
      assert s[k] == t[k - i];
    }
  }

  /** Trimming a string that already starts and ends with non-whitespace changes nothing. */
  lemma TrimUnchanged(s: string)
    requires s == [] || (!IsWhitespace(s[0]) && !IsWhitespace(s[|s| - 1]))
    ensures Trim(s) == s
  {
  }

  /** A trailing space never survives `trim`. */
  lemma {:induction false} TrimStartAppendSpace(s: string)
    ensures TrimStart(s + " ") == if TrimStart(s) == [] then [] else TrimStart(s) + " "
  {
    if |s| > 0 && IsWhitespace(s[0]) {
      assert (s + " ")[1..] == s[1..] + " ";
      TrimStartAppendSpace(s[1..]);
    } else if |s| > 0 {
      assert (s + " ")[0] == s[0];
    }
  }

  lemma TrimAppendSpace(s: string)
    ensures Trim(s + " ") == Trim(s)
  {
    TrimStartAppendSpace(s);
    var t := TrimStart(s);
    if t != [] {
      assert (t + " ")[..|t + " "| - 1] == t;
    }
  }

  /** A string without the delimiter splits into itself alone. */
  lemma {:induction false} SplitNoDelimiter(t: string, d: char)
    requires d !in t
    ensures Split(t, d) == [t]
  {
    if |t| > 0 {
      SplitNoDelimiter(t[1..], d);
      assert [t[0]] + t[1..] == t;
    }
  }

  /** Splitting at one delimiter splits the two sides independently. */
  lemma {:induction false} SplitAround(a: string, b: string, d: char)
    ensures Split(a + [d] + b, d) == Split(a, d) + Split(b, d)
  {
    if |a| == 0 {
      assert a + [d] + b == [d] + b;
      assert ([d] + b)[1..] == b;
    } else {
      assert (a + [d] + b)[0] == a[0];
      assert (a + [d] + b)[1..] == a[1..] + [d] + b;
      SplitAround(a[1..], b, d);
    }
  }

  /** Joining after splitting gives back the original text. */
  lemma {:induction false} JoinSplit(s: string, d: char)
    ensures Join(Split(s, d), d) == s
  {
    if |s| > 0 {
      JoinSplit(s[1..], d);
      var rest := Split(s[1..], d);
      if s[0] == d {
        assert Join([""] + rest, d) == "" + [d] + Join(rest, d);
        assert s == [d] + s[1..];
      } else {
        var r := [[s[0]] + rest[0]] + rest[1..];
        if |rest| == 1 {
          assert Join(r, d) == [s[0]] + rest[0];
        } else {
          assert r[1..] == rest[1..];
          assert Join(rest, d) == rest[0] + [d] + Join(rest[1..], d);
          assert Join(r, d) == [s[0]] + rest[0] + [d] + Join(rest[1..], d);
        }
        assert s == [s[0]] + s[1..];
      }
    }
  }

  /** Splitting after joining gives back the pieces, when none holds the delimiter. */
  lemma {:induction false} SplitJoin(ts: seq<string>, d: char)
    requires |ts| >= 1
    requires forall k :: 0 <= k < |ts| ==> d !in ts[k]
    ensures Split(Join(ts, d), d) == ts
  {
    if |ts| == 1 {
      SplitNoDelimiter(ts[0], d);
    } else {
      SplitNoDelimiter(ts[0], d);
      SplitAround(ts[0], Join(ts[1..], d), d);
      SplitJoin(ts[1..], d);
      assert ts == [ts[0]] + ts[1..];
    }
  }

  /** An empty piece anywhere shows up as an empty piece when the join is split again. */
  lemma {:induction false} SplitJoinKeepsEmpty(ts: seq<string>, d: char, k: nat)
    requires k < |ts| && ts[k] == ""
    ensures "" in Split(Join(ts, d), d)
  {
    if |ts| == 1 {
      assert Split("", d) == [""];
    } else {
      SplitAround(ts[0], Join(ts[1..], d), d);
      if k == 0 {
        assert Split(ts[0], d) == [""];
        assert Split(Join(ts, d), d)[0] == "";
      } else {
        SplitJoinKeepsEmpty(ts[1..], d, k - 1);
        var tail := Split(Join(ts[1..], d), d);
        var i :| 0 <= i < |tail| && tail[i] == "";
        assert Split(Join(ts, d), d)[|Split(ts[0], d)| + i] == "";
      }
    }
  }

  /** Appending one more piece to a join. */
  lemma {:induction false} JoinAppend(ts: seq<string>, t: string, d: char)
    requires |ts| >= 1
    ensures Join(ts + [t], d) == Join(ts, d) + [d] + t
  {
    if |ts| > 1 {
      assert (ts + [t])[1..] == ts[1..] + [t];
      JoinAppend(ts[1..], t, d);
    }
  }

  /** A join whose first and last pieces are non-empty starts and ends with their characters. */
  lemma {:induction false} JoinEnds(ts: seq<string>, d: char)
    requires |ts| >= 1 && ts[0] != [] && ts[|ts| - 1] != []
    ensures |Join(ts, d)| > 0
    ensures Join(ts, d)[0] == ts[0][0]
    ensures Join(ts, d)[|Join(ts, d)| - 1] == ts[|ts| - 1][|ts[|ts| - 1]| - 1]
  {
    if |ts| > 1 {
      JoinAppend(ts[..|ts| - 1], ts[|ts| - 1], d);
      assert ts[..|ts| - 1] + [ts[|ts| - 1]] == ts;
      JoinEnds(ts[..1], d);
      if |ts| > 2 {
        assert Join(ts, d)[0] == ts[0][0];
      }
    }
  }

  /** Text appended after the last `c` does not move it. */
  lemma {:induction false} LastIndexOfAppend(a: string, b: string, c: char)
    requires c !in b
    ensures LastIndexOf(a + b, c) == LastIndexOf(a, c)
    decreases |b|
  {
    if |b| > 0 {
      var init := b[..|b| - 1];
      assert (a + b)[..|a + b| - 1] == a + init;
      assert (a + b)[|a + b| - 1] == b[|b| - 1];
      LastIndexOfAppend(a, init, c);
    } else {
      assert a + b == a;
    }
  }

  /** A character that is not the delimiter and is in no piece is not in the join. */
  lemma {:induction false} JoinAvoids(ts: seq<string>, d: char, c: char)
    requires c != d && forall k :: 0 <= k < |ts| ==> c !in ts[k]
    ensures c !in Join(ts, d)
    decreases |ts|
  {
    if |ts| > 1 {
      JoinAvoids(ts[1..], d, c);
      assert forall k :: 0 <= k < |ts| - 1 ==> ts[1..][k] == ts[k + 1];
      assert Join(ts, d) == ts[0] + [d] + Join(ts[1..], d);
    }
  }

  /** A join splits at any inner boundary into the join before it, one `d`, and the join after it. */
  lemma {:induction false} JoinSplitAt(ts: seq<string>, d: char, k: nat)
    requires 0 < k < |ts|
    ensures Join(ts, d) == Join(ts[..k], d) + [d] + Join(ts[k..], d)
    decreases k
  {
    if k > 1 {
      JoinSplitAt(ts[1..], d, k - 1);
      assert ts[1..][..k - 1] == ts[..k][1..];
      assert ts[1..][k - 1..] == ts[k..];
    }
  }

  /** An empty inner piece leaves two delimiters in a row in the join. */
  lemma JoinEmptyAt(ts: seq<string>, d: char, k: nat)
    requires 0 < k < |ts| - 1 && ts[k] == ""
    ensures Join(ts, d) == Join(ts[..k], d) + [d, d] + Join(ts[k + 1..], d)
  {
    JoinSplitAt(ts, d, k);
    assert ts[k..][1..] == ts[k + 1..];
    assert Join(ts[k..], d) == ts[k] + [d] + Join(ts[k + 1..], d);
  }

  /** Every character of every piece is in the join. */
  lemma {:induction false} JoinContains(ts: seq<string>, d: char, j: nat, c: char)
    requires j < |ts| && c in ts[j]
    ensures c in Join(ts, d)
    decreases j
  {
    if j > 0 {
      JoinContains(ts[1..], d, j - 1, c);
      assert Join(ts, d) == ts[0] + [d] + Join(ts[1..], d);
    } else if |ts| > 1 {
      assert Join(ts, d) == ts[0] + [d] + Join(ts[1..], d);
    }
  }

  /** Two delimiters in a row leave an empty piece between them. */
  lemma DoubleDelimiterSplit(t: string, d: char, m: nat)
    requires m + 1 < |t| && t[m] == d && t[m + 1] == d
    ensures "" in Split(t, d)
  {
    var rest := t[m + 1..];
    assert t == t[..m] + [d] + rest;
    SplitAround(t[..m], rest, d);
    assert rest == [] + [d] + t[m + 2..];
    SplitAround([], t[m + 2..], d);
    assert Split([], d) == [""];
    assert Split(t, d)[|Split(t[..m], d)|] == "";
  }

  /**
   * `trim` keeps everything between two characters that are not whitespace:
   * a position `p` strictly between them survives at `p` less what the start
   * trim dropped.
   */
  lemma TrimKeepsInner(s: string, q: nat, r: nat, p: nat)
    requires q < p && p + 1 < r < |s| && !IsWhitespace(s[q]) && !IsWhitespace(s[r])
    ensures var i := |s| - |TrimStart(s)|;
      i <= q && r < i + |Trim(s)| && Trim(s)[p - i] == s[p] && Trim(s)[p + 1 - i] == s[p + 1]
  {
    TrimIsInfix(s);
  }

  /**
   * Two spaces between text that holds a non-whitespace character on each
   * side survive `trim`, so the trimmed text splits with an empty piece.
   */
  lemma TrimKeepsDoubleSpace(a: string, b: string, c1: char, c2: char)
    requires c1 in a && c2 in b && !IsWhitespace(c1) && !IsWhitespace(c2)
    ensures "" in Split(Trim(a + [' ', ' '] + b), ' ')
  {
    var s := a + [' ', ' '] + b;
    var q :| 0 <= q < |a| && a[q] == c1;
    var r :| 0 <= r < |b| && b[r] == c2;
    var p := |a|;
    assert s[q] == c1 && s[p] == ' ' && s[p + 1] == ' ' && s[p + 2 + r] == c2;
    TrimKeepsInner(s, q, p + 2 + r, p);
    DoubleDelimiterSplit(Trim(s), ' ', p - (|s| - |TrimStart(s)|));
  }

  /**
   * An empty piece between two pieces that start with a non-whitespace
   * character leaves an empty token after the join is trimmed and split on spaces.
   */
  lemma JoinBlankToken(ts: seq<string>, j: nat, k: nat, l: nat)
    requires j < k < l < |ts| && ts[k] == "" && ts[j] != "" && ts[l] != ""
    requires !IsWhitespace(ts[j][0]) && !IsWhitespace(ts[l][0])
    ensures "" in Split(Trim(Join(ts, ' ')), ' ')
  {
    JoinEmptyAt(ts, ' ', k);
    var before, after := ts[..k], ts[k + 1..];
    assert before[j] == ts[j];
    assert after[l - k - 1] == ts[l];
    JoinContains(before, ' ', j, ts[j][0]);
    JoinContains(after, ' ', l - k - 1, ts[l][0]);
    TrimKeepsDoubleSpace(Join(before, ' '), Join(after, ' '), ts[j][0], ts[l][0]);
  }

  /** A leading space never survives `trim`. */
  lemma TrimLeadingSpace(s: string)
    ensures Trim(" " + s) == Trim(s)
  {
    assert (" " + s)[1..] == s;
  }
}
