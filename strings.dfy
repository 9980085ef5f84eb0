/**
  The few Python string operations the edit-block merger and the suffix project rely on:
  startswith/endswith, strip, split on one character, join, splitlines and
  a first-occurrence replace. Strings are sequences of characters.
 */
module Strings {
  import opened Results

  predicate StartsWith(s: string, prefix: string)
  {
    |prefix| <= |s| && s[..|prefix|] == prefix
  }

  predicate EndsWith(s: string, suffix: string)
  {
    |suffix| <= |s| && s[|s| - |suffix|..] == suffix
  }

  /**
    The ASCII characters that Python's str.strip removes: space, the controls \t, \n, \x0b, \x0c
    and \r, and the separators \x1c to \x1f.
   */
  predicate IsSpace(c: char)
  {
    || c == ' ' || c == '\t' || c == '\n' || c == '\r' || c == '\U{B}' || c == '\U{C}'
    || c == '\U{1C}' || c == '\U{1D}' || c == '\U{1E}' || c == '\U{1F}'
  }

  /** A string with no whitespace at either end. */
  predicate Trimmed(s: string)
  {
    s == [] || (!IsSpace(s[0]) && !IsSpace(s[|s| - 1]))
  }

  function TrimStart(s: string): (r: string)
    ensures |r| <= |s| && r == s[|s| - |r|..]
    ensures r == [] || !IsSpace(r[0])
    ensures forall i :: 0 <= i < |s| - |r| ==> IsSpace(s[i])
  {
    if |s| > 0 && IsSpace(s[0]) then TrimStart(s[1..]) else s
  }

  function TrimEnd(s: string): (r: string)
    ensures |r| <= |s| && r == s[..|r|]
    ensures r == [] || !IsSpace(r[|r| - 1])
    ensures forall i :: |r| <= i < |s| ==> IsSpace(s[i])
  {
    if |s| > 0 && IsSpace(s[|s| - 1]) then TrimEnd(s[..|s| - 1]) else s
  }

  /** r is the infix of s at position a, and everything of s before and after it is whitespace. */
  predicate StrippedAt(s: string, r: string, a: int)
  {
    && 0 <= a && a + |r| <= |s| && r == s[a..a + |r|]
    && (forall k :: 0 <= k < a ==> IsSpace(s[k]))
    && (forall k :: a + |r| <= k < |s| ==> IsSpace(s[k]))
  }

  /** Python's s.strip(): the longest infix with no whitespace at either end. */
  function Trim(s: string): (r: string)
    ensures Trimmed(r)
    ensures |r| <= |s|
    ensures s != [] && !IsSpace(s[0]) ==> r != [] && r[0] == s[0]
  {
    TrimEnd(TrimStart(s))
  }

  /** The stripped string is what is left of s once the whitespace at both ends is cut off. */
  lemma TrimStrips(s: string)
    ensures exists a :: StrippedAt(s, Trim(s), a)
  {
    var t := TrimStart(s);
    var r := TrimEnd(t);
    var a := |s| - |t|;
    assert s[a..a + |r|] == t[..|r|];
    forall k | a + |r| <= k < |s|
      ensures IsSpace(s[k])
    {
      assert s[k] == t[k - a];
    }
    assert r == Trim(s);
    assert StrippedAt(s, r, a);
  }

  /** No other infix of s has that shape: strip is fixed by it. */
  lemma TrimUnique(s: string, r: string, a: int)
    requires StrippedAt(s, r, a) && Trimmed(r)
    ensures r == Trim(s)
  {
    TrimStrips(s);
    var b :| StrippedAt(s, Trim(s), b);
    StrippedUnique(s, r, a, Trim(s), b);
  }

  lemma StrippedUnique(s: string, r: string, a: int, t: string, b: int)
    requires StrippedAt(s, r, a) && Trimmed(r)
    requires StrippedAt(s, t, b) && Trimmed(t)
    ensures r == t
  {
    if r != [] && t != [] {
      assert s[a] == r[0] && s[b] == t[0];
      assert s[a + |r| - 1] == r[|r| - 1];
      assert s[b + |t| - 1] == t[|t| - 1];
      assert a == b;
      assert |r| == |t|;
    }
  }

  lemma TrimOfTrimmed(s: string)
    requires Trimmed(s)
    ensures Trim(s) == s
  {
  }

  /** Leading whitespace does not survive a strip. */
  lemma {:induction false} TrimSpaceThen(p: string)
    requires Trimmed(p)
    ensures Trim(" " + p) == p
  {
    assert (" " + p)[1..] == p;
    assert TrimStart(" " + p) == TrimStart(p);
  }

  /** Python's s.split(sep) for a one-character separator: never empty, pieces free of sep. */
  function Split(s: string, sep: char): (r: seq<string>)
    ensures |r| >= 1
    ensures forall k :: 0 <= k < |r| ==> sep !in r[k]
    decreases |s|
  {
    if |s| == 0 then [""]
    else
      var rest := Split(s[1..], sep);
      if s[0] == sep then [""] + rest
      else [[s[0]] + rest[0]] + rest[1..]
  }

  /** Python's sep.join(parts) for a one-character separator. */
  function Join(parts: seq<string>, sep: char): string
  {
    if |parts| == 0 then ""
    else if |parts| == 1 then parts[0]
    else parts[0] + [sep] + Join(parts[1..], sep)
  }

  /** Joining the pieces of a split gives back the original string. */
  lemma {:induction false} JoinSplit(s: string, sep: char)
    ensures Join(Split(s, sep), sep) == s
    decreases |s|
  {
    if |s| > 0 {
      JoinSplit(s[1..], sep);
      var rest := Split(s[1..], sep);
      if s[0] == sep {
        assert Join([""] + rest, sep) == "" + [sep] + Join(rest, sep);
      } else if |rest| > 1 {
        var parts := [[s[0]] + rest[0]] + rest[1..];
        assert parts[1..] == rest[1..];
        assert Join(rest, sep) == rest[0] + [sep] + Join(rest[1..], sep);
      }
    }
  }

  lemma {:induction false} SplitNoSep(x: string, sep: char)
    requires sep !in x
    ensures Split(x, sep) == [x]
    decreases |x|
  {
    if |x| > 0 {
      assert sep !in x[1..];
      SplitNoSep(x[1..], sep);
      assert [x[0]] + x[1..] == x;
    }
  }

  lemma {:induction false} SplitCons(x: string, t: string, sep: char)
    requires sep !in x
    ensures Split(x + [sep] + t, sep) == [x] + Split(t, sep)
    decreases |x|
  {
    var s := x + [sep] + t;
    if |x| == 0 {
      assert s[1..] == t;
    } else {
      assert s[1..] == x[1..] + [sep] + t;
      assert sep !in x[1..];
      SplitCons(x[1..], t, sep);
      assert [x[0]] + x[1..] == x;
    }
  }

  /** Splitting a join of separator-free pieces gives back the pieces. */
  lemma {:induction false} SplitJoin(parts: seq<string>, sep: char)
    requires |parts| >= 1
    requires forall k :: 0 <= k < |parts| ==> sep !in parts[k]
    ensures Split(Join(parts, sep), sep) == parts
  {
    if |parts| == 1 {
      SplitNoSep(parts[0], sep);
    } else {
      SplitJoin(parts[1..], sep);
      SplitCons(parts[0], Join(parts[1..], sep), sep);
      assert [parts[0]] + parts[1..] == parts;
    }
  }

  /**
    Python's s.splitlines() for text whose only line terminator is "\n":
    the pieces of the split, less a final empty piece.
   */
  function SplitLines(s: string): (r: seq<string>)
    ensures forall k :: 0 <= k < |r| ==> '\n' !in r[k]
    ensures r == [] <==> s == []
    ensures Join(r, '\n') + (if s != [] && s[|s| - 1] == '\n' then "\n" else "") == s
  {
    var parts := Split(s, '\n');
    var r := if parts[|parts| - 1] == "" then parts[..|parts| - 1] else parts;
    JoinSplit(s, '\n');
    SplitLinesBack(s, parts, r);
    r
  }

  /** The lines, joined again and given back a final "\n" when the text had one, are the text. */
  lemma SplitLinesBack(s: string, parts: seq<string>, r: seq<string>)
    requires |parts| >= 1 && Join(parts, '\n') == s && forall k :: 0 <= k < |parts| ==> '\n' !in parts[k]
    requires r == if parts[|parts| - 1] == "" then parts[..|parts| - 1] else parts
    ensures r == [] <==> s == []
    ensures Join(r, '\n') + (if s != [] && s[|s| - 1] == '\n' then "\n" else "") == s
  {
    var last := parts[|parts| - 1];
    if |parts| > 1 {
      var init := parts[..|parts| - 1];
      assert parts == init + [last];
      LinesOfSeveral(s, init, last);
      assert r == if last == "" then init else parts;
    } else {
      assert parts == [last];
      LinesOfOne(s, last);
      assert r == if last == "" then [] else [last];
    }
  }

  lemma LinesOfSeveral(s: string, init: seq<string>, last: string)
    requires |init| >= 1 && s == Join(init + [last], '\n') && '\n' !in last
    ensures s != []
    ensures last == "" ==> s[|s| - 1] == '\n' && Join(init, '\n') + "\n" == s
    ensures last != "" ==> s[|s| - 1] != '\n'
  {
    JoinLast(init, last, '\n');
    if last != "" {
      assert s[|s| - 1] == last[|last| - 1];
      assert last[|last| - 1] in last;
    }
  }

  lemma LinesOfOne(s: string, piece: string)
    requires s == Join([piece], '\n') && '\n' !in piece
    ensures s == piece
    ensures piece != "" ==> s[|s| - 1] != '\n'
  {
    if piece != "" {
      assert piece[|piece| - 1] in piece;
    }
  }

  lemma {:induction false} JoinLast(p: seq<string>, x: string, sep: char)
    requires |p| >= 1
    ensures Join(p + [x], sep) == Join(p, sep) + [sep] + x
    decreases |p|
  {
    if |p| == 1 {
      assert (p + [x])[1..] == [x];
    } else {
      JoinLast(p[1..], x, sep);
      assert (p + [x])[1..] == p[1..] + [x];
    }
  }

  /** Lines joined with "\n" and split again come back, when the last one is not empty. */
  lemma SplitLinesJoin(lines: seq<string>)
    requires |lines| >= 1 && lines[|lines| - 1] != ""
    requires forall k :: 0 <= k < |lines| ==> '\n' !in lines[k]
    ensures SplitLines(Join(lines, '\n')) == lines
  {
    SplitJoin(lines, '\n');
    SplitLinesKeepsLast(Join(lines, '\n'), lines);
  }

  lemma SplitLinesKeepsLast(s: string, parts: seq<string>)
    requires Split(s, '\n') == parts && parts[|parts| - 1] != ""
    ensures SplitLines(s) == parts
  {
  }

  predicate OccursAt(s: string, pat: string, k: int)
  {
    0 <= k && k + |pat| <= |s| && s[k..k + |pat|] == pat
  }

  /** Python's s.find(pat, from): the first position at or after `from` where `pat` occurs. */
  function FindFrom(s: string, pat: string, from: nat): (r: Option<nat>)
    ensures r.Some? ==> from <= r.value && OccursAt(s, pat, r.value)
    ensures r.Some? ==> forall j :: from <= j < r.value ==> !OccursAt(s, pat, j)
    ensures r.None? ==> forall j :: from <= j ==> !OccursAt(s, pat, j)
    decreases |s| - from
  {
    if from + |pat| > |s| then None
    else if s[from..from + |pat|] == pat then Some(from)
    else FindFrom(s, pat, from + 1)
  }

  /** Python's s.replace(pat, rep, 1). */
  function ReplaceFirst(s: string, pat: string, rep: string): string
  {
    match FindFrom(s, pat, 0)
    case Some(k) => s[..k] + rep + s[k + |pat|..]
    case None => s
  }

  /** Replacing the first occurrence changes the string exactly when `pat` occurs and differs from `rep`. */
  lemma ReplaceFirstChanges(s: string, pat: string, rep: string)
    ensures ReplaceFirst(s, pat, rep) != s <==> (exists k :: OccursAt(s, pat, k)) && rep != pat
  {
    match FindFrom(s, pat, 0)
    case None =>
    case Some(k) =>
      var r := s[..k] + rep + s[k + |pat|..];
      assert s == s[..k] + pat + s[k + |pat|..];
      if |rep| == |pat| && r == s {
        assert r[k..k + |rep|] == rep;
        assert s[k..k + |pat|] == pat;
      }
  }
}
