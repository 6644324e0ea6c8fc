/**
 * The JavaScript string operations the parser and the line counter rely on, with the
 * semantics of the ECMAScript built-ins (`trim`, `split`, `join`, `indexOf`, `lastIndexOf`,
 * `substring`, `startsWith`, `includes`, `replace`). Strings are sequences of characters.
 */
module JsStrings {

  /** What the regular-expression class `\s` matches and what `trim` removes:
      ECMAScript's WhiteSpace and LineTerminator characters. */
  predicate IsWhitespace(c: char) {
    var n := c as int;
    (9 <= n <= 13) || n == 0x20 || n == 0xA0 || n == 0x1680 || (0x2000 <= n <= 0x200A)
    || n == 0x2028 || n == 0x2029 || n == 0x202F || n == 0x205F || n == 0x3000 || n == 0xFEFF
  }

  /** The characters `.` does not match and at which `^`/`$` match in multiline mode. */
  predicate IsLineTerminator(c: char) {
    c == '\n' || c == '\r' || c as int == 0x2028 || c as int == 0x2029
  }

  predicate AllWhitespace(s: string) {
    forall i :: 0 <= i < |s| ==> IsWhitespace(s[i])
  }

  predicate NoWhitespace(s: string) {
    forall i :: 0 <= i < |s| ==> !IsWhitespace(s[i])
  }

  predicate NoLineTerminator(s: string) {
    forall i :: 0 <= i < |s| ==> !IsLineTerminator(s[i])
  }

  /** The length of the whitespace run that starts `s`. */
  function LeadingWhitespace(s: string): (n: nat)
    ensures n <= |s|
    ensures AllWhitespace(s[..n])
    ensures n == |s| || !IsWhitespace(s[n])
  {
    if |s| > 0 && IsWhitespace(s[0]) then
      var k := LeadingWhitespace(s[1..]);
      1 + k
    else 0
  }

  /** The length of the whitespace run that ends `s`. */
  function TrailingWhitespace(s: string): (n: nat)
    ensures n <= |s|
    ensures AllWhitespace(s[|s| - n..])
    ensures n == |s| || !IsWhitespace(s[|s| - 1 - n])
  {
    if |s| > 0 && IsWhitespace(s[|s| - 1]) then
      var k := TrailingWhitespace(s[..|s| - 1]);
      1 + k
    else 0
  }

  /** `s` without its trailing whitespace. */
  function TrimEnd(s: string): (r: string)
    ensures |r| <= |s| && r == s[..|r|]
    ensures AllWhitespace(s[|r|..])
    ensures r == [] || !IsWhitespace(r[|r| - 1])
  {
    s[..|s| - TrailingWhitespace(s)]
  }

  /** `s.trim()`: `s` without its leading and trailing whitespace. */
  function Trim(s: string): (r: string)
    ensures |r| <= |s| - LeadingWhitespace(s)
    ensures r == s[LeadingWhitespace(s)..LeadingWhitespace(s) + |r|]
    ensures AllWhitespace(s[..LeadingWhitespace(s)])
    ensures AllWhitespace(s[LeadingWhitespace(s) + |r|..])
    ensures r == [] || (!IsWhitespace(r[0]) && !IsWhitespace(r[|r| - 1]))
  {
    TrimEnd(s[LeadingWhitespace(s)..])
  }

  predicate IsTrimmed(s: string) {
    s == [] || (!IsWhitespace(s[0]) && !IsWhitespace(s[|s| - 1]))
  }

  /** A string with no whitespace at either end is its own trim, so trimming is idempotent. */
  lemma TrimOfTrimmed(s: string)
    requires IsTrimmed(s)
    ensures Trim(s) == s
  {
    assert LeadingWhitespace(s) == 0;
    assert TrailingWhitespace(s) == 0;
  }

  lemma TrimIdempotent(s: string)
    ensures Trim(Trim(s)) == Trim(s)
  {
    TrimOfTrimmed(Trim(s));
  }

  /** A string made only of whitespace trims to the empty string. */
  lemma TrimAllWhitespace(s: string)
    requires AllWhitespace(s)
    ensures Trim(s) == []
  {
  }

  /** Trimming only removes characters. */
  lemma TrimKeepsOut(s: string, c: char)
    requires c !in s
    ensures c !in Trim(s)
  {
    var lead := LeadingWhitespace(s);
    var r := Trim(s);
    forall i | 0 <= i < |r| ensures r[i] != c {
      assert r[i] == s[lead + i];
    }
  }

  /** `s.split(sep)` for a one-character separator: the pieces between separators,
      so `"".split(sep)` is `[""]`. */
  function Split(s: string, sep: char): (parts: seq<string>)
    ensures |parts| >= 1
    ensures forall k :: 0 <= k < |parts| ==> sep !in parts[k]
    decreases |s|
  {
    if |s| == 0 then [""]
    else
      var rest := Split(s[1..], sep);
      if s[0] == sep then [""] + rest
      else [[s[0]] + rest[0]] + rest[1..]
  }

  /** `parts.join(sep)`. */
  function Join(parts: seq<string>, sep: string): string
    decreases |parts|
  {
    if |parts| == 0 then ""
    else if |parts| == 1 then parts[0]
    else parts[0] + sep + Join(parts[1..], sep)
  }

  /** Splitting and joining again gives back the original string. */
  lemma {:induction false} JoinSplit(s: string, sep: char)
    ensures Join(Split(s, sep), [sep]) == s
    decreases |s|
  {
    if |s| > 0 {
      var rest := Split(s[1..], sep);
      JoinSplit(s[1..], sep);
      if s[0] == sep {
        assert Join([""] + rest, [sep]) == "" + [sep] + Join(rest, [sep]);
      } else if |rest| == 1 {
        assert Split(s, sep) == [[s[0]] + rest[0]];
      } else {
        var parts := Split(s, sep);
        assert parts[1..] == rest[1..];
        assert Join(parts, [sep]) == ([s[0]] + rest[0]) + [sep] + Join(rest[1..], [sep]);
        assert Join(rest, [sep]) == rest[0] + [sep] + Join(rest[1..], [sep]);
      }
    }
  }

  lemma {:induction false} SplitNoSeparator(a: string, sep: char)
    requires sep !in a
    ensures Split(a, sep) == [a]
    decreases |a|
  {
    if |a| > 0 {
      SplitNoSeparator(a[1..], sep);
      assert [a[0]] + a[1..] == a;
    }
  }

  lemma {:induction false} SplitAfterPiece(a: string, t: string, sep: char)
    requires sep !in a
    ensures Split(a + [sep] + t, sep) == [a] + Split(t, sep)
    decreases |a|
  {
    var s := a + [sep] + t;
    if |a| == 0 {
      assert s[1..] == t;
    } else {
      assert s[1..] == a[1..] + [sep] + t;
      SplitAfterPiece(a[1..], t, sep);
      assert [a[0]] + a[1..] == a;
    }
  }

  /** Joining pieces free of the separator and splitting again gives back the pieces. */
  lemma {:induction false} SplitJoin(parts: seq<string>, sep: char)
    requires |parts| >= 1
    requires forall k :: 0 <= k < |parts| ==> sep !in parts[k]
    ensures Split(Join(parts, [sep]), sep) == parts
    decreases |parts|
  {
    if |parts| == 1 {
      SplitNoSeparator(parts[0], sep);
    } else {
      SplitJoin(parts[1..], sep);
      SplitAfterPiece(parts[0], Join(parts[1..], [sep]), sep);
      assert [parts[0]] + parts[1..] == parts;
    }
  }

  /** `s.split(/\s+/)`: the pieces between maximal whitespace runs; a leading or trailing
      run gives an empty first or last piece. */
  function SplitWhitespace(s: string): (parts: seq<string>)
    ensures |parts| >= 1
    ensures forall k :: 0 <= k < |parts| ==> NoWhitespace(parts[k])
    decreases |s|
  {
    if |s| == 0 then [""]
    else if IsWhitespace(s[0]) then [""] + SplitWhitespace(s[LeadingWhitespace(s)..])
    else
      var rest := SplitWhitespace(s[1..]);
      [[s[0]] + rest[0]] + rest[1..]
  }

  lemma {:induction false} SplitWhitespaceToken(t: string)
    requires NoWhitespace(t)
    ensures SplitWhitespace(t) == [t]
    decreases |t|
  {
    if |t| > 0 {
      SplitWhitespaceToken(t[1..]);
      assert [t[0]] + t[1..] == t;
    }
  }

  lemma {:induction false} LeadingWhitespaceOfRun(w: string, t: string)
    requires AllWhitespace(w)
    requires t == [] || !IsWhitespace(t[0])
    ensures LeadingWhitespace(w + t) == |w|
    decreases |w|
  {
    if |w| == 0 {
      assert w + t == t;
    } else {
      assert (w + t)[1..] == w[1..] + t;
      LeadingWhitespaceOfRun(w[1..], t);
    }
  }

  /** A token followed by a whitespace run splits off as one piece. */
  lemma {:induction false} SplitWhitespaceAfterToken(a: string, w: string, t: string)
    requires NoWhitespace(a) && |w| > 0 && AllWhitespace(w)
    requires t == [] || !IsWhitespace(t[0])
    ensures SplitWhitespace(a + w + t) == [a] + SplitWhitespace(t)
    decreases |a|
  {
    var s := a + w + t;
    if |a| == 0 {
      assert s == w + t;
      LeadingWhitespaceOfRun(w, t);
      assert s[|w|..] == t;
    } else {
      assert s[1..] == a[1..] + w + t;
      SplitWhitespaceAfterToken(a[1..], w, t);
      assert [a[0]] + a[1..] == a;
    }
  }

  /** `s.indexOf(p, from)` for `from <= |s|`: the first occurrence at or after `from`, or -1. */
  predicate OccursAt(s: string, p: string, i: nat) {
    i + |p| <= |s| && s[i..i + |p|] == p
  }

  function IndexOfFrom(s: string, p: string, from: nat): (r: int)
    ensures r == -1 || (0 <= from <= r && OccursAt(s, p, r))
    ensures r == -1 ==> forall i :: from <= i ==> !OccursAt(s, p, i)
    ensures r != -1 ==> forall i :: from <= i < r ==> !OccursAt(s, p, i)
    decreases |s| - from
  {
    if from + |p| > |s| then -1
    else if s[from..from + |p|] == p then from
    else IndexOfFrom(s, p, from + 1)
  }

  /** `s.indexOf(p)`: the first index at which `p` occurs in `s`, or -1. */
  function IndexOf(s: string, p: string): (r: int)
    ensures r == -1 || (0 <= r && OccursAt(s, p, r))
    ensures r == -1 <==> forall i: nat :: !OccursAt(s, p, i)
    ensures r != -1 ==> forall i :: 0 <= i < r ==> !OccursAt(s, p, i)
  {
    IndexOfFrom(s, p, 0)
  }

  function LastIndexOfBelow(s: string, p: string, bound: nat): (r: int)
    ensures r == -1 || (0 <= r < bound && OccursAt(s, p, r))
    ensures r == -1 ==> forall i :: 0 <= i < bound ==> !OccursAt(s, p, i)
    ensures r != -1 ==> forall i :: r < i < bound ==> !OccursAt(s, p, i)
    decreases bound
  {
    if bound == 0 then -1
    else if OccursAt(s, p, bound - 1) then bound - 1
    else LastIndexOfBelow(s, p, bound - 1)
  }

  /** `s.lastIndexOf(p)`: the last index at which `p` occurs in `s`, or -1. */
  function LastIndexOf(s: string, p: string): (r: int)
    ensures r == -1 || (0 <= r && OccursAt(s, p, r))
    ensures r == -1 <==> forall i: nat :: !OccursAt(s, p, i)
    ensures r != -1 ==> forall i: nat :: r < i ==> !OccursAt(s, p, i)
  {
    var r := LastIndexOfBelow(s, p, |s| + 1);
    assert forall i: nat :: i > |s| ==> !OccursAt(s, p, i);
    r
  }

  /** `s.includes(p)`. */
  predicate Contains(s: string, p: string) {
    IndexOf(s, p) != -1
  }

  /** `s.startsWith(p)`. */
  predicate StartsWith(s: string, p: string) {
    |p| <= |s| && s[..|p|] == p
  }

  function Clamp(i: int, len: nat): (r: nat)
    ensures r <= len
  {
    if i < 0 then 0 else if i > len then len else i
  }

  /** `s.substring(start, end)`: both indices clamped to `[0, |s|]`, swapped when
      `start > end`. */
  function Substring(s: string, start: int, end: int): (r: string)
    ensures 0 <= start <= end <= |s| ==> r == s[start..end]
    ensures 0 <= end <= start <= |s| ==> r == s[end..start]
  {
    var a := Clamp(start, |s|);
    var b := Clamp(end, |s|);
    if a <= b then s[a..b] else s[b..a]
  }

  /** `s.replace(p, '')` with a string pattern: the first occurrence of `p` removed. */
  function RemoveFirst(s: string, p: string): (r: string)
    ensures IndexOf(s, p) == -1 ==> r == s
    ensures IndexOf(s, p) != -1 ==> |r| == |s| - |p|
  {
    var i := IndexOf(s, p);
    if i == -1 then s else s[..i] + s[i + |p|..]
  }

  /** `s.replace(/\r\n/g, '\n')`: every CR LF pair, found left to right without overlap,
      becomes a single LF. */
  function ReplaceCrLf(s: string): string
    decreases |s|
  {
    if |s| == 0 then ""
    else if |s| >= 2 && s[0] == '\r' && s[1] == '\n' then "\n" + ReplaceCrLf(s[2..])
    else [s[0]] + ReplaceCrLf(s[1..])
  }

  /** `s` has no character `a` directly followed by `b`. */
  predicate AvoidsPair(s: string, a: char, b: char) {
    forall i :: 0 <= i < |s| - 1 ==> !(s[i] == a && s[i + 1] == b)
  }

  lemma ReplaceCrLfHead(t: string)
    requires |t| > 0
    ensures |ReplaceCrLf(t)| > 0
    ensures ReplaceCrLf(t)[0] == if |t| >= 2 && t[0] == '\r' && t[1] == '\n' then '\n' else t[0]
  {
  }

  /** When the input has no two consecutive CRs, the output holds no CR LF pair. */
  lemma {:induction false} ReplaceCrLfRemovesAllPairs(s: string)
    requires AvoidsPair(s, '\r', '\r')
    ensures AvoidsPair(ReplaceCrLf(s), '\r', '\n')
    decreases |s|
  {
    if |s| == 0 {
    } else if |s| >= 2 && s[0] == '\r' && s[1] == '\n' {
      var t := s[2..];
      assert AvoidsPair(t, '\r', '\r') by {
        forall i | 0 <= i < |t| - 1 ensures !(t[i] == '\r' && t[i + 1] == '\r') {
          assert t[i] == s[i + 2] && t[i + 1] == s[i + 3];
        }
      }
      ReplaceCrLfRemovesAllPairs(t);
      var r := ReplaceCrLf(s);
      assert r == "\n" + ReplaceCrLf(t);
      forall i | 0 <= i < |r| - 1 ensures !(r[i] == '\r' && r[i + 1] == '\n') {
        if i > 0 {
          assert r[i] == ReplaceCrLf(t)[i - 1] && r[i + 1] == ReplaceCrLf(t)[i];
        }
      }
    } else {
      var t := s[1..];
      assert AvoidsPair(t, '\r', '\r') by {
        forall i | 0 <= i < |t| - 1 ensures !(t[i] == '\r' && t[i + 1] == '\r') {
          assert t[i] == s[i + 1] && t[i + 1] == s[i + 2];
        }
      }
      ReplaceCrLfRemovesAllPairs(t);
      var r := ReplaceCrLf(s);
      assert r == [s[0]] + ReplaceCrLf(t);
      forall i | 0 <= i < |r| - 1 ensures !(r[i] == '\r' && r[i + 1] == '\n') {
        if i == 0 {
          ReplaceCrLfHead(t);
          assert r[1] == ReplaceCrLf(t)[0];
          if s[0] == '\r' {
            assert s[1] != '\r';
          }
        } else {
          assert r[i] == ReplaceCrLf(t)[i - 1] && r[i + 1] == ReplaceCrLf(t)[i];
        }
      }
    }
  }

  /** Without that condition the claim fails: a CR before a CR LF pair survives as CR LF. */
  lemma ReplaceCrLfKeepsLoneCr()
    ensures ReplaceCrLf("\r\r\n") == "\r\n"
  {
    assert "\r\r\n"[1..] == "\r\n";
    assert ReplaceCrLf("\r\n") == "\n" + ReplaceCrLf("");
  }

  /** The first character survives unless it starts a CR LF pair; the last survives unless
      it is an LF. */
  lemma {:induction false} ReplaceCrLfEnds(s: string)
    requires |s| > 0
    ensures |ReplaceCrLf(s)| > 0
    ensures s[0] != '\r' ==> ReplaceCrLf(s)[0] == s[0]
    ensures s[|s| - 1] != '\n' ==> ReplaceCrLf(s)[|ReplaceCrLf(s)| - 1] == s[|s| - 1]
    decreases |s|
  {
    if |s| >= 2 && s[0] == '\r' && s[1] == '\n' {
      if |s| > 2 {
        ReplaceCrLfEnds(s[2..]);
        assert s[2..][|s| - 3] == s[|s| - 1];
      }
    } else if |s| > 1 {
      ReplaceCrLfEnds(s[1..]);
      assert s[1..][|s| - 2] == s[|s| - 1];
    }
  }
}
