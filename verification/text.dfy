/** The handful of string operations the document parser relies on:
    `str::split(char)`, `str::trim`, `str::lines` and `[&str]::join`. */
module Text {
  import opened Wrappers

  /** Rust's `char::is_whitespace`: the Unicode White_Space property. */
  predicate IsWhitespace(c: char) {
    var n := c as int;
    || (0x09 <= n <= 0x0D)
    || n == 0x20
    || n == 0x85
    || n == 0xA0
    || n == 0x1680
    || (0x2000 <= n <= 0x200A)
    || n == 0x2028
    || n == 0x2029
    || n == 0x202F
    || n == 0x205F
    || n == 0x3000
  }

  predicate AllWhitespace(s: string) {
    forall i :: 0 <= i < |s| ==> IsWhitespace(s[i])
  }

  /** The first index at or after `i` that does not hold whitespace. */
  function SkipWhitespace(s: string, i: nat): (j: nat)
    requires i <= |s|
    ensures i <= j <= |s| && (j == |s| || !IsWhitespace(s[j]))
    ensures forall k :: i <= k < j ==> IsWhitespace(s[k])
    decreases |s| - i
  {
    if i == |s| || !IsWhitespace(s[i]) then i else SkipWhitespace(s, i + 1)
  }

  /** The end of `s[lo..j]` once its trailing whitespace is dropped. */
  function BackOverWhitespace(s: string, lo: nat, j: nat): (k: nat)
    requires lo <= j <= |s|
    ensures lo <= k <= j && (k == lo || !IsWhitespace(s[k - 1]))
    ensures forall m :: k <= m < j ==> IsWhitespace(s[m])
    decreases j
  {
    if j == lo || !IsWhitespace(s[j - 1]) then j else BackOverWhitespace(s, lo, j - 1)
  }

  /** `str::trim_start`: the suffix left after dropping leading whitespace. */
  function TrimStart(s: string): (r: string)
    ensures |r| <= |s| && r == s[|s| - |r|..]
    ensures r == [] || !IsWhitespace(r[0])
    ensures AllWhitespace(s[..|s| - |r|])
  {
    s[SkipWhitespace(s, 0)..]
  }

  /** `str::trim_end`: the prefix left after dropping trailing whitespace. */
  function TrimEnd(s: string): (r: string)
    ensures |r| <= |s| && r == s[..|r|]
    ensures r == [] || !IsWhitespace(r[|r| - 1])
    ensures AllWhitespace(s[|r|..])
  {
    s[..BackOverWhitespace(s, 0, |s|)]
  }

  /** `str::trim`: the longest slice without whitespace at either end. */
  function Trim(s: string): (r: string)
    ensures |r| <= |s|
    ensures exists i ::
      (0 <= i <= |s| - |r| && r == s[i..i + |r|] && AllWhitespace(s[..i]) && AllWhitespace(s[i + |r|..]))
    ensures r == [] || (!IsWhitespace(r[0]) && !IsWhitespace(r[|r| - 1]))
    ensures r == [] <==> AllWhitespace(s)
  {
    var a := SkipWhitespace(s, 0);
    var b := BackOverWhitespace(s, a, |s|);
    TrimCutsSlice(s, a, b);
    TrimEmptyWhenBlank(s, a, b);
    s[a..b]
  }

  /** The trimmed slice lies between two runs of whitespace and has none at
      either end. */
  lemma TrimCutsSlice(s: string, a: nat, b: nat)
    requires a == SkipWhitespace(s, 0) && b == BackOverWhitespace(s, a, |s|)
    ensures a + |s[a..b]| == b && s[a..b] == s[a..a + |s[a..b]|]
    ensures AllWhitespace(s[..a]) && AllWhitespace(s[b..])
    ensures s[a..b] == [] || (!IsWhitespace(s[a..b][0]) && !IsWhitespace(s[a..b][b - a - 1]))
  {
  }

  /** The trimmed slice is empty exactly when the whole string is blank. */
  lemma TrimEmptyWhenBlank(s: string, a: nat, b: nat)
    requires a == SkipWhitespace(s, 0) && b == BackOverWhitespace(s, a, |s|)
    ensures a == b <==> AllWhitespace(s)
  {
    if a == b {
      assert a == |s| && s[..a] == s;
    } else {
      assert !IsWhitespace(s[a]);
    }
  }

  /** Trimming is trimming the start, then the end. */
  lemma TrimBothEnds(s: string)
    ensures Trim(s) == TrimEnd(TrimStart(s))
  {
    var a := SkipWhitespace(s, 0);
    var t := s[a..];
    var b := BackOverWhitespace(s, a, |s|);
    assert TrimStart(s) == t && |t| == |s| - a;
    BackShift(s, a, |s|);
    assert TrimEnd(t) == t[..b - a];
    assert t[..b - a] == s[a..b];
  }

  /** Dropping trailing whitespace from a suffix ends where it ends in the
      whole string. */
  lemma {:induction false} BackShift(s: string, a: nat, j: nat)
    requires a <= j <= |s|
    ensures BackOverWhitespace(s[a..], 0, j - a) == BackOverWhitespace(s, a, j) - a
    decreases j
  {
    if j > a {
      assert s[a..][j - a - 1] == s[j - 1];
      if IsWhitespace(s[j - 1]) {
        BackShift(s, a, j - 1);
      }
    }
  }

  /** Index of the first occurrence of `c` in `s`. */
  function Find(s: string, c: char): (r: Option<nat>)
    ensures r.Some? ==> r.value < |s| && s[r.value] == c && c !in s[..r.value]
    ensures r.None? <==> c !in s
  {
    if |s| == 0 then None
    else if s[0] == c then Some(0)
    else match Find(s[1..], c)
      case None => None
      case Some(i) => Some(i + 1)
  }

  /** The pieces joined back together with one `sep` between neighbours. */
  function JoinWith(pieces: seq<string>, sep: char): string
  {
    if |pieces| == 0 then []
    else if |pieces| == 1 then pieces[0]
    else pieces[0] + [sep] + JoinWith(pieces[1..], sep)
  }

  /** `str::split(sep)`: cut at EVERY occurrence of `sep`, wherever it is.
      The pieces never contain `sep` and glue back to the input. */
  function SplitOn(s: string, sep: char): (pieces: seq<string>)
    ensures |pieces| >= 1
    ensures forall i :: 0 <= i < |pieces| ==> sep !in pieces[i]
    ensures JoinWith(pieces, sep) == s
    decreases |s|
  {
    match Find(s, sep)
    case None => [s]
    case Some(i) =>
      var rest := SplitOn(s[i + 1..], sep);
      var pieces := [s[..i]] + rest;
      assert pieces[1..] == rest;
      assert s == s[..i] + [sep] + s[i + 1..];
      pieces
  }

  /** One line as `str::lines` yields it: a trailing carriage return is dropped. */
  function StripCarriageReturn(line: string): (r: string)
    ensures '\n' !in line ==> '\n' !in r
    ensures |line| > 0 && line[|line| - 1] == '\r' ==> r + ['\r'] == line
    ensures !(|line| > 0 && line[|line| - 1] == '\r') ==> r == line
  {
    if |line| > 0 && line[|line| - 1] == '\r' then line[..|line| - 1] else line
  }

  /** `str::lines`: the pieces between '\n's, without the empty piece after
      a final newline; a line that ended in "\r\n" loses its '\r' too. */
  function Lines(s: string): (ls: seq<string>)
    ensures forall i :: 0 <= i < |ls| ==> '\n' !in ls[i]
    ensures |ls| == 0 <==> s == []
    decreases |s|
  {
    if s == [] then []
    else match Find(s, '\n')
      case None => [s]
      case Some(i) => [StripCarriageReturn(s[..i])] + Lines(s[i + 1..])
  }

  /** Every line followed by a '\n': what `lines` loses, put back. */
  function Terminated(ls: seq<string>): string
  {
    if ls == [] then [] else ls[0] + ['\n'] + Terminated(ls[1..])
  }

  /** `s` with the '\r' of every "\r\n" removed. */
  function DropCarriageReturns(s: string): string
    decreases |s|
  {
    if s == [] then []
    else if |s| >= 2 && s[0] == '\r' && s[1] == '\n' then DropCarriageReturns(s[1..])
    else [s[0]] + DropCarriageReturns(s[1..])
  }

  /** A line with no '\n' followed by '\n': its own '\r' before the break
      is the only one dropped there. */
  lemma {:induction false} DropAtBreak(a: string, b: string)
    requires '\n' !in a
    ensures DropCarriageReturns(a + ['\n'] + b) == StripCarriageReturn(a) + ['\n'] + DropCarriageReturns(b)
    decreases |a|
  {
    var s := a + ['\n'] + b;
    if a == [] {
      assert s == ['\n'] + b && s[1..] == b;
    } else {
      var rest := a[1..];
      assert s[1..] == rest + ['\n'] + b;
      if a[0] == '\r' && rest == [] {
        assert s[1..] == ['\n'] + b && s[1..][1..] == b;
      } else {
        assert '\n' !in rest;
        assert s[0] == a[0] && |s| >= 2 && s[1] == (if rest == [] then '\n' else rest[0]);
        assert DropCarriageReturns(s) == [a[0]] + DropCarriageReturns(s[1..]);
        DropAtBreak(rest, b);
        var line := StripCarriageReturn(rest);
        assert StripCarriageReturn(a) == [a[0]] + line by {
          if rest != [] {
            assert a[|a| - 1] == rest[|rest| - 1];
            assert a[..|a| - 1] == [a[0]] + rest[..|rest| - 1];
          }
        }
        var tail := ['\n'] + DropCarriageReturns(b);
        assert DropCarriageReturns(s[1..]) == line + tail;
        AppendAssoc([a[0]], line, tail);
        AppendAssoc(StripCarriageReturn(a), ['\n'], DropCarriageReturns(b));
      }
    }
  }

  /** Without a '\n' there is no "\r\n" to drop. */
  lemma {:induction false} DropWithoutBreak(s: string)
    requires '\n' !in s
    ensures DropCarriageReturns(s) == s
    decreases |s|
  {
    if s != [] {
      assert '\n' !in s[1..];
      DropWithoutBreak(s[1..]);
      assert s == [s[0]] + s[1..];
    }
  }

  /** Round trip: the lines, each terminated by '\n', give the input back
      with the '\r' of every "\r\n" dropped and a final '\n' added when it
      was missing. */
  lemma {:induction false} LinesRoundTrip(s: string)
    ensures Terminated(Lines(s)) ==
      DropCarriageReturns(s) + (if s == [] || s[|s| - 1] == '\n' then [] else ['\n'])
    decreases |s|
  {
    if s != [] {
      match Find(s, '\n')
      case None =>
        DropWithoutBreak(s);
        assert Terminated([s]) == s + ['\n'] + Terminated([]);
      case Some(i) =>
        var a, rest := s[..i], s[i + 1..];
        assert s == a + ['\n'] + rest;
        var line := StripCarriageReturn(a);
        var ls := Lines(s);
        assert ls == [line] + Lines(rest);
        assert ls[0] == line && ls[1..] == Lines(rest);
        var tail := if rest == [] || rest[|rest| - 1] == '\n' then [] else ['\n'];
        assert s[|s| - 1] == (if rest == [] then '\n' else rest[|rest| - 1]);
        LinesRoundTrip(rest);
        DropAtBreak(a, rest);
        var d := DropCarriageReturns(rest);
        var head := line + ['\n'];
        assert Terminated(ls) == head + Terminated(Lines(rest));
        assert Terminated(Lines(rest)) == d + tail;
        assert DropCarriageReturns(s) == head + d;
        AppendAssoc(head, d, tail);
    }
  }

  lemma AppendAssoc<T>(x: seq<T>, y: seq<T>, z: seq<T>)
    ensures x + (y + z) == (x + y) + z
  {
  }

  /** `str::replace(['\n', '\r'], "")`: every line-break character removed. */
  function RemoveLineBreaks(s: string): (r: string)
    ensures '\n' !in r && '\r' !in r
  {
    if s == [] then []
    else (if s[0] == '\n' || s[0] == '\r' then [] else [s[0]]) + RemoveLineBreaks(s[1..])
  }

  /** Removing line breaks works piece by piece, so the kept characters stay
      in the input's order. */
  lemma {:induction false} RemoveLineBreaksAppend(a: string, b: string)
    ensures RemoveLineBreaks(a + b) == RemoveLineBreaks(a) + RemoveLineBreaks(b)
    decreases |a|
  {
    if a == [] {
      assert a + b == b;
    } else {
      var h := if a[0] == '\n' || a[0] == '\r' then [] else [a[0]];
      assert (a + b)[0] == a[0] && (a + b)[1..] == a[1..] + b;
      RemoveLineBreaksAppend(a[1..], b);
      calc {
        RemoveLineBreaks(a + b);
        h + RemoveLineBreaks(a[1..] + b);
        h + (RemoveLineBreaks(a[1..]) + RemoveLineBreaks(b));
        { assert h + (RemoveLineBreaks(a[1..]) + RemoveLineBreaks(b)) == (h + RemoveLineBreaks(a[1..])) + RemoveLineBreaks(b); }
        RemoveLineBreaks(a) + RemoveLineBreaks(b);
      }
    }
  }

  /** Every character other than '\n' and '\r' is kept as often as it
      occurs, so the count the area check uses is the length minus the line
      breaks. */
  lemma {:induction false} RemoveLineBreaksCounts(s: string)
    ensures forall c :: multiset(RemoveLineBreaks(s))[c] == (if c == '\n' || c == '\r' then 0 else multiset(s)[c])
    ensures |RemoveLineBreaks(s)| == |s| - multiset(s)['\n'] - multiset(s)['\r']
    decreases |s|
  {
    if s != [] {
      RemoveLineBreaksCounts(s[1..]);
      assert s == [s[0]] + s[1..];
    }
  }

  predicate StartsWith(s: string, c: char) {
    |s| > 0 && s[0] == c
  }
}
