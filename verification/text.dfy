/** The string operations of Python's `str` that the pipeline uses:
    `strip`, `in`, `split`, `replace`, `startswith` and `lower`, on
    strings as sequences of code points. */
module Text {
  import opened Wrappers

  /** Python's `str.isspace`: the code points `strip()`, `int()` and
      `float()` treat as whitespace. */
  predicate IsSpace(c: char) {
    || c == ' '
    || '\t' <= c <= '\r'             // tab, line feed, vertical tab, form feed, carriage return
    || '\U{1C}' <= c <= '\U{1F}'     // file, group, record and unit separators
    || c == '\U{85}' || c == '\U{A0}' || c == '\U{1680}'
    || '\U{2000}' <= c <= '\U{200A}'
    || c == '\U{2028}' || c == '\U{2029}' || c == '\U{202F}' || c == '\U{205F}' || c == '\U{3000}'
  }

  /** `s.lstrip()`: the longest suffix of `s` that does not start with whitespace. */
  function TrimLeft(s: string): (r: string)
    ensures |r| <= |s|
  {
    if |s| > 0 && IsSpace(s[0]) then TrimLeft(s[1..]) else s
  }

  /** `lstrip` removes a run of leading whitespace and nothing else. */
  lemma {:induction false} TrimLeftShape(s: string)
    ensures TrimLeft(s) == s[|s| - |TrimLeft(s)|..]
    ensures forall i :: 0 <= i < |s| - |TrimLeft(s)| ==> IsSpace(s[i])
    ensures TrimLeft(s) == [] || !IsSpace(TrimLeft(s)[0])
  {
    if |s| > 0 && IsSpace(s[0]) {
      TrimLeftShape(s[1..]);
    }
  }

  /** `s.rstrip()`: the longest prefix of `s` that does not end with whitespace. */
  function TrimRight(s: string): (r: string)
    ensures |r| <= |s|
  {
    if |s| > 0 && IsSpace(s[|s| - 1]) then TrimRight(s[..|s| - 1]) else s
  }

  /** `rstrip` removes a run of trailing whitespace and nothing else. */
  lemma {:induction false} TrimRightShape(s: string)
    ensures TrimRight(s) == s[..|TrimRight(s)|]
    ensures forall i :: |TrimRight(s)| <= i < |s| ==> IsSpace(s[i])
    ensures TrimRight(s) == [] || !IsSpace(TrimRight(s)[|TrimRight(s)| - 1])
  {
    if |s| > 0 && IsSpace(s[|s| - 1]) {
      TrimRightShape(s[..|s| - 1]);
    }
  }

  /** `s.strip()`. */
  function Trim(s: string): string {
    TrimRight(TrimLeft(s))
  }

  /** Trimming keeps a middle slice of the input and removes only whitespace
      around it; a string already free of outer whitespace is its own trim. */
  lemma TrimIsSlice(s: string)
    ensures |s| - |TrimLeft(s)| + |Trim(s)| <= |s|
    ensures Trim(s) == s[|s| - |TrimLeft(s)|..|s| - |TrimLeft(s)| + |Trim(s)|]
    ensures forall k :: 0 <= k < |s| - |TrimLeft(s)| ==> IsSpace(s[k])
    ensures forall k :: |s| - |TrimLeft(s)| + |Trim(s)| <= k < |s| ==> IsSpace(s[k])
    ensures Trim(s) == [] || (!IsSpace(Trim(s)[0]) && !IsSpace(Trim(s)[|Trim(s)| - 1]))
  {
    TrimLeftShape(s);
    TrimMiddle(s);
    TrimTail(s);
    TrimEnds(s);
  }

  /** What `strip` keeps is the slice after the leading whitespace. */
  lemma TrimMiddle(s: string)
    ensures |s| - |TrimLeft(s)| + |Trim(s)| <= |s|
    ensures Trim(s) == s[|s| - |TrimLeft(s)|..|s| - |TrimLeft(s)| + |Trim(s)|]
  {
    var l := TrimLeft(s);
    var r := TrimRight(l);
    var i := |s| - |l|;
    TrimLeftShape(s);
    TrimRightShape(l);
    assert l[..|r|] == s[i..][..|r|];
  }

  /** Everything after what `strip` keeps is whitespace. */
  lemma TrimTail(s: string)
    ensures forall k :: |s| - |TrimLeft(s)| + |Trim(s)| <= k < |s| ==> IsSpace(s[k])
  {
    var l := TrimLeft(s);
    var r := TrimRight(l);
    var i := |s| - |l|;
    TrimLeftShape(s);
    TrimRightShape(l);
    forall k | i + |r| <= k < |s|
      ensures IsSpace(s[k])
    {
      assert s[k] == l[k - i];
    }
  }

  /** What `strip` keeps neither starts nor ends with whitespace. */
  lemma TrimEnds(s: string)
    ensures Trim(s) == [] || (!IsSpace(Trim(s)[0]) && !IsSpace(Trim(s)[|Trim(s)| - 1]))
  {
    var l := TrimLeft(s);
    var r := TrimRight(l);
    TrimLeftShape(s);
    TrimRightShape(l);
    if r != [] {
      assert r[0] == l[0];
    }
  }

  /** Text of whitespace only strips to nothing. */
  lemma {:induction false} TrimLeftAllSpace(s: string)
    requires forall k :: 0 <= k < |s| ==> IsSpace(s[k])
    ensures TrimLeft(s) == []
  {
    if |s| > 0 {
      TrimLeftAllSpace(s[1..]);
    }
  }

  lemma TrimUnchanged(s: string)
    requires s == [] || (!IsSpace(s[0]) && !IsSpace(s[|s| - 1]))
    ensures Trim(s) == s
  {
  }

  lemma TrimIdempotent(s: string)
    ensures Trim(Trim(s)) == Trim(s)
  {
    TrimIsSlice(s);
    TrimUnchanged(Trim(s));
  }

  /** Whitespace added around a trimmed string is removed again. */
  lemma PaddedTrim(left: string, x: string, right: string)
    requires forall k :: 0 <= k < |left| ==> IsSpace(left[k])
    requires forall k :: 0 <= k < |right| ==> IsSpace(right[k])
    requires x == [] || (!IsSpace(x[0]) && !IsSpace(x[|x| - 1]))
    ensures Trim(left + x + right) == x
  {
    var s := left + x + right;
    if x == [] {
      assert forall k :: 0 <= k < |s| ==> IsSpace(s[k]);
      TrimLeftAllSpace(s);
    } else {
      TrimLeftSpaces(left, x + right);
      assert s == left + (x + right);
      TrimRightSpaces(x, right);
    }
  }

  lemma {:induction false} TrimLeftSpaces(pad: string, y: string)
    requires forall k :: 0 <= k < |pad| ==> IsSpace(pad[k])
    requires y == [] || !IsSpace(y[0])
    ensures TrimLeft(pad + y) == y
  {
    if pad != [] {
      assert (pad + y)[1..] == pad[1..] + y;
      TrimLeftSpaces(pad[1..], y);
    }
  }

  lemma {:induction false} TrimRightSpaces(y: string, pad: string)
    requires forall k :: 0 <= k < |pad| ==> IsSpace(pad[k])
    requires y == [] || !IsSpace(y[|y| - 1])
    ensures TrimRight(y + pad) == y
  {
    if pad != [] {
      assert (y + pad)[..|y + pad| - 1] == y + pad[..|pad| - 1];
      TrimRightSpaces(y, pad[..|pad| - 1]);
    } else {
      assert y + pad == y;
    }
  }

  /** `s` holds `pat` starting at index `i`. */
  predicate IsAt(s: string, pat: string, i: nat) {
    i + |pat| <= |s| && s[i..i + |pat|] == pat
  }

  /** `s.find(pat, start)` as an option: the first occurrence at or after `start`. */
  function IndexFrom(s: string, pat: string, start: nat): (r: Option<nat>)
    requires start <= |s|
    ensures r.Some? ==> start <= r.value && IsAt(s, pat, r.value)
    ensures forall j :: start <= j && (r.None? || j < r.value) ==> !IsAt(s, pat, j)
    decreases |s| - start
  {
    if IsAt(s, pat, start) then Some(start)
    else if start == |s| then None
    else IndexFrom(s, pat, start + 1)
  }

  function IndexOf(s: string, pat: string): (r: Option<nat>)
    ensures r.Some? ==> IsAt(s, pat, r.value)
    ensures forall j: nat :: r.None? || j < r.value ==> !IsAt(s, pat, j)
  {
    IndexFrom(s, pat, 0)
  }

  /** Python's `pat in s`. */
  predicate Contains(s: string, pat: string) {
    IndexOf(s, pat).Some?
  }

  /** `s.startswith(pat)`. */
  predicate StartsWith(s: string, pat: string) {
    IsAt(s, pat, 0)
  }

  /** Text without the first character of `pat` does not contain `pat`. */
  lemma Lacks(s: string, pat: string)
    requires |pat| > 0
    requires forall k :: 0 <= k < |s| ==> s[k] != pat[0]
    ensures !Contains(s, pat)
  {
    forall j: nat
      ensures !IsAt(s, pat, j)
    {
      if j + |pat| <= |s| {
        assert s[j..j + |pat|][0] == s[j];
      }
    }
  }

  /** `s.split(sep)` for a non-empty separator: the pieces between
      successive non-overlapping occurrences, scanned left to right. */
  function Split(s: string, sep: string): (parts: seq<string>)
    requires |sep| > 0
    ensures |parts| >= 1
    ensures forall k :: 0 <= k < |parts| ==> !Contains(parts[k], sep)
    decreases |s|
  {
    match IndexOf(s, sep)
    case None => [s]
    case Some(i) =>
      PrefixLacks(s, sep, i);
      [s[..i]] + Split(s[i + |sep|..], sep)
  }

  /** The text before the first occurrence does not contain the pattern. */
  lemma PrefixLacks(s: string, pat: string, i: nat)
    requires |pat| > 0 && i <= |s|
    requires forall j: nat :: j < i ==> !IsAt(s, pat, j)
    ensures !Contains(s[..i], pat)
  {
    forall j: nat
      ensures !IsAt(s[..i], pat, j)
    {
      if j + |pat| <= i {
        assert s[..i][j..j + |pat|] == s[j..j + |pat|];
        assert !IsAt(s, pat, j);
      }
    }
  }

  /** When the text before the first separator cannot start one, the split
      cuts exactly there. */
  lemma SplitAtFirst(a: string, sep: string, b: string)
    requires |sep| > 0
    requires forall k :: 0 <= k < |a| ==> a[k] != sep[0]
    ensures Split(a + sep + b, sep) == [a] + Split(b, sep)
  {
    var s := a + sep + b;
    assert s[|a|..|a| + |sep|] == sep;
    assert IsAt(s, sep, |a|);
    forall j: nat | j < |a|
      ensures !IsAt(s, sep, j)
    {
      if j + |sep| <= |s| {
        assert s[j..j + |sep|][0] == a[j];
      }
    }
    var i := IndexOf(s, sep).value;
    assert i == |a|;
    assert s[..i] == a;
    assert s[i + |sep|..] == b;
  }

  /** `sep.join(parts)`. */
  function Join(parts: seq<string>, sep: string): string {
    if |parts| == 0 then ""
    else if |parts| == 1 then parts[0]
    else parts[0] + sep + Join(parts[1..], sep)
  }

  lemma JoinTwo(a: string, b: string, sep: string)
    ensures Join([a, b], sep) == a + sep + b
  {
    assert [a, b][1..] == [b];
  }

  /** `s.split(sep)` has a second piece exactly when `sep` occurs in `s`. */
  lemma SplitPieces(s: string, sep: string)
    requires |sep| > 0
    ensures |Split(s, sep)| >= 2 <==> Contains(s, sep)
    ensures !Contains(s, sep) ==> Split(s, sep) == [s]
  {
  }

  /** `s.replace(target, repl)`: every non-overlapping occurrence, left to right. */
  function Replace(s: string, target: string, repl: string): string
    requires |target| > 0
  {
    Join(Split(s, target), repl)
  }

  lemma ReplaceAbsent(s: string, target: string, repl: string)
    requires |target| > 0
    requires !Contains(s, target)
    ensures Replace(s, target, repl) == s
  {
    SplitPieces(s, target);
  }

  /** A pattern that occurs once, after text that cannot start it, is
      replaced once. */
  lemma ReplaceOnce(a: string, target: string, b: string, repl: string)
    requires |target| > 0
    requires forall k :: 0 <= k < |a| ==> a[k] != target[0]
    requires !Contains(b, target)
    ensures Replace(a + target + b, target, repl) == a + repl + b
  {
    SplitAtFirst(a, target, b);
    SplitPieces(b, target);
    JoinTwo(a, b, repl);
  }

  /** `c.lower()` for the letters A-Z; every other code point is left alone. */
  function LowerAscii(c: char): char {
    if 'A' <= c <= 'Z' then (c as int + 32) as char else c
  }

  /** `s.lower() == 'yes'`. No code point outside A-Z lower-cases to
      `y`, `e` or `s`, so comparing A-Z-lowered text gives Python's verdict. */
  predicate IsYes(s: string) {
    |s| == 3 && LowerAscii(s[0]) == 'y' && LowerAscii(s[1]) == 'e' && LowerAscii(s[2]) == 's'
  }
}
