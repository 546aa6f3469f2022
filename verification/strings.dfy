/** The Python `str` operations the filter pipeline is built from, over
    `seq<char>`: `strip()`, `startswith`, `in`, `split(sep)`, `sep.join`,
    `replace(old, '')` and `splitlines()`.
 */
module Strings {

  datatype Option<+T> = None | Some(value: T)

  /** CPython's `str.isspace()`: the Unicode White_Space characters together
      with the separators U+001C..U+001F. */
  predicate IsSpace(c: char) {
    || '\t' <= c <= '\r'
    || '\U{001C}' <= c <= ' '
    || c == '\U{0085}' || c == '\U{00A0}' || c == '\U{1680}'
    || '\U{2000}' <= c <= '\U{200A}'
    || c == '\U{2028}' || c == '\U{2029}' || c == '\U{202F}' || c == '\U{205F}' || c == '\U{3000}'
  }

  predicate AllSpace(s: string) {
    forall i :: 0 <= i < |s| ==> IsSpace(s[i])
  }

  /** What `strip()` leaves: no whitespace at either end. */
  predicate IsStripped(s: string) {
    s == [] || (!IsSpace(s[0]) && !IsSpace(s[|s| - 1]))
  }

  predicate StartsWith(s: string, prefix: string) {
    |prefix| <= |s| && s[..|prefix|] == prefix
  }

  predicate EndsWith(s: string, suffix: string) {
    |suffix| <= |s| && s[|s| - |suffix|..] == suffix
  }

  /** A piece of a piece of `s` is a piece of `s`. */
  lemma SliceOfSlice<T>(s: seq<T>, a: int, b: int, c: int, d: int)
    requires 0 <= a <= b <= |s| && 0 <= c <= d <= b - a
    ensures s[a..b][c..d] == s[a + c..a + d]
  {
    forall j | 0 <= j < d - c ensures s[a..b][c..d][j] == s[a + c..a + d][j] {}
  }

  /* ---------------------------------------------------------------- strip */

  /** The first index at or after `i` that does not hold whitespace, or `|s|`. */
  function SkipSpace(s: string, i: nat): (j: nat)
    requires i <= |s|
    ensures i <= j <= |s|
    ensures forall k :: i <= k < j ==> IsSpace(s[k])
    ensures j < |s| ==> !IsSpace(s[j])
    decreases |s| - i
  {
    if i < |s| && IsSpace(s[i]) then SkipSpace(s, i + 1) else i
  }

  /** Walking back from `j` over whitespace, but not below `lo`: the index
      just past the last non-space character. */
  function SkipSpaceBack(s: string, lo: nat, j: nat): (k: nat)
    requires lo <= j <= |s|
    ensures lo <= k <= j
    ensures forall m :: k <= m < j ==> IsSpace(s[m])
    ensures lo < k ==> !IsSpace(s[k - 1])
    decreases j
  {
    if lo < j && IsSpace(s[j - 1]) then SkipSpaceBack(s, lo, j - 1) else j
  }

  /** `SkipSpace` stops at the first non-space character and nowhere else. */
  lemma SkipSpaceIs(s: string, i: nat, p: nat)
    requires i <= p <= |s|
    requires forall k :: i <= k < p ==> IsSpace(s[k])
    requires p < |s| ==> !IsSpace(s[p])
    ensures SkipSpace(s, i) == p
  {
  }

  /** `SkipSpaceBack` stops just after the last non-space character and nowhere else. */
  lemma SkipSpaceBackIs(s: string, lo: nat, q: nat, j: nat)
    requires lo <= q <= j <= |s|
    requires forall k :: q <= k < j ==> IsSpace(s[k])
    requires lo < q ==> !IsSpace(s[q - 1])
    ensures SkipSpaceBack(s, lo, j) == q
  {
  }

  /** Where the text that `strip()` keeps starts. */
  function StripStart(s: string): (i: nat)
    ensures i <= |s|
  {
    SkipSpace(s, 0)
  }

  /** `strip()`: the input with whitespace removed from both ends. The
      result is the piece of `s` starting at `StripStart(s)`, has no
      whitespace at either end, and only whitespace is cut away on either
      side of it. */
  function Strip(s: string): (r: string)
    ensures IsStripped(r)
    ensures StripStart(s) + |r| <= |s| && r == s[StripStart(s)..StripStart(s) + |r|]
    ensures forall k :: 0 <= k < StripStart(s) ==> IsSpace(s[k])
    ensures forall k :: StripStart(s) + |r| <= k < |s| ==> IsSpace(s[k])
  {
    var i := SkipSpace(s, 0);
    var j := SkipSpaceBack(s, i, |s|);
    s[i..j]
  }

  /** `strip()` is the only way to cut `s` into whitespace, a stripped core,
      and whitespace: whichever such cut one picks, its core is `Strip(s)`. */
  lemma StripUnique(a: string, m: string, b: string)
    requires AllSpace(a) && AllSpace(b) && IsStripped(m)
    ensures Strip(a + m + b) == m
  {
    var s := a + m + b;
    var p, q := |a|, |a| + |m|;
    assert forall k :: 0 <= k < p ==> s[k] == a[k];
    assert forall k :: p <= k < q ==> s[k] == m[k - p];
    assert forall k :: q <= k < |s| ==> s[k] == b[k - q];
    SkipSpaceIs(s, 0, if m == [] then |s| else p);
    SkipSpaceBackIs(s, StripStart(s), if m == [] then |s| else q, |s|);
    assert s[p..q] == m;
  }

  /** Stripping twice changes nothing. */
  lemma StripIdempotent(s: string)
    ensures Strip(Strip(s)) == Strip(s)
  {
    var m := Strip(s);
    assert [] + m + [] == m;
    StripUnique([], m, []);
  }

  /** A string that starts with a non-space character keeps it under `strip()`. */
  lemma StripKeepsFirst(s: string)
    requires s != [] && !IsSpace(s[0])
    ensures Strip(s) != [] && Strip(s)[0] == s[0]
  {
    assert StripStart(s) == 0;
  }

  /* ------------------------------------------------------------ searching */

  /** `p` occurs in `s` starting at index `k`. */
  predicate OccursAt(s: string, p: string, k: int) {
    0 <= k && k + |p| <= |s| && s[k..k + |p|] == p
  }

  /** `p in s` */
  predicate Contains(s: string, p: string) {
    exists k | 0 <= k <= |s| - |p| :: OccursAt(s, p, k)
  }

  /** `k` is the leftmost occurrence of `p` in `s`, the one `str.find` reports. */
  predicate FirstOccurrence(s: string, p: string, k: int) {
    OccursAt(s, p, k) && forall j :: 0 <= j < k ==> !OccursAt(s, p, j)
  }

  /** The leftmost occurrence of `p` in `s` at or after index `k`, if any. */
  function FindFrom(s: string, p: string, k: nat): (r: Option<nat>)
    requires k <= |s|
    ensures r.Some? ==> k <= r.value && r.value + |p| <= |s|
    decreases |s| - k
  {
    if k + |p| > |s| then None
    else if s[k..k + |p|] == p then Some(k)
    else if k == |s| then None
    else FindFrom(s, p, k + 1)
  }

  /** `FindFrom` reports an occurrence with none before it from `k` on, and
      reports none only when there is none from `k` on. */
  lemma {:induction false} FindFromSpec(s: string, p: string, k: nat)
    requires k <= |s|
    ensures var r := FindFrom(s, p, k);
      && (r.Some? ==> OccursAt(s, p, r.value) && forall j :: k <= j < r.value ==> !OccursAt(s, p, j))
      && (r.None? ==> forall j :: k <= j ==> !OccursAt(s, p, j))
    decreases |s| - k
  {
    if k + |p| <= |s| && s[k..k + |p|] != p && k < |s| {
      FindFromSpec(s, p, k + 1);
    }
  }

  /** `str.find`: the leftmost occurrence of `p` in `s`, if any. */
  function Find(s: string, p: string): (r: Option<nat>)
    ensures r.Some? ==> r.value + |p| <= |s|
  {
    FindFrom(s, p, 0)
  }

  /** `Find` reports the leftmost occurrence when there is one, and reports
      none exactly when `p` is not `in` `s`. */
  lemma FindSpec(s: string, p: string)
    ensures Find(s, p).Some? ==> FirstOccurrence(s, p, Find(s, p).value)
    ensures Find(s, p).None? <==> !Contains(s, p)
  {
    FindFromSpec(s, p, 0);
  }

  /** There is only one leftmost occurrence, and `Find` reports it. */
  lemma FindReportsFirst(s: string, p: string, k: int)
    requires FirstOccurrence(s, p, k)
    ensures Find(s, p) == Some(k)
  {
    FindSpec(s, p);
  }

  /** An occurrence of `p` inside a piece of `s` is an occurrence in `s`. */
  lemma OccursInSlice(s: string, lo: int, hi: int, p: string, k: int)
    requires 0 <= lo <= hi <= |s|
    requires OccursAt(s[lo..hi], p, k)
    ensures OccursAt(s, p, lo + k)
  {
    SliceOfSlice(s, lo, hi, k, k + |p|);
  }

  /** `s` is what comes before an occurrence of `p`, `p`, and what comes
      after it. */
  lemma AroundOccurrence(s: string, p: string, i: int)
    requires OccursAt(s, p, i)
    ensures s == s[..i] + p + s[i + |p|..]
  {
    var u := s[..i] + p + s[i + |p|..];
    assert |u| == |s|;
    forall k | 0 <= k < |s| ensures u[k] == s[k] {
      if k < i {
      } else if k < i + |p| {
        assert u[k] == p[k - i] == s[i..i + |p|][k - i];
      } else {
        assert u[k] == s[i + |p|..][k - i - |p|];
      }
    }
  }

  /** Everything before the leftmost occurrence is free of `p`. */
  lemma NothingBeforeFirst(s: string, p: string, i: int)
    requires |p| > 0
    requires FirstOccurrence(s, p, i)
    ensures !Contains(s[..i], p)
  {
    forall k | 0 <= k <= i - |p| && OccursAt(s[..i], p, k) ensures false {
      OccursInSlice(s, 0, i, p, k);
    }
  }

  /** `strip()` only removes characters: whatever `Strip(s)` contains, `s` contains. */
  lemma ContainsOfStrip(s: string, p: string)
    requires Contains(Strip(s), p)
    ensures Contains(s, p)
  {
    var r := Strip(s);
    var i := StripStart(s);
    var k :| 0 <= k <= |r| - |p| && OccursAt(r, p, k);
    OccursInSlice(s, i, i + |r|, p, k);
  }

  /** The converse for a pattern that neither starts nor ends with
      whitespace: `strip()` cannot cut into an occurrence of it, so `s`
      contains it exactly when `Strip(s)` does. */
  lemma StripKeepsOccurrence(s: string, p: string)
    requires p != [] && !IsSpace(p[0]) && !IsSpace(p[|p| - 1])
    ensures Contains(Strip(s), p) <==> Contains(s, p)
  {
    if Contains(s, p) {
      var r := Strip(s);
      var i := StripStart(s);
      var k :| 0 <= k <= |s| - |p| && OccursAt(s, p, k);
      assert s[k] == p[0] && s[k + |p| - 1] == p[|p| - 1];
      assert i <= k;
      assert k + |p| <= i + |r|;
      SliceOfSlice(s, i, i + |r|, k - i, k - i + |p|);
      assert OccursAt(r, p, k - i);
    } else if Contains(Strip(s), p) {
      ContainsOfStrip(s, p);
    }
  }

  /* ------------------------------------------------------- split and join */

  /** `sep.join(parts)` */
  function Join(sep: string, parts: seq<string>): string
  {
    if |parts| == 0 then ""
    else if |parts| == 1 then parts[0]
    else parts[0] + sep + Join(sep, parts[1..])
  }

  /** A joined text is at least as long as its first piece. */
  lemma JoinLength(sep: string, parts: seq<string>)
    requires |parts| >= 1
    ensures |parts[0]| <= |Join(sep, parts)|
  {
  }

  /** Joining a first part in front of at least one more. */
  lemma JoinCons(sep: string, x: string, rest: seq<string>)
    requires rest != []
    ensures Join(sep, [x] + rest) == x + sep + Join(sep, rest)
  {
    assert ([x] + rest)[1..] == rest;
  }

  /** `s.split(sep)` for a non-empty separator (Python raises `ValueError` on
      an empty one): the text between successive leftmost, non-overlapping
      occurrences of `sep`. There is always at least one piece. */
  function Split(s: string, sep: string): (parts: seq<string>)
    requires |sep| > 0
    ensures |parts| >= 1
    decreases |s|
  {
    match Find(s, sep)
    case None => [s]
    case Some(i) => [s[..i]] + Split(s[i + |sep|..], sep)
  }

  /** No piece of `s.split(sep)` contains `sep`, joining the pieces with
      `sep` gives `s` back, and there is a second piece exactly when `sep`
      occurs in `s`. */
  lemma {:induction false} SplitSpec(s: string, sep: string)
    requires |sep| > 0
    ensures var parts := Split(s, sep);
      && (forall i :: 0 <= i < |parts| ==> !Contains(parts[i], sep))
      && Join(sep, parts) == s
      && (|parts| >= 2 <==> Contains(s, sep))
    decreases |s|
  {
    FindSpec(s, sep);
    var f := Find(s, sep);
    if f.None? {
      assert Split(s, sep) == [s];
    } else {
      var i := f.value;
      var t := s[i + |sep|..];
      SplitStep(s, sep, i);
      SplitSpec(t, sep);
      var rest := Split(t, sep);
      assert !Contains(s[..i], sep) by {
        NothingBeforeFirst(s, sep, i);
      }
      assert Join(sep, Split(s, sep)) == s by {
        JoinCons(sep, s[..i], rest);
        AroundOccurrence(s, sep, i);
      }
      assert forall k :: 0 <= k < |rest| ==> Split(s, sep)[k + 1] == rest[k];
    }
  }

  /** The first piece of `s.split(sep)` is the text before the leftmost
      occurrence of `sep`, or all of `s` when there is none. */
  lemma FirstPiece(s: string, sep: string)
    requires |sep| > 0
    ensures !Contains(s, sep) ==> Split(s, sep)[0] == s
    ensures forall i :: FirstOccurrence(s, sep, i) ==> Split(s, sep)[0] == s[..i]
  {
    FindSpec(s, sep);
    forall i | FirstOccurrence(s, sep, i) ensures Split(s, sep)[0] == s[..i] {
      FindReportsFirst(s, sep, i);
    }
  }

  /* --------------------------------------------------------------- replace */

  /** `s.replace(p, '')` for a non-empty `p`: one left-to-right pass that
      deletes each leftmost, non-overlapping occurrence of `p`. The result is
      the concatenation of the pieces `split` finds around `p`, and it is
      shorter than `s` by exactly one `p` per occurrence removed. */
  function RemoveAll(s: string, p: string): (r: string)
    requires |p| > 0
    ensures |r| <= |s|
    decreases |s|
  {
    match Find(s, p)
    case None => s
    case Some(i) => s[..i] + RemoveAll(s[i + |p|..], p)
  }

  /** A string without `p` is left as it is. */
  lemma RemoveAllWithout(s: string, p: string)
    requires |p| > 0 && !Contains(s, p)
    ensures RemoveAll(s, p) == s
  {
    FindSpec(s, p);
  }

  /** One step of `split`: the text before the leftmost occurrence is the
      first piece, and splitting goes on after that occurrence. */
  lemma SplitStep(s: string, p: string, i: nat)
    requires |p| > 0 && Find(s, p) == Some(i)
    ensures Split(s, p) == [s[..i]] + Split(s[i + |p|..], p)
  {
  }

  /** One step of `replace`: the text before the leftmost occurrence is
      kept, the occurrence is dropped, and deleting goes on after it. */
  lemma RemoveAllStep(s: string, p: string, i: nat)
    requires |p| > 0 && Find(s, p) == Some(i)
    ensures RemoveAll(s, p) == s[..i] + RemoveAll(s[i + |p|..], p)
  {
  }

  /** The arithmetic of one removal, over plain integers: a text of length
      `whole` is `before`, one occurrence of width `w` and `after`; what
      survives is `before` plus what survives of `after`, from which `m`
      occurrences were cut. Then `whole` is what survives plus `n = m + 1`
      occurrences. Kept apart from `RemoveAllLength` so that the product
      `w * n` is the only nonlinear step the solver sees there. */
  lemma LengthAfterOneMore(whole: int, kept: int, before: int, w: int, after: int, keptAfter: int, m: int, n: int)
    requires whole == before + w + after && kept == before + keptAfter
    requires after == keptAfter + w * m && n == m + 1
    ensures whole == kept + w * n
  {
  }

  /** Each occurrence removed shortens the string by exactly `|p|`; there
      are as many as `split` has pieces, less one. */
  lemma {:induction false} RemoveAllLength(s: string, p: string)
    requires |p| > 0
    ensures |s| == |RemoveAll(s, p)| + |p| * (|Split(s, p)| - 1)
    decreases |s|
  {
    var f := Find(s, p);
    if f.None? {
      assert Split(s, p) == [s] && RemoveAll(s, p) == s;
    } else {
      var i := f.value;
      var t := s[i + |p|..];
      SplitStep(s, p, i);
      RemoveAllStep(s, p, i);
      RemoveAllLength(t, p);
      LengthAfterOneMore(|s|, |RemoveAll(s, p)|, i, |p|, |t|, |RemoveAll(t, p)|,
                         |Split(t, p)| - 1, |Split(s, p)| - 1);
    }
  }

  /** Deleting every `p` is the same as splitting on `p` and joining the
      pieces with nothing: `s.replace(p, '') == ''.join(s.split(p))`. */
  lemma {:induction false} RemoveAllIsJoinOfSplit(s: string, p: string)
    requires |p| > 0
    ensures RemoveAll(s, p) == Join("", Split(s, p))
    decreases |s|
  {
    var f := Find(s, p);
    if f.Some? {
      var i := f.value;
      var t := s[i + |p|..];
      SplitStep(s, p, i);
      RemoveAllStep(s, p, i);
      RemoveAllIsJoinOfSplit(t, p);
      JoinCons("", s[..i], Split(t, p));
      assert s[..i] + "" == s[..i];
    }
  }

  /** The pass is not repeated: deleting one `python` can bring two halves
      together into a new `python`, which then stays. */
  lemma RemoveAllSinglePass()
    ensures RemoveAll("pypythonthon", "python") == "python"
  {
    var s := "pypythonthon";
    assert s[0..6][2] == 'p';
    assert s[1..7][0] == 'y';
    assert s[2..8] == "python" by {
      forall j | 0 <= j < 6 ensures s[2..8][j] == "python"[j] {}
    }
    assert FirstOccurrence(s, "python", 2);
    FindReportsFirst(s, "python", 2);
    assert s[..2] == "py" && s[8..] == "thon";
    assert "py" + "thon" == "python";
  }

  /* ------------------------------------------------------------ splitlines */

  /** The characters at which `str.splitlines()` breaks a line. */
  predicate IsLineBreak(c: char) {
    || '\n' <= c <= '\r'
    || '\U{001C}' <= c <= '\U{001E}'
    || c == '\U{0085}' || c == '\U{2028}' || c == '\U{2029}'
  }

  /** A single line: no line-break character inside. */
  predicate IsLine(s: string) {
    forall i :: 0 <= i < |s| ==> !IsLineBreak(s[i])
  }

  /** The index of the first line break at or after `i`, or `|s|`. */
  function LineEnd(s: string, i: nat): (j: nat)
    requires i <= |s|
    ensures i <= j <= |s|
    ensures j < |s| ==> IsLineBreak(s[j])
    decreases |s| - i
  {
    if i == |s| || IsLineBreak(s[i]) then i else LineEnd(s, i + 1)
  }

  /** There is no line break between `i` and `LineEnd(s, i)`. */
  lemma {:induction false} LineEndSpec(s: string, i: nat)
    requires i <= |s|
    ensures forall k :: i <= k < LineEnd(s, i) ==> !IsLineBreak(s[k])
    decreases |s| - i
  {
    if i < |s| && !IsLineBreak(s[i]) {
      LineEndSpec(s, i + 1);
    }
  }

  /** `LineEnd` stops at the first line break and nowhere else. */
  lemma {:induction false} LineEndIs(s: string, i: nat, p: nat)
    requires i <= p <= |s|
    requires forall k :: i <= k < p ==> !IsLineBreak(s[k])
    requires p < |s| ==> IsLineBreak(s[p])
    ensures LineEnd(s, i) == p
    decreases p - i
  {
    if i < p {
      LineEndIs(s, i + 1, p);
    }
  }

  /** Width of the line break at index `n`: `\r\n` counts as one break. */
  function BreakWidth(s: string, n: nat): nat
    requires n < |s|
  {
    if s[n] == '\r' && n + 1 < |s| && s[n + 1] == '\n' then 2 else 1
  }

  /** `s.splitlines()`: the lines of `s` without their line breaks. A final
      line break does not open another (empty) line, and the empty string
      has no lines at all. */
  function SplitLines(s: string): seq<string>
    decreases |s|
  {
    if s == [] then []
    else
      var n := LineEnd(s, 0);
      if n == |s| then [s]
      else [s[..n]] + SplitLines(s[n + BreakWidth(s, n)..])
  }

  /** Every piece `splitlines()` returns is a line without breaks, and
      there are no pieces exactly for the empty string. */
  lemma {:induction false} SplitLinesAreLines(s: string)
    ensures forall i :: 0 <= i < |SplitLines(s)| ==> IsLine(SplitLines(s)[i])
    ensures SplitLines(s) == [] <==> s == []
    decreases |s|
  {
    if s != [] {
      var n := LineEnd(s, 0);
      LineEndSpec(s, 0);
      assert forall k :: 0 <= k < n ==> s[..n][k] == s[k];
      if n < |s| {
        var t := s[n + BreakWidth(s, n)..];
        SplitLinesAreLines(t);
        var lines := SplitLines(s);
        assert lines == [s[..n]] + SplitLines(t);
        forall i | 0 <= i < |lines| ensures IsLine(lines[i]) {
          if i > 0 {
            assert lines[i] == SplitLines(t)[i - 1];
          }
        }
      }
    }
  }

  /** `lines` without its last element when that element is empty. */
  function DropTrailingEmpty(lines: seq<string>): seq<string>
  {
    if |lines| > 0 && lines[|lines| - 1] == "" then lines[..|lines| - 1] else lines
  }

  /** Dropping a final empty line loses no other line. */
  lemma DropTrailingEmptyMembers(lines: seq<string>)
    ensures forall line :: line in DropTrailingEmpty(lines) ==> line in lines
    ensures forall line :: line in lines && line != "" ==> line in DropTrailingEmpty(lines)
  {
    var out := DropTrailingEmpty(lines);
    forall line | line in lines && line != "" ensures line in out {
      var k :| 0 <= k < |lines| && lines[k] == line;
      if |lines| > 0 && lines[|lines| - 1] == "" {
        assert out[k] == line;
      }
    }
  }

  /** A single line splits into itself, or into nothing when it is empty. */
  lemma SplitLinesOfLine(l: string)
    requires IsLine(l)
    ensures SplitLines(l) == if l == [] then [] else [l]
  {
    if l != [] {
      LineEndIs(l, 0, |l|);
    }
  }

  /** A line followed by `\n` is the first line, whatever comes after. */
  lemma SplitLinesAfterNewline(l: string, t: string)
    requires IsLine(l)
    ensures SplitLines(l + "\n" + t) == [l] + SplitLines(t)
  {
    var s := l + "\n" + t;
    assert forall k :: 0 <= k < |l| ==> s[k] == l[k];
    assert s[|l|] == '\n';
    LineEndIs(s, 0, |l|);
    assert s[..|l|] == l;
    assert s[|l| + 1..] == t;
  }

  /** Joining lines with `"\n"` and splitting the result again gives the
      lines back, except that a final empty line is lost. */
  lemma {:induction false} SplitLinesOfJoin(lines: seq<string>)
    requires forall i :: 0 <= i < |lines| ==> IsLine(lines[i])
    ensures SplitLines(Join("\n", lines)) == DropTrailingEmpty(lines)
    decreases |lines|
  {
    if |lines| == 1 {
      SplitLinesOfLine(lines[0]);
    } else if |lines| > 1 {
      var l, rest := lines[0], lines[1..];
      assert SplitLines(Join("\n", lines)) == [l] + SplitLines(Join("\n", rest)) by {
        assert lines == [l] + rest;
        JoinCons("\n", l, rest);
        SplitLinesAfterNewline(l, Join("\n", rest));
      }
      assert SplitLines(Join("\n", rest)) == DropTrailingEmpty(rest) by {
        assert forall i :: 0 <= i < |rest| ==> rest[i] == lines[i + 1];
        SplitLinesOfJoin(rest);
      }
      assert DropTrailingEmpty(lines) == [l] + DropTrailingEmpty(rest) by {
        assert lines[|lines| - 1] == rest[|rest| - 1];
        if rest[|rest| - 1] == "" {
          assert lines[..|lines| - 1] == [l] + rest[..|rest| - 1];
        }
      }
    }
  }

  /** The line break `splitlines()` drops at the very end of `s`, if any. */
  function FinalNewline(s: string): string
  {
    if s != [] && s[|s| - 1] == '\n' then "\n" else ""
  }

  /** `\n` is the only line-break character in `s`. */
  predicate OnlyNewlines(s: string) {
    forall i :: 0 <= i < |s| ==> s[i] == '\n' || !IsLineBreak(s[i])
  }

  /** `s` is what comes before index `n`, the character there, and what
      comes after it. */
  lemma AroundIndex(s: string, n: nat)
    requires n < |s|
    ensures s == s[..n] + [s[n]] + s[n + 1..]
  {
    var u := s[..n] + [s[n]] + s[n + 1..];
    assert |u| == |s|;
    forall k | 0 <= k < |s| ensures u[k] == s[k] {
      if k > n {
        assert u[k] == s[n + 1..][k - n - 1];
      }
    }
  }

  /** At a `\n`, `splitlines()` cuts off the first line and goes on
      after that single character. */
  lemma SplitLinesAtNewline(s: string, n: nat)
    requires s != [] && n == LineEnd(s, 0) && n < |s| && s[n] == '\n'
    ensures SplitLines(s) == [s[..n]] + SplitLines(s[n + 1..])
  {
    assert BreakWidth(s, n) == 1;
  }

  /** No content is lost by `splitlines()` when `\n` is the only line break:
      joining the lines with `"\n"` rebuilds `s` up to a final `\n`. */
  lemma {:induction false} JoinOfSplitLines(s: string)
    requires OnlyNewlines(s)
    ensures Join("\n", SplitLines(s)) + FinalNewline(s) == s
    decreases |s|
  {
    if s != [] {
      var n := LineEnd(s, 0);
      if n == |s| {
        assert SplitLines(s) == [s];
        LineEndSpec(s, 0);
      } else {
        assert s[n] == '\n';
        SplitLinesAtNewline(s, n);
        AroundIndex(s, n);
        var l, t := s[..n], s[n + 1..];
        assert OnlyNewlines(t) by {
          forall i | 0 <= i < |t| ensures t[i] == '\n' || !IsLineBreak(t[i]) {
            assert t[i] == s[n + 1 + i];
          }
        }
        JoinOfSplitLines(t);
        JoinOfNewlineLines(l, t);
      }
    }
  }

  /** The inductive step of `JoinOfSplitLines`: one more line in front. */
  lemma JoinOfNewlineLines(l: string, t: string)
    requires Join("\n", SplitLines(t)) + FinalNewline(t) == t
    ensures Join("\n", [l] + SplitLines(t)) + FinalNewline(l + "\n" + t) == l + "\n" + t
  {
    var s := l + "\n" + t;
    if t == [] {
      assert FinalNewline(s) == "\n";
    } else {
      var rest := SplitLines(t);
      SplitLinesAreLines(t);
      JoinCons("\n", l, rest);
      assert s[|s| - 1] == t[|t| - 1];
      assert FinalNewline(s) == FinalNewline(t);
    }
  }

  /** Cutting `p + s` inside `s` cuts `s` at the same place. */
  lemma SlicesOfConcat(p: string, s: string, n: nat, w: nat)
    requires n + w <= |s|
    ensures (p + s)[..|p| + n] == p + s[..n]
    ensures (p + s)[|p| + n + w..] == s[n + w..]
  {
    var ps := p + s;
    var first := p + s[..n];
    forall k | 0 <= k < |first| ensures ps[..|p| + n][k] == first[k] {
      if k >= |p| {
        assert first[k] == s[..n][k - |p|];
      }
    }
    var rest := ps[|p| + n + w..];
    forall k | 0 <= k < |rest| ensures rest[k] == s[n + w..][k] {
      assert rest[k] == ps[|p| + n + w + k];
    }
  }

  /** At any line break, `splitlines()` cuts off the first line and goes on
      after the break. */
  lemma SplitLinesAtBreak(s: string, n: nat, w: nat)
    requires s != [] && n == LineEnd(s, 0) && n < |s| && w == BreakWidth(s, n)
    ensures SplitLines(s) == [s[..n]] + SplitLines(s[n + w..])
  {
  }

  /** A line `p` in front of `s` moves the first break of `s` by `|p|`,
      and the break keeps its width. */
  lemma LineEndOfConcat(p: string, s: string, n: nat)
    requires IsLine(p)
    requires n == LineEnd(s, 0) < |s|
    ensures LineEnd(p + s, 0) == |p| + n
    ensures BreakWidth(p + s, |p| + n) == BreakWidth(s, n)
  {
    var ps := p + s;
    LineEndSpec(s, 0);
    assert forall k :: 0 <= k < |p| ==> ps[k] == p[k];
    assert forall k :: |p| <= k < |ps| ==> ps[k] == s[k - |p|];
    LineEndIs(ps, 0, |p| + n);
  }

  /** When `s` has a line break, a line `p` put in front of `s` joins the
      first line of `s` and the rest is split as before. */
  lemma PrependBeforeBreak(p: string, s: string, n: nat, w: nat)
    requires IsLine(p)
    requires n == LineEnd(s, 0) < |s| && w == BreakWidth(s, n)
    ensures SplitLines(p + s) == [p + s[..n]] + SplitLines(s[n + w..])
  {
    var ps := p + s;
    LineEndOfConcat(p, s, n);
    SplitLinesAtBreak(ps, |p| + n, w);
    SlicesOfConcat(p, s, n, w);
  }

  /** Putting a non-empty line `p` in front of `s` lengthens the first line
      of `s` (or becomes the only line when `s` is empty) and leaves the
      other lines as they were. */
  lemma PrependToFirstLine(p: string, s: string)
    requires p != [] && IsLine(p)
    ensures var lines := SplitLines(s);
      SplitLines(p + s) == if lines == [] then [p] else [p + lines[0]] + lines[1..]
  {
    var ps := p + s;
    if s == [] {
      assert ps == p;
      SplitLinesOfLine(p);
    } else if LineEnd(s, 0) == |s| {
      assert SplitLines(s) == [s];
      LineEndSpec(s, 0);
      assert forall k :: 0 <= k < |ps| ==> ps[k] == if k < |p| then p[k] else s[k - |p|];
      LineEndIs(ps, 0, |ps|);
    } else {
      var n := LineEnd(s, 0);
      PrependBeforeBreak(p, s, n, BreakWidth(s, n));
    }
  }

  /* ----------------------------------------------------------- subsequence */

  /** `a` is `b` with some elements left out and the rest in order. */
  predicate IsSubsequence<T(==)>(a: seq<T>, b: seq<T>)
    decreases |b|
  {
    a == [] ||
    (b != [] &&
     ((a[0] == b[0] && IsSubsequence(a[1..], b[1..])) || IsSubsequence(a, b[1..])))
  }
}
