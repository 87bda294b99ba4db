/** The java.lang.String operations the services rely on: character classes,
    `trim`-based blankness, `contains`, `split` on a literal separator and
    single-character `replace`.
 */
module Text {
  import opened Wrappers

  predicate IsDigit(c: char) {
    '0' <= c <= '9'
  }

  predicate IsLetter(c: char) {
    'a' <= c <= 'z' || 'A' <= c <= 'Z'
  }

  predicate IsAlnum(c: char) {
    IsLetter(c) || IsDigit(c)
  }

  predicate AllDigits(s: string) {
    forall i :: 0 <= i < |s| ==> IsDigit(s[i])
  }

  predicate AllLetters(s: string) {
    forall i :: 0 <= i < |s| ==> IsLetter(s[i])
  }

  predicate AllAlnum(s: string) {
    forall i :: 0 <= i < |s| ==> IsAlnum(s[i])
  }

  /** `String.trim` strips every character up to and including the space. */
  predicate IsTrimmed(c: char) {
    c <= ' '
  }

  /** Bean Validation's @NotBlank on a non-null string: something is left
      after `trim()`, i.e. some character is above the space. */
  predicate NotBlank(s: string) {
    exists i :: 0 <= i < |s| && !IsTrimmed(s[i])
  }

  /** `p` occurs in `s` starting at index `i`. */
  predicate OccursAt(s: string, p: string, i: int) {
    0 <= i && i + |p| <= |s| && s[i..i + |p|] == p
  }

  /** `s.indexOf(p, from)`: the first occurrence of `p` at or after `from`. */
  function IndexOf(s: string, p: string, from: nat): (r: Option<nat>)
    ensures r.Some? ==> from <= r.value && OccursAt(s, p, r.value)
    ensures r.Some? ==> forall j :: from <= j < r.value ==> !OccursAt(s, p, j)
    ensures r.None? ==> forall j :: from <= j ==> !OccursAt(s, p, j)
    decreases |s| - from
  {
    if from + |p| > |s| then None
    else if s[from..from + |p|] == p then Some(from)
    else
      assert |p| > 0;
      IndexOf(s, p, from + 1)
  }

  /** `s.contains(p)`. */
  predicate Contains(s: string, p: string) {
    IndexOf(s, p, 0).Some?
  }

  lemma ContainsIff(s: string, p: string)
    ensures Contains(s, p) <==> exists i :: OccursAt(s, p, i)
  {
    if i :| OccursAt(s, p, i) {
      assert 0 <= i;
    }
  }

  /** An occurrence inside a slice is an occurrence in the whole string. */
  lemma SliceContains(s: string, a: nat, b: nat, p: string)
    requires a <= b <= |s|
    requires Contains(s[a..b], p)
    ensures Contains(s, p)
  {
    var t := s[a..b];
    var j := IndexOf(t, p, 0).value;
    var u := s[a + j..a + j + |p|];
    forall k | 0 <= k < |p|
      ensures u[k] == p[k]
    {
      assert u[k] == s[a + j + k] == t[j + k] == t[j..j + |p|][k];
    }
    assert u == p;
    assert OccursAt(s, p, a + j);
    ContainsIff(s, p);
  }

  /** The pieces of `s` between the leftmost non-overlapping occurrences of
      `sep`, keeping empty pieces. */
  function Pieces(s: string, sep: string): (r: seq<string>)
    requires |sep| > 0
    ensures |r| >= 1
    ensures forall k :: 0 <= k < |r| ==> !Contains(r[k], sep)
    decreases |s|
  {
    match IndexOf(s, sep, 0)
    case None => [s]
    case Some(i) =>
      FirstPieceFree(s, sep, i);
      [s[..i]] + Pieces(s[i + |sep|..], sep)
  }

  /** The text before the first occurrence of `sep` does not contain `sep`. */
  lemma FirstPieceFree(s: string, sep: string, i: nat)
    requires |sep| > 0
    requires IndexOf(s, sep, 0) == Some(i)
    ensures !Contains(s[..i], sep)
  {
    if Contains(s[..i], sep) {
      var j := IndexOf(s[..i], sep, 0).value;
      assert s[..i][j..j + |sep|] == s[j..j + |sep|];
      assert OccursAt(s, sep, j);
      assert false;
    }
  }

  /** Glues `parts` back together with `sep` between neighbours. */
  function Join(parts: seq<string>, sep: string): string
  {
    if |parts| == 0 then ""
    else if |parts| == 1 then parts[0]
    else parts[0] + sep + Join(parts[1..], sep)
  }

  /** Splitting then joining gives back the original string. */
  lemma {:induction false} JoinPieces(s: string, sep: string)
    requires |sep| > 0
    ensures Join(Pieces(s, sep), sep) == s
    decreases |s|
  {
    match IndexOf(s, sep, 0)
    case None =>
    case Some(i) =>
      var tail := s[i + |sep|..];
      var rest := Pieces(tail, sep);
      JoinPieces(tail, sep);
      assert ([s[..i]] + rest)[1..] == rest;
      assert Join([s[..i]] + rest, sep) == s[..i] + sep + tail;
      assert s == s[..i] + s[i..i + |sep|] + tail;
  }

  lemma {:induction false} PiecesUnfold(s: string, sep: string, i: nat)
    requires |sep| > 0
    requires IndexOf(s, sep, 0) == Some(i)
    ensures Pieces(s, sep) == [s[..i]] + Pieces(s[i + |sep|..], sep)
  {
  }

  lemma {:induction false} PiecesNone(s: string, sep: string)
    requires |sep| > 0
    requires IndexOf(s, sep, 0).None?
    ensures Pieces(s, sep) == [s]
  {
  }

  /** Every piece is a slice of the input, so a piece can only contain what
      the input contains. */
  lemma {:induction false} PieceContains(s: string, sep: string, p: string, k: nat)
    requires |sep| > 0
    requires k < |Pieces(s, sep)|
    requires Contains(Pieces(s, sep)[k], p)
    ensures Contains(s, p)
    decreases |s|
  {
    var idx := IndexOf(s, sep, 0);
    if idx.None? {
      PiecesNone(s, sep);
    } else {
      var i := idx.value;
      PieceContainsStep(s, sep, p, k, i);
    }
  }

  lemma {:induction false} PieceContainsStep(s: string, sep: string, p: string, k: nat, i: nat)
    requires |sep| > 0
    requires IndexOf(s, sep, 0) == Some(i)
    requires k < |Pieces(s, sep)|
    requires Contains(Pieces(s, sep)[k], p)
    ensures Contains(s, p)
    decreases |s|, 0
  {
    var tail := s[i + |sep|..];
    var ps := Pieces(s, sep);
    var pt := Pieces(tail, sep);
    PiecesUnfold(s, sep, i);
    assert ps == [s[..i]] + pt;
    if k == 0 {
      assert ps[0] == s[0..i];
      SliceContains(s, 0, i, p);
    } else {
      assert ps[k] == pt[k - 1];
      PieceContains(tail, sep, p, k - 1);
      assert tail == s[i + |sep|..|s|];
      SliceContains(s, i + |sep|, |s|, p);
    }
  }

  /** A string without some character of `p` cannot contain `p`. */
  lemma NoCharNoContains(s: string, p: string, m: nat)
    requires m < |p|
    requires forall k :: 0 <= k < |s| ==> s[k] != p[m]
    ensures !Contains(s, p)
  {
    forall j | 0 <= j && j + |p| <= |s|
      ensures !OccursAt(s, p, j)
    {
      assert s[j..j + |p|][m] == s[j + m];
    }
    ContainsIff(s, p);
  }

  /** No occurrence straddles `a` and `b` when `b` never holds the first
      character of `p` and does not start with any later one. */
  lemma ConcatNoContains(a: string, b: string, p: string)
    requires |p| > 0 && |b| > 0 && !Contains(a, p)
    requires forall k :: 0 <= k < |b| ==> b[k] != p[0]
    requires forall m :: 1 <= m < |p| ==> p[m] != b[0]
    ensures !Contains(a + b, p)
  {
    var x := a + b;
    ContainsIff(a, p);
    forall j | 0 <= j && j + |p| <= |x|
      ensures !OccursAt(x, p, j)
    {
      if j + |p| <= |a| {
        assert x[j..j + |p|] == a[j..j + |p|];
        assert !OccursAt(a, p, j);
      } else if j >= |a| {
        assert x[j..j + |p|][0] == b[j - |a|];
      } else {
        assert x[j..j + |p|][|a| - j] == b[0];
      }
    }
    ContainsIff(x, p);
  }

  /** A string free of `p` is free of every extension of `p`. */
  lemma ExtensionNoContains(s: string, p: string, q: string)
    requires !Contains(s, p)
    ensures !Contains(s, p + q)
  {
    ContainsIff(s, p);
    forall j | 0 <= j && j + |p + q| <= |s|
      ensures !OccursAt(s, p + q, j)
    {
      assert s[j..j + |p + q|][..|p|] == s[j..j + |p|];
      assert (p + q)[..|p|] == p;
      assert !OccursAt(s, p, j);
    }
    ContainsIff(s, p + q);
  }

  /** `p` shifted by `m` disagrees with itself somewhere they overlap. */
  predicate Disagrees(p: string, m: nat) {
    exists t :: 0 <= t < |p| - m && p[m + t] != p[t]
  }

  /** `p` cannot overlap a shifted copy of itself. */
  predicate NoBorder(p: string) {
    forall m :: 1 <= m < |p| ==> Disagrees(p, m)
  }

  /** In `e + p + post`, with `e` free of `p` and `p` without a border,
      the first occurrence of `p` is the one written after `e`. */
  lemma FirstOccurrence(e: string, p: string, post: string)
    requires |p| > 0 && !Contains(e, p) && NoBorder(p)
    ensures IndexOf(e + p + post, p, 0) == Some(|e|)
  {
    var x := e + p + post;
    assert x[|e|..|e| + |p|] == p;
    assert OccursAt(x, p, |e|);
    forall j | 0 <= j < |e|
      ensures !OccursAt(x, p, j)
    {
      if j + |p| <= |e| {
        assert x[j..j + |p|] == e[j..j + |p|];
        ContainsIff(e, p);
        assert !OccursAt(e, p, j);
      } else {
        var m := |e| - j;
        assert Disagrees(p, m);
        var t :| 0 <= t < |p| - m && p[m + t] != p[t];
        assert x[j..j + |p|][m + t] == x[|e| + t] == x[|e|..|e| + |p|][t] == p[t];
        assert x[j..j + |p|][m + t] != p[m + t];
      }
    }
  }

  /** The first piece of `split` ahead of a borderless separator is what
      was written there. */
  lemma SplitHead(e: string, sep: string, post: string)
    requires |sep| > 0 && |e| > 0 && !Contains(e, sep) && NoBorder(sep)
    ensures |Split(e + sep + post, sep)| > 0 && Split(e + sep + post, sep)[0] == e
  {
    var x := e + sep + post;
    FirstOccurrence(e, sep, post);
    PiecesUnfold(x, sep, |e|);
    assert x[..|e|] == e;
    var ps := Pieces(x, sep);
    assert ps[0] == e;
  }

  /** Splitting `a + sep + b` at a borderless separator gives `[a, b]`
      when neither side contains it and `b` is not empty. */
  lemma SplitPair(a: string, sep: string, b: string)
    requires |sep| > 0 && |b| > 0 && !Contains(a, sep) && !Contains(b, sep) && NoBorder(sep)
    ensures Split(a + sep + b, sep) == [a, b]
  {
    var x := a + sep + b;
    FirstOccurrence(a, sep, b);
    PiecesUnfold(x, sep, |a|);
    assert x[..|a|] == a && x[|a| + |sep|..] == b;
    PiecesNone(b, sep);
    var ps := Pieces(x, sep);
    assert ps == [a, b];
    var r := DropTrailingEmpty(ps);
    assert |r| == 2;
  }

  /** A separator at the very end leaves at most one piece: the empty one
      after it is dropped. */
  lemma SplitTrailing(a: string, sep: string)
    requires |sep| > 0 && !Contains(a, sep) && NoBorder(sep)
    ensures |Split(a + sep, sep)| < 2
  {
    var x := a + sep;
    assert x == a + sep + "";
    FirstOccurrence(a, sep, "");
    PiecesUnfold(x, sep, |a|);
    assert x[..|a|] == a && x[|a| + |sep|..] == "";
    PiecesNone("", sep);
    var ps := Pieces(x, sep);
    assert ps == [a, ""];
    assert DropTrailingEmpty(ps) == DropTrailingEmpty([a]);
  }

  /** Drops the empty strings at the end of `parts`, as `split` does. */
  function DropTrailingEmpty(parts: seq<string>): (r: seq<string>)
    ensures |r| <= |parts| && r == parts[..|r|]
    ensures |r| > 0 ==> r[|r| - 1] != ""
    ensures forall k :: |r| <= k < |parts| ==> parts[k] == ""
  {
    if |parts| == 0 then []
    else if parts[|parts| - 1] == "" then DropTrailingEmpty(parts[..|parts| - 1])
    else parts
  }

  /** `s.split(sep)` for a separator without regular-expression
      metacharacters: an input without the separator is returned whole,
      otherwise the pieces with trailing empty ones removed. */
  function Split(s: string, sep: string): (r: seq<string>)
    requires |sep| > 0
    ensures forall k :: 0 <= k < |r| ==> !Contains(r[k], sep)
    ensures !Contains(s, sep) ==> r == [s]
  {
    if !Contains(s, sep) then [s] else DropTrailingEmpty(Pieces(s, sep))
  }

  /** A piece of `Split` contains only what the input contains. */
  lemma SplitContains(s: string, sep: string, p: string, k: nat)
    requires |sep| > 0
    requires k < |Split(s, sep)|
    requires Contains(Split(s, sep)[k], p)
    ensures Contains(s, p)
  {
    if Contains(s, sep) {
      PieceContains(s, sep, p, k);
    }
  }

  /** `s.replace(from, to)` for single characters. */
  function ReplaceChar(s: string, from: char, to: char): (r: string)
    ensures |r| == |s|
    ensures forall i :: 0 <= i < |s| ==> r[i] == (if s[i] == from then to else s[i])
  {
    seq(|s|, i requires 0 <= i < |s| => if s[i] == from then to else s[i])
  }

  /** Every character of `s` outside `s[i..j]` is one `trim` removes. */
  predicate OnlyTrimmedOutside(s: string, i: int, j: int) {
    0 <= i <= j <= |s|
    && (forall k :: 0 <= k < i ==> IsTrimmed(s[k]))
    && (forall k :: j <= k < |s| ==> IsTrimmed(s[k]))
  }

  /** `s.trim()`: removes leading and trailing characters up to the space. */
  function Trim(s: string): (r: string)
    ensures |r| <= |s|
    ensures |r| > 0 ==> !IsTrimmed(r[0]) && !IsTrimmed(r[|r| - 1])
    ensures (|s| == 0 || (!IsTrimmed(s[0]) && !IsTrimmed(s[|s| - 1]))) ==> r == s
  {
    TrimEnd(TrimStart(s))
  }

  /** What `trim` removes: the result is a slice of the input, and every
      character outside it is one up to the space. */
  lemma {:induction false} TrimIsSlice(s: string)
    ensures exists i, j :: OnlyTrimmedOutside(s, i, j) && Trim(s) == s[i..j]
  {
    var t := TrimStart(s);
    var r := TrimEnd(t);
    var i := |s| - |t|;
    TrimSlice(s, t, r);
    assert OnlyTrimmedOutside(s, i, i + |r|) && Trim(s) == s[i..i + |r|];
  }

  /** Dropping characters `trim` removes from the front, then from the
      back, leaves a slice with only such characters outside it. */
  lemma {:induction false} TrimSlice(s: string, t: string, r: string)
    requires |t| <= |s| && t == s[|s| - |t|..]
    requires forall k :: 0 <= k < |s| - |t| ==> IsTrimmed(s[k])
    requires |r| <= |t| && r == t[..|r|]
    requires forall k :: |r| <= k < |t| ==> IsTrimmed(t[k])
    ensures OnlyTrimmedOutside(s, |s| - |t|, |s| - |t| + |r|) && r == s[|s| - |t|..|s| - |t| + |r|]
  {
    var i := |s| - |t|;
    forall k | i + |r| <= k < |s|
      ensures IsTrimmed(s[k])
    {
      assert s[k] == t[k - i];
    }
  }

  /** Drops the leading characters up to the space, and only those. */
  function TrimStart(s: string): (r: string)
    ensures |r| <= |s| && r == s[|s| - |r|..]
    ensures forall k :: 0 <= k < |s| - |r| ==> IsTrimmed(s[k])
    ensures |r| > 0 ==> !IsTrimmed(r[0])
    ensures (|s| == 0 || !IsTrimmed(s[0])) ==> r == s
  {
    if |s| > 0 && IsTrimmed(s[0]) then
      var r := TrimStart(s[1..]);
      assert forall k :: 1 <= k < |s| - |r| ==> s[k] == s[1..][k - 1];
      r
    else s
  }

  /** Drops the trailing characters up to the space, and only those. */
  function TrimEnd(s: string): (r: string)
    ensures |r| <= |s| && r == s[..|r|]
    ensures forall k :: |r| <= k < |s| ==> IsTrimmed(s[k])
    ensures |r| > 0 ==> !IsTrimmed(r[|r| - 1])
    ensures (|s| == 0 || !IsTrimmed(s[|s| - 1])) ==> r == s
  {
    if |s| > 0 && IsTrimmed(s[|s| - 1]) then TrimEnd(s[..|s| - 1]) else s
  }
}
