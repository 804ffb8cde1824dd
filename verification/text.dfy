/** The Python string operations the cookie code relies on, written out:
    `str.split(sep)`, `str.split(sep, 1)`, `str.strip()`, `sep.join(parts)` and
    the substring test `sub in s`. Strings are sequences of Unicode scalar values. */
module Text {
  import opened Wrappers

  /** The characters Python's `str.isspace` accepts, which `str.strip()` removes:
      U+0009..U+000D, U+001C..U+0020, U+0085, U+00A0, U+1680, U+2000..U+200A,
      U+2028, U+2029, U+202F, U+205F and U+3000. */
  predicate IsSpace(c: char) {
    var n := c as int;
    (9 <= n <= 13) || (28 <= n <= 32) || n == 0x85 || n == 0xA0 || n == 0x1680 ||
    (0x2000 <= n <= 0x200A) || n == 0x2028 || n == 0x2029 || n == 0x202F ||
    n == 0x205F || n == 0x3000
  }

  predicate AllSpace(s: string) {
    forall i :: 0 <= i < |s| ==> IsSpace(s[i])
  }

  /** Neither end of `s` is whitespace: what `str.strip()` leaves behind. */
  predicate IsStripped(s: string) {
    s == [] || (!IsSpace(s[0]) && !IsSpace(s[|s| - 1]))
  }

  /** The number of whitespace characters at the front of `s`. */
  function LeadingSpace(s: string): (n: nat)
    ensures n <= |s|
  {
    if s != [] && IsSpace(s[0]) then 1 + LeadingSpace(s[1..]) else 0
  }

  /** The number of whitespace characters at the end of `s`. */
  function TrailingSpace(s: string): (n: nat)
    ensures n <= |s|
  {
    if s != [] && IsSpace(s[|s| - 1]) then 1 + TrailingSpace(s[..|s| - 1]) else 0
  }

  /** The leading run is all whitespace and stops at a character that is not. */
  lemma {:induction false} LeadingSpaceShape(s: string)
    ensures AllSpace(s[..LeadingSpace(s)])
    ensures LeadingSpace(s) < |s| ==> !IsSpace(s[LeadingSpace(s)])
  {
    if s != [] && IsSpace(s[0]) {
      LeadingSpaceShape(s[1..]);
      var n := LeadingSpace(s);
      assert forall i :: 1 <= i < n ==> s[..n][i] == s[1..][..n - 1][i - 1];
    }
  }

  /** The trailing run is all whitespace and stops at a character that is not. */
  lemma {:induction false} TrailingSpaceShape(s: string)
    ensures AllSpace(s[|s| - TrailingSpace(s)..])
    ensures TrailingSpace(s) < |s| ==> !IsSpace(s[|s| - TrailingSpace(s) - 1])
  {
    if s != [] && IsSpace(s[|s| - 1]) {
      TrailingSpaceShape(s[..|s| - 1]);
      var m := |s| - TrailingSpace(s);
      assert forall i :: m <= i < |s| - 1 ==> s[..|s| - 1][i] == s[i];
    }
  }

  /** `s.lstrip()`. */
  function TrimLeft(s: string): string {
    s[LeadingSpace(s)..]
  }

  /** `s.rstrip()`. */
  function TrimRight(s: string): string {
    s[..|s| - TrailingSpace(s)]
  }

  /** `s.strip()`: no whitespace is left at either end, and nothing is added. */
  function Strip(s: string): (r: string)
    ensures |r| <= |s|
    ensures IsStripped(r)
  {
    StripEnds(s);
    TrimRight(TrimLeft(s))
  }

  lemma {:induction false} StripEnds(s: string)
    ensures IsStripped(TrimRight(TrimLeft(s)))
  {
    LeadingSpaceShape(s);
    var t := TrimLeft(s);
    TrailingSpaceShape(t);
    var r := TrimRight(t);
    assert r == [] || r[0] == t[0];
  }

  /** What `strip()` returns sits inside `s` between two runs of whitespace and
      has no whitespace at either end. */
  lemma {:induction false} StripShape(s: string)
    ensures LeadingSpace(s) + |Strip(s)| <= |s|
    ensures Strip(s) == s[LeadingSpace(s)..LeadingSpace(s) + |Strip(s)|]
    ensures AllSpace(s[..LeadingSpace(s)]) && AllSpace(s[LeadingSpace(s) + |Strip(s)|..])
    ensures IsStripped(Strip(s))
  {
    var a := LeadingSpace(s);
    LeadingSpaceShape(s);
    var t := TrimLeft(s);
    TrailingSpaceShape(t);
    var n := |t| - TrailingSpace(t);
    assert Strip(s) == t[..n];
    TailSlices(s, a, t, n);
  }

  /** Slicing the tail `s[a..]` at `n` is slicing `s` at `a + n`. */
  lemma TailSlices(s: string, a: nat, t: string, n: nat)
    requires a <= |s| && t == s[a..] && n <= |t|
    ensures a + n <= |s|
    ensures t[..n] == s[a..a + n] && t[n..] == s[a + n..]
  {
  }

  /** A character that is not whitespace lies inside the part `strip()` keeps. */
  lemma {:induction false} StripCovers(s: string, k: nat)
    requires k < |s| && !IsSpace(s[k])
    ensures LeadingSpace(s) <= k < LeadingSpace(s) + |Strip(s)|
  {
    StripShape(s);
    var a, b := LeadingSpace(s), LeadingSpace(s) + |Strip(s)|;
    assert forall i :: 0 <= i < a ==> s[..a][i] == s[i];
    assert forall i :: b <= i < |s| ==> s[b..][i - b] == s[i];
  }

  /** `strip()` removes only whitespace: a character that is not whitespace
      occurs in `s` exactly when it occurs in `s.strip()`. */
  lemma {:induction false} StripKeeps(s: string, c: char)
    requires !IsSpace(c)
    ensures c in Strip(s) <==> c in s
  {
    StripShape(s);
    var start, r := LeadingSpace(s), Strip(s);
    if c in s {
      var k :| 0 <= k < |s| && s[k] == c;
      assert forall i :: 0 <= i < start ==> s[..start][i] == s[i];
      assert forall i :: start + |r| <= i < |s| ==> s[start + |r|..][i - start - |r|] == s[i];
      assert r[k - start] == c;
    }
  }

  lemma {:induction false} LeadingSpaceAfterSpace(w: string, x: string)
    requires AllSpace(w)
    ensures LeadingSpace(w + x) == |w| + LeadingSpace(x)
  {
    if w != [] {
      assert (w + x)[1..] == w[1..] + x;
      LeadingSpaceAfterSpace(w[1..], x);
    } else {
      assert w + x == x;
    }
  }

  lemma {:induction false} LeadingSpaceAppend(x: string, y: string)
    requires !AllSpace(x)
    ensures LeadingSpace(x + y) == LeadingSpace(x)
  {
    assert x != [];
    assert (x + y)[1..] == x[1..] + y;
    if IsSpace(x[0]) {
      var i :| 0 <= i < |x| && !IsSpace(x[i]);
      assert x[1..][i - 1] == x[i];
      LeadingSpaceAppend(x[1..], y);
    }
  }

  lemma {:induction false} TrailingSpaceBeforeSpace(x: string, w: string)
    requires AllSpace(w)
    ensures TrailingSpace(x + w) == TrailingSpace(x) + |w|
  {
    if w != [] {
      assert (x + w)[..|x + w| - 1] == x + w[..|w| - 1];
      TrailingSpaceBeforeSpace(x, w[..|w| - 1]);
    } else {
      assert x + w == x;
    }
  }

  /** Leading whitespace does not change what `strip()` returns. */
  lemma {:induction false} StripAfterSpace(w: string, x: string)
    requires AllSpace(w)
    ensures Strip(w + x) == Strip(x)
  {
    LeadingSpaceAfterSpace(w, x);
    assert TrimLeft(w + x) == TrimLeft(x);
  }

  /** Trailing whitespace does not change what `strip()` returns. */
  lemma {:induction false} StripBeforeSpace(x: string, w: string)
    requires AllSpace(w)
    ensures Strip(x + w) == Strip(x)
  {
    if AllSpace(x) {
      LeadingSpaceAfterSpace(x, w);
      LeadingSpaceAfterSpace(w, []);
      LeadingSpaceAfterSpace(x, []);
      assert w + [] == w && x + [] == x;
      assert TrimLeft(x + w) == [] && TrimLeft(x) == [];
    } else {
      LeadingSpaceAppend(x, w);
      assert TrimLeft(x + w) == TrimLeft(x) + w;
      TrailingSpaceBeforeSpace(TrimLeft(x), w);
    }
  }

  /** A string without whitespace at its ends is left alone by `strip()`. */
  lemma StripStripped(s: string)
    requires IsStripped(s)
    ensures Strip(s) == s
  {
  }

  /** `strip()` is idempotent. */
  lemma {:induction false} StripIdempotent(s: string)
    ensures Strip(Strip(s)) == Strip(s)
  {
    StripShape(s);
    StripStripped(Strip(s));
  }

  /** The number of occurrences of `c` in `s`. */
  function Count(s: string, c: char): nat {
    if s == [] then 0 else (if s[0] == c then 1 else 0) + Count(s[1..], c)
  }

  /** `s.split(c)` for a one-character separator: the pieces between the
      separators, one more piece than there are separators (so `"".split(c)` is
      `[""]`), none of them containing `c`. */
  function Split(s: string, c: char): (r: seq<string>)
    ensures |r| == Count(s, c) + 1
    ensures forall k :: 0 <= k < |r| ==> c !in r[k]
  {
    if s == [] then [[]]
    else
      var rest := Split(s[1..], c);
      if s[0] == c then [[]] + rest else [[s[0]] + rest[0]] + rest[1..]
  }

  /** `sep.join(parts)`. */
  function Join(parts: seq<string>, sep: string): string {
    if |parts| == 0 then []
    else if |parts| == 1 then parts[0]
    else parts[0] + sep + Join(parts[1..], sep)
  }

  /** The combined length of `parts`. */
  function TotalLength(parts: seq<string>): nat {
    if parts == [] then 0 else |parts[0]| + TotalLength(parts[1..])
  }

  /** `sep.join(parts)` is the parts with one `sep` between each neighbouring
      pair: it starts with the first part, and its length is that of the parts
      plus one separator fewer than there are parts. No parts give `""`. */
  lemma {:induction false} JoinShape(parts: seq<string>, sep: string)
    ensures parts == [] ==> Join(parts, sep) == []
    ensures parts != [] ==> parts[0] <= Join(parts, sep)
    ensures parts != [] ==> |Join(parts, sep)| == TotalLength(parts) + (|parts| - 1) * |sep|
  {
    if |parts| > 1 {
      JoinShape(parts[1..], sep);
      assert (|parts| - 1) * |sep| == |sep| + (|parts| - 2) * |sep|;
    }
  }

  /** Joining the pieces of a split with the separator gives the string back. */
  lemma {:induction false} JoinSplit(s: string, c: char)
    ensures Join(Split(s, c), [c]) == s
  {
    if s != [] {
      var rest := Split(s[1..], c);
      JoinSplit(s[1..], c);
      if s[0] == c {
        assert ([[]] + rest)[1..] == rest;
      } else {
        var r := Split(s, c);
        assert r[0] == [s[0]] + rest[0] && r[1..] == rest[1..];
        if |rest| > 1 {
          assert Join(rest, [c]) == rest[0] + [c] + Join(rest[1..], [c]);
        }
      }
    }
  }

  lemma {:induction false} SplitPiece(p: string, c: char)
    requires c !in p
    ensures Split(p, c) == [p]
  {
    if p != [] {
      SplitPiece(p[1..], c);
      assert [p[0]] + p[1..] == p;
    }
  }

  lemma {:induction false} SplitAfterPiece(p: string, c: char, t: string)
    requires c !in p
    ensures Split(p + [c] + t, c) == [p] + Split(t, c)
  {
    var s := p + [c] + t;
    if p == [] {
      assert s[1..] == t;
    } else {
      assert s[1..] == p[1..] + [c] + t;
      SplitAfterPiece(p[1..], c, t);
      assert [s[0]] + p[1..] == p;
    }
  }

  /** Splitting a join whose pieces hold no separator gives the pieces back. */
  lemma {:induction false} SplitJoin(parts: seq<string>, c: char)
    requires |parts| >= 1
    requires forall k :: 0 <= k < |parts| ==> c !in parts[k]
    ensures Split(Join(parts, [c]), c) == parts
  {
    if |parts| == 1 {
      SplitPiece(parts[0], c);
    } else {
      SplitJoin(parts[1..], c);
      SplitAfterPiece(parts[0], c, Join(parts[1..], [c]));
      assert [parts[0]] + parts[1..] == parts;
    }
  }

  /** `s.split(c, 1)` when it yields two parts: the text before the first `c`
      and the text after it; `None` when `c` does not occur (one part). */
  function SplitOnce(s: string, c: char): (r: Option<(string, string)>)
    ensures r.None? <==> c !in s
    ensures r.Some? ==> s == r.value.0 + [c] + r.value.1 && c !in r.value.0
  {
    if s == [] then None
    else if s[0] == c then Some(([], s[1..]))
    else match SplitOnce(s[1..], c)
      case None => None
      case Some(parts) => Some(([s[0]] + parts.0, parts.1))
  }

  /** The split happens at the first occurrence, whichever way it is found. */
  lemma {:induction false} SplitOnceAt(s: string, c: char, k: nat)
    requires k < |s| && s[k] == c && c !in s[..k]
    ensures SplitOnce(s, c) == Some((s[..k], s[k + 1..]))
  {
    assert s[..k] + [c] + s[k + 1..] == s;
    var p := SplitOnce(s, c).value.0;
    assert forall i :: 0 <= i < k ==> s[..k][i] == s[i];
    assert forall i :: 0 <= i < |p| ==> p[i] == s[i];
    assert s[|p|] == c;
    assert p == s[..k];
  }

  /** Splitting the stripped string at its first `c` and stripping both halves
      is the same as splitting the string itself there and stripping both
      halves, when `c` is not whitespace. */
  lemma {:induction false} StripThenSplitOnce(s: string, c: char, k: nat)
    requires k < |s| && s[k] == c && c !in s[..k] && !IsSpace(c)
    ensures SplitOnce(Strip(s), c).Some?
    ensures Strip(SplitOnce(Strip(s), c).value.0) == Strip(s[..k])
    ensures Strip(SplitOnce(Strip(s), c).value.1) == Strip(s[k + 1..])
  {
    var a, b := SplitOnceOfStrip(s, c, k);
    StripHalves(s, a, b, k);
  }

  /** The first `c` of the stripped string is the first `c` of `s`. */
  lemma {:induction false} SplitOnceOfStrip(s: string, c: char, k: nat) returns (a: nat, b: nat)
    requires k < |s| && s[k] == c && c !in s[..k] && !IsSpace(c)
    ensures a <= k < b <= |s| && AllSpace(s[..a]) && AllSpace(s[b..])
    ensures SplitOnce(Strip(s), c) == Some((s[a..k], s[k + 1..b]))
  {
    StripShape(s);
    StripCovers(s, k);
    a, b := LeadingSpace(s), LeadingSpace(s) + |Strip(s)|;
    SplitOnceInside(s, Strip(s), a, b, c, k);
  }

  lemma {:induction false} SplitOnceInside(s: string, t: string, a: nat, b: nat, c: char, k: nat)
    requires a <= k < b <= |s| && t == s[a..b]
    requires s[k] == c && c !in s[..k]
    ensures SplitOnce(t, c) == Some((s[a..k], s[k + 1..b]))
  {
    InfixAt(s, a, b, k);
    assert c !in t[..k - a] by {
      assert t[..k - a] == s[..k][a..];
    }
    SplitOnceAt(t, c, k - a);
  }

  lemma InfixAt(s: string, a: nat, b: nat, k: nat)
    requires a <= k < b <= |s|
    ensures s[a..b][k - a] == s[k]
    ensures s[a..b][..k - a] == s[a..k] == s[..k][a..]
    ensures s[a..b][k - a + 1..] == s[k + 1..b]
  {
  }

  lemma {:induction false} StripHalves(s: string, a: nat, b: nat, k: nat)
    requires a <= k < b <= |s|
    requires AllSpace(s[..a]) && AllSpace(s[b..])
    ensures Strip(s[a..k]) == Strip(s[..k])
    ensures Strip(s[k + 1..b]) == Strip(s[k + 1..])
  {
    SliceConcat(s, 0, a, k);
    StripAfterSpace(s[..a], s[a..k]);
    SliceConcat(s, k + 1, b, |s|);
    StripBeforeSpace(s[k + 1..b], s[b..]);
  }

  /** `sub` occurs in `s` starting at index `i`. */
  predicate SliceAt(s: string, sub: string, i: int) {
    0 <= i && i + |sub| <= |s| && s[i..i + |sub|] == sub
  }

  /** Python's `sub in s`: `sub` occurs in `s` at some index. */
  predicate Contains(s: string, sub: string)
    ensures Contains(s, sub) <==> exists i :: SliceAt(s, sub, i)
  {
    SlicesOfTail(s, sub);
    sub <= s || (s != [] && Contains(s[1..], sub))
  }

  /** An occurrence is either at the front or is an occurrence in the tail. */
  lemma {:induction false} SlicesOfTail(s: string, sub: string)
    ensures (exists i :: SliceAt(s, sub, i)) <==>
            sub <= s || (s != [] && exists i :: SliceAt(s[1..], sub, i))
  {
    if sub <= s {
      assert SliceAt(s, sub, 0) by { assert s[0..|sub|] == sub; }
    }
    if i :| SliceAt(s, sub, i) {
      if i > 0 {
        assert SliceAt(s[1..], sub, i - 1) by {
          TailSlice(s, i, i + |sub|);
        }
      } else {
        assert s[..|sub|] == sub;
      }
    }
    if s != [] && exists i :: SliceAt(s[1..], sub, i) {
      var i :| SliceAt(s[1..], sub, i);
      assert SliceAt(s, sub, i + 1) by {
        TailSlice(s, i + 1, i + 1 + |sub|);
      }
    }
  }

  /** A slice of the tail `s[1..]` is the slice of `s` one further on. */
  lemma TailSlice(s: string, i: nat, j: nat)
    requires 1 <= i <= j <= |s|
    ensures s[1..][i - 1..j - 1] == s[i..j]
  {
    assert forall k :: 0 <= k < j - i ==> s[1..][i - 1..j - 1][k] == s[i..j][k];
  }

  /** Adjacent slices of `s` join into one. */
  lemma SliceConcat(s: string, i: nat, j: nat, k: nat)
    requires i <= j <= k <= |s|
    ensures s[i..j] + s[j..k] == s[i..k]
    ensures i == 0 ==> s[..j] + s[j..k] == s[..k]
    ensures k == |s| ==> s[i..j] + s[j..] == s[i..]
  {
  }
}
