/**
 * The few Python `str` operations the crawler relies on, for one-character
 * arguments: `str.count`, `str.replace`, `str.split`, `"".join`, the `in`
 * substring test and `str.strip()`.
 */
module Strings {

  /** Number of occurrences of `c` in `s` (`s.count(c)`). */
  function Count(s: string, c: char): (n: nat)
    ensures n <= |s|
    ensures n == 0 <==> c !in s
  {
    if |s| == 0 then 0 else (if s[0] == c then 1 else 0) + Count(s[1..], c)
  }

  lemma {:induction false} CountAppend(a: string, b: string, c: char)
    ensures Count(a + b, c) == Count(a, c) + Count(b, c)
  {
    if |a| > 0 {
      assert (a + b)[1..] == a[1..] + b;
      CountAppend(a[1..], b, c);
    } else {
      assert a + b == b;
    }
  }

  /** `s.replace(c, "")`: every `c` deleted, everything else kept in order. */
  function RemoveAll(s: string, c: char): (r: string)
    ensures c !in r
    ensures forall d :: d != c ==> (d in r <==> d in s)
  {
    if |s| == 0 then [] else (if s[0] == c then [] else [s[0]]) + RemoveAll(s[1..], c)
  }

  lemma {:induction false} RemoveAllAppend(a: string, b: string, c: char)
    ensures RemoveAll(a + b, c) == RemoveAll(a, c) + RemoveAll(b, c)
  {
    if |a| > 0 {
      assert (a + b)[1..] == a[1..] + b;
      RemoveAllAppend(a[1..], b, c);
    } else {
      assert a + b == b;
    }
  }

  /** Deleting a character that does not occur changes nothing. */
  lemma {:induction false} RemoveAbsent(s: string, c: char)
    requires c !in s
    ensures RemoveAll(s, c) == s
  {
    if |s| > 0 {
      assert s == [s[0]] + s[1..];
      RemoveAbsent(s[1..], c);
    }
  }

  /** Deleting the only occurrence of `c` closes the gap it leaves. */
  lemma RemoveOne(x: string, y: string, c: char)
    requires c !in x && c !in y
    ensures RemoveAll(x + [c] + y, c) == x + y
  {
    RemoveAllAppend(x + [c], y, c);
    RemoveAllAppend(x, [c], c);
    RemoveAbsent(x, c);
    RemoveAbsent(y, c);
    assert RemoveAll([c], c) == [];
    assert x + [] == x;
  }

  /** Deleting `c` keeps the number of every other character. */
  lemma {:induction false} RemoveAllCount(s: string, c: char, d: char)
    requires d != c
    ensures Count(RemoveAll(s, c), d) == Count(s, d)
  {
    if |s| > 0 {
      RemoveAllCount(s[1..], c, d);
      CountAppend(if s[0] == c then [] else [s[0]], RemoveAll(s[1..], c), d);
    }
  }

  /** `s.replace(a, b)`: every `a` replaced by `b`, position by position. */
  function ReplaceAll(s: string, a: char, b: char): (r: string)
    ensures |r| == |s|
    ensures forall i :: 0 <= i < |s| ==> r[i] == (if s[i] == a then b else s[i])
  {
    if |s| == 0 then [] else [if s[0] == a then b else s[0]] + ReplaceAll(s[1..], a, b)
  }

  /** After replacing `a` by `b`, the `b`s are the old `b`s plus the old `a`s. */
  lemma {:induction false} ReplaceAllCount(s: string, a: char, b: char)
    requires a != b
    ensures Count(ReplaceAll(s, a, b), b) == Count(s, b) + Count(s, a)
    ensures Count(ReplaceAll(s, a, b), a) == 0
  {
    if |s| > 0 {
      ReplaceAllCount(s[1..], a, b);
      assert ReplaceAll(s, a, b)[1..] == ReplaceAll(s[1..], a, b);
    }
  }

  /**
   * When `s` holds no `b`, replacing `a` by `b` and then deleting `b`
   * is the same as deleting `a`.
   */
  lemma {:induction false} ReplaceThenRemove(s: string, a: char, b: char)
    requires b !in s
    ensures RemoveAll(ReplaceAll(s, a, b), b) == RemoveAll(s, a)
  {
    if |s| > 0 {
      var t := ReplaceAll(s, a, b);
      assert t[1..] == ReplaceAll(s[1..], a, b);
      assert s[1..] == s[1..] && b !in s[1..] by {
        forall d | d in s[1..] ensures d in s { }
      }
      ReplaceThenRemove(s[1..], a, b);
    }
  }

  /** Replacing the only occurrence of `a`. */
  lemma ReplaceOne(x: string, y: string, a: char, b: char)
    requires a !in x && a !in y
    ensures ReplaceAll(x + [a] + y, a, b) == x + [b] + y
  {
  }

  /** `s.split(sep)`: the pieces between the occurrences of `sep`. */
  function Split(s: string, sep: char): (parts: seq<string>)
    ensures |parts| == Count(s, sep) + 1
    ensures forall i :: 0 <= i < |parts| ==> sep !in parts[i]
  {
    if |s| == 0 then [[]] else Prepend(s[0], sep, Split(s[1..], sep))
  }

  /** Puts `c` in front of the pieces: it opens a new piece when it is the separator. */
  function Prepend(c: char, sep: char, parts: seq<string>): seq<string>
    requires |parts| > 0
  {
    if c == sep then [[]] + parts else [[c] + parts[0]] + parts[1..]
  }

  lemma PrependAppend(c: char, sep: char, a: seq<string>, b: seq<string>)
    requires |a| > 0
    ensures Prepend(c, sep, a + b) == Prepend(c, sep, a) + b
  {
    if c != sep {
      assert (a + b)[1..] == a[1..] + b;
    }
  }

  /** `"".join(parts)`. */
  function Concat(parts: seq<string>): string {
    if |parts| == 0 then [] else parts[0] + Concat(parts[1..])
  }

  lemma {:induction false} ConcatAppend(a: seq<string>, b: seq<string>)
    ensures Concat(a + b) == Concat(a) + Concat(b)
  {
    if |a| > 0 {
      assert (a + b)[1..] == a[1..] + b;
      ConcatAppend(a[1..], b);
    } else {
      assert a + b == b;
    }
  }

  /** Joining the pieces of a split with nothing in between deletes the separator. */
  lemma {:induction false} ConcatSplit(s: string, sep: char)
    ensures Concat(Split(s, sep)) == RemoveAll(s, sep)
  {
    if |s| > 0 {
      ConcatSplit(s[1..], sep);
      var rest := Split(s[1..], sep);
      if s[0] == sep {
        assert ([[]] + rest)[1..] == rest;
      } else {
        var parts := [[s[0]] + rest[0]] + rest[1..];
        assert parts[1..] == rest[1..];
        assert Concat(rest) == rest[0] + Concat(rest[1..]);
      }
    }
  }

  /** A string without the separator splits into itself alone. */
  lemma {:induction false} SplitNoSep(s: string, sep: char)
    requires sep !in s
    ensures Split(s, sep) == [s]
  {
    if |s| > 0 {
      assert sep !in s[1..] by {
        forall d | d in s[1..] ensures d in s { }
      }
      SplitNoSep(s[1..], sep);
      assert [s[0]] + s[1..] == s;
    }
  }

  /** Splitting at one occurrence of the separator splits the two sides independently. */
  lemma {:induction false} SplitAt(x: string, y: string, sep: char)
    ensures Split(x + [sep] + y, sep) == Split(x, sep) + Split(y, sep)
  {
    if |x| == 0 {
      assert (x + [sep] + y)[1..] == y;
    } else {
      assert (x + [sep] + y)[1..] == x[1..] + [sep] + y;
      SplitAt(x[1..], y, sep);
      PrependAppend(x[0], sep, Split(x[1..], sep), Split(y, sep));
    }
  }

  /** Python's `in` on strings: `t` occurs in `s` as a contiguous substring. */
  predicate Contains(s: string, t: string)
    decreases |s|
  {
    |t| <= |s| && (s[..|t|] == t || Contains(s[1..], t))
  }

  /** `Contains` holds exactly when `t` sits at some offset of `s`. */
  lemma {:induction false} ContainsAt(s: string, t: string)
    ensures Contains(s, t) <==> exists k :: 0 <= k <= |s| - |t| && IsAt(s, t, k)
    decreases |s|
  {
    if |t| <= |s| {
      if s[..|t|] == t {
        assert IsAt(s, t, 0);
      } else {
        assert |s| > 0;
        ContainsAt(s[1..], t);
        if k :| 0 <= k <= |s| - |t| && IsAt(s, t, k) {
          assert k != 0;
          assert IsAt(s[1..], t, k - 1) by {
            assert s[1..][k - 1..k - 1 + |t|] == s[k..k + |t|];
          }
        }
        if k :| 0 <= k <= |s[1..]| - |t| && IsAt(s[1..], t, k) {
          assert IsAt(s, t, k + 1) by {
            assert s[1..][k..k + |t|] == s[k + 1..k + 1 + |t|];
          }
        }
      }
    }
  }

  /** `t` occurs in `s` starting at index `k`. */
  predicate IsAt(s: string, t: string, k: nat)
    requires k + |t| <= |s|
  {
    s[k..k + |t|] == t
  }

  /** The characters Python's `str.isspace()` accepts, by code point. */
  predicate IsSpace(c: char) {
    var n := c as int;
    (0x09 <= n <= 0x0D) || (0x1C <= n <= 0x20) || n == 0x85 || n == 0xA0 || n == 0x1680
    || (0x2000 <= n <= 0x200A) || n == 0x2028 || n == 0x2029 || n == 0x202F || n == 0x205F
    || n == 0x3000
  }

  /** The index of the first non-whitespace character of `s` at or after `from`, or `|s|`. */
  function FirstNonSpace(s: string, from: nat): (n: nat)
    requires from <= |s|
    ensures from <= n <= |s|
    ensures forall i :: from <= i < n ==> IsSpace(s[i])
    ensures n < |s| ==> !IsSpace(s[n])
    decreases |s| - from
  {
    if from < |s| && IsSpace(s[from]) then FirstNonSpace(s, from + 1) else from
  }

  /**
   * The end of `s[lo..end]` once its trailing whitespace is cut off: the
   * index just after its last non-whitespace character, or `lo`.
   */
  function EndOfNonSpace(s: string, lo: nat, end: nat): (m: nat)
    requires lo <= end <= |s|
    ensures lo <= m <= end
    ensures forall i :: m <= i < end ==> IsSpace(s[i])
    ensures m > lo ==> !IsSpace(s[m - 1])
    decreases end
  {
    if end > lo && IsSpace(s[end - 1]) then EndOfNonSpace(s, lo, end - 1) else end
  }

  /** `r` is a slice of `s` with only whitespace before and after it. */
  predicate TrimmedFrom(s: string, r: string) {
    exists k ::
      && 0 <= k <= |s| - |r| && IsAt(s, r, k)
      && (forall i :: 0 <= i < k ==> IsSpace(s[i]))
      && (forall i :: k + |r| <= i < |s| ==> IsSpace(s[i]))
  }

  /**
   * `s.strip()`: the longest contiguous slice of `s` that neither starts nor
   * ends with whitespace, with only whitespace cut off around it.
   */
  function Strip(s: string): (r: string)
    ensures TrimmedFrom(s, r)
    ensures |r| > 0 ==> !IsSpace(r[0]) && !IsSpace(r[|r| - 1])
  {
    var lo := FirstNonSpace(s, 0);
    var hi := EndOfNonSpace(s, lo, |s|);
    assert IsAt(s, s[lo..hi], lo);
    s[lo..hi]
  }
}
