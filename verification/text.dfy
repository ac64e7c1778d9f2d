/** The JavaScript string primitives the core relies on, stated over Dafny strings
    (sequences of Unicode scalar values): `trim`, `toLowerCase`, `.length` (which
    counts UTF-16 code units) and the default ordering used by `Array.prototype.sort`
    (which compares UTF-16 code units). */
module Text {

  import opened Optional

  // ---------------------------------------------------------------------------
  // trim
  // ---------------------------------------------------------------------------

  /** The characters `String.prototype.trim` removes: ECMAScript WhiteSpace
      (tab, vertical tab, form feed, space, no-break space, byte order mark and the
      Unicode space separators) and LineTerminator (LF, CR, LS, PS). */
  predicate IsTrimmable(c: char) {
    var n := c as int;
    || n == 0x09 || n == 0x0A || n == 0x0B || n == 0x0C || n == 0x0D
    || n == 0x20 || n == 0xA0 || n == 0x1680
    || (0x2000 <= n <= 0x200A)
    || n == 0x2028 || n == 0x2029 || n == 0x202F || n == 0x205F
    || n == 0x3000 || n == 0xFEFF
  }

  /** The first position at or after `i` that does not hold a trimmable character
      (or the end of `s`). */
  function SkipLeading(s: string, i: nat): (j: nat)
    requires i <= |s|
    ensures i <= j <= |s|
    ensures forall k :: i <= k < j ==> IsTrimmable(s[k])
    ensures j == |s| || !IsTrimmable(s[j])
    decreases |s| - i
  {
    if i < |s| && IsTrimmable(s[i]) then SkipLeading(s, i + 1) else i
  }

  /** The position after the last character before `j` and not before `lo` that
      is not trimmable (or `lo`). */
  function SkipTrailing(s: string, lo: nat, j: nat): (e: nat)
    requires lo <= j <= |s|
    ensures lo <= e <= j
    ensures forall k :: e <= k < j ==> IsTrimmable(s[k])
    ensures e == lo || !IsTrimmable(s[e - 1])
  {
    if lo < j && IsTrimmable(s[j - 1]) then SkipTrailing(s, lo, j - 1) else j
  }

  /** `s.trim()`: the infix of `s` left after removing every trimmable character
      at either end; it is empty exactly when `s` is blank. */
  function Trim(s: string): (r: string)
    ensures var b := SkipLeading(s, 0); b + |r| <= |s| && r == s[b..b + |r|]
    ensures forall k :: 0 <= k < SkipLeading(s, 0) ==> IsTrimmable(s[k])
    ensures forall k :: SkipLeading(s, 0) + |r| <= k < |s| ==> IsTrimmable(s[k])
    ensures r == [] || (!IsTrimmable(r[0]) && !IsTrimmable(r[|r| - 1]))
    ensures r == [] <==> forall k :: 0 <= k < |s| ==> IsTrimmable(s[k])
  {
    var b := SkipLeading(s, 0);
    var e := SkipTrailing(s, b, |s|);
    assert e == b ==> b == |s|;
    s[b..e]
  }

  /** `!s.trim()`: the string is empty or consists of trimmable characters only. */
  predicate IsBlank(s: string) {
    Trim(s) == []
  }

  /** `s.trim() || null`: the trimmed text, or nothing when it is empty. */
  function TrimOrNull(s: string): (r: Option<string>)
    ensures r.None? <==> IsBlank(s)
    ensures r.Some? ==> r.value == Trim(s) && r.value != [] && Trim(r.value) == r.value
  {
    var t := Trim(s);
    TrimIdempotent(s);
    if t == [] then None else Some(t)
  }

  lemma TrimIdempotent(s: string)
    ensures Trim(Trim(s)) == Trim(s)
  {
    var r := Trim(s);
    if r != [] {
      assert SkipLeading(r, 0) == 0;
      assert SkipTrailing(r, 0, |r|) == |r|;
    }
  }

  // ---------------------------------------------------------------------------
  // toLowerCase
  // ---------------------------------------------------------------------------

  /** Lower-cases one character; only the ASCII capitals A-Z change. */
  function LowerChar(c: char): char {
    if 'A' <= c <= 'Z' then (c as int + 32) as char else c
  }

  /** `s.toLowerCase()`, restricted to the ASCII letters: no capital A-Z is left,
      each capital becomes its small letter, and every other character stays. */
  function ToLower(s: string): (r: string)
    ensures |r| == |s|
    ensures forall i :: 0 <= i < |r| ==> !('A' <= r[i] <= 'Z')
    ensures forall i :: 0 <= i < |s| && 'A' <= s[i] <= 'Z' ==> r[i] as int == s[i] as int + 32
    ensures forall i :: 0 <= i < |s| && !('A' <= s[i] <= 'Z') ==> r[i] == s[i]
  {
    seq(|s|, i requires 0 <= i < |s| => LowerChar(s[i]))
  }

  lemma ToLowerIdempotent(s: string)
    ensures ToLower(ToLower(s)) == ToLower(s)
  {
  }

  /** Lower-casing changes no trimmable character and makes none. */
  lemma LowerCharKeepsTrimmable(c: char)
    ensures IsTrimmable(LowerChar(c)) == IsTrimmable(c)
  {
  }

  lemma {:induction false} SkipLeadingToLower(s: string, i: nat)
    requires i <= |s|
    ensures SkipLeading(ToLower(s), i) == SkipLeading(s, i)
    decreases |s| - i
  {
    if i < |s| {
      LowerCharKeepsTrimmable(s[i]);
      if IsTrimmable(s[i]) {
        SkipLeadingToLower(s, i + 1);
      }
    }
  }

  lemma {:induction false} SkipTrailingToLower(s: string, lo: nat, j: nat)
    requires lo <= j <= |s|
    ensures SkipTrailing(ToLower(s), lo, j) == SkipTrailing(s, lo, j)
  {
    if lo < j {
      LowerCharKeepsTrimmable(s[j - 1]);
      if IsTrimmable(s[j - 1]) {
        SkipTrailingToLower(s, lo, j - 1);
      }
    }
  }

  /** Trimming and lower-casing commute. */
  lemma TrimToLower(s: string)
    ensures Trim(ToLower(s)) == ToLower(Trim(s))
  {
    var b := SkipLeading(s, 0);
    SkipLeadingToLower(s, 0);
    SkipTrailingToLower(s, b, |s|);
    ToLowerSlice(s, b, SkipTrailing(s, b, |s|));
  }

  lemma ToLowerSlice(s: string, b: nat, e: nat)
    requires b <= e <= |s|
    ensures ToLower(s)[b..e] == ToLower(s[b..e])
  {
    assert forall k :: 0 <= k < e - b ==> ToLower(s)[b..e][k] == LowerChar(s[b + k]);
  }

  // ---------------------------------------------------------------------------
  // .length
  // ---------------------------------------------------------------------------

  /** Number of UTF-16 code units that encode `c`: characters beyond the Basic
      Multilingual Plane take a surrogate pair. */
  function Utf16Units(c: char): nat {
    if c as int < 0x10000 then 1 else 2
  }

  /** JavaScript's `s.length`: the UTF-16 length, between the number of characters
      and twice that number, and zero only for the empty string. */
  function Utf16Length(s: string): (n: nat)
    ensures |s| <= n <= 2 * |s|
    ensures n == 0 <==> s == []
  {
    if s == [] then 0 else Utf16Units(s[0]) + Utf16Length(s[1..])
  }

  /** The UTF-16 length adds up over concatenation, and a single character counts
      two units exactly when it lies above the Basic Multilingual Plane (a surrogate
      pair) and one otherwise: together these fix `Utf16Length` on every string. */
  lemma {:induction false} Utf16LengthAppend(a: string, b: string)
    ensures Utf16Length(a + b) == Utf16Length(a) + Utf16Length(b)
    ensures |a| == 1 ==> (Utf16Length(a) == 2 <==> a[0] as int >= 0x10000)
    ensures |a| == 1 ==> (Utf16Length(a) == 1 <==> a[0] as int < 0x10000)
    decreases |a|
  {
    if a == [] {
      assert a + b == b;
    } else {
      assert (a + b)[0] == a[0] && (a + b)[1..] == a[1..] + b;
      Utf16LengthAppend(a[1..], b);
      if |a| == 1 {
        assert a[1..] == [];
      }
    }
  }

  /** On text within the Basic Multilingual Plane the two lengths agree. */
  lemma {:induction false} Utf16LengthBmp(s: string)
    requires forall i :: 0 <= i < |s| ==> s[i] as int < 0x10000
    ensures Utf16Length(s) == |s|
  {
    if s != [] {
      Utf16LengthBmp(s[1..]);
    }
  }

  // ---------------------------------------------------------------------------
  // Default sort order: UTF-16 code units, lexicographically
  // ---------------------------------------------------------------------------

  /** The first UTF-16 code unit of `c` (the high surrogate for a supplementary character). */
  function FirstUnit(c: char): int {
    if c as int < 0x10000 then c as int else 0xD800 + (c as int - 0x10000) / 0x400
  }

  /** `a` comes before `b` when their UTF-16 encodings are compared unit by unit.
      Dafny characters are never surrogates, so the first units differ unless both
      characters share a high surrogate, and then the scalar values order the low ones. */
  predicate CharBefore(a: char, b: char) {
    FirstUnit(a) < FirstUnit(b) || (FirstUnit(a) == FirstUnit(b) && a < b)
  }

  /** `a` sorts no later than `b` under the default comparison of `Array.prototype.sort`. */
  predicate StrLeq(a: string, b: string)
    decreases |a|
  {
    a == [] || (b != [] && (CharBefore(a[0], b[0]) || (a[0] == b[0] && StrLeq(a[1..], b[1..]))))
  }

  lemma {:induction false} StrLeqReflexive(a: string)
    ensures StrLeq(a, a)
    decreases |a|
  {
    if a != [] {
      StrLeqReflexive(a[1..]);
    }
  }

  lemma {:induction false} StrLeqTotal(a: string, b: string)
    ensures StrLeq(a, b) || StrLeq(b, a)
    decreases |a|
  {
    if a != [] && b != [] && a[0] == b[0] {
      StrLeqTotal(a[1..], b[1..]);
    }
  }

  lemma {:induction false} StrLeqAntisymmetric(a: string, b: string)
    requires StrLeq(a, b) && StrLeq(b, a)
    ensures a == b
    decreases |a|
  {
    if a != [] {
      assert a[0] == b[0];
      StrLeqAntisymmetric(a[1..], b[1..]);
      assert a == [a[0]] + a[1..] && b == [b[0]] + b[1..];
    }
  }

  lemma {:induction false} StrLeqTransitive(a: string, b: string, c: string)
    requires StrLeq(a, b) && StrLeq(b, c)
    ensures StrLeq(a, c)
    decreases |a|
  {
    if a != [] && a[0] == b[0] && b[0] == c[0] {
      StrLeqTransitive(a[1..], b[1..], c[1..]);
    }
  }

  /** Ascending order, as the source's `.sort()` leaves an array of strings. */
  predicate Sorted(s: seq<string>) {
    forall i, j :: 0 <= i < j < |s| ==> StrLeq(s[i], s[j])
  }

  /** Inserts `x` into an ascending sequence, before the first element it precedes. */
  function Insert(x: string, s: seq<string>): (r: seq<string>)
    requires Sorted(s)
    ensures Sorted(r)
    ensures multiset(r) == multiset(s) + multiset{x}
  {
    if s == [] then [x]
    else if StrLeq(x, s[0]) then
      LeqAllAfter(x, s);
      [x] + s
    else
      var rest := Insert(x, s[1..]);
      StrLeqTotal(x, s[0]);
      assert s == [s[0]] + s[1..];
      LeqAllOf(s[0], rest, x, s[1..]);
      [s[0]] + rest
  }

  lemma LeqAllAfter(x: string, s: seq<string>)
    requires Sorted(s) && s != [] && StrLeq(x, s[0])
    ensures Sorted([x] + s)
  {
    forall j | 0 < j < |s| ensures StrLeq(x, s[j]) {
      StrLeqTransitive(x, s[0], s[j]);
    }
  }

  lemma LeqAllOf(y: string, rest: seq<string>, x: string, tail: seq<string>)
    requires Sorted(rest) && Sorted([y] + tail) && StrLeq(y, x)
    requires multiset(rest) == multiset(tail) + multiset{x}
    ensures Sorted([y] + rest)
  {
    forall j | 0 <= j < |rest| ensures StrLeq(y, rest[j]) {
      assert rest[j] in multiset(rest);
      if rest[j] != x {
        assert rest[j] in multiset(tail);
        var k :| 0 <= k < |tail| && tail[k] == rest[j];
        assert ([y] + tail)[0] == y && ([y] + tail)[k + 1] == tail[k];
        assert StrLeq(y, tail[k]);
      } else {
        assert StrLeq(y, x);
      }
    }
  }

  /** `s.sort()` on an array of strings: the ascending permutation of `s`. */
  function Sort(s: seq<string>): (r: seq<string>)
    ensures Sorted(r)
    ensures multiset(r) == multiset(s)
  {
    if s == [] then []
    else
      assert s == [s[0]] + s[1..];
      Insert(s[0], Sort(s[1..]))
  }

  lemma MultisetTail(s: seq<string>)
    requires s != []
    ensures multiset(s[1..]) == multiset(s) - multiset{s[0]}
  {
    assert s == [s[0]] + s[1..];
  }

  /** Two ascending permutations of one multiset start with the same element. */
  lemma SortedHeadsAgree(a: seq<string>, b: seq<string>)
    requires Sorted(a) && Sorted(b) && a != []
    requires multiset(a) == multiset(b)
    ensures b != [] && a[0] == b[0]
  {
    assert a[0] in multiset(b);
    assert b[0] in multiset(a);
    var j :| 0 <= j < |b| && b[j] == a[0];
    var i :| 0 <= i < |a| && a[i] == b[0];
    if j > 0 { assert StrLeq(b[0], b[j]); } else { StrLeqReflexive(a[0]); }
    if i > 0 { assert StrLeq(a[0], a[i]); } else { StrLeqReflexive(b[0]); }
    StrLeqAntisymmetric(a[0], b[0]);
  }

  /** There is only one ascending permutation of a sequence, so `Sort` agrees with
      whatever algorithm the JavaScript engine runs. */
  lemma {:induction false} SortedPermutationUnique(a: seq<string>, b: seq<string>)
    requires Sorted(a) && Sorted(b)
    requires multiset(a) == multiset(b)
    ensures a == b
    decreases |a|
  {
    if a == [] {
      assert |multiset(b)| == 0;
    } else {
      SortedHeadsAgree(a, b);
      MultisetTail(a);
      MultisetTail(b);
      SortedPermutationUnique(a[1..], b[1..]);
      assert a == [a[0]] + a[1..] && b == [b[0]] + b[1..];
    }
  }

  lemma SortIsTheSortedPermutation(s: seq<string>, t: seq<string>)
    requires Sorted(t) && multiset(t) == multiset(s)
    ensures t == Sort(s)
  {
    SortedPermutationUnique(t, Sort(s));
  }

  /** Keeps, in order, the elements of `xs` that do not occur in `ys`
      (`xs.filter(k => !ys.includes(k))`). */
  function Without(xs: seq<string>, ys: seq<string>): (r: seq<string>)
    ensures forall k :: k in r <==> k in xs && k !in ys
    ensures r == [] <==> forall k :: k in xs ==> k in ys
    ensures Sorted(xs) ==> Sorted(r)
  {
    if xs == [] then []
    else
      var rest := Without(xs[1..], ys);
      if xs[0] !in ys then
        assert Sorted(xs) ==> Sorted([xs[0]] + rest) by {
          if Sorted(xs) {
            assert Sorted(xs[1..]);
            PrependSorted(xs, rest);
          }
        }
        [xs[0]] + rest
      else
        assert Sorted(xs) ==> Sorted(xs[1..]);
        rest
  }

  /** The filter keeps repeats: a key outside `ys` occurs in the result as often
      as in `xs`, and a key of `ys` not at all. */
  lemma {:induction false} WithoutKeepsRepeats(xs: seq<string>, ys: seq<string>)
    ensures forall k :: multiset(Without(xs, ys))[k] == if k in ys then 0 else multiset(xs)[k]
  {
    if xs != [] {
      WithoutKeepsRepeats(xs[1..], ys);
      assert xs == [xs[0]] + xs[1..];
      assert multiset(xs) == multiset{xs[0]} + multiset(xs[1..]);
      if xs[0] !in ys {
        assert multiset(Without(xs, ys)) == multiset{xs[0]} + multiset(Without(xs[1..], ys));
      }
    }
  }

  /** The head of an ascending sequence may precede any ascending selection of its tail. */
  lemma PrependSorted(xs: seq<string>, rest: seq<string>)
    requires xs != [] && Sorted(xs) && Sorted(rest)
    requires forall k :: k in rest ==> k in xs[1..]
    ensures Sorted([xs[0]] + rest)
  {
    forall j | 0 <= j < |rest| ensures StrLeq(xs[0], rest[j]) {
      assert rest[j] in xs[1..];
      var m :| 0 <= m < |xs[1..]| && xs[1..][m] == rest[j];
      assert xs[m + 1] == rest[j];
    }
  }
}
