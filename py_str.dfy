/**
  * The handful of Python `str` operations the static site generator is built
  * from: `isspace`, `strip`, `split(sep)` with a non-empty separator,
  * `startswith`, substring search, and `str(n)` for natural numbers.
  * Each operation is given by a small recursive definition that follows
  * CPython's left-to-right scan, and is tied to an independent description
  * (a join that undoes a split, a count of occurrences, a slice with only
  * whitespace cut away) by the lemmas below.
  */
module PyStr {

  /** `str.isspace()` of one character; also the set that `\s` and `\S` use in `re`. */
  predicate IsSpace(c: char) {
    || c == ' '
    || ('\t' <= c <= '\r')
    || ('\U{1c}' <= c <= '\U{1f}')
    || c == '\U{85}' || c == '\U{a0}' || c == '\U{1680}'
    || ('\U{2000}' <= c <= '\U{200a}')
    || c == '\U{2028}' || c == '\U{2029}' || c == '\U{202f}' || c == '\U{205f}' || c == '\U{3000}'
  }

  predicate AllSpace(s: string) {
    forall i :: 0 <= i < |s| ==> IsSpace(s[i])
  }

  /** `t` occurs in `s` starting at index `i`. */
  predicate OccursAt(s: string, t: string, i: nat) {
    i + |t| <= |s| && s[i..i + |t|] == t
  }

  /** Python's `t in s`. */
  predicate Contains(s: string, t: string) {
    exists i: nat | i <= |s| :: OccursAt(s, t, i)
  }

  /** Number of whitespace characters at the start of `s`. */
  function LeadingSpace(s: string): (k: nat)
    ensures k <= |s|
  {
    if s != [] && IsSpace(s[0]) then 1 + LeadingSpace(s[1..]) else 0
  }

  /** The run `LeadingSpace` counts is whitespace, and the character after it is not. */
  lemma {:induction false} LeadingSpaceSpan(s: string)
    ensures AllSpace(s[..LeadingSpace(s)])
    ensures LeadingSpace(s) < |s| ==> !IsSpace(s[LeadingSpace(s)])
    decreases |s|
  {
    if s != [] && IsSpace(s[0]) {
      LeadingSpaceSpan(s[1..]);
      var k := LeadingSpace(s[1..]);
      assert s[..k + 1] == [s[0]] + s[1..][..k];
    }
  }

  /** Number of whitespace characters at the end of `s`. */
  function TrailingSpace(s: string): (k: nat)
    ensures k <= |s|
  {
    if s != [] && IsSpace(s[|s| - 1]) then 1 + TrailingSpace(s[..|s| - 1]) else 0
  }

  /** The run `TrailingSpace` counts is whitespace, and the character before it is not. */
  lemma {:induction false} TrailingSpaceSpan(s: string)
    ensures AllSpace(s[|s| - TrailingSpace(s)..])
    ensures TrailingSpace(s) < |s| ==> !IsSpace(s[|s| - TrailingSpace(s) - 1])
    decreases |s|
  {
    if s != [] && IsSpace(s[|s| - 1]) {
      var init := s[..|s| - 1];
      TrailingSpaceSpan(init);
      var k := TrailingSpace(init);
      assert s[|s| - (k + 1)..] == init[|init| - k..] + [s[|s| - 1]];
    }
  }

  /**
    * `str.strip()` with no argument: the slice `s[i..j]` left once the
    * whitespace on both sides is cut away.
    */
  function Strip(s: string): string {
    var a := LeadingSpace(s);
    var rest := s[a..];
    rest[..|rest| - TrailingSpace(rest)]
  }

  /** The offset in `s` at which `Strip(s)` starts. */
  function StripStart(s: string): nat {
    LeadingSpace(s)
  }

  /** A stripped string neither starts nor ends with whitespace, and it is empty exactly when `s` is all whitespace. */
  lemma StripTrimmed(s: string)
    ensures |Strip(s)| <= |s|
    ensures Strip(s) == [] || (!IsSpace(Strip(s)[0]) && !IsSpace(Strip(s)[|Strip(s)| - 1]))
    ensures Strip(s) == [] <==> AllSpace(s)
  {
    var a := LeadingSpace(s);
    var rest := s[a..];
    var k := TrailingSpace(rest);
    LeadingSpaceSpan(s);
    TrailingSpaceSpan(rest);
    if Strip(s) == [] {
      assert a == |s|;
      assert s[..a] == s;
    } else {
      assert Strip(s)[0] == s[a];
      assert Strip(s)[|Strip(s)| - 1] == rest[|rest| - k - 1];
    }
  }

  /** What `Strip` removes is whitespace, and what it keeps is one contiguous slice of `s`. */
  lemma StripIsSlice(s: string)
    ensures StripStart(s) + |Strip(s)| <= |s|
    ensures Strip(s) == s[StripStart(s)..StripStart(s) + |Strip(s)|]
    ensures AllSpace(s[..StripStart(s)])
    ensures AllSpace(s[StripStart(s) + |Strip(s)|..])
  {
    var a := LeadingSpace(s);
    var rest := s[a..];
    var k := TrailingSpace(rest);
    var r := rest[..|rest| - k];
    assert Strip(s) == r;
    assert r == s[a..a + |r|];
    LeadingSpaceSpan(s);
    TrailingSpaceSpan(rest);
    assert s[a + |r|..] == rest[|rest| - k..];
  }

  /** Stripping twice changes nothing. */
  lemma StripIdempotent(s: string)
    ensures Strip(Strip(s)) == Strip(s)
  {
    var r := Strip(s);
    StripTrimmed(s);
    if r != [] {
      assert LeadingSpace(r) == 0;
      assert TrailingSpace(r) == 0;
    }
  }

  /** A whitespace character in front of a string does not survive `strip`. */
  lemma StripDropsLeadingSpace(c: char, s: string)
    requires IsSpace(c)
    ensures Strip([c] + s) == Strip(s)
  {
    assert ([c] + s)[1..] == s;
    assert LeadingSpace([c] + s) == 1 + LeadingSpace(s);
    assert ([c] + s)[LeadingSpace([c] + s)..] == s[LeadingSpace(s)..];
  }

  /**
    * The scan behind `s.split(sep)`: `cur` is the part collected so far; at
    * each position either `sep` starts there (the part is closed and the
    * separator skipped) or one character moves into the part.
    */
  function SplitFrom(s: string, sep: string, cur: string): (parts: seq<string>)
    requires sep != []
    ensures |parts| >= 1
    decreases |s|
  {
    if s == [] then [cur]
    else if sep <= s then [cur] + SplitFrom(s[|sep|..], sep, [])
    else SplitFrom(s[1..], sep, cur + [s[0]])
  }

  /** Python's `s.split(sep)` for a non-empty `sep`. */
  function Split(s: string, sep: string): (parts: seq<string>)
    requires sep != []
    ensures |parts| >= 1
  {
    SplitFrom(s, sep, [])
  }

  /** Python's `sep.join(parts)`. */
  function Join(parts: seq<string>, sep: string): string {
    if parts == [] then []
    else if |parts| == 1 then parts[0]
    else parts[0] + sep + Join(parts[1..], sep)
  }

  /** Python's `"".join(parts)`. */
  function Concat(parts: seq<string>): string {
    if parts == [] then [] else parts[0] + Concat(parts[1..])
  }

  /** Python's `s.count(sep)`: non-overlapping occurrences, scanning left to right. */
  function Count(s: string, sep: string): nat
    requires sep != []
    decreases |s|
  {
    if s == [] then 0
    else if sep <= s then 1 + Count(s[|sep|..], sep)
    else Count(s[1..], sep)
  }

  /** Python's `s.replace(sep, "")`. */
  function RemoveAll(s: string, sep: string): string
    requires sep != []
    decreases |s|
  {
    if s == [] then []
    else if sep <= s then RemoveAll(s[|sep|..], sep)
    else [s[0]] + RemoveAll(s[1..], sep)
  }

  lemma {:induction false} JoinSplitFrom(s: string, sep: string, cur: string)
    requires sep != []
    ensures Join(SplitFrom(s, sep, cur), sep) == cur + s
    decreases |s|
  {
    if s == [] {
    } else if sep <= s {
      JoinSplitFrom(s[|sep|..], sep, []);
      assert s == sep + s[|sep|..];
    } else {
      JoinSplitFrom(s[1..], sep, cur + [s[0]]);
      assert s == [s[0]] + s[1..];
    }
  }

  /** Joining the parts of a split with the same separator gives the input back. */
  lemma JoinSplit(s: string, sep: string)
    requires sep != []
    ensures Join(Split(s, sep), sep) == s
  {
    JoinSplitFrom(s, sep, []);
  }

  lemma {:induction false} SplitFromCount(s: string, sep: string, cur: string)
    requires sep != []
    ensures |SplitFrom(s, sep, cur)| == Count(s, sep) + 1
    decreases |s|
  {
    if s == [] {
    } else if sep <= s {
      SplitFromCount(s[|sep|..], sep, []);
    } else {
      SplitFromCount(s[1..], sep, cur + [s[0]]);
    }
  }

  /** A split has one more part than the separator has occurrences. */
  lemma SplitCount(s: string, sep: string)
    requires sep != []
    ensures |Split(s, sep)| == Count(s, sep) + 1
  {
    SplitFromCount(s, sep, []);
  }

  lemma {:induction false} ConcatSplitFrom(s: string, sep: string, cur: string)
    requires sep != []
    ensures Concat(SplitFrom(s, sep, cur)) == cur + RemoveAll(s, sep)
    decreases |s|
  {
    if s == [] {
    } else if sep <= s {
      ConcatSplitFrom(s[|sep|..], sep, []);
    } else {
      ConcatSplitFrom(s[1..], sep, cur + [s[0]]);
    }
  }

  /** Gluing the parts of a split back together without separators removes every separator. */
  lemma ConcatSplit(s: string, sep: string)
    requires sep != []
    ensures Concat(Split(s, sep)) == RemoveAll(s, sep)
  {
    ConcatSplitFrom(s, sep, []);
  }

  /** No occurrence of `sep` in `cur + s` starts inside `cur`. */
  predicate NoSepStartsIn(cur: string, s: string, sep: string) {
    forall p: nat | p < |cur| :: !OccursAt(cur + s, sep, p)
  }

  lemma {:induction false} SplitFromPartsFree(s: string, sep: string, cur: string)
    requires sep != []
    requires NoSepStartsIn(cur, s, sep)
    ensures forall k | 0 <= k < |SplitFrom(s, sep, cur)| :: !Contains(SplitFrom(s, sep, cur)[k], sep)
    decreases |s|
  {
    var parts := SplitFrom(s, sep, cur);
    if s == [] {
      assert parts == [cur];
      forall i: nat | i <= |cur| ensures !OccursAt(cur, sep, i) {
        if i < |cur| {
          assert cur + s == cur;
        }
      }
    } else if sep <= s {
      SplitFromPartsFree(s[|sep|..], sep, []);
      forall i: nat | i <= |cur| ensures !OccursAt(cur, sep, i) {
        if i < |cur| && OccursAt(cur, sep, i) {
          assert (cur + s)[i..i + |sep|] == cur[i..i + |sep|];
          assert OccursAt(cur + s, sep, i);
          assert false;
        }
      }
    } else {
      var cur' := cur + [s[0]];
      assert cur + s == cur' + s[1..];
      forall p: nat | p < |cur'| ensures !OccursAt(cur' + s[1..], sep, p) {
        if p == |cur| {
          assert (cur + s)[p..] == s;
          if p + |sep| <= |cur + s| {
            assert (cur + s)[p..p + |sep|] == s[..|sep|];
          }
        }
      }
      SplitFromPartsFree(s[1..], sep, cur');
    }
  }

  /** No part of a split contains the separator. */
  lemma SplitPartsFree(s: string, sep: string)
    requires sep != []
    ensures forall k | 0 <= k < |Split(s, sep)| :: !Contains(Split(s, sep)[k], sep)
  {
    SplitFromPartsFree(s, sep, []);
  }

  /** `SplitFrom` run across a chunk in which no separator starts. */
  lemma {:induction false} SplitFromSkip(a: string, rest: string, sep: string, cur: string)
    requires sep != []
    requires forall p: nat | p < |a| :: !OccursAt(a + rest, sep, p)
    ensures SplitFrom(a + rest, sep, cur) == SplitFrom(rest, sep, cur + a)
    decreases |a|
  {
    if a != [] {
      var s := a + rest;
      assert s[1..] == a[1..] + rest;
      assert !OccursAt(s, sep, 0);
      assert !(sep <= s);
      forall p: nat | p < |a[1..]| ensures !OccursAt(a[1..] + rest, sep, p) {
        var q: nat := p + 1;
        assert q < |a|;
        assert !OccursAt(s, sep, q);
        if p + |sep| <= |a[1..] + rest| {
          var t := a[1..] + rest;
          var u, v := t[p..p + |sep|], s[q..q + |sep|];
          forall k | 0 <= k < |sep| ensures u[k] == v[k] {
            assert t[p + k] == s[q + k];
          }
          assert u == v;
        }
      }
      SplitFromSkip(a[1..], rest, sep, cur + [a[0]]);
      assert cur + [a[0]] + a[1..] == cur + a;
    } else {
      assert a + rest == rest;
      assert cur + a == cur;
    }
  }

  /** A separator right at the front closes the current part. */
  lemma SplitFromSep(rest: string, sep: string, cur: string)
    requires sep != []
    ensures SplitFrom(sep + rest, sep, cur) == [cur] + SplitFrom(rest, sep, [])
  {
    assert (sep + rest)[|sep|..] == rest;
  }

  /** A string in which the separator never starts is split into itself alone. */
  lemma SplitNoSep(a: string, sep: string)
    requires sep != []
    requires !Contains(a, sep)
    ensures Split(a, sep) == [a]
  {
    assert a + [] == a;
    forall p: nat | p < |a| ensures !OccursAt(a + [], sep, p) {
      assert !OccursAt(a, sep, p);
    }
    SplitFromSkip(a, [], sep, []);
    assert [] + a == a;
  }

  /** A substring of a string that lacks `t` lacks `t` as well. */
  lemma ContainsSlice(s: string, i: nat, j: nat, t: string)
    requires i <= j <= |s|
    requires Contains(s[i..j], t)
    ensures Contains(s, t)
  {
    var p: nat :| p <= |s[i..j]| && OccursAt(s[i..j], t, p);
    assert p + |t| <= j - i;
    forall k | 0 <= k < |t| ensures s[i + p + k] == t[k] {
      assert s[i..j][p..p + |t|][k] == t[k];
    }
    assert s[i + p..i + p + |t|] == t;
    assert OccursAt(s, t, i + p);
  }

  /** Every part of a split is a slice of the input. */
  lemma {:induction false} SplitFromPartsAreSlices(s: string, sep: string, cur: string, whole: string, off: nat)
    requires sep != []
    requires off + |s| == |whole| && whole[off..] == s
    requires |cur| <= off && whole[off - |cur|..off] == cur
    ensures forall k | 0 <= k < |SplitFrom(s, sep, cur)| ::
      exists i: nat, j: nat | i <= j <= |whole| :: whole[i..j] == SplitFrom(s, sep, cur)[k]
    decreases |s|
  {
    var parts := SplitFrom(s, sep, cur);
    if s == [] {
      assert whole[off - |cur|..off] == parts[0];
    } else if sep <= s {
      assert whole[off + |sep|..] == s[|sep|..];
      assert whole[off + |sep|..off + |sep|] == [];
      SplitFromPartsAreSlices(s[|sep|..], sep, [], whole, off + |sep|);
      forall k | 0 <= k < |parts|
        ensures exists i: nat, j: nat | i <= j <= |whole| :: whole[i..j] == parts[k]
      {
        if k == 0 {
          assert whole[off - |cur|..off] == parts[0];
        } else {
          assert parts[k] == SplitFrom(s[|sep|..], sep, [])[k - 1];
        }
      }
    } else {
      assert whole[off + 1..] == s[1..];
      assert whole[off - |cur|..off + 1] == cur + [s[0]];
      SplitFromPartsAreSlices(s[1..], sep, cur + [s[0]], whole, off + 1);
    }
  }

  /** A part of a split contains no string that the input lacks. */
  lemma SplitPartsInherit(s: string, sep: string, t: string)
    requires sep != []
    requires !Contains(s, t)
    ensures forall k | 0 <= k < |Split(s, sep)| :: !Contains(Split(s, sep)[k], t)
  {
    SplitFromPartsAreSlices(s, sep, [], s, 0);
    forall k | 0 <= k < |Split(s, sep)| ensures !Contains(Split(s, sep)[k], t) {
      var i: nat, j: nat :| i <= j <= |s| && s[i..j] == Split(s, sep)[k];
      if Contains(Split(s, sep)[k], t) {
        ContainsSlice(s, i, j, t);
      }
    }
  }

  /** The decimal digit of `d < 10`. */
  function Digit(d: nat): (c: char)
    requires d < 10
    ensures c as int == '0' as int + d
  {
    "0123456789"[d]
  }

  /** Python's `str(n)` for a natural number: its decimal numeral. */
  function NatToString(n: nat): (r: string)
    ensures |r| >= 1
    ensures forall i | 0 <= i < |r| :: '0' <= r[i] <= '9'
  {
    if n < 10 then [Digit(n)] else NatToString(n / 10) + [Digit(n % 10)]
  }

  /** Different numbers have different numerals. */
  lemma {:induction false} NatToStringInjective(m: nat, n: nat)
    requires NatToString(m) == NatToString(n)
    ensures m == n
  {
    if m >= 10 && n >= 10 {
      var a, b := NatToString(m), NatToString(n);
      assert a[..|a| - 1] == NatToString(m / 10);
      assert b[..|b| - 1] == NatToString(n / 10);
      NatToStringInjective(m / 10, n / 10);
    }
  }

  /** No occurrence of `sep` starts inside `a` when `a` never holds the first character of `sep`. */
  lemma NoSepStartsInside(a: string, rest: string, sep: string)
    requires sep != []
    requires forall q | 0 <= q < |a| :: a[q] != sep[0]
    ensures forall p: nat | p < |a| :: !OccursAt(a + rest, sep, p)
  {
    forall p: nat | p < |a| ensures !OccursAt(a + rest, sep, p) {
      assert (a + rest)[p] == a[p];
      if p + |sep| <= |a + rest| {
        assert (a + rest)[p..p + |sep|][0] == a[p];
      }
    }
  }

  /** Splitting at the first separator: the part before it, then the split of the rest. */
  lemma SplitAround(a: string, sep: string, rest: string)
    requires sep != []
    requires forall p: nat | p < |a| :: !OccursAt(a + (sep + rest), sep, p)
    ensures Split(a + sep + rest, sep) == [a] + Split(rest, sep)
  {
    assert a + sep + rest == a + (sep + rest);
    SplitFromSkip(a, sep + rest, sep, []);
    SplitFromSep(rest, sep, [] + a);
    assert [] + a == a;
  }

  lemma {:induction false} ConcatAppend(xs: seq<string>, ys: seq<string>)
    ensures Concat(xs + ys) == Concat(xs) + Concat(ys)
    decreases |xs|
  {
    if xs == [] {
      assert xs + ys == ys;
    } else {
      assert (xs + ys)[1..] == xs[1..] + ys;
      ConcatAppend(xs[1..], ys);
    }
  }
}
