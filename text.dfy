/** Ruby and C++ string primitives that the documentation script and the
    rational printer rely on: the character classes of Ruby's `\s` and of
    `String#strip`, `split`/`join` on one separator character, decimal
    rendering of integers, and the line-end anchor `$` of Ruby regexes. */
module Text {

  datatype Option<T> = None | Some(value: T)

  /** Characters matched by Ruby's regex class `\s`: space, tab, line feed,
      vertical tab, form feed and carriage return. */
  predicate IsSpace(c: char) {
    c == ' ' || c == '\t' || c == '\n' || c == '\U{000B}' || c == '\U{000C}' || c == '\r'
  }

  /** Characters `String#strip` removes from either end: `\s` and NUL. */
  predicate IsStripChar(c: char) {
    c == '\0' || IsSpace(c)
  }

  predicate AllSpace(s: string) {
    forall i :: 0 <= i < |s| ==> IsSpace(s[i])
  }

  predicate NoSpace(s: string) {
    forall i :: 0 <= i < |s| ==> !IsSpace(s[i])
  }

  /** Ruby's `rstrip`: the longest prefix of `s` not ending in a strip character. */
  function StripEnd(s: string): (r: string)
    ensures r <= s
    ensures forall i :: |r| <= i < |s| ==> IsStripChar(s[i])
    ensures r == [] || !IsStripChar(r[|r| - 1])
  {
    if s == [] || !IsStripChar(s[|s| - 1]) then s else StripEnd(s[..|s| - 1])
  }

  /** Ruby's `lstrip`: the longest suffix of `s` not starting with a strip character. */
  function StripStart(s: string): (r: string)
    ensures |r| <= |s| && r == s[|s| - |r|..]
    ensures forall i :: 0 <= i < |s| - |r| ==> IsStripChar(s[i])
    ensures r == [] || !IsStripChar(r[0])
  {
    if s == [] || !IsStripChar(s[0]) then s else StripStart(s[1..])
  }

  /** Ruby's `strip`. */
  function Strip(s: string): (r: string)
    ensures r == [] || (!IsStripChar(r[0]) && !IsStripChar(r[|r| - 1]))
  {
    StripStart(StripEnd(s))
  }

  /** `v` is a contiguous slice of `s` with only strip characters outside it. */
  ghost predicate StrippedSlice(s: string, v: string) {
    exists i, j :: 0 <= i <= j <= |s| && v == s[i..j] &&
      (forall k :: 0 <= k < i ==> IsStripChar(s[k])) &&
      (forall k :: j <= k < |s| ==> IsStripChar(s[k]))
  }

  /** The bounds of the slice `strip` keeps. */
  lemma StripBounds(s: string) returns (i: nat, j: nat)
    ensures i <= j <= |s| && Strip(s) == s[i..j]
    ensures forall k :: 0 <= k < i ==> IsStripChar(s[k])
    ensures forall k :: j <= k < |s| ==> IsStripChar(s[k])
  {
    var e := StripEnd(s);
    assert Strip(s) == StripStart(e);
    j := |e|;
    i := j - |StripStart(e)|;
    StripStartOfPrefix(s, e);
  }

  lemma StripStartOfPrefix(s: string, e: string)
    requires e <= s
    ensures var i := |e| - |StripStart(e)|;
      && StripStart(e) == s[i..|e|]
      && forall k :: 0 <= k < i ==> IsStripChar(s[k])
  {
    var r := StripStart(e);
    PrefixSlices(s, e, |e| - |r|);
  }

  /** A slice of a prefix is a slice of the whole, and so are its characters. */
  lemma PrefixSlices(s: string, e: string, i: nat)
    requires e <= s && i <= |e|
    ensures e[i..] == s[i..|e|]
    ensures forall k :: 0 <= k < i ==> e[k] == s[k]
  {
  }

  /** `strip` cuts a contiguous slice out of `s` and drops only strip
      characters around it; it leaves nothing exactly when `s` holds nothing
      else. */
  lemma StripIsSlice(s: string)
    ensures Strip(s) == [] <==> forall k :: 0 <= k < |s| ==> IsStripChar(s[k])
    ensures StrippedSlice(s, Strip(s))
  {
    var i, j := StripBounds(s);
    var r := Strip(s);
    if r != [] {
      assert r[0] == s[i];
    } else {
      forall k | 0 <= k < |s| ensures IsStripChar(s[k]) {
        assert k < i || j <= k;
      }
    }
  }

  /** `pat` occurs in `s` (a regex made of literal characters only, matched with `=~`). */
  predicate Contains(s: string, pat: string) {
    exists i :: 0 <= i <= |s| && OccursAt(s, pat, i)
  }

  predicate OccursAt(s: string, pat: string, i: nat) {
    i + |pat| <= |s| && s[i..i + |pat|] == pat
  }

  // ---------------------------------------------------------------------
  // split and join on one separator character

  /** `ls.join(sep)`. */
  function Join(ls: seq<string>, sep: char): string
  {
    if ls == [] then [] else if |ls| == 1 then ls[0] else ls[0] + [sep] + Join(ls[1..], sep)
  }

  /** Every field of `s` between occurrences of `sep`, trailing empty fields
      included (Ruby's `split(sep, -1)` on a non-empty string). */
  function SplitAll(s: string, sep: char): (r: seq<string>)
    ensures |r| >= 1
    ensures forall i :: 0 <= i < |r| ==> sep !in r[i]
  {
    if s == [] then [[]]
    else
      var rest := SplitAll(s[1..], sep);
      if s[0] == sep then [[]] + rest else [[s[0]] + rest[0]] + rest[1..]
  }

  /** At most `k` fields: the last one keeps the remaining separators
      (Ruby's `split(sep, k)` with a positive limit on a non-empty string). */
  function SplitLimited(s: string, sep: char, k: nat): (r: seq<string>)
    requires k >= 1
    ensures 1 <= |r| <= k
  {
    if k == 1 || s == [] then [s]
    else if s[0] == sep then [[]] + SplitLimited(s[1..], sep, k - 1)
    else
      var rest := SplitLimited(s[1..], sep, k);
      [[s[0]] + rest[0]] + rest[1..]
  }

  /** The number of empty strings at the front of `ls`. */
  function LeadingEmpty(ls: seq<string>): (n: nat)
    ensures n <= |ls|
    ensures forall i :: 0 <= i < n ==> ls[i] == []
    ensures n < |ls| ==> ls[n] != []
  {
    if ls == [] || ls[0] != [] then 0 else 1 + LeadingEmpty(ls[1..])
  }

  /** The length of `ls` without the empty strings at its end. */
  function WithoutTrailingEmpty(ls: seq<string>): (n: nat)
    ensures n <= |ls|
    ensures forall i :: n <= i < |ls| ==> ls[i] == []
    ensures n > 0 ==> ls[n - 1] != []
  {
    if ls == [] || ls[|ls| - 1] != [] then |ls| else WithoutTrailingEmpty(ls[..|ls| - 1])
  }

  /** Drops empty strings from the front of `ls`. */
  function DropLeadingEmpty(ls: seq<string>): seq<string>
  {
    ls[LeadingEmpty(ls)..]
  }

  /** Drops empty strings from the end of `ls`. */
  function DropTrailingEmpty(ls: seq<string>): seq<string>
  {
    ls[..WithoutTrailingEmpty(ls)]
  }

  /** Dropping empty strings at both ends leaves a slice of `ls` whose first
      and last strings are non-empty, with only empty strings outside it. */
  lemma DropsAreSlice(ls: seq<string>) returns (i: nat, j: nat)
    ensures i <= j <= |ls|
    ensures DropTrailingEmpty(DropLeadingEmpty(ls)) == ls[i..j]
    ensures forall k :: 0 <= k < i ==> ls[k] == []
    ensures forall k :: j <= k < |ls| ==> ls[k] == []
    ensures i < j ==> ls[i] != [] && ls[j - 1] != []
  {
    var f := DropLeadingEmpty(ls);
    i := LeadingEmpty(ls);
    j := i + WithoutTrailingEmpty(f);
    forall k | j <= k < |ls| ensures ls[k] == [] {
      assert ls[k] == f[k - i];
    }
    if i < j {
      assert ls[j - 1] == f[j - 1 - i];
    }
  }

  lemma DropLeadingStep(ls: seq<string>)
    requires ls != [] && ls[0] == []
    ensures DropLeadingEmpty(ls) == DropLeadingEmpty(ls[1..])
  {
    assert ls[1..][LeadingEmpty(ls[1..])..] == ls[1 + LeadingEmpty(ls[1..])..];
  }

  lemma DropTrailingStep(ls: seq<string>)
    requires ls != [] && ls[|ls| - 1] == []
    ensures DropTrailingEmpty(ls) == DropTrailingEmpty(ls[..|ls| - 1])
  {
  }

  lemma DropLeadingOfNonEmptyFront(ls: seq<string>)
    requires ls == [] || ls[0] != []
    ensures DropLeadingEmpty(ls) == ls
  {
  }

  lemma DropTrailingOfNonEmptyBack(ls: seq<string>)
    requires ls == [] || ls[|ls| - 1] != []
    ensures DropTrailingEmpty(ls) == ls
  {
  }

  lemma JoinCons(h: string, t: seq<string>, sep: char)
    requires t != []
    ensures Join([h] + t, sep) == h + [sep] + Join(t, sep)
  {
    assert ([h] + t)[1..] == t;
  }

  lemma JoinPrepend(c: char, ls: seq<string>, sep: char)
    requires ls != []
    ensures Join([[c] + ls[0]] + ls[1..], sep) == [c] + Join(ls, sep)
  {
    var ls' := [[c] + ls[0]] + ls[1..];
    if |ls| > 1 {
      assert ls'[1..] == ls[1..];
    }
  }

  /** Joining the fields of a split gives back the string. */
  lemma {:induction false} JoinSplitAll(s: string, sep: char)
    ensures Join(SplitAll(s, sep), sep) == s
  {
    if s != [] {
      var rest := SplitAll(s[1..], sep);
      JoinSplitAll(s[1..], sep);
      if s[0] == sep {
        JoinCons([], rest, sep);
        assert [s[0]] + s[1..] == s;
      } else {
        JoinPrepend(s[0], rest, sep);
        assert [s[0]] + s[1..] == s;
      }
    }
  }

  /** Splitting a join of separator-free fields gives back the fields. */
  lemma {:induction false} SplitAllJoin(ls: seq<string>, sep: char)
    requires ls != []
    requires forall i :: 0 <= i < |ls| ==> sep !in ls[i]
    ensures SplitAll(Join(ls, sep), sep) == ls
  {
    if |ls| == 1 {
      SplitAllNoSep(ls[0], sep);
    } else {
      SplitAllJoin(ls[1..], sep);
      SplitAllAfterField(ls[0], Join(ls[1..], sep), sep);
      assert [ls[0]] + ls[1..] == ls;
    }
  }

  lemma {:induction false} SplitAllNoSep(s: string, sep: char)
    requires sep !in s
    ensures SplitAll(s, sep) == [s]
  {
    if s != [] {
      SplitAllNoSep(s[1..], sep);
      assert [s[0]] + s[1..] == s;
    }
  }

  lemma {:induction false} SplitAllAfterField(f: string, t: string, sep: char)
    requires sep !in f
    ensures SplitAll(f + [sep] + t, sep) == [f] + SplitAll(t, sep)
  {
    if f == [] {
      assert ([sep] + t)[1..] == t;
    } else {
      SplitAllAfterField(f[1..], t, sep);
      assert (f + [sep] + t)[1..] == f[1..] + [sep] + t;
      assert [f[0]] + f[1..] == f;
    }
  }

  /** A split yields one more field than there are separators. */
  lemma {:induction false} SplitAllCount(s: string, sep: char)
    ensures |SplitAll(s, sep)| == multiset(s)[sep] + 1
  {
    if s != [] {
      SplitAllCount(s[1..], sep);
      assert s == [s[0]] + s[1..];
      assert multiset(s) == multiset([s[0]]) + multiset(s[1..]);
    }
  }

  /** A positive limit that exceeds the number of separators changes nothing. */
  lemma {:induction false} SplitLimitedAll(s: string, sep: char, k: nat)
    requires k >= 1 && multiset(s)[sep] < k
    ensures SplitLimited(s, sep, k) == SplitAll(s, sep)
  {
    if s != [] {
      assert s == [s[0]] + s[1..];
      assert multiset(s) == multiset([s[0]]) + multiset(s[1..]);
      if s[0] == sep {
        assert k > 1;
        SplitLimitedAll(s[1..], sep, k - 1);
      } else {
        if k == 1 {
          assert multiset(s)[sep] == 0;
          assert sep !in s;
          SplitAllNoSep(s, sep);
        } else {
          SplitLimitedAll(s[1..], sep, k);
        }
      }
    }
  }

  /** Joining the fields of a limited split gives back the string. */
  lemma {:induction false} JoinSplitLimited(s: string, sep: char, k: nat)
    requires k >= 1
    ensures Join(SplitLimited(s, sep, k), sep) == s
  {
    if k > 1 && s != [] {
      if s[0] == sep {
        JoinSplitLimited(s[1..], sep, k - 1);
        JoinCons([], SplitLimited(s[1..], sep, k - 1), sep);
      } else {
        JoinSplitLimited(s[1..], sep, k);
        JoinPrepend(s[0], SplitLimited(s[1..], sep, k), sep);
      }
      assert [s[0]] + s[1..] == s;
    }
  }

  // ---------------------------------------------------------------------
  // Ruby's `$` anchor

  /** Ruby's `$` holds at position `q`: the end of `s` or just before a line feed. */
  predicate AtLineEnd(s: string, q: nat)
    requires q <= |s|
  {
    q == |s| || s[q] == '\n'
  }

  /** The end of the run of `inClass` characters that starts at `p`. */
  function RunEnd(s: string, p: nat, inClass: char -> bool): (r: nat)
    requires p <= |s|
    ensures p <= r <= |s|
    ensures forall i :: p <= i < r ==> inClass(s[i])
    ensures r < |s| ==> !inClass(s[r])
    decreases |s| - p
  {
    if p == |s| || !inClass(s[p]) then p else RunEnd(s, p + 1, inClass)
  }

  /** The largest `q` in `lo..hi` at which `$` holds, if any: where a greedy
      `X+$` backtracks to. */
  function LastLineEnd(s: string, lo: nat, hi: nat): (r: Option<nat>)
    requires hi <= |s|
    ensures r.Some? ==> lo <= r.value <= hi && AtLineEnd(s, r.value)
    ensures r.Some? ==> forall q :: r.value < q <= hi ==> !AtLineEnd(s, q)
    ensures r.None? ==> forall q :: lo <= q <= hi ==> !AtLineEnd(s, q)
    decreases hi
  {
    if hi < lo then None
    else if AtLineEnd(s, hi) then Some(hi)
    else if hi == lo then None
    else LastLineEnd(s, lo, hi - 1)
  }

  // ---------------------------------------------------------------------
  // decimal rendering (`%d`, `std::ostream << int`)

  predicate IsDigit(c: char) {
    '0' <= c <= '9'
  }

  function Digit(k: nat): (c: char)
    requires k < 10
    ensures IsDigit(c) && (c as int) - ('0' as int) == k
  {
    ('0' as int + k) as char
  }

  /** The decimal digits of `n`, without leading zeros. */
  function NatToString(n: nat): (s: string)
    ensures |s| >= 1 && (forall i :: 0 <= i < |s| ==> IsDigit(s[i]))
    ensures s[0] == '0' ==> n == 0
  {
    if n < 10 then [Digit(n)] else NatToString(n / 10) + [Digit(n % 10)]
  }

  /** Decimal rendering of an integer, with a leading `-` when negative. */
  function IntToString(x: int): (s: string)
    ensures |s| >= 1 && '/' !in s && ',' !in s
    ensures x < 0 <==> s[0] == '-'
  {
    if x < 0 then "-" + NatToString(-x) else NatToString(x)
  }

  /** The value of a string of decimal digits. */
  function ParseNat(s: string): nat
    requires forall i :: 0 <= i < |s| ==> IsDigit(s[i])
  {
    if s == [] then 0 else ParseNat(s[..|s| - 1]) * 10 + DigitValue(s[|s| - 1])
  }

  function DigitValue(c: char): (k: nat)
    requires IsDigit(c)
    ensures k < 10
  {
    (c as int) - ('0' as int)
  }

  /** Reads an optional `-` followed by at least one decimal digit. */
  function ParseInt(s: string): Option<int>
  {
    if |s| >= 2 && s[0] == '-' && forall i :: 1 <= i < |s| ==> IsDigit(s[i]) then
      Some(-(ParseNat(s[1..]) as int))
    else if |s| >= 1 && forall i :: 0 <= i < |s| ==> IsDigit(s[i]) then
      Some(ParseNat(s))
    else
      None
  }

  lemma {:induction false} ParseNatToString(n: nat)
    ensures ParseNat(NatToString(n)) == n
  {
    if n >= 10 {
      ParseNatToString(n / 10);
      var s := NatToString(n / 10) + [Digit(n % 10)];
      assert s[..|s| - 1] == NatToString(n / 10);
    }
  }

  /** Decimal rendering can be read back. */
  lemma ParseIntToString(x: int)
    ensures ParseInt(IntToString(x)) == Some(x)
  {
    var s := IntToString(x);
    if x < 0 {
      assert s[1..] == NatToString(-x);
      ParseNatToString(-x);
    } else {
      ParseNatToString(x);
    }
  }

  /** `s` right-justified in a field of `width` characters (`%3d` pads with spaces,
      and never truncates). */
  function PadLeft(s: string, width: nat): (r: string)
    ensures |r| == if |s| >= width then |s| else width
    ensures r[|r| - |s|..] == s
    ensures forall i :: 0 <= i < |r| - |s| ==> r[i] == ' '
  {
    if |s| >= width then s else seq(width - |s|, _ => ' ') + s
  }
}
