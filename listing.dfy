/** Source listings and command output text in the documentation script
    (doc/README.md.erb.rb): `remove_shebang`, `string_to_lines`,
    `lines_to_string`, `trim_empty_lines!`, `line_numbers!`, `code_lines`,
    and the trimming of captured run output. */
module Listing {
  import opened Text

  // ---------------------------------------------------------------------
  // string_to_lines / lines_to_string

  /** `s.split("\n", -1)`: every line, trailing empty ones included; Ruby
      returns no fields at all for the empty string. */
  function StringToLines(s: string): (ls: seq<string>)
    ensures forall i :: 0 <= i < |ls| ==> '\n' !in ls[i]
  {
    if s == [] then [] else SplitAll(s, '\n')
  }

  /** `lines.join("\n")`. */
  function LinesToString(ls: seq<string>): string
  {
    Join(ls, '\n')
  }

  predicate SingleLines(ls: seq<string>) {
    forall i :: 0 <= i < |ls| ==> '\n' !in ls[i]
  }

  /** Splitting into lines and joining them again gives back the text. */
  lemma LinesRoundTrip(s: string)
    ensures LinesToString(StringToLines(s)) == s
    ensures SingleLines(StringToLines(s))
  {
    if s != [] {
      JoinSplitAll(s, '\n');
    }
  }

  /** Joining single lines and splitting again gives back the lines, except
      for the one list `[""]`, which joins to the empty text. */
  lemma StringToLinesOfJoin(ls: seq<string>)
    requires SingleLines(ls)
    ensures StringToLines(LinesToString(ls)) == ls <==> ls != [[]]
  {
    if ls != [] && ls != [[]] {
      SplitAllJoin(ls, '\n');
      if |ls| > 1 {
        assert LinesToString(ls) == ls[0] + ['\n'] + Join(ls[1..], '\n');
      }
      assert LinesToString(ls) != [];
    }
  }

  // ---------------------------------------------------------------------
  // remove_shebang

  predicate IsLower(c: char) {
    'a' <= c <= 'z'
  }

  predicate AllLower(s: string) {
    forall i :: 0 <= i < |s| ==> IsLower(s[i])
  }

  /** ` -*- `, a lower-case word from `k + 5` to `j`, then ` -*-`. */
  predicate ModeMarksAt(s: string, k: nat, j: nat)
  {
    k + 5 < j && j + 4 <= |s| &&
    s[k..k + 5] == " -*- " && AllLower(s[k + 5..j]) && s[j..j + 4] == " -*-"
  }

  /** `^.+ -\*- [a-z]+ -\*-.*$` holds at the start of a line without line
      feeds: an editor mode line such as `// -*- c -*-`. The mode name must
      be lower-case letters only, so `// -*- c++ -*-` is not one and is kept. */
  predicate IsModeLine(s: string) {
    exists k, j :: 1 <= k <= |s| && 0 <= j <= |s| && ModeMarksAt(s, k, j)
  }

  predicate IsBlank(c: char) {
    c == ' '
  }

  /** `^#pragma +once.*$` holds at the start of a line without line feeds. */
  predicate IsPragmaOnce(s: string) {
    "#pragma" <= s &&
    var r := RunEnd(s, 7, IsBlank);
    r > 7 && "once" <= s[r..]
  }

  /** Ruby's `gsub('!#', '')` on the rest of a line: scans left to right and
      removes each occurrence it meets; it does not rescan what it produced. */
  function DropBangHash(s: string): (r: string)
    ensures |r| <= |s|
  {
    if |s| >= 2 && s[0] == '!' && s[1] == '#' then DropBangHash(s[2..])
    else if s == [] then []
    else [s[0]] + DropBangHash(s[1..])
  }

  /** `remove_shebang` on one line (no line feeds). At column 0 the four
      alternatives are tried in order, so a line starting with `#!` goes
      entirely and a line starting with `!#` only loses its `!#`s even when
      it is also a mode or pragma line; past column 0 only `!#` can match. */
  function RemoveShebangLine(s: string): string
  {
    if "#!" <= s then []
    else if !("!#" <= s) && (IsModeLine(s) || IsPragmaOnce(s)) then []
    else DropBangHash(s)
  }

  /** `remove_shebang`: none of the four alternatives can match across a
      line feed, so the substitution rewrites each line on its own. */
  function RemoveShebang(s: string): string
  {
    Join(seq(|SplitAll(s, '\n')|, i requires 0 <= i < |SplitAll(s, '\n')| => RemoveShebangLine(SplitAll(s, '\n')[i])), '\n')
  }

  /** On a single line, `remove_shebang` is the one-line rewrite. */
  lemma RemoveShebangOfLine(s: string)
    requires '\n' !in s
    ensures RemoveShebang(s) == RemoveShebangLine(s)
  {
    SplitAllNoSep(s, '\n');
  }

  /** The four patterns of `remove_shebang`, none of which matches `s`. */
  predicate NoShebangPattern(s: string) {
    !("#!" <= s) && !Contains(s, "!#") && !IsModeLine(s) && !IsPragmaOnce(s)
  }

  lemma {:induction false} DropBangHashShrinks(s: string)
    ensures DropBangHash(s) == s <==> !Contains(s, "!#")
  {
    if |s| >= 2 && s[0] == '!' && s[1] == '#' {
      assert OccursAt(s, "!#", 0);
    } else if s != [] {
      DropBangHashShrinks(s[1..]);
      if Contains(s, "!#") {
        var i :| 0 <= i <= |s| && OccursAt(s, "!#", i);
        assert i >= 1;
        OccursShift(s, "!#", i);
      } else {
        forall i | 0 <= i <= |s[1..]| ensures !OccursAt(s[1..], "!#", i) {
          OccursShift(s, "!#", i + 1);
        }
      }
      assert [s[0]] + s[1..] == s;
    }
  }

  lemma OccursShift(s: string, pat: string, i: nat)
    requires 1 <= i && s != []
    ensures OccursAt(s, pat, i) <==> OccursAt(s[1..], pat, i - 1)
  {
    if i + |pat| <= |s| {
      assert s[1..][i - 1..i - 1 + |pat|] == s[i..i + |pat|];
    }
  }

  /** A line starting with `#!` becomes empty. */
  lemma ShebangLineRemoved(s: string)
    requires "#!" <= s
    ensures RemoveShebangLine(s) == []
  {
  }

  /** `#pragma`, one or more spaces and `once` at the start of a line make it empty. */
  lemma {:induction false} PragmaOnceRemoved(spaces: nat, rest: string)
    requires spaces >= 1
    ensures RemoveShebangLine("#pragma" + seq(spaces, _ => ' ') + "once" + rest) == []
  {
    var s := "#pragma" + seq(spaces, _ => ' ') + "once" + rest;
    assert s[..7] == "#pragma";
    var r := RunEnd(s, 7, IsBlank);
    RunEndOfBlanks(s, 7, spaces);
    assert s[7 + spaces..] == "once" + rest;
  }

  lemma RunEndOfBlanks(s: string, p: nat, n: nat)
    requires p + n < |s|
    requires forall i :: p <= i < p + n ==> s[i] == ' '
    requires s[p + n] != ' '
    ensures RunEnd(s, p, IsBlank) == p + n
    decreases n
  {
    if n > 0 {
      RunEndOfBlanks(s, p + 1, n - 1);
    }
  }

  /** `remove_shebang` changes a line exactly when one of its four patterns matches. */
  lemma UnchangedIffNoPattern(s: string)
    requires '\n' !in s
    ensures RemoveShebang(s) == s <==> NoShebangPattern(s)
  {
    RemoveShebangOfLine(s);
    DropBangHashShrinks(s);
    if "!#" <= s {
      assert OccursAt(s, "!#", 0);
    }
  }

  // ---------------------------------------------------------------------
  // line.sub!(/\s+$/, '')

  /** Where a greedy `\s+$` that starts at `p` ends. */
  function TrailingSpaceMatchAt(s: string, p: nat): Option<nat>
    requires p < |s|
  {
    if !IsSpace(s[p]) then None else LastLineEnd(s, p + 1, RunEnd(s, p, IsSpace))
  }

  /** The leftmost match of `\s+$` at or after `p`, as (start, end). */
  function FirstTrailingSpaceMatch(s: string, p: nat): (m: Option<(nat, nat)>)
    requires p <= |s|
    ensures m.Some? ==> p <= m.value.0 < m.value.1 <= |s|
    decreases |s| - p
  {
    if p == |s| then None
    else match TrailingSpaceMatchAt(s, p)
      case Some(q) => Some((p, q))
      case None => FirstTrailingSpaceMatch(s, p + 1)
  }

  /** `line.sub!(/\s+$/, '')`: removes the first match only. */
  function SubTrailingSpace(s: string): string
  {
    match FirstTrailingSpaceMatch(s, 0)
    case None => s
    case Some((p, q)) => s[..p] + s[q..]
  }

  /** `s` without its trailing run of `\s` characters. */
  function SpaceStripped(s: string): (r: string)
    ensures r <= s && AllSpace(s[|r|..])
    ensures r == [] || !IsSpace(r[|r| - 1])
  {
    if s == [] || !IsSpace(s[|s| - 1]) then s else SpaceStripped(s[..|s| - 1])
  }

  lemma {:induction false} FirstMatchOnSingleLine(s: string, p: nat)
    requires '\n' !in s
    requires p <= |SpaceStripped(s)|
    ensures FirstTrailingSpaceMatch(s, p) ==
      if |SpaceStripped(s)| == |s| then None else Some((|SpaceStripped(s)|, |s|))
    decreases |s| - p
  {
    var k := |SpaceStripped(s)|;
    if p < k {
      if IsSpace(s[p]) {
        var r := RunEnd(s, p, IsSpace);
        assert !IsSpace(s[k - 1]);
        assert r <= k - 1;
        assert forall q :: p + 1 <= q <= r ==> !AtLineEnd(s, q) by {
          forall q | p + 1 <= q <= r ensures !AtLineEnd(s, q) {
            assert s[q] in s;
          }
        }
      }
      FirstMatchOnSingleLine(s, p + 1);
    } else if k < |s| {
      assert forall i :: k <= i < |s| ==> IsSpace(s[i]) by {
        forall i | k <= i < |s| ensures IsSpace(s[i]) {
          assert s[k..][i - k] == s[i];
        }
      }
      var r := RunEnd(s, k, IsSpace);
      assert r == |s|;
    }
  }

  /** On a single line, the substitution strips the trailing whitespace. */
  lemma SubTrailingSpaceOfLine(s: string)
    requires '\n' !in s
    ensures SubTrailingSpace(s) == SpaceStripped(s)
  {
    FirstMatchOnSingleLine(s, 0);
    var k := |SpaceStripped(s)|;
    if k < |s| {
      assert s[..k] + s[|s|..] == s[..k];
    }
  }

  // ---------------------------------------------------------------------
  // trim_empty_lines!

  function MapSubTrailingSpace(ls: seq<string>): (r: seq<string>)
    ensures |r| == |ls| && forall i :: 0 <= i < |ls| ==> r[i] == SubTrailingSpace(ls[i])
  {
    seq(|ls|, i requires 0 <= i < |ls| => SubTrailingSpace(ls[i]))
  }

  /** What `trim_empty_lines!` leaves: each line right-stripped, then the
      empty lines at the front and at the back removed. */
  function Trimmed(ls: seq<string>): seq<string>
  {
    DropTrailingEmpty(DropLeadingEmpty(MapSubTrailingSpace(ls)))
  }

  /** A Ruby array of lines that the helpers change in place. */
  class LineArray {
    var lines: seq<string>

    constructor (ls: seq<string>)
      ensures lines == ls
    {
      lines := ls;
    }
  }

  /** `trim_empty_lines!(lines)`. */
  method TrimEmptyLines(a: LineArray)
    modifies a
    ensures a.lines == Trimmed(old(a.lines))
  {
    StripTrailingSpace(a);
    ShiftEmpty(a);
    PopEmpty(a);
  }

  /** `lines.each{|line| line.sub!(/\s+$/, '')}`. */
  method StripTrailingSpace(a: LineArray)
    modifies a
    ensures a.lines == MapSubTrailingSpace(old(a.lines))
  {
    ghost var original := a.lines;
    var i := 0;
    while i < |a.lines|
      invariant 0 <= i <= |a.lines| == |original|
      invariant forall k :: 0 <= k < i ==> a.lines[k] == SubTrailingSpace(original[k])
      invariant forall k :: i <= k < |a.lines| ==> a.lines[k] == original[k]
    {
      a.lines := a.lines[i := SubTrailingSpace(a.lines[i])];
      i := i + 1;
    }
  }

  /** `lines.shift while lines[ 0] && lines[ 0].empty?`. */
  method ShiftEmpty(a: LineArray)
    modifies a
    ensures a.lines == DropLeadingEmpty(old(a.lines))
  {
    ghost var original := a.lines;
    while |a.lines| > 0 && a.lines[0] == []
      invariant DropLeadingEmpty(a.lines) == DropLeadingEmpty(original)
      decreases |a.lines|
    {
      DropLeadingStep(a.lines);
      a.lines := a.lines[1..];
    }
    DropLeadingOfNonEmptyFront(a.lines);
  }

  /** `lines.pop while lines[-1] && lines[-1].empty?`. */
  method PopEmpty(a: LineArray)
    modifies a
    ensures a.lines == DropTrailingEmpty(old(a.lines))
  {
    ghost var original := a.lines;
    while |a.lines| > 0 && a.lines[|a.lines| - 1] == []
      invariant DropTrailingEmpty(a.lines) == DropTrailingEmpty(original)
      decreases |a.lines|
    {
      DropTrailingStep(a.lines);
      a.lines := a.lines[..|a.lines| - 1];
    }
    DropTrailingOfNonEmptyBack(a.lines);
  }

  lemma SubTrailingSpaceSingle(s: string)
    requires '\n' !in s
    ensures SubTrailingSpace(s) == SpaceStripped(s)
    ensures '\n' !in SubTrailingSpace(s)
  {
    SubTrailingSpaceOfLine(s);
    var r := SpaceStripped(s);
    assert forall c :: c in r ==> c in s;
  }

  /** The line does not end in whitespace. */
  predicate NoTrailingSpace(l: string) {
    l == [] || !IsSpace(l[|l| - 1])
  }

  lemma SubTrailingSpaceClean(s: string)
    requires '\n' !in s
    ensures NoTrailingSpace(SubTrailingSpace(s))
  {
    SubTrailingSpaceOfLine(s);
  }

  lemma SubTrailingSpaceOfBlank(s: string)
    requires AllSpace(s)
    ensures SubTrailingSpace(s) == []
  {
    if s != [] {
      var r := RunEnd(s, 0, IsSpace);
      assert r == |s|;
    }
  }

  /** The result is a contiguous slice of the right-stripped lines with only
      empty lines outside it, so order and interior empty lines are kept;
      its first and last lines are non-empty. */
  lemma TrimmedIsSlice(ls: seq<string>) returns (i: nat, j: nat)
    ensures i <= j <= |ls|
    ensures Trimmed(ls) == MapSubTrailingSpace(ls)[i..j]
    ensures forall k :: 0 <= k < i ==> SubTrailingSpace(ls[k]) == []
    ensures forall k :: j <= k < |ls| ==> SubTrailingSpace(ls[k]) == []
    ensures i < j ==> SubTrailingSpace(ls[i]) != [] && SubTrailingSpace(ls[j - 1]) != []
  {
    var m := MapSubTrailingSpace(ls);
    i, j := DropsAreSlice(m);
  }

  /** The first and last lines left are non-empty. */
  lemma TrimmedEnds(ls: seq<string>)
    ensures Trimmed(ls) != [] ==>
      Trimmed(ls)[0] != [] && Trimmed(ls)[|Trimmed(ls)| - 1] != []
  {
    var i, j := TrimmedIsSlice(ls);
  }

  lemma TrimmedSingle(ls: seq<string>)
    requires SingleLines(ls)
    ensures SingleLines(Trimmed(ls))
  {
    var i, j := TrimmedIsSlice(ls);
    var t := Trimmed(ls);
    forall k | 0 <= k < |t| ensures '\n' !in t[k] {
      assert t[k] == SubTrailingSpace(ls[i + k]);
      SubTrailingSpaceSingle(ls[i + k]);
    }
  }

  /** No line is left with trailing whitespace. */
  lemma TrimmedNoTrailingSpace(ls: seq<string>)
    requires SingleLines(ls)
    ensures forall k :: 0 <= k < |Trimmed(ls)| ==> NoTrailingSpace(Trimmed(ls)[k])
  {
    var i, j := TrimmedIsSlice(ls);
    var t := Trimmed(ls);
    forall k | 0 <= k < |t| ensures NoTrailingSpace(t[k]) {
      assert t[k] == SubTrailingSpace(ls[i + k]);
      SubTrailingSpaceClean(ls[i + k]);
    }
  }

  /** Lines made only of whitespace all vanish, and on single lines nothing
      else makes the result empty. */
  lemma TrimmedEmptyIff(ls: seq<string>)
    requires SingleLines(ls)
    ensures Trimmed(ls) == [] <==> forall k :: 0 <= k < |ls| ==> AllSpace(ls[k])
  {
    var i, j := TrimmedIsSlice(ls);
    if Trimmed(ls) == [] {
      forall k | 0 <= k < |ls| ensures AllSpace(ls[k]) {
        SubTrailingSpaceSingle(ls[k]);
        assert ls[k][|SpaceStripped(ls[k])|..] == ls[k];
      }
    }
    if forall k :: 0 <= k < |ls| ==> AllSpace(ls[k]) {
      forall k | 0 <= k < |ls| ensures SubTrailingSpace(ls[k]) == [] {
        SubTrailingSpaceOfBlank(ls[k]);
      }
    }
  }

  lemma {:induction false} SpaceStrippedIdempotent(s: string)
    ensures SpaceStripped(SpaceStripped(s)) == SpaceStripped(s)
  {
  }

  /** Trimming twice changes nothing more. */
  lemma TrimmedIdempotent(ls: seq<string>)
    requires SingleLines(ls)
    ensures Trimmed(Trimmed(ls)) == Trimmed(ls)
  {
    var t := Trimmed(ls);
    TrimmedStripped(ls);
    TrimmedEnds(ls);
    DropLeadingOfNonEmptyFront(t);
    DropTrailingOfNonEmptyBack(t);
  }

  /** The lines left by trimming carry no trailing whitespace to strip. */
  lemma TrimmedStripped(ls: seq<string>)
    requires SingleLines(ls)
    ensures MapSubTrailingSpace(Trimmed(ls)) == Trimmed(ls)
  {
    var t := Trimmed(ls);
    TrimmedSingle(ls);
    TrimmedNoTrailingSpace(ls);
    var m2 := MapSubTrailingSpace(t);
    forall k | 0 <= k < |t| ensures m2[k] == t[k] {
      StrippedLineFixed(t[k]);
    }
    assert m2 == t;
  }

  lemma StrippedLineFixed(l: string)
    requires '\n' !in l && NoTrailingSpace(l)
    ensures SubTrailingSpace(l) == l
  {
    SubTrailingSpaceSingle(l);
  }

  // ---------------------------------------------------------------------
  // line_numbers!

  /** `"%3d   %s" % [k, line]`. */
  function NumberedLine(k: nat, line: string): string
  {
    PadLeft(NatToString(k), 3) + "   " + line
  }

  /** `line_numbers!(lines)`: line `i` (from 0) gets the number `i + 1`. */
  method LineNumbers(a: LineArray)
    modifies a
    ensures |a.lines| == |old(a.lines)|
    ensures forall i :: 0 <= i < |a.lines| ==> a.lines[i] == NumberedLine(i + 1, old(a.lines)[i])
  {
    ghost var original := a.lines;
    var i := 0;
    while i < |a.lines|
      invariant 0 <= i <= |a.lines| == |original|
      invariant forall k :: 0 <= k < i ==> a.lines[k] == NumberedLine(k + 1, original[k])
      invariant forall k :: i <= k < |a.lines| ==> a.lines[k] == original[k]
    {
      a.lines := a.lines[i := NumberedLine(i + 1, a.lines[i])];
      i := i + 1;
    }
  }

  function Numbered(ls: seq<string>): (r: seq<string>)
    ensures |r| == |ls| && forall i :: 0 <= i < |ls| ==> r[i] == NumberedLine(i + 1, ls[i])
  {
    seq(|ls|, i requires 0 <= i < |ls| => NumberedLine(i + 1, ls[i]))
  }

  /** The number comes first, right-justified in three columns, then three
      spaces, then the line itself. */
  lemma NumberedLineLayout(k: nat, line: string)
    requires 1 <= k <= 999
    ensures |NumberedLine(k, line)| == 6 + |line|
    ensures ParseInt(StripStart(NumberedLine(k, line)[..3])) == Some(k)
    ensures NumberedLine(k, line)[3..6] == "   " && NumberedLine(k, line)[6..] == line
  {
    var d := NatToString(k);
    NatToStringLength(k);
    var p := PadLeft(d, 3);
    assert |p| == 3;
    assert NumberedLine(k, line) == p + "   " + line;
    StripStartOfPadded(p, |p| - |d|);
    assert p[|p| - |d|..] == d;
    assert NumberedLine(k, line)[..3] == p;
    ParseIntToString(k);
  }

  /** A numbered line is as long as its number column and gap, and adds no
      line break of its own. */
  lemma NumberedLineSingle(k: nat, line: string)
    requires '\n' !in line
    ensures '\n' !in NumberedLine(k, line) && |NumberedLine(k, line)| >= 6
  {
    var d := NatToString(k);
    var p := PadLeft(d, 3);
    forall j | 0 <= j < |p| ensures p[j] != '\n' {
      if j >= |p| - |d| {
        assert p[j] == p[|p| - |d|..][j - (|p| - |d|)];
        assert IsDigit(d[j - (|p| - |d|)]);
      }
    }
    assert NumberedLine(k, line) == p + "   " + line;
  }

  lemma NatToStringLength(n: nat)
    ensures n < 1000 ==> |NatToString(n)| <= 3
  {
    if n >= 10 {
      NatToStringLength(n / 10);
    }
  }

  lemma StripStartOfPadded(s: string, k: nat)
    requires k <= |s|
    requires forall i :: 0 <= i < k ==> s[i] == ' '
    requires k < |s| && IsDigit(s[k])
    ensures StripStart(s) == s[k..]
  {
    assert !IsStripChar(s[k]);
    assert StripStart(s[k..]) == s[k..];
  }

  // ---------------------------------------------------------------------
  // code_lines

  /** `lines.map!{|s| remove_shebang(s)}`. */
  function MapRemoveShebang(ls: seq<string>): (r: seq<string>)
    ensures |r| == |ls| && forall i :: 0 <= i < |ls| ==> r[i] == RemoveShebang(ls[i])
  {
    seq(|ls|, i requires 0 <= i < |ls| => RemoveShebang(ls[i]))
  }

  /** The listing `code_lines(s)` produces. */
  function CodeListing(s: string): string
  {
    LinesToString(Numbered(Trimmed(MapRemoveShebang(StringToLines(s)))))
  }

  /** `code_lines(s)`. */
  method CodeLines(s: string) returns (r: string)
    ensures r == CodeListing(s)
  {
    var a := new LineArray(StringToLines(s));
    a.lines := MapRemoveShebang(a.lines);
    TrimEmptyLines(a);
    ghost var trimmed := a.lines;
    assert trimmed == Trimmed(MapRemoveShebang(StringToLines(s)));
    LineNumbers(a);
    assert a.lines == Numbered(trimmed);
    r := LinesToString(a.lines);
  }

  lemma MapRemoveShebangSingle(ls: seq<string>)
    requires SingleLines(ls)
    ensures SingleLines(MapRemoveShebang(ls))
    ensures forall i :: 0 <= i < |ls| ==> MapRemoveShebang(ls)[i] == RemoveShebangLine(ls[i])
  {
    forall i | 0 <= i < |ls| ensures MapRemoveShebang(ls)[i] == RemoveShebangLine(ls[i]) {
      RemoveShebangOfLine(ls[i]);
    }
    forall i | 0 <= i < |ls| ensures '\n' !in RemoveShebangLine(ls[i]) {
      DropBangHashKeeps(ls[i]);
      assert multiset(ls[i])['\n'] == 0;
      assert multiset(DropBangHash(ls[i]))['\n'] == 0;
    }
  }

  lemma {:induction false} DropBangHashKeeps(s: string)
    ensures multiset(DropBangHash(s)) <= multiset(s)
  {
    if |s| >= 2 && s[0] == '!' && s[1] == '#' {
      DropBangHashKeeps(s[2..]);
      assert s == s[..2] + s[2..];
    } else if s != [] {
      DropBangHashKeeps(s[1..]);
      assert s == [s[0]] + s[1..];
    }
  }

  /** The lines of a listing are the trimmed, shebang-free source lines,
      numbered from 1 in order. */
  lemma CodeListingLines(s: string)
    ensures StringToLines(CodeListing(s)) == Numbered(Trimmed(MapRemoveShebang(StringToLines(s))))
  {
    var ls := StringToLines(s);
    MapRemoveShebangSingle(ls);
    var t := Trimmed(MapRemoveShebang(ls));
    TrimmedSingle(MapRemoveShebang(ls));
    var n := Numbered(t);
    assert CodeListing(s) == LinesToString(n);
    NumberedSingle(t);
    StringToLinesOfJoin(n);
  }

  /** Numbering keeps lines single and never yields one empty line. */
  lemma NumberedSingle(t: seq<string>)
    requires SingleLines(t)
    ensures SingleLines(Numbered(t)) && Numbered(t) != [[]]
  {
    var n := Numbered(t);
    forall i | 0 <= i < |n| ensures '\n' !in n[i] && |n[i]| >= 6 {
      NumberedLineSingle(i + 1, t[i]);
    }
    if n != [] {
      assert |n[0]| >= 6;
    }
  }

  // ---------------------------------------------------------------------
  // run output: lines_to_string(trim_empty_lines!(string_to_lines(out)))

  /** The captured output of a target's run command, trimmed. */
  method RunOutput(out: string) returns (r: string)
    ensures r == LinesToString(Trimmed(StringToLines(out)))
  {
    var a := new LineArray(StringToLines(out));
    TrimEmptyLines(a);
    r := LinesToString(a.lines);
  }

  /** The trimmed run output splits back into exactly the trimmed lines. */
  lemma RunOutputLines(out: string)
    ensures StringToLines(LinesToString(Trimmed(StringToLines(out)))) == Trimmed(StringToLines(out))
  {
    var t := Trimmed(StringToLines(out));
    TrimmedSingle(StringToLines(out));
    TrimmedEnds(StringToLines(out));
    StringToLinesOfJoin(t);
  }
}
