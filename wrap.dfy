/** `wrap_line(str, width, newline)` of the documentation script: the words of
    `str.strip.split(/\s+/)` are packed greedily into output lines, each word
    followed by one space, and the lines are joined by `newline`. */
module Wrap {
  import opened Text

  // ---------------------------------------------------------------------
  // words: str.strip.split(/\s+/)

  /** A field of `split(/\s+/)` on a stripped string: non-empty, no `\s`. */
  predicate IsWord(w: string) {
    w != [] && NoSpace(w)
  }

  /** Length of the leading run of non-`\s` characters of `t`. */
  function WordSpan(t: string): (k: nat)
    ensures k <= |t|
    ensures forall i :: 0 <= i < k ==> !IsSpace(t[i])
    ensures k < |t| ==> IsSpace(t[k])
  {
    if t == [] || IsSpace(t[0]) then 0 else 1 + WordSpan(t[1..])
  }

  /** The maximal runs of non-`\s` characters of `t`, in order. On a string
      that neither starts nor ends with `\s` these are exactly the fields of
      Ruby's `t.split(/\s+/)`. */
  function Fields(t: string): (r: seq<string>)
    ensures forall i :: 0 <= i < |r| ==> IsWord(r[i])
    decreases |t|
  {
    if t == [] then []
    else if IsSpace(t[0]) then Fields(t[1..])
    else
      var k := WordSpan(t);
      [t[..k]] + Fields(t[k..])
  }

  /** `str.strip.split(/\s+/)`. */
  function Words(str: string): seq<string>
  {
    Fields(Strip(str))
  }

  // ---------------------------------------------------------------------
  // segments

  /** The text of one output line holding the words `g`: every word followed
      by a single space (`line << word << ' '`). */
  function Segment(g: seq<string>): string
  {
    if g == [] then [] else Segment(g[..|g| - 1]) + g[|g| - 1] + " "
  }

  /** One iteration of the loop over the words: a word that would carry the
      current line past `width` closes it and starts a new one. */
  function Step(segs: seq<seq<string>>, w: string, width: int): (r: seq<seq<string>>)
    requires segs != []
  {
    var cur := segs[|segs| - 1];
    if |Segment(cur)| + |w| > width then segs + [[w]]
    else segs[..|segs| - 1] + [cur + [w]]
  }

  /** The words of each output line, in order, after the loop has seen `ws`;
      the last group is the line still being filled. */
  function Segments(ws: seq<string>, width: int): (r: seq<seq<string>>)
    ensures r != []
  {
    if ws == [] then [[]] else Step(Segments(ws[..|ws| - 1], width), ws[|ws| - 1], width)
  }

  /** All words of `gs`, group after group. */
  function Flatten(gs: seq<seq<string>>): seq<string>
  {
    if gs == [] then [] else Flatten(gs[..|gs| - 1]) + gs[|gs| - 1]
  }

  /** The rendered output lines. */
  function Lines(gs: seq<seq<string>>): (r: seq<string>)
    ensures |r| == |gs| && forall i :: 0 <= i < |gs| ==> r[i] == Segment(gs[i])
  {
    seq(|gs|, i requires 0 <= i < |gs| => Segment(gs[i]))
  }

  /** `ls.join(sep)` for a separator string. */
  function JoinBy(ls: seq<string>, sep: string): string
  {
    if ls == [] then [] else if |ls| == 1 then ls[0] else JoinBy(ls[..|ls| - 1], sep) + sep + ls[|ls| - 1]
  }

  /** What `out` holds once the groups `gs` have been closed: each line
      followed by `newline`. */
  function Closed(gs: seq<seq<string>>, newline: string): string
  {
    if gs == [] then [] else Closed(gs[..|gs| - 1], newline) + Segment(gs[|gs| - 1]) + newline
  }

  /** The result of `wrap_line(str, width, newline)`. */
  function Wrapped(str: string, width: int, newline: string): string
  {
    JoinBy(Lines(Segments(Words(str), width)), newline)
  }

  // ---------------------------------------------------------------------
  // wrap_line

  /** `wrap_line(str, width, newline)`: the buffers `out` and `line` are
      appended to and `line` is cleared whenever the next word would not fit. */
  method WrapLine(str: string, width: int, newline: string) returns (out: string)
    ensures out == Wrapped(str, width, newline)
  {
    out := Pack(Words(str), width, newline);
  }

  /** The loop of `wrap_line` over the words already split off. */
  method Pack(words: seq<string>, width: int, newline: string) returns (out: string)
    ensures out == JoinBy(Lines(Segments(words, width)), newline)
  {
    out := [];
    var line: string := [];
    ghost var segs: seq<seq<string>> := [[]];
    var i := 0;
    while i < |words|
      invariant 0 <= i <= |words|
      invariant segs == Segments(words[..i], width)
      invariant out == Closed(segs[..|segs| - 1], newline)
      invariant line == Segment(segs[|segs| - 1])
    {
      var word := words[i];
      StepRender(segs, word, width, newline);
      if |line| + |word| > width {
        out := out + line + newline;
        line := [];
      }
      line := line + word + " ";
      SegmentsPrefix(words, i, width);
      segs := Step(segs, word, width);
      i := i + 1;
    }
    out := out + line;
    ClosedJoin(segs, newline);
    assert words[..|words|] == words;
  }

  lemma SegmentsPrefix(ws: seq<string>, i: nat, width: int)
    requires i < |ws|
    ensures Segments(ws[..i + 1], width) == Step(Segments(ws[..i], width), ws[i], width)
  {
    assert ws[..i + 1][..i] == ws[..i];
  }

  /** How one loop iteration changes the two buffers. */
  lemma StepRender(segs: seq<seq<string>>, w: string, width: int, newline: string)
    requires segs != []
    ensures var cur := segs[|segs| - 1];
      var t := Step(segs, w, width);
      var closed := Closed(segs[..|segs| - 1], newline);
      var fits := |Segment(cur)| + |w| <= width;
      && Closed(t[..|t| - 1], newline) == (if fits then closed else closed + Segment(cur) + newline)
      && Segment(t[|t| - 1]) == (if fits then Segment(cur) else []) + w + " "
  {
    var cur := segs[|segs| - 1];
    if |Segment(cur)| + |w| > width {
      assert (segs + [[w]])[..|segs|] == segs;
      assert [w][..0] == [];
    } else {
      var t := segs[..|segs| - 1] + [cur + [w]];
      assert t[..|t| - 1] == segs[..|segs| - 1];
      assert (cur + [w])[..|cur|] == cur;
    }
  }

  lemma {:induction false} ClosedJoin(gs: seq<seq<string>>, newline: string)
    requires gs != []
    ensures JoinBy(Lines(gs), newline) == Closed(gs[..|gs| - 1], newline) + Segment(gs[|gs| - 1])
  {
    var n := |gs|;
    if n >= 2 {
      var p := gs[..n - 1];
      ClosedJoin(p, newline);
      assert Lines(gs)[..n - 1] == Lines(p);
      assert p[..n - 2] == gs[..n - 2];
    }
  }

  // ---------------------------------------------------------------------
  // properties of the packing

  lemma SegmentSnoc(g: seq<string>, w: string)
    ensures Segment(g + [w]) == Segment(g) + w + " "
  {
    assert (g + [w])[..|g|] == g;
  }

  /** The words come out in their original order, none lost or repeated. */
  lemma {:induction false} FlattenSegments(ws: seq<string>, width: int)
    ensures Flatten(Segments(ws, width)) == ws
  {
    if ws != [] {
      var n := |ws|;
      var s := Segments(ws[..n - 1], width);
      FlattenSegments(ws[..n - 1], width);
      var cur := s[|s| - 1];
      var w := ws[n - 1];
      assert ws == ws[..n - 1] + [w];
      if |Segment(cur)| + |w| > width {
        assert (s + [[w]])[..|s|] == s;
      } else {
        var t := s[..|s| - 1] + [cur + [w]];
        assert t[..|t| - 1] == s[..|s| - 1];
        assert Flatten(s) == Flatten(s[..|s| - 1]) + cur;
      }
    }
  }

  /** A line holding two or more words fits within `width + 1` characters
      (its last word's trailing space may reach column `width + 1`). */
  predicate FitsWidth(segs: seq<seq<string>>, width: int) {
    forall i :: 0 <= i < |segs| && |segs[i]| >= 2 ==> |Segment(segs[i])| <= width + 1
  }

  lemma {:induction false} SegmentsWidth(ws: seq<string>, width: int)
    ensures FitsWidth(Segments(ws, width), width)
  {
    if ws != [] {
      var n := |ws|;
      var s := Segments(ws[..n - 1], width);
      SegmentsWidth(ws[..n - 1], width);
      var cur := s[|s| - 1];
      var w := ws[n - 1];
      if |Segment(cur)| + |w| <= width {
        SegmentSnoc(cur, w);
        var t := s[..|s| - 1] + [cur + [w]];
        forall i | 0 <= i < |t| && |t[i]| >= 2 ensures |Segment(t[i])| <= width + 1 {
          if i < |s| - 1 {
            assert t[i] == s[i];
          } else {
            assert t[i] == cur + [w];
          }
        }
      }
    }
  }

  /** Only the first line can be empty, and it is empty exactly when there
      are no words or the first word alone is longer than `width`; the line
      being filled holds at least one word once a word has been seen. */
  lemma {:induction false} SegmentsShape(ws: seq<string>, width: int)
    ensures var segs := Segments(ws, width);
      && (ws != [] ==> segs[|segs| - 1] != [])
      && (forall i :: 0 < i < |segs| ==> segs[i] != [])
      && (segs[0] == [] <==> (ws == [] || |ws[0]| > width))
  {
    if ws != [] {
      var n := |ws|;
      var s := Segments(ws[..n - 1], width);
      SegmentsShape(ws[..n - 1], width);
      if n >= 2 {
        assert ws[..n - 1][0] == ws[0];
      }
    }
  }

  /** The packing is greedy: every line was closed because the first word of
      the next line would have carried it past `width`. */
  lemma {:induction false} SegmentsGreedy(ws: seq<string>, width: int)
    ensures var segs := Segments(ws, width);
      forall j :: 0 < j < |segs| ==> BrokenBefore(segs, j, width)
  {
    if ws != [] {
      var n := |ws|;
      var s := Segments(ws[..n - 1], width);
      SegmentsGreedy(ws[..n - 1], width);
      SegmentsShape(ws[..n - 1], width);
      var cur := s[|s| - 1];
      var w := ws[n - 1];
      if |Segment(cur)| + |w| > width {
        var t := s + [[w]];
        forall j | 0 < j < |t| ensures BrokenBefore(t, j, width) {
          if j < |s| {
            assert BrokenBefore(s, j, width);
          }
        }
      } else {
        var t := s[..|s| - 1] + [cur + [w]];
        forall j | 0 < j < |t| ensures BrokenBefore(t, j, width) {
          assert BrokenBefore(s, j, width);
          if j < |s| - 1 {
            assert t[j] == s[j];
          } else {
            assert t[j] == cur + [w] && cur != [];
          }
        }
      }
    }
  }

  /** Line `j` was started because its first word did not fit on line `j - 1`. */
  predicate BrokenBefore(segs: seq<seq<string>>, j: nat, width: int) {
    0 < j < |segs| && segs[j] != [] && |Segment(segs[j - 1])| + |segs[j][0]| > width
  }

  // ---------------------------------------------------------------------
  // words survive rendering

  lemma FieldsOfWordThenSpace(w: string, t: string)
    requires IsWord(w)
    ensures Fields(w + " " + t) == [w] + Fields(t)
  {
    var u := w + " " + t;
    var k := WordSpan(u);
    assert u[|w|] == ' ';
    assert forall i :: 0 <= i < |w| ==> u[i] == w[i];
    assert k == |w|;
    assert u[..k] == w;
    assert u[k..][1..] == t;
  }

  lemma {:induction false} SegmentCons(w: string, g: seq<string>)
    ensures Segment([w] + g) == w + " " + Segment(g)
    decreases |g|
  {
    if g != [] {
      var n := |g|;
      SegmentCons(w, g[..n - 1]);
      assert ([w] + g)[..n] == [w] + g[..n - 1];
    } else {
      assert [w][..0] == [];
    }
  }

  /** Re-splitting a rendered line gives back its words. */
  lemma {:induction false} FieldsOfSegment(g: seq<string>)
    requires forall i :: 0 <= i < |g| ==> IsWord(g[i])
    ensures Fields(Segment(g)) == g
    decreases |g|
  {
    if g != [] {
      SegmentCons(g[0], g[1..]);
      assert [g[0]] + g[1..] == g;
      FieldsOfSegment(g[1..]);
      FieldsOfWordThenSpace(g[0], Segment(g[1..]));
    }
  }

  predicate AllWords(ws: seq<string>) {
    forall i :: 0 <= i < |ws| ==> IsWord(ws[i])
  }

  lemma {:induction false} FlattenWords(gs: seq<seq<string>>)
    requires AllWords(Flatten(gs))
    ensures forall i :: 0 <= i < |gs| ==> AllWords(gs[i])
    decreases |gs|
  {
    if gs != [] {
      var n := |gs|;
      var a := Flatten(gs[..n - 1]);
      var b := gs[n - 1];
      assert forall j :: 0 <= j < |a| ==> a[j] == (a + b)[j];
      assert forall j :: 0 <= j < |b| ==> b[j] == (a + b)[|a| + j];
      FlattenWords(gs[..n - 1]);
      assert forall i :: 0 <= i < n - 1 ==> gs[i] == gs[..n - 1][i];
    }
  }

  /** `wrap_line` keeps the words of `str.strip.split(/\s+/)` in order:
      the groups of its lines concatenate to those words, and splitting each
      output line on whitespace gives back its group. */
  lemma WrapKeepsWords(str: string, width: int)
    ensures var segs := Segments(Words(str), width);
      && Flatten(segs) == Words(str)
      && forall i :: 0 <= i < |segs| ==> Fields(Lines(segs)[i]) == segs[i]
  {
    var segs := Segments(Words(str), width);
    FlattenSegments(Words(str), width);
    FlattenWords(segs);
    forall i | 0 <= i < |segs| ensures Fields(Lines(segs)[i]) == segs[i] {
      FieldsOfSegment(segs[i]);
    }
  }

  // ---------------------------------------------------------------------
  // empty output

  lemma {:induction false} FieldsNonEmpty(t: string)
    requires t != [] && !IsSpace(t[0])
    ensures Fields(t) != []
  {
  }

  lemma AllStripStripsToEmpty(s: string)
    requires forall i :: 0 <= i < |s| ==> IsStripChar(s[i])
    ensures Strip(s) == []
  {
  }

  lemma StripsToEmptyAllStrip(s: string)
    requires Strip(s) == []
    ensures forall i :: 0 <= i < |s| ==> IsStripChar(s[i])
  {
    var e := StripEnd(s);
    forall i | 0 <= i < |s| ensures IsStripChar(s[i]) {
      assert i >= |e| || s[i] == e[i];
    }
  }

  lemma JoinByLast(ls: seq<string>, sep: string)
    requires ls != []
    ensures |JoinBy(ls, sep)| >= |ls[|ls| - 1]|
  {
  }

  /** The output is empty exactly when `str` is nothing but whitespace (the
      characters `strip` removes). */
  lemma WrappedEmptyIff(str: string, width: int, newline: string)
    ensures Wrapped(str, width, newline) == [] <==> forall i :: 0 <= i < |str| ==> IsStripChar(str[i])
  {
    if forall i :: 0 <= i < |str| ==> IsStripChar(str[i]) {
      AllStripStripsToEmpty(str);
    }
    if Strip(str) == [] {
      StripsToEmptyAllStrip(str);
    }
    var ws := Words(str);
    var segs := Segments(ws, width);
    if Strip(str) != [] {
      FieldsNonEmpty(Strip(str));
      SegmentsShape(ws, width);
      var last := segs[|segs| - 1];
      assert |Segment(last)| >= 1 by {
        assert Segment(last) == Segment(last[..|last| - 1]) + last[|last| - 1] + " ";
      }
      JoinByLast(Lines(segs), newline);
    }
  }
}
