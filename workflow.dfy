/** The deterministic tail of `run_workflow` in the documentation script:
    the transcript of the build has its runs of spaces collapsed, is split
    into lines, loses two kinds of noisy line, and every remaining line is
    wrapped at 78 columns with a shell continuation. */
module Workflow {
  import opened Text
  import Wrap

  // ---------------------------------------------------------------------
  // gsub(/  +/, ' ')

  /** `s.gsub(/  +/, ' ')`: every run of two or more spaces becomes a single
      space. Dropping each space that is followed by another space gives the
      same string, which is how this definition proceeds. */
  function CollapseSpaces(s: string): string
  {
    if s == [] then []
    else if |s| >= 2 && s[0] == ' ' && s[1] == ' ' then CollapseSpaces(s[1..])
    else [s[0]] + CollapseSpaces(s[1..])
  }

  /** No two adjacent spaces. */
  ghost predicate NoDoubleSpace(s: string) {
    forall i, j :: 0 <= i < j < |s| && j == i + 1 ==> !(s[i] == ' ' && s[j] == ' ')
  }

  /** `s` without its spaces. */
  function DropSpaces(s: string): string
  {
    if s == [] then [] else (if s[0] == ' ' then [] else [s[0]]) + DropSpaces(s[1..])
  }

  lemma NoDoubleSpaceCons(c: char, t: string)
    requires NoDoubleSpace(t)
    requires t == [] || c != ' ' || t[0] != ' '
    ensures NoDoubleSpace([c] + t)
  {
    var u := [c] + t;
    forall i, j | 0 <= i < j < |u| && j == i + 1 ensures !(u[i] == ' ' && u[j] == ' ') {
      if i > 0 {
        assert u[i] == t[i - 1] && u[j] == t[j - 1];
      }
    }
  }

  lemma NoDoubleSpaceTail(s: string)
    requires s != [] && NoDoubleSpace(s)
    ensures NoDoubleSpace(s[1..])
  {
    var t := s[1..];
    forall i, j | 0 <= i < j < |t| && j == i + 1 ensures !(t[i] == ' ' && t[j] == ' ') {
      assert t[i] == s[i + 1] && t[j] == s[j + 1];
    }
  }

  /** After the collapse no two spaces are adjacent. */
  lemma {:induction false} CollapseNoDoubleSpace(s: string)
    ensures NoDoubleSpace(CollapseSpaces(s))
  {
    if s != [] {
      CollapseNoDoubleSpace(s[1..]);
      if !(|s| >= 2 && s[0] == ' ' && s[1] == ' ') {
        var t := s[1..];
        if t != [] {
          CollapseKeepsLeadingSpace(t);
        }
        NoDoubleSpaceCons(s[0], CollapseSpaces(t));
      }
    }
  }

  /** A string without two adjacent spaces is left as it is. */
  lemma {:induction false} CollapseOfNoDoubleSpace(s: string)
    requires NoDoubleSpace(s)
    ensures CollapseSpaces(s) == s
  {
    if s != [] {
      NoDoubleSpaceTail(s);
      CollapseOfNoDoubleSpace(s[1..]);
      assert |s| < 2 || !(s[0] == ' ' && s[1] == ' ');
      assert s == [s[0]] + s[1..];
    }
  }

  /** The collapse changes a string exactly when it has two adjacent spaces,
      and a second collapse changes nothing. */
  lemma CollapseFixedIff(s: string)
    ensures CollapseSpaces(s) == s <==> NoDoubleSpace(s)
    ensures CollapseSpaces(CollapseSpaces(s)) == CollapseSpaces(s)
  {
    CollapseNoDoubleSpace(s);
    CollapseOfNoDoubleSpace(CollapseSpaces(s));
    if NoDoubleSpace(s) {
      CollapseOfNoDoubleSpace(s);
    }
  }

  /** Only spaces are removed: every other character survives, in order. */
  lemma {:induction false} CollapseKeepsText(s: string)
    ensures DropSpaces(CollapseSpaces(s)) == DropSpaces(s)
  {
    if s != [] {
      CollapseKeepsText(s[1..]);
      if !(|s| >= 2 && s[0] == ' ' && s[1] == ' ') {
        assert ([s[0]] + CollapseSpaces(s[1..]))[1..] == CollapseSpaces(s[1..]);
      }
    }
  }

  /** A run of spaces is shortened, never removed: the collapse keeps a
      space at the front exactly when the string has one there. */
  lemma CollapseKeepsLeadingSpace(s: string)
    requires s != []
    ensures CollapseSpaces(s) != [] && (CollapseSpaces(s)[0] == ' ' <==> s[0] == ' ')
    decreases |s|
  {
    if |s| >= 2 && s[0] == ' ' && s[1] == ' ' {
      CollapseKeepsLeadingSpace(s[1..]);
    }
  }

  /** The collapse never changes the first character. */
  lemma CollapseHead(s: string)
    requires s != []
    ensures CollapseSpaces(s) != [] && CollapseSpaces(s)[0] == s[0]
    decreases |s|
  {
    if |s| >= 2 && s[0] == ' ' && s[1] == ' ' {
      CollapseHead(s[1..]);
    }
  }

  /** No run of spaces crosses the end of a string that does not end in a
      space, so the collapse works on each side separately. */
  lemma CollapseUnfold(s: string)
    requires s != []
    ensures CollapseSpaces(s) ==
      if |s| >= 2 && s[0] == ' ' && s[1] == ' ' then CollapseSpaces(s[1..]) else [s[0]] + CollapseSpaces(s[1..])
  {
  }

  lemma {:induction false} CollapseAppend(a: string, x: string)
    requires a == [] || a[|a| - 1] != ' '
    ensures CollapseSpaces(a + x) == CollapseSpaces(a) + CollapseSpaces(x)
    decreases |a|
  {
    if a == [] {
      assert a + x == x;
    } else {
      var u := a + x;
      var t := a[1..];
      assert u[0] == a[0] && u[1..] == t + x;
      CollapseUnfold(u);
      CollapseUnfold(a);
      if t == [] {
        assert a[0] != ' ' && t + x == x;
      } else {
        assert u[1] == t[0] && t[|t| - 1] == a[|a| - 1];
        CollapseAppend(t, x);
      }
    }
  }

  /** A run of `k >= 1` spaces in front of a string that starts with
      something else becomes one space. */
  lemma {:induction false} CollapseSpaceRun(k: nat, b: string)
    requires k >= 1 && (b == [] || b[0] != ' ')
    ensures CollapseSpaces(seq(k, _ => ' ') + b) == " " + CollapseSpaces(b)
    decreases k
  {
    var u := seq(k, _ => ' ') + b;
    assert u[0] == ' ';
    if k == 1 {
      assert u[1..] == b;
      assert |u| >= 2 ==> u[1] == b[0];
    } else {
      assert u[1] == ' ' && u[1..] == seq(k - 1, _ => ' ') + b;
      CollapseSpaceRun(k - 1, b);
    }
  }

  /** A maximal run of one or more spaces becomes a single space, and the
      text on either side is collapsed on its own. */
  lemma CollapseRun(a: string, k: nat, b: string)
    requires k >= 1 && (a == [] || a[|a| - 1] != ' ') && (b == [] || b[0] != ' ')
    ensures CollapseSpaces(a + seq(k, _ => ' ') + b) == CollapseSpaces(a) + " " + CollapseSpaces(b)
  {
    var sp := seq(k, _ => ' ');
    assert a + sp + b == a + (sp + b);
    CollapseAppend(a, sp + b);
    CollapseSpaceRun(k, b);
  }

  /** Adding a character at the end: a space after a space is absorbed. */
  lemma {:induction false} CollapseSnoc(s: string, c: char)
    ensures CollapseSpaces(s + [c]) ==
      if c == ' ' && s != [] && s[|s| - 1] == ' ' then CollapseSpaces(s) else CollapseSpaces(s) + [c]
    decreases |s|
  {
    var u := s + [c];
    if s == [] {
      assert u == [c] && u[1..] == [];
    } else if |s| == 1 {
      assert u[0] == s[0] && u[1] == c && u[1..] == [c];
      assert [c][1..] == [] && s[1..] == [];
    } else {
      assert u[0] == s[0] && u[1] == s[1] && u[1..] == s[1..] + [c];
      CollapseSnoc(s[1..], c);
    }
  }

  lemma StripEndSnoc(x: string, c: char)
    requires IsStripChar(c)
    ensures StripEnd(x + [c]) == StripEnd(x)
  {
    assert (x + [c])[..|x|] == x;
  }

  /** `rstrip` and the collapse commute. */
  lemma {:induction false} StripEndCollapse(s: string)
    ensures StripEnd(CollapseSpaces(s)) == CollapseSpaces(StripEnd(s))
    decreases |s|
  {
    if s != [] {
      var p, c := s[..|s| - 1], s[|s| - 1];
      assert s == p + [c];
      CollapseSnoc(p, c);
      if IsStripChar(c) {
        StripEndCollapse(p);
        StripEndSnoc(CollapseSpaces(p), c);
      }
    }
  }

  /** `lstrip` and the collapse commute. */
  lemma {:induction false} StripStartCollapse(s: string)
    ensures StripStart(CollapseSpaces(s)) == CollapseSpaces(StripStart(s))
    decreases |s|
  {
    if s != [] {
      if |s| >= 2 && s[0] == ' ' && s[1] == ' ' {
        StripStartCollapse(s[1..]);
      } else if IsStripChar(s[0]) {
        StripStartCollapse(s[1..]);
        assert ([s[0]] + CollapseSpaces(s[1..]))[1..] == CollapseSpaces(s[1..]);
      } else {
        CollapseHead(s);
      }
    }
  }

  /** `strip` and the collapse commute. */
  lemma StripCollapse(s: string)
    ensures Strip(CollapseSpaces(s)) == CollapseSpaces(Strip(s))
  {
    StripEndCollapse(s);
    StripStartCollapse(StripEnd(s));
  }

  /** A word character in front either starts a new first field or extends
      the first one. */
  lemma FieldsCons(c: char, t: string)
    requires !IsSpace(c)
    ensures Wrap.Fields([c] + t) ==
      if t != [] && !IsSpace(t[0]) then [[c] + Wrap.Fields(t)[0]] + Wrap.Fields(t)[1..]
      else [[c]] + Wrap.Fields(t)
  {
    var u := [c] + t;
    var k := Wrap.WordSpan(t);
    assert Wrap.WordSpan(u) == 1 + k by {
      assert u[1..] == t;
    }
    assert Wrap.Fields(u) == [u[..k + 1]] + Wrap.Fields(u[k + 1..]);
    assert u[..k + 1] == [c] + t[..k];
    assert u[k + 1..] == t[k..];
    if t != [] && !IsSpace(t[0]) {
      assert Wrap.Fields(t) == [t[..k]] + Wrap.Fields(t[k..]);
    } else {
      assert k == 0 && t[..0] == [] && t[0..] == t;
    }
  }

  /** The collapse keeps the whitespace-separated fields. */
  lemma {:induction false} FieldsCollapse(t: string)
    ensures Wrap.Fields(CollapseSpaces(t)) == Wrap.Fields(t)
    decreases |t|
  {
    if t != [] {
      var r := t[1..];
      FieldsCollapse(r);
      if |t| >= 2 && t[0] == ' ' && t[1] == ' ' {
      } else if IsSpace(t[0]) {
        assert ([t[0]] + CollapseSpaces(r))[1..] == CollapseSpaces(r);
      } else {
        assert t == [t[0]] + r;
        FieldsCons(t[0], CollapseSpaces(r));
        FieldsCons(t[0], r);
        if r != [] {
          CollapseHead(r);
        }
      }
    }
  }

  /** The collapse keeps the words `wrap_line` packs, so a line wraps the
      same with or without it. */
  lemma CollapseKeepsWords(s: string)
    ensures Wrap.Words(CollapseSpaces(s)) == Wrap.Words(s)
    ensures forall width: int, newline: string {:trigger Wrap.Wrapped(s, width, newline)} ::
      Wrap.Wrapped(CollapseSpaces(s), width, newline) == Wrap.Wrapped(s, width, newline)
  {
    StripCollapse(s);
    FieldsCollapse(Strip(s));
  }

  /** Two adjacent spaces are what the literal pattern `"  "` looks for. */
  lemma NoDoubleSpaceNotContains(s: string)
    requires NoDoubleSpace(s)
    ensures !Contains(s, "  ")
  {
    forall i | 0 <= i <= |s| ensures !OccursAt(s, "  ", i) {
      if i + 2 <= |s| {
        assert s[i..i + 2][0] == s[i] && s[i..i + 2][1] == s[i + 1];
      }
    }
  }

  lemma NoDoubleSpaceAppend(a: string, b: string)
    requires NoDoubleSpace(a + b)
    ensures NoDoubleSpace(a) && NoDoubleSpace(b)
  {
    var u := a + b;
    forall i, j | 0 <= i < j < |a| && j == i + 1 ensures !(a[i] == ' ' && a[j] == ' ') {
      assert a[i] == u[i] && a[j] == u[j];
    }
    forall i, j | 0 <= i < j < |b| && j == i + 1 ensures !(b[i] == ' ' && b[j] == ' ') {
      assert b[i] == u[|a| + i] && b[j] == u[|a| + j];
    }
  }

  lemma {:induction false} NoDoubleSpaceJoin(ls: seq<string>, sep: char)
    requires NoDoubleSpace(Join(ls, sep))
    ensures forall i :: 0 <= i < |ls| ==> NoDoubleSpace(ls[i])
    decreases |ls|
  {
    if |ls| >= 2 {
      NoDoubleSpaceAppend(ls[0] + [sep], Join(ls[1..], sep));
      NoDoubleSpaceAppend(ls[0], [sep]);
      NoDoubleSpaceJoin(ls[1..], sep);
      assert forall i :: 1 <= i < |ls| ==> ls[i] == ls[1..][i - 1];
    }
  }

  // ---------------------------------------------------------------------
  // split and reject!

  /** `text.split("\n", 999999)`: an empty text has no lines. */
  function SplitLines(text: string): seq<string>
  {
    if text == [] then [] else SplitLimited(text, '\n', 999999)
  }

  const Deprecated: string := "Deprecated command line option"
  const DocumentMethod: string := "Document-method:"

  /** `lines.reject!{|l| l =~ pat}` for a pattern of literal characters. */
  function Reject(ls: seq<string>, pat: string): (r: seq<string>)
    ensures |r| <= |ls|
  {
    if ls == [] then []
    else (if Contains(ls[0], pat) then [] else [ls[0]]) + Reject(ls[1..], pat)
  }

  /** The kept lines are exactly the lines that do not contain `pat`. */
  lemma {:induction false} RejectMembers(ls: seq<string>, pat: string)
    ensures forall l :: l in Reject(ls, pat) <==> l in ls && !Contains(l, pat)
  {
    if ls != [] {
      RejectMembers(ls[1..], pat);
      assert ls == [ls[0]] + ls[1..];
    }
  }

  /** A text without the pattern is kept whole. */
  lemma {:induction false} RejectNone(ls: seq<string>, pat: string)
    requires forall i :: 0 <= i < |ls| ==> !Contains(ls[i], pat)
    ensures Reject(ls, pat) == ls
  {
    if ls != [] {
      RejectNone(ls[1..], pat);
      assert ls == [ls[0]] + ls[1..];
    }
  }

  /** The two filters may be applied in either order. */
  lemma {:induction false} RejectCommutes(ls: seq<string>, p: string, q: string)
    ensures Reject(Reject(ls, p), q) == Reject(Reject(ls, q), p)
  {
    if ls != [] {
      RejectCommutes(ls[1..], p, q);
      var h := ls[0];
      var t := ls[1..];
      assert ls == [h] + t;
      RejectHead(h, t, p);
      RejectHead(h, t, q);
      RejectHead(h, Reject(t, p), q);
      RejectHead(h, Reject(t, q), p);
      if Contains(h, p) {
        assert Reject(ls, p) == Reject(t, p);
      } else {
        assert Reject(ls, p) == [h] + Reject(t, p);
      }
      if Contains(h, q) {
        assert Reject(ls, q) == Reject(t, q);
      } else {
        assert Reject(ls, q) == [h] + Reject(t, q);
      }
    }
  }

  lemma RejectHead(h: string, t: seq<string>, p: string)
    ensures Reject([h] + t, p) == (if Contains(h, p) then [] else [h]) + Reject(t, p)
  {
    assert ([h] + t)[1..] == t;
  }

  /** The lines `run_workflow` keeps, before wrapping. */
  function KeptLines(out: string): seq<string>
  {
    Reject(Reject(SplitLines(CollapseSpaces(out)), Deprecated), DocumentMethod)
  }

  lemma CollapseKeepsWrapping(ls: seq<string>, width: int, newline: string)
    ensures forall i :: 0 <= i < |ls| ==>
      Wrap.Wrapped(CollapseSpaces(ls[i]), width, newline) == Wrap.Wrapped(ls[i], width, newline)
  {
    forall i | 0 <= i < |ls| {
      CollapseKeepsWords(ls[i]);
    }
  }

  /** The line sequence `run_workflow` joins: each kept line, collapsed
      again and wrapped. The second collapse keeps the words, so every entry
      is the kept line itself wrapped at 78 columns. */
  function WrappedLines(kept: seq<string>): (r: seq<string>)
    ensures |r| == |kept|
    ensures forall i :: 0 <= i < |kept| ==> r[i] == Wrap.Wrapped(kept[i], 78, " \\\n  ")
  {
    CollapseKeepsWrapping(kept, 78, " \\\n  ");
    seq(|kept|, i requires 0 <= i < |kept| => Wrap.Wrapped(CollapseSpaces(kept[i]), 78, " \\\n  "))
  }

  /** The text `run_workflow` returns for the build transcript `out` (after
      the path rewriting, which is not part of this model). */
  function WorkflowOutput(out: string): string
  {
    Join(WrappedLines(KeptLines(out)), '\n')
  }

  /** No kept line mentions either kind of noise; a line of the collapsed
      transcript is kept exactly when it mentions neither; and every kept
      line is already free of double spaces, so the second collapse on each
      line changes nothing. */
  lemma KeptLinesClean(out: string)
    ensures var kept := KeptLines(out);
      forall i :: 0 <= i < |kept| ==>
        && !Contains(kept[i], Deprecated)
        && !Contains(kept[i], DocumentMethod)
        && !Contains(kept[i], "  ")
        && CollapseSpaces(kept[i]) == kept[i]
    ensures forall l :: l in KeptLines(out) <==>
      l in SplitLines(CollapseSpaces(out)) && !Contains(l, Deprecated) && !Contains(l, DocumentMethod)
  {
    var text := CollapseSpaces(out);
    var lines := SplitLines(text);
    var once := Reject(lines, Deprecated);
    var kept := Reject(once, DocumentMethod);
    RejectMembers(lines, Deprecated);
    RejectMembers(once, DocumentMethod);
    CollapseNoDoubleSpace(out);
    if text != [] {
      JoinSplitLimited(text, '\n', 999999);
      NoDoubleSpaceJoin(lines, '\n');
    }
    forall i | 0 <= i < |kept|
      ensures !Contains(kept[i], Deprecated) && !Contains(kept[i], DocumentMethod)
      ensures !Contains(kept[i], "  ") && CollapseSpaces(kept[i]) == kept[i]
    {
      assert kept[i] in kept;
      var k :| 0 <= k < |lines| && lines[k] == kept[i];
      NoDoubleSpaceNotContains(kept[i]);
      CollapseOfNoDoubleSpace(kept[i]);
    }
  }

  /** The wrapped lines are the kept lines wrapped as they stand. */
  lemma WorkflowOutputLines(out: string)
    ensures var kept := KeptLines(out);
      WorkflowOutput(out) == Join(seq(|kept|, i requires 0 <= i < |kept| => Wrap.Wrapped(kept[i], 78, " \\\n  ")), '\n')
  {
    var kept := KeptLines(out);
    KeptLinesClean(out);
    assert WrappedLines(kept) == seq(|kept|, i requires 0 <= i < |kept| => Wrap.Wrapped(kept[i], 78, " \\\n  "));
  }

  /** An empty transcript yields no output. */
  lemma WorkflowOutputEmpty()
    ensures WorkflowOutput("") == ""
  {
  }
}
