/** The example and target bookkeeping of the documentation script: an
    example's name is split into basename and suffix and the suffix names
    its language; a table of target rows is parsed, and each target gets a
    language, its annotated listing when the file exists, and the command
    that runs it. File existence, file contents and the output of the run
    command are parameters. */
module Targets {
  import opened Text
  import Wrap
  import Listing

  datatype Result<T> = Ok(value: T) | Err(msg: string)

  // ---------------------------------------------------------------------
  // name.sub(/\.([^.]+)$/, ''), $1

  predicate NotDot(c: char) {
    c != '.'
  }

  /** Where a match of `\.([^.]+)$` that starts at `p` ends: the greedy
      `[^.]+` backtracks from the end of the dot-free run to the last
      position at which `$` holds. */
  function MatchEndAt(s: string, p: nat): (r: Option<nat>)
    requires p <= |s|
    ensures r.Some? ==> p + 2 <= r.value <= |s| && s[p] == '.' && AtLineEnd(s, r.value)
    ensures r.Some? ==> forall i :: p < i < r.value ==> s[i] != '.'
  {
    if p + 1 < |s| && s[p] == '.' then
      var e := RunEnd(s, p + 1, NotDot);
      if e < p + 2 then None else LastLineEnd(s, p + 2, e)
    else None
  }

  /** The leftmost match at or after `p`, as its start and end. */
  function FindSuffix(s: string, p: nat): (r: Option<(nat, nat)>)
    requires p <= |s|
    ensures r.Some? ==> p <= r.value.0 < |s| && MatchEndAt(s, r.value.0) == Some(r.value.1)
    ensures forall a :: p <= a < |s| && (r.None? || a < r.value.0) ==> MatchEndAt(s, a).None?
    decreases |s| - p
  {
    if p == |s| then None
    else match MatchEndAt(s, p)
      case Some(q) => Some((p, q))
      case None => FindSuffix(s, p + 1)
  }

  /** Ruby's `upcase` on ASCII letters. */
  function UpcaseChar(c: char): char
  {
    if 'a' <= c <= 'z' then (c as int - 32) as char else c
  }

  function Upcase(s: string): (r: string)
    ensures |r| == |s| && forall i :: 0 <= i < |s| ==> r[i] == UpcaseChar(s[i])
  {
    seq(|s|, i requires 0 <= i < |s| => UpcaseChar(s[i]))
  }

  /** The language an example's suffix names. */
  function Language(suffix: string): string
  {
    var u := Upcase(suffix);
    if u == "CC" then "C++" else u
  }

  datatype Example = Example(name: string, basename: string, src: string, suffix: string, lang: string)

  /** The example record built for `name`; without a match `$1` is nil and
      `nil.upcase` raises. */
  function ExampleOf(name: string): Result<Example>
  {
    match FindSuffix(name, 0)
    case None => Err("undefined method `upcase' for nil")
    case Some((p, q)) =>
      var suffix := name[p + 1..q];
      Ok(Example(name, name[..p] + name[q..], "src/" + name, suffix, Language(suffix)))
  }

  /** Once no match starts in `p..a`, the search may as well start at `a`. */
  lemma {:induction false} FindSuffixSkip(s: string, p: nat, a: nat)
    requires p <= a <= |s|
    requires forall k :: p <= k < a ==> MatchEndAt(s, k).None?
    ensures FindSuffix(s, p) == FindSuffix(s, a)
    decreases a - p
  {
    if p < a {
      FindSuffixSkip(s, p + 1, a);
    }
  }

  /** A one-line name `b.x` whose suffix `x` is non-empty and dot-free has
      basename `b` and suffix `x`, whatever dots `b` holds. */
  lemma DottedName(b: string, x: string)
    requires '\n' !in b && '\n' !in x && '.' !in x && x != []
    ensures var s := b + "." + x;
      ExampleOf(s) == Ok(Example(s, b, "src/" + s, x, Language(x)))
  {
    var s := b + "." + x;
    assert s[|b|] == '.';
    forall k | 0 <= k < |s| ensures s[k] != '\n' {
      if k < |b| {
        assert s[k] == b[k];
      } else if k > |b| {
        assert s[k] == x[k - |b| - 1];
      }
    }
    forall k | 0 <= k < |b| ensures MatchEndAt(s, k).None? {
      if k + 1 < |s| && s[k] == '.' {
        var e := RunEnd(s, k + 1, NotDot);
        assert e <= |b|;
        assert forall q :: k + 2 <= q <= e ==> !AtLineEnd(s, q);
      }
    }
    FindSuffixSkip(s, 0, |b|);
    forall i | |b| + 1 <= i < |s| ensures NotDot(s[i]) {
      assert s[i] == x[i - |b| - 1];
    }
    assert RunEnd(s, |b| + 1, NotDot) == |s|;
    assert MatchEndAt(s, |b|) == Some(|s|);
    assert FindSuffix(s, |b|) == Some((|b|, |s|));
    assert s[..|b|] == b && s[|s|..] == [] && s[|b| + 1..|s|] == x;
    assert s[..|b|] + s[|s|..] == b;
  }

  /** A name without a dot has no suffix, so the script fails on it. */
  lemma UndottedName(name: string)
    requires '.' !in name
    ensures ExampleOf(name).Err?
  {
    forall k | 0 <= k < |name| ensures MatchEndAt(name, k).None? {
      assert name[k] != '.';
    }
    FindSuffixSkip(name, 0, |name|);
  }

  /** An example named `b.x` on one line is recorded as basename `b`,
      suffix `x` and the language `x` names. */
  lemma ExampleNamed(name: string, b: string, x: string)
    requires name == b + "." + x
    requires '\n' !in b && '\n' !in x && '.' !in x && x != []
    ensures ExampleOf(name).Ok?
    ensures ExampleOf(name).value.basename == b && ExampleOf(name).value.suffix == x
    ensures ExampleOf(name).value.lang == Language(x)
  {
    DottedName(b, x);
  }

  /** The four examples of the documentation: `.c` is C and `.cc` is C++. */
  lemma ExampleLanguages(name: string)
    requires name in ["example1.c", "polynomial.cc", "polynomial_v2.cc", "tommath.c"]
    ensures ExampleOf(name).Ok?
    ensures ExampleOf(name).value.lang == if name in ["polynomial.cc", "polynomial_v2.cc"] then "C++" else "C"
  {
    LanguageOfSuffixes();
    if name == "example1.c" {
      ExampleNamed(name, "example1", "c");
    } else if name == "polynomial.cc" {
      ExampleNamed(name, "polynomial", "cc");
    } else if name == "polynomial_v2.cc" {
      ExampleNamed(name, "polynomial_v2", "cc");
    } else {
      ExampleNamed(name, "tommath", "c");
    }
  }

  lemma LanguageOfSuffixes()
    ensures Language("c") == "C" && Language("cc") == "C++"
  {
    assert Upcase("c") == "C";
    assert Upcase("cc") == "CC";
  }

  /** No lower-case ASCII letter survives `upcase`, and everything else is
      left alone. */
  lemma UpcaseResult(s: string)
    ensures forall i :: 0 <= i < |s| ==> !('a' <= Upcase(s)[i] <= 'z')
    ensures forall i :: 0 <= i < |s| && !('a' <= s[i] <= 'z') ==> Upcase(s)[i] == s[i]
    ensures Upcase(Upcase(s)) == Upcase(s)
  {
  }

  // ---------------------------------------------------------------------
  // the target table

  /** Line `k` of the target table for one example, as the heredoc
      interpolates it. */
  function TableLine(k: nat, lang: string, basename: string, name: string, suffix: string): string
    requires k < 10
  {
    if k == 0 then lang + " Header          | " + basename + ".h        | - |"
    else if k == 1 then lang + " Library         | " + name + "              | - |"
    else if k == 2 then lang + " Main            | " + basename + "-native." + suffix + " | target/native/" + basename
    else if k == 3 then lang + " SWIG Interface  | " + basename + ".i        | - | " + lang
    else if k == 4 then "Python                  | " + basename + ".py       |   |"
    else if k == 5 then "Clojure (Java)          | " + basename + ".clj      |   | Lisp"
    else if k == 6 then "Ruby                    | " + basename + ".rb       |   |"
    else if k == 7 then "Guile                   | " + basename + ".scm      |   | Scheme"
    else if k == 8 then "TCL                     | " + basename + ".tcl      |   | Bash"
    else "Python Tests            | " + basename + "-test.py  | python3.10 -m pytest src/" + basename + "-test.py |"
  }

  /** The ten lines of the heredoc. */
  function TableLines(lang: string, basename: string, name: string, suffix: string): (ls: seq<string>)
    ensures |ls| == 10
  {
    seq(10, k requires 0 <= k < 10 => TableLine(k, lang, basename, name, suffix))
  }

  /** The heredoc text: every line followed by a line feed. */
  function Heredoc(ls: seq<string>): string
  {
    if ls == [] then [] else ls[0] + "\n" + Heredoc(ls[1..])
  }

  /** `s.split(sep)` with no limit: trailing empty fields are dropped. */
  function SplitDropTrailing(s: string, sep: char): seq<string>
  {
    DropTrailingEmpty(SplitAll(s, sep))
  }

  /** A stripped field; a blank one becomes nil. A present cell is the part
      of the field between its leading and trailing whitespace (and NUL). */
  function Cell(f: string): (r: Option<string>)
    ensures r.None? <==> forall k :: 0 <= k < |f| ==> IsStripChar(f[k])
    ensures r.Some? ==>
      var v := r.value;
      v != [] && !IsStripChar(v[0]) && !IsStripChar(v[|v| - 1]) && StrippedSlice(f, v)
  {
    StripIsSlice(f);
    var t := Strip(f);
    if t == [] then None else Some(t)
  }

  /** `l.split("|").map(&:strip).map{|f| f.empty? ? nil : f}`. */
  function RowCells(l: string): (r: seq<Option<string>>)
  {
    var fs := SplitDropTrailing(l, '|');
    seq(|fs|, i requires 0 <= i < |fs| => Cell(fs[i]))
  }

  datatype Row = Row(typ: Option<string>, file: Option<string>, cmd: Option<string>, lang: Option<string>)

  function CellAt(cs: seq<Option<string>>, i: nat): Option<string>
  {
    if i < |cs| then cs[i] else None
  }

  /** `[:type, :file, :cmd, :lang].zip(cells).to_h`: missing cells are nil,
      extra cells are ignored. */
  function ParseRow(l: string): Row
  {
    var cs := RowCells(l);
    Row(CellAt(cs, 0), CellAt(cs, 1), CellAt(cs, 2), CellAt(cs, 3))
  }

  /** The rows of the target table of an example. */
  function TableRows(e: Example): seq<Row>
  {
    var ls := SplitDropTrailing(Heredoc(TableLines(e.lang, e.basename, e.name, e.suffix)), '\n');
    seq(|ls|, i requires 0 <= i < |ls| => ParseRow(ls[i]))
  }

  lemma {:induction false} HeredocJoin(ls: seq<string>)
    ensures Heredoc(ls) == Join(ls + [[]], '\n')
  {
    if ls != [] {
      HeredocJoin(ls[1..]);
      assert ls + [[]] == [ls[0]] + (ls[1..] + [[]]);
      JoinCons(ls[0], ls[1..] + [[]], '\n');
    }
  }

  /** Splitting the heredoc at line feeds, trailing empty fields dropped,
      gives back its lines when the last one is not empty. */
  lemma HeredocLines(ls: seq<string>)
    requires Listing.SingleLines(ls) && ls != [] && ls[|ls| - 1] != []
    ensures SplitDropTrailing(Heredoc(ls), '\n') == ls
  {
    HeredocJoin(ls);
    SplitAllJoin(ls + [[]], '\n');
    DropTrailingStep(ls + [[]]);
    assert (ls + [[]])[..|ls|] == ls;
    DropTrailingOfNonEmptyBack(ls);
  }

  /** The table of an example has ten rows, one per heredoc line, whatever
      the example's name. */
  lemma TableRowsOf(e: Example)
    requires '\n' !in e.lang && '\n' !in e.basename && '\n' !in e.name && '\n' !in e.suffix
    ensures var ls := TableLines(e.lang, e.basename, e.name, e.suffix);
      |TableRows(e)| == 10 && forall i :: 0 <= i < 10 ==> TableRows(e)[i] == ParseRow(ls[i])
  {
    var ls := TableLines(e.lang, e.basename, e.name, e.suffix);
    forall i | 0 <= i < |ls|
      ensures '\n' !in ls[i]
    {
      NoLineFeedInTable(e, i);
    }
    HeredocLines(ls);
  }

  /** No line of the table holds a line feed when the interpolated names
      hold none. */
  lemma NoLineFeedInTable(e: Example, i: nat)
    requires '\n' !in e.lang && '\n' !in e.basename && '\n' !in e.name && '\n' !in e.suffix
    requires i < 10
    ensures '\n' !in TableLine(i, e.lang, e.basename, e.name, e.suffix)
  {
    if i < 2 {
      NoLineFeedRows0(e, i);
    } else if i < 4 {
      NoLineFeedRows2(e, i);
    } else if i < 6 {
      NoLineFeedRows4(e, i);
    } else if i < 8 {
      NoLineFeedRows6(e, i);
    } else if i < 9 {
      NoLineFeedRows8(e, i);
    } else {
      NoLineFeedRows9(e, i);
    }
  }

  lemma NoLineFeedRows0(e: Example, i: nat)
    requires '\n' !in e.lang && '\n' !in e.basename && '\n' !in e.name && '\n' !in e.suffix
    requires 0 <= i < 2
    ensures '\n' !in TableLine(i, e.lang, e.basename, e.name, e.suffix)
  {
    if i == 0 {
      assert TableLine(i, e.lang, e.basename, e.name, e.suffix) == e.lang + " Header          | " + e.basename + ".h        | - |";
    } else if i == 1 {
      assert TableLine(i, e.lang, e.basename, e.name, e.suffix) == e.lang + " Library         | " + e.name + "              | - |";
    }
  }

  lemma NoLineFeedRows2(e: Example, i: nat)
    requires '\n' !in e.lang && '\n' !in e.basename && '\n' !in e.name && '\n' !in e.suffix
    requires 2 <= i < 4
    ensures '\n' !in TableLine(i, e.lang, e.basename, e.name, e.suffix)
  {
    if i == 2 {
      assert TableLine(i, e.lang, e.basename, e.name, e.suffix) == e.lang + " Main            | " + e.basename + "-native." + e.suffix + " | target/native/" + e.basename;
    } else if i == 3 {
      assert TableLine(i, e.lang, e.basename, e.name, e.suffix) == e.lang + " SWIG Interface  | " + e.basename + ".i        | - | " + e.lang;
    }
  }

  lemma NoLineFeedRows4(e: Example, i: nat)
    requires '\n' !in e.lang && '\n' !in e.basename && '\n' !in e.name && '\n' !in e.suffix
    requires 4 <= i < 6
    ensures '\n' !in TableLine(i, e.lang, e.basename, e.name, e.suffix)
  {
    if i == 4 {
      assert TableLine(i, e.lang, e.basename, e.name, e.suffix) == "Python                  | " + e.basename + ".py       |   |";
    } else if i == 5 {
      assert TableLine(i, e.lang, e.basename, e.name, e.suffix) == "Clojure (Java)          | " + e.basename + ".clj      |   | Lisp";
    }
  }

  lemma NoLineFeedRows6(e: Example, i: nat)
    requires '\n' !in e.lang && '\n' !in e.basename && '\n' !in e.name && '\n' !in e.suffix
    requires 6 <= i < 8
    ensures '\n' !in TableLine(i, e.lang, e.basename, e.name, e.suffix)
  {
    if i == 6 {
      assert TableLine(i, e.lang, e.basename, e.name, e.suffix) == "Ruby                    | " + e.basename + ".rb       |   |";
    } else if i == 7 {
      assert TableLine(i, e.lang, e.basename, e.name, e.suffix) == "Guile                   | " + e.basename + ".scm      |   | Scheme";
    }
  }

  lemma NoLineFeedRows8(e: Example, i: nat)
    requires '\n' !in e.lang && '\n' !in e.basename && '\n' !in e.name && '\n' !in e.suffix
    requires i == 8
    ensures '\n' !in TableLine(i, e.lang, e.basename, e.name, e.suffix)
  {
    assert TableLine(i, e.lang, e.basename, e.name, e.suffix) == "TCL                     | " + e.basename + ".tcl      |   | Bash";
  }

  lemma NoLineFeedRows9(e: Example, i: nat)
    requires '\n' !in e.lang && '\n' !in e.basename && '\n' !in e.name && '\n' !in e.suffix
    requires i == 9
    ensures '\n' !in TableLine(i, e.lang, e.basename, e.name, e.suffix)
  {
    assert TableLine(i, e.lang, e.basename, e.name, e.suffix) == "Python Tests            | " + e.basename + "-test.py  | python3.10 -m pytest src/" + e.basename + "-test.py |";
  }

  /** Every cell that is present is non-empty, free of `|`, and neither
      starts nor ends with whitespace or NUL. */
  lemma RowCellsClean(l: string)
    ensures forall i :: 0 <= i < |RowCells(l)| && RowCells(l)[i].Some? ==>
      var v := RowCells(l)[i].value;
      v != [] && '|' !in v && !IsStripChar(v[0]) && !IsStripChar(v[|v| - 1])
  {
    forall i | 0 <= i < |RowCells(l)| && RowCells(l)[i].Some?
      ensures var v := RowCells(l)[i].value;
        v != [] && '|' !in v && !IsStripChar(v[0]) && !IsStripChar(v[|v| - 1])
    {
      RowCellClean(l, i);
    }
  }

  lemma RowCellClean(l: string, i: nat)
    requires i < |RowCells(l)| && RowCells(l)[i].Some?
    ensures var v := RowCells(l)[i].value;
      v != [] && '|' !in v && !IsStripChar(v[0]) && !IsStripChar(v[|v| - 1])
  {
    var fs := SplitDropTrailing(l, '|');
    var f := fs[i];
    assert f == SplitAll(l, '|')[i];
    CellClean(f);
    assert RowCells(l)[i] == Cell(f);
  }

  /** A present cell of a field without `|` is non-empty, has no `|`, and is
      stripped. */
  lemma CellClean(f: string)
    requires '|' !in f
    ensures Cell(f).Some? ==> Cell(f).value != [] && '|' !in Cell(f).value
    ensures Cell(f).Some? ==> !IsStripChar(Cell(f).value[0]) && !IsStripChar(Cell(f).value[|Cell(f).value| - 1])
  {
    StripInside(f);
    assert '|' !in multiset(f);
  }

  lemma StripInside(f: string)
    ensures multiset(Strip(f)) <= multiset(f)
  {
    var e := StripEnd(f);
    assert f == e + f[|e|..];
    var r := Strip(f);
    assert e == e[..|e| - |r|] + r;
  }

  lemma JoinSnoc(a: seq<string>, x: string, sep: char)
    requires a != []
    ensures Join(a + [x], sep) == Join(a, sep) + [sep] + x
    decreases |a|
  {
    if |a| > 1 {
      JoinSnoc(a[1..], x, sep);
      assert (a + [x])[1..] == a[1..] + [x];
    }
  }

  /** Dropping the trailing empty fields of `split("|")` loses nothing but
      separators: the row is the kept fields joined by `|`, followed by one
      `|` for every dropped field. */
  lemma {:induction false} RowLosesOnlySeparators(l: string)
    ensures var all := SplitAll(l, '|');
      var fs := SplitDropTrailing(l, '|');
      var k := if fs == [] then 1 else |fs|;
      && fs == all[..|fs|]
      && (forall i :: |fs| <= i < |all| ==> all[i] == [])
      && l == Join(all[..k], '|') + seq(|all| - k, _ => '|')
  {
    var all := SplitAll(l, '|');
    var fs := SplitDropTrailing(l, '|');
    var k := if fs == [] then 1 else |fs|;
    JoinSplitAll(l, '|');
    TrailingEmptiesJoin(all, k, '|');
  }

  lemma {:induction false} TrailingEmptiesJoin(all: seq<string>, k: nat, sep: char)
    requires 1 <= k <= |all|
    requires forall i :: k <= i < |all| ==> all[i] == []
    ensures Join(all, sep) == Join(all[..k], sep) + seq(|all| - k, _ => sep)
    decreases |all|
  {
    if |all| > k {
      var p := all[..|all| - 1];
      TrailingEmptiesJoin(p, k, sep);
      assert all == p + [[]];
      JoinSnoc(p, [], sep);
      assert p[..k] == all[..k];
      assert seq(|all| - k, _ => sep) == seq(|p| - k, _ => sep) + [sep];
    } else {
      assert all[..k] == all;
    }
  }

  // ---------------------------------------------------------------------
  // a target's language and run command

  /** `t.split(/\s+/).first` for a stripped, non-empty `t`. */
  function FirstWord(t: string): string
  {
    t[..Wrap.WordSpan(t)]
  }

  /** The leading word is the first field Ruby's split would give. */
  lemma FirstWordIsFirstField(t: string)
    requires t != [] && !IsSpace(t[0])
    ensures Wrap.Fields(t) != [] && Wrap.Fields(t)[0] == FirstWord(t)
  {
  }

  /** `t[:lang] ||= t[:type].split(/\s+/).first`; a row with neither a
      language nor a type makes the script fail. */
  function TargetLang(row: Row): Result<string>
  {
    match row.lang
    case Some(l) => Ok(l)
    case None =>
      match row.typ
      case None => Err("undefined method `split' for nil")
      case Some(t) => Ok(FirstWord(t))
  }

  /** The `case t[:cmd] ... end if t[:code]` decision: what is run, if anything. */
  function RunCommand(present: bool, file: string, cmd: Option<string>): Option<string>
  {
    if !present then None
    else match cmd
      case None => Some("bin/run " + file)
      case Some(c) => if c == "-" then None else Some(c)
  }

  datatype Target = Target(
    typ: Option<string>, name: Option<string>, file: string, cmd: Option<string>,
    lang: string, code: Option<string>, run: Option<string>, runOutput: Option<string>)

  /** The target record built for `row`. `present` stands for
      `File.exist?(t[:file])`, `contents` for the file's text and `output`
      for what the run command prints. */
  function MakeTarget(row: Row, present: bool, contents: string, output: string): Result<Target>
  {
    match TargetLang(row)
    case Err(m) => Err(m)
    case Ok(lang) =>
      var file := "src/" + (if row.file.Some? then row.file.value else "");
      var code := if present then Some(Listing.CodeListing(contents)) else None;
      var run := RunCommand(present, file, row.cmd);
      var runOutput := if run.Some? then Some(Listing.LinesToString(Listing.Trimmed(Listing.StringToLines(output)))) else None;
      Ok(Target(row.typ, row.file, file, row.cmd, lang, code, run, runOutput))
  }

  /** The language of a target: its own `lang` cell when it has one,
      otherwise the first word of its type; it fails only when it has
      neither. A derived language is a non-empty whitespace-free prefix of
      the type that ends where the type does or at whitespace. */
  lemma TargetLangRule(row: Row)
    requires row.typ.Some? ==> row.typ.value != [] && !IsSpace(row.typ.value[0])
    ensures TargetLang(row).Err? <==> row.lang.None? && row.typ.None?
    ensures row.lang.Some? ==> TargetLang(row) == Ok(row.lang.value)
    ensures row.lang.None? && row.typ.Some? ==>
      var t := row.typ.value;
      var w := TargetLang(row).value;
      && w != [] && w <= t && Wrap.IsWord(w)
      && (|w| == |t| || IsSpace(t[|w|]))
      && w == Wrap.Fields(t)[0]
  {
    if row.lang.None? && row.typ.Some? {
      FirstWordIsFirstField(row.typ.value);
    }
  }

  /** What a target runs: nothing when its file is missing or its command
      cell is `-`; `bin/run src/<file>` when the cell is blank; otherwise the
      cell verbatim. A target with run output is exactly one with a run
      command. */
  lemma MakeTargetRun(row: Row, present: bool, contents: string, output: string)
    requires TargetLang(row).Ok?
    ensures var t := MakeTarget(row, present, contents, output);
      && t.Ok?
      && t.value.file == "src/" + (if row.file.Some? then row.file.value else "")
      && (t.value.run.None? <==> !present || row.cmd == Some("-"))
      && (present && row.cmd.None? ==> t.value.run == Some("bin/run " + t.value.file))
      && (present && row.cmd.Some? && row.cmd.value != "-" ==> t.value.run == row.cmd)
      && (t.value.code.Some? <==> present)
      && (t.value.runOutput.Some? <==> t.value.run.Some?)
  {
  }
}
