/**
 * The AST file the plotter reads: a header line `Row\tCol\tN\tI\tJ` followed
 * by one line of five tab-separated integers per AST `(row, col, (n, i, j))`.
 *
 * `read_ast_file` decodes the text, splits it at newlines, strips every line,
 * drops the blank ones and then validates the rest.  Python's `int()` is kept
 * abstract: the parameter `parse` returns `None` exactly where `int()` raises
 * `ValueError`.  The searches' `print_pieces` writes such files; `Render`
 * models that writer and `ReadRender` is the round trip.
 */
module AstFile {
  import opened Wrappers
  import opened Sparse

  /** The header line both the writer and the reader use. */
  const Header: string := "Row\tCol\tN\tI\tJ"

  /** The ASCII characters `str.strip()` removes. */
  predicate IsSpace(c: char) {
    c == ' ' || c == '\t' || c == '\n' || c == '\r' || c == '\U{000B}' || c == '\U{000C}'
    || ('\U{001C}' <= c <= '\U{001F}')
  }

  /** Python's `s.split(sep)` with an explicit one-character separator. */
  function Split(s: string, sep: char): (parts: seq<string>)
    ensures |parts| >= 1
    ensures forall k :: 0 <= k < |parts| ==> sep !in parts[k]
    decreases |s|
  {
    if |s| == 0 then [""]
    else
      var rest := Split(s[1..], sep);
      if s[0] == sep then [""] + rest
      else [[s[0]] + rest[0]] + rest[1..]
  }

  /** Python's `sep.join(parts)`. */
  function Join(parts: seq<string>, sep: char): string
    requires |parts| >= 1
    decreases |parts|
  {
    if |parts| == 1 then parts[0] else parts[0] + [sep] + Join(parts[1..], sep)
  }

  /** Joining the pieces of a split gives the text back. */
  lemma {:induction false} JoinSplit(s: string, sep: char)
    ensures Join(Split(s, sep), sep) == s
    decreases |s|
  {
    if |s| > 0 {
      JoinSplit(s[1..], sep);
      var rest := Split(s[1..], sep);
      if s[0] == sep {
        assert Split(s, sep)[1..] == rest;
      } else if |rest| == 1 {
        assert s == [s[0]] + s[1..];
      } else {
        var parts := Split(s, sep);
        assert parts[1..] == rest[1..];
        assert s == [s[0]] + s[1..];
      }
    }
  }

  /** Splitting `a + t` where `a` holds no separator extends the first piece of `t`. */
  lemma {:induction false} SplitPrefix(a: string, t: string, sep: char)
    requires sep !in a
    ensures Split(a + t, sep) == [a + Split(t, sep)[0]] + Split(t, sep)[1..]
    decreases |a|
  {
    if |a| > 0 {
      SplitPrefix(a[1..], t, sep);
      var st := Split(t, sep);
      assert (a + t)[1..] == a[1..] + t;
      assert (a + t)[0] == a[0] && a[0] != sep;
      assert [a[0]] + (a[1..] + st[0]) == a + st[0];
    } else {
      var st := Split(t, sep);
      assert a + t == t;
      assert a + st[0] == st[0];
      assert st == [st[0]] + st[1..];
    }
  }

  /** Splitting a join of separator-free pieces gives the pieces back. */
  lemma {:induction false} SplitJoin(parts: seq<string>, sep: char)
    requires |parts| >= 1
    requires forall k :: 0 <= k < |parts| ==> sep !in parts[k]
    ensures Split(Join(parts, sep), sep) == parts
    decreases |parts|
  {
    if |parts| == 1 {
      SplitPrefix(parts[0], "", sep);
      assert parts[0] + "" == parts[0];
    } else {
      var tail := Join(parts[1..], sep);
      SplitJoin(parts[1..], sep);
      assert Split([sep] + tail, sep) == [""] + parts[1..];
      assert parts[0] + [sep] + tail == parts[0] + ([sep] + tail);
      SplitPrefix(parts[0], [sep] + tail, sep);
      assert parts[0] + "" == parts[0];
      assert parts == [parts[0]] + parts[1..];
    }
  }

  function StripLeft(s: string): (r: string)
    ensures |r| <= |s| && r == s[|s| - |r|..]
    ensures forall k :: 0 <= k < |s| - |r| ==> IsSpace(s[k])
    ensures |r| == 0 || !IsSpace(r[0])
    decreases |s|
  {
    if |s| > 0 && IsSpace(s[0]) then StripLeft(s[1..]) else s
  }

  function StripRight(s: string): (r: string)
    ensures |r| <= |s| && r == s[..|r|]
    ensures forall k :: |r| <= k < |s| ==> IsSpace(s[k])
    ensures |r| == 0 || !IsSpace(r[|r| - 1])
    decreases |s|
  {
    if |s| > 0 && IsSpace(s[|s| - 1]) then StripRight(s[..|s| - 1]) else s
  }

  /** Python's `s.strip()`: a stripped line neither starts nor ends with a space. */
  function Strip(s: string): (r: string)
    ensures |r| == 0 || (!IsSpace(r[0]) && !IsSpace(r[|r| - 1]))
  {
    StripLeft(StripRight(s))
  }

  /** A line strips to nothing exactly when it is all spaces. */
  lemma StripEmpty(s: string)
    ensures Strip(s) == "" <==> forall k :: 0 <= k < |s| ==> IsSpace(s[k])
  {
    var t := StripRight(s);
    var r := StripLeft(t);
    if r != "" {
      assert !IsSpace(s[|t| - |r|]);
    }
  }

  /** A line without surrounding spaces is kept as it is. */
  lemma StripKeeps(s: string)
    requires |s| == 0 || (!IsSpace(s[0]) && !IsSpace(s[|s| - 1]))
    ensures Strip(s) == s
  {
  }

  /** `[ast for ast in asts if ast != '']`. */
  function NonBlank(ls: seq<string>): (r: seq<string>)
    ensures |r| <= |ls|
    ensures forall k :: 0 <= k < |r| ==> r[k] != ""
    decreases |ls|
  {
    if |ls| == 0 then []
    else (if ls[0] == "" then [] else [ls[0]]) + NonBlank(ls[1..])
  }

  /** The filter leaves nothing exactly when every entry is blank. */
  lemma {:induction false} NonBlankEmpty(ls: seq<string>)
    ensures NonBlank(ls) == [] <==> forall k :: 0 <= k < |ls| ==> ls[k] == ""
    decreases |ls|
  {
    if |ls| > 0 {
      NonBlankEmpty(ls[1..]);
      assert forall k :: 1 <= k < |ls| ==> ls[k] == ls[1..][k - 1];
    }
  }

  /** A list without blank entries passes the filter untouched. */
  lemma {:induction false} NonBlankKeeps(ls: seq<string>)
    requires forall k :: 0 <= k < |ls| ==> ls[k] != ""
    ensures NonBlank(ls) == ls
    decreases |ls|
  {
    if |ls| > 0 {
      NonBlankKeeps(ls[1..]);
      assert ls == [ls[0]] + ls[1..];
    }
  }

  function StripAll(ls: seq<string>): (r: seq<string>)
    ensures |r| == |ls| && forall k :: 0 <= k < |ls| ==> r[k] == Strip(ls[k])
  {
    seq(|ls|, k requires 0 <= k < |ls| => Strip(ls[k]))
  }

  /** The stripped, non-blank lines among the raw lines of the file. */
  function Clean(raw: seq<string>): seq<string> {
    NonBlank(StripAll(raw))
  }

  /** No line survives exactly when every raw line strips to nothing. */
  lemma CleanEmpty(raw: seq<string>)
    ensures Clean(raw) == [] <==> forall k :: 0 <= k < |raw| ==> Strip(raw[k]) == ""
  {
    var st := StripAll(raw);
    NonBlankEmpty(st);
    if NonBlank(st) == [] {
      forall k | 0 <= k < |raw| ensures Strip(raw[k]) == "" {
        assert st[k] == "";
      }
    } else {
      var k :| 0 <= k < |st| && st[k] != "";
      assert Strip(raw[k]) != "";
    }
  }

  /** One AST line: exactly five tab-separated fields, each accepted by `int()`. */
  function ParseAst(line: string, parse: string -> Option<int>): (r: Option<Piece>)
    ensures r.Some? <==> |Split(line, '\t')| == 5 && forall k :: 0 <= k < 5 ==> parse(Split(line, '\t')[k]).Some?
    ensures r.Some? ==>
      var f := Split(line, '\t');
      parse(f[0]) == Some(r.value.row) && parse(f[1]) == Some(r.value.col)
      && parse(f[2]) == Some(r.value.pat.n) && parse(f[3]) == Some(r.value.pat.i)
      && parse(f[4]) == Some(r.value.pat.j)
  {
    var f := Split(line, '\t');
    if |f| != 5 || exists k :: 0 <= k < 5 && parse(f[k]).None? then None
    else
      assert parse(f[0]).Some? && parse(f[1]).Some? && parse(f[2]).Some?;
      assert parse(f[3]).Some? && parse(f[4]).Some?;
      Some(Piece(parse(f[0]).value, parse(f[1]).value,
                 Pattern(parse(f[2]).value, parse(f[3]).value, parse(f[4]).value)))
  }

  /** All AST lines, or `None` as soon as one of them is malformed. */
  function ParseAll(ls: seq<string>, parse: string -> Option<int>): (r: Option<seq<Piece>>)
    ensures r.None? <==> exists k :: 0 <= k < |ls| && ParseAst(ls[k], parse).None?
    ensures r.Some? ==> |r.value| == |ls| && forall k :: 0 <= k < |ls| ==> ParseAst(ls[k], parse) == Some(r.value[k])
    decreases |ls|
  {
    if |ls| == 0 then Some([])
    else
      var head := ParseAst(ls[0], parse);
      var tail := ParseAll(ls[1..], parse);
      if head.None? then None
      else if tail.None? then
        assert exists k :: 0 <= k < |ls| - 1 && ParseAst(ls[1..][k], parse).None?;
        None
      else
        var r := [head.value] + tail.value;
        assert forall k :: 1 <= k < |ls| ==> ls[k] == ls[1..][k - 1] && r[k] == tail.value[k - 1];
        Some(r)
  }

  datatype ReadError =
    | Empty       // no non-blank line: "AST file ... is empty"
    | NotAstFile  // a wrong header or a malformed line: "... is not a valid AST file"

  /**
   * `read_ast_file` on the raw lines of the decoded file.  It fails with
   * `Empty` when every line is blank, with `NotAstFile` when the first
   * non-blank line is not the header or a later one is not five integers, and
   * otherwise returns one AST per remaining line, in order.
   */
  function ReadLines(raw: seq<string>, parse: string -> Option<int>): (r: Result<seq<Piece>, ReadError>)
    ensures r == Failure(Empty) <==> forall k :: 0 <= k < |raw| ==> Strip(raw[k]) == ""
    ensures r == Failure(NotAstFile) <==>
      var ls := Clean(raw);
      |ls| > 0 && (ls[0] != Header || exists k :: 1 <= k < |ls| && ParseAst(ls[k], parse).None?)
    ensures r.Success? ==>
      var ls := Clean(raw);
      |ls| == |r.value| + 1 && ls[0] == Header
      && forall k :: 0 <= k < |r.value| ==> ParseAst(ls[k + 1], parse) == Some(r.value[k])
  {
    var ls := Clean(raw);
    CleanEmpty(raw);
    if |ls| == 0 then Failure(Empty)
    else if ls[0] != Header then Failure(NotAstFile)
    else
      var body := ParseAll(ls[1..], parse);
      ParseTail(ls, parse);
      if body.None? then Failure(NotAstFile)
      else Success(body.value)
  }

  /** Parsing the lines after the first fails exactly when one of them is malformed, and otherwise reads each. */
  lemma ParseTail(ls: seq<string>, parse: string -> Option<int>)
    requires |ls| > 0
    ensures var body := ParseAll(ls[1..], parse);
      && (body.None? <==> exists k :: 1 <= k < |ls| && ParseAst(ls[k], parse).None?)
      && (body.Some? ==> |ls| == |body.value| + 1
                         && forall k :: 0 <= k < |body.value| ==> ParseAst(ls[k + 1], parse) == Some(body.value[k]))
  {
    var tl := ls[1..];
    assert forall k :: 0 <= k < |tl| ==> tl[k] == ls[k + 1];
    if ParseAll(tl, parse).None? {
      var k :| 0 <= k < |tl| && ParseAst(tl[k], parse).None?;
      assert ParseAst(ls[k + 1], parse).None?;
    } else {
      forall k | 1 <= k < |ls|
        ensures ParseAst(ls[k], parse).Some?
      {
        assert ls[k] == tl[k - 1];
      }
    }
  }

  /** `read_ast_file` on the decoded text: its lines are the pieces between newlines. */
  function ReadAsts(text: string, parse: string -> Option<int>): Result<seq<Piece>, ReadError> {
    ReadLines(Split(text, '\n'), parse)
  }

  /** How `print_pieces` writes one piece: `"{}\t{}\t{}\t{}\t{}"`. */
  function Row(a: Piece, show: int -> string): string {
    Join([show(a.row), show(a.col), show(a.pat.n), show(a.pat.i), show(a.pat.j)], '\t')
  }

  /** The header and one line per piece; the final newline leaves an empty last line. */
  function RenderLines(asts: seq<Piece>, show: int -> string): seq<string> {
    [Header] + Rows(asts, show) + [""]
  }

  function Rows(asts: seq<Piece>, show: int -> string): (rows: seq<string>)
    ensures |rows| == |asts| && forall k :: 0 <= k < |asts| ==> rows[k] == Row(asts[k], show)
  {
    seq(|asts|, k requires 0 <= k < |asts| => Row(asts[k], show))
  }

  function Render(asts: seq<Piece>, show: int -> string): string {
    Join(RenderLines(asts, show), '\n')
  }

  /** What Rust's `{}` formatting of an integer gives: a non-empty word without
      tabs, newlines or surrounding spaces, which `int()` reads back. */
  ghost predicate Shows(show: int -> string, parse: string -> Option<int>) {
    forall x :: parse(show(x)) == Some(x) && |show(x)| > 0
      && '\t' !in show(x) && '\n' !in show(x)
      && !IsSpace(show(x)[0]) && !IsSpace(show(x)[|show(x)| - 1])
  }

  lemma RowParses(a: Piece, show: int -> string, parse: string -> Option<int>)
    requires Shows(show, parse)
    ensures var l := Row(a, show);
      l != "" && '\n' !in l && Strip(l) == l && ParseAst(l, parse) == Some(a)
  {
    RowFields(a, show, parse);
    RowBounds(a, show, parse);
    RowNoNewline(a, show, parse);
  }

  /** A written row splits at its tabs into the five numbers, which read back as the piece. */
  lemma RowFields(a: Piece, show: int -> string, parse: string -> Option<int>)
    requires Shows(show, parse)
    ensures ParseAst(Row(a, show), parse) == Some(a)
  {
    var f := [show(a.row), show(a.col), show(a.pat.n), show(a.pat.i), show(a.pat.j)];
    SplitJoin(f, '\t');
    assert forall k :: 0 <= k < 5 ==> parse(f[k]).Some?;
  }

  /** A written row is not empty and has no surrounding spaces. */
  lemma RowBounds(a: Piece, show: int -> string, parse: string -> Option<int>)
    requires Shows(show, parse)
    ensures Row(a, show) != "" && Strip(Row(a, show)) == Row(a, show)
  {
    var f := [show(a.row), show(a.col), show(a.pat.n), show(a.pat.i), show(a.pat.j)];
    JoinBounds(f, '\t');
    StripKeeps(Row(a, show));
  }

  /** A written row holds no newline. */
  lemma RowNoNewline(a: Piece, show: int -> string, parse: string -> Option<int>)
    requires Shows(show, parse)
    ensures '\n' !in Row(a, show)
  {
    var f := [show(a.row), show(a.col), show(a.pat.n), show(a.pat.i), show(a.pat.j)];
    JoinFree(f, '\t', '\n');
  }

  /** A join starts with its first piece's first character and ends with its
      last piece's last character. */
  lemma {:induction false} JoinBounds(parts: seq<string>, sep: char)
    requires |parts| >= 1 && forall k :: 0 <= k < |parts| ==> |parts[k]| > 0
    ensures var j := Join(parts, sep);
      |j| > 0 && j[0] == parts[0][0] && j[|j| - 1] == parts[|parts| - 1][|parts[|parts| - 1]| - 1]
    decreases |parts|
  {
    if |parts| > 1 {
      JoinBounds(parts[1..], sep);
    }
  }

  /** A join holds no character that neither the pieces nor the separator hold. */
  lemma {:induction false} JoinFree(parts: seq<string>, sep: char, c: char)
    requires |parts| >= 1 && c != sep
    requires forall k :: 0 <= k < |parts| ==> c !in parts[k]
    ensures c !in Join(parts, sep)
    decreases |parts|
  {
    if |parts| > 1 {
      JoinFree(parts[1..], sep, c);
    }
  }

  /** Stripping and dropping blanks leaves the header and the piece lines. */
  lemma CleanRows(asts: seq<Piece>, show: int -> string, parse: string -> Option<int>)
    requires Shows(show, parse)
    ensures Clean(RenderLines(asts, show)) == [Header] + Rows(asts, show)
  {
    var rows := Rows(asts, show);
    var ls := RenderLines(asts, show);
    forall k | 0 <= k < |asts| ensures rows[k] != "" && Strip(rows[k]) == rows[k] {
      RowParses(asts[k], show, parse);
    }
    StripKeeps(Header);
    var st := StripAll(ls);
    forall k | 0 <= k < |ls| ensures st[k] == ls[k] {
      if 1 <= k <= |asts| {
        assert ls[k] == rows[k - 1];
      }
    }
    assert st == [Header] + rows + [""];
    NonBlankSplit([Header] + rows, [""]);
    forall k | 0 <= k < |[Header] + rows| ensures ([Header] + rows)[k] != "" {
      if k > 0 {
        assert ([Header] + rows)[k] == rows[k - 1];
      }
    }
    NonBlankKeeps([Header] + rows);
  }

  /** Conversely, a header followed by lines that each parse is read as those ASTs. */
  lemma ReadLinesAccepts(raw: seq<string>, parse: string -> Option<int>, asts: seq<Piece>)
    requires |Clean(raw)| == |asts| + 1 && Clean(raw)[0] == Header
    requires forall k :: 1 <= k < |Clean(raw)| ==> ParseAst(Clean(raw)[k], parse) == Some(asts[k - 1])
    ensures ReadLines(raw, parse) == Success(asts)
  {
    var r := ReadLines(raw, parse);
    CleanEmpty(raw);
    assert r.Success?;
    assert |r.value| == |asts|;
    forall k | 0 <= k < |asts| ensures r.value[k] == asts[k] {
      assert ParseAst(Clean(raw)[k + 1], parse) == Some(r.value[k]);
    }
    assert r.value == asts;
  }

  /** Every piece line after the header parses back to its piece. */
  lemma RowsParse(asts: seq<Piece>, show: int -> string, parse: string -> Option<int>)
    requires Shows(show, parse)
    ensures var cl := [Header] + Rows(asts, show);
      forall k :: 1 <= k < |cl| ==> ParseAst(cl[k], parse) == Some(asts[k - 1])
  {
    var rows := Rows(asts, show);
    var cl := [Header] + rows;
    forall k | 1 <= k < |cl| ensures ParseAst(cl[k], parse) == Some(asts[k - 1]) {
      assert cl[k] == rows[k - 1];
      RowParses(asts[k - 1], show, parse);
    }
  }

  /** The lines `print_pieces` writes are read back as the pieces they show. */
  lemma ReadRows(asts: seq<Piece>, show: int -> string, parse: string -> Option<int>)
    requires Shows(show, parse)
    ensures ReadLines(RenderLines(asts, show), parse) == Success(asts)
  {
    CleanRows(asts, show, parse);
    RowsParse(asts, show, parse);
    ReadLinesAccepts(RenderLines(asts, show), parse, asts);
  }

  /** No written line holds a newline of its own. */
  lemma LinesSeparate(asts: seq<Piece>, show: int -> string, parse: string -> Option<int>)
    requires Shows(show, parse)
    ensures var ls := RenderLines(asts, show);
      forall k :: 0 <= k < |ls| ==> '\n' !in ls[k]
  {
    var ls := RenderLines(asts, show);
    forall k | 0 <= k < |ls| ensures '\n' !in ls[k] {
      if 1 <= k <= |asts| {
        assert ls[k] == Row(asts[k - 1], show);
        RowParses(asts[k - 1], show, parse);
      }
    }
  }

  /** Reading back the text `print_pieces` wrote gives the same pieces. */
  lemma ReadRender(asts: seq<Piece>, show: int -> string, parse: string -> Option<int>)
    requires Shows(show, parse)
    ensures ReadAsts(Render(asts, show), parse) == Success(asts)
  {
    LinesSeparate(asts, show, parse);
    SplitJoin(RenderLines(asts, show), '\n');
    ReadRows(asts, show, parse);
  }

  lemma {:induction false} NonBlankSplit(a: seq<string>, b: seq<string>)
    ensures NonBlank(a + b) == NonBlank(a) + NonBlank(b)
    decreases |a|
  {
    if |a| == 0 {
      assert a + b == b;
    } else {
      var x := a[0];
      var rest := a[1..];
      assert a == [x] + rest;
      assert a + b == [x] + (rest + b);
      NonBlankCons(x, rest);
      NonBlankCons(x, rest + b);
      NonBlankSplit(rest, b);
      var head: seq<string> := if x == "" then [] else [x];
      assert head + (NonBlank(rest) + NonBlank(b)) == (head + NonBlank(rest)) + NonBlank(b);
    }
  }

  lemma NonBlankCons(x: string, ls: seq<string>)
    ensures NonBlank([x] + ls) == (if x == "" then [] else [x]) + NonBlank(ls)
  {
    assert ([x] + ls)[1..] == ls;
  }
}
