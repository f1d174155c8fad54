/** The report converter: a Markdown report turned into an HTML page, one
    input line at a time, by a small state machine that remembers whether
    a table is open. */
module Report {
  import opened Wrappers
  import opened PyBytes
  import opened PyStr
  import opened Seqs

  // ---------------------------------------------------------------------
  // Inline code

  /** The number of backticks in `s`. */
  function Ticks(s: string): nat {
    if |s| == 0 then 0 else Ticks(s[..|s| - 1]) + (if s[|s| - 1] == '`' then 1 else 0)
  }

  /** What a backtick after the text `before` becomes: backticks turn
      alternately into `<code>` and `</code>`. */
  function CodeTag(before: string): string {
    if Ticks(before) % 2 == 0 then "<code>" else "</code>"
  }

  /** What character `c` becomes after the text `before` it. */
  function Piece(before: string, c: char): string {
    if c != '`' then [c] else CodeTag(before)
  }

  /** A paragraph line with its backticks replaced, left to right, by
      `<code>` and `</code>` in turn. */
  function CodeSpans(s: string): (r: string)
    ensures '`' !in r
  {
    if |s| == 0 then "" else CodeSpans(s[..|s| - 1]) + Piece(s[..|s| - 1], s[|s| - 1])
  }

  /** A stretch without backticks is copied and does not change the
      count. */
  lemma {:induction false} TickFree(line: string, p: nat, q: nat)
    requires p <= q <= |line| && '`' !in line[p..q]
    ensures CodeSpans(line[..q]) == CodeSpans(line[..p]) + line[p..q]
    ensures Ticks(line[..q]) == Ticks(line[..p])
    decreases q - p
  {
    if q > p {
      assert line[p..q - 1] + [line[q - 1]] == line[p..q];
      assert '`' !in line[p..q - 1] by {
        forall k | p <= k < q - 1
          ensures line[k] != '`'
        {
          assert line[k] == line[p..q][k - p];
        }
      }
      assert line[q - 1] == line[p..q][q - 1 - p];
      TickFree(line, p, q - 1);
      assert line[..q][..q - 1] == line[..q - 1];
    }
  }

  /** The first backtick of a string that has one. */
  lemma {:induction false} FirstTick(s: string) returns (i: nat)
    requires '`' in s
    ensures i < |s| && s[i] == '`' && '`' !in s[..i]
  {
    if s[0] == '`' {
      i := 0;
    } else {
      assert '`' in s[1..];
      var j := FirstTick(s[1..]);
      i := j + 1;
      assert s[..i] == [s[0]] + s[1..][..j];
    }
  }

  /** `s.replace("`", rep, 1)` where the first backtick is at `i`. */
  lemma {:induction false} ReplaceFirstAt(s: string, i: nat, rep: string)
    requires i < |s| && s[i] == '`' && '`' !in s[..i]
    ensures ReplaceFirst(s, '`', rep) == s[..i] + rep + s[i + 1..]
  {
    if i > 0 {
      assert s[0] == s[..i][0];
      assert s[1..][..i - 1] == s[..i][1..];
      ReplaceFirstAt(s[1..], i - 1, rep);
      assert s[1..][i..] == s[i + 1..];
      assert [s[0]] + s[1..][..i - 1] == s[..i];
    }
  }

  /** `out` is `line` with the part before position `p` converted and
      the rest untouched. */
  ghost predicate Converted(line: string, p: nat, out: string) {
    p <= |line| && out == CodeSpans(line[..p]) + line[p..]
  }

  /** Backticks left in a partly converted line are those of the
      unconverted rest. */
  lemma TicksLeft(line: string, p: nat, out: string)
    requires Converted(line, p, out)
    ensures '`' in out <==> '`' in line[p..]
  {
    var c := CodeSpans(line[..p]);
    if '`' in line[p..] {
      var k :| 0 <= k < |line[p..]| && line[p..][k] == '`';
      assert out[|c| + k] == '`';
    }
    if '`' in out {
      var k :| 0 <= k < |out| && out[k] == '`';
      if k >= |c| {
        assert line[p..][k - |c|] == '`';
      }
    }
  }

  /** Converting one more character, a backtick. */
  lemma CodeSpansTick(line: string, t: nat)
    requires t < |line| && line[t] == '`'
    ensures CodeSpans(line[..t + 1]) == CodeSpans(line[..t]) + CodeTag(line[..t])
    ensures Ticks(line[..t + 1]) == Ticks(line[..t]) + 1
  {
    assert line[..t + 1][..t] == line[..t];
  }

  /** One replacement of the loop: replacing the first backtick left by
      the tag its parity calls for converts the line up to just past that
      backtick. */
  lemma ReplaceStep(line: string, p: nat, out: string, tag: string) returns (q: nat)
    requires Converted(line, p, out) && '`' in out
    requires tag == CodeTag(line[..p])
    ensures p < q && Converted(line, q, ReplaceFirst(out, '`', tag))
    ensures CodeTag(line[..q]) == if tag == "<code>" then "</code>" else "<code>"
  {
    TicksLeft(line, p, out);
    var i := FirstTick(line[p..]);
    assert line[p..][..i] == line[p..p + i] && line[p..][i] == line[p + i];
    ReplaceAt(line, p, out, tag, p + i);
    q := p + i + 1;
  }

  /** Replacing the backtick at `t`, the first after `p`. */
  lemma ReplaceAt(line: string, p: nat, out: string, tag: string, t: nat)
    requires Converted(line, p, out) && tag == CodeTag(line[..p])
    requires p <= t < |line| && line[t] == '`' && '`' !in line[p..t]
    ensures Converted(line, t + 1, ReplaceFirst(out, '`', tag))
    ensures CodeTag(line[..t + 1]) == if tag == "<code>" then "</code>" else "<code>"
  {
    var rest := line[p..];
    var i := t - p;
    var c := CodeSpans(line[..p]);
    assert rest[..i] == line[p..t] && rest[i + 1..] == line[t + 1..] && rest[i] == '`';
    SliceConcat(c, rest, i);
    SliceConcat(c, rest, i + 1);
    ReplaceFirstAt(out, |c| + i, tag);
    SpansThrough(line, p, t);
    CodeTagFlips(line[..p], line[..t + 1]);
  }

  /** Converting a tick-free stretch and the backtick after it. */
  lemma SpansThrough(line: string, p: nat, t: nat)
    requires p <= t < |line| && line[t] == '`' && '`' !in line[p..t]
    ensures CodeSpans(line[..t + 1]) == CodeSpans(line[..p]) + line[p..t] + CodeTag(line[..p])
    ensures Ticks(line[..t + 1]) == Ticks(line[..p]) + 1
  {
    TickFree(line, p, t);
    CodeSpansTick(line, t);
    assert CodeTag(line[..t]) == CodeTag(line[..p]);
  }

  lemma SliceConcat(c: string, rest: string, k: nat)
    requires k <= |rest|
    ensures (c + rest)[..|c| + k] == c + rest[..k]
    ensures (c + rest)[|c| + k..] == rest[k..]
  {
  }

  /** One more backtick switches the tag. */
  lemma CodeTagFlips(a: string, b: string)
    requires Ticks(b) == Ticks(a) + 1
    ensures CodeTag(b) == if CodeTag(a) == "<code>" then "</code>" else "<code>"
  {
    assert |"<code>"| != |"</code>"|;
  }

  /** The inline-code loop as written: replace the first backtick by
      `<code>`, then, while backticks remain, the next by `</code>` and the
      one after by `<code>`.  It computes `CodeSpans`. */
  method ReplaceCode(line: string) returns (out: string)
    ensures out == CodeSpans(line)
    ensures '`' !in out
  {
    ghost var p: nat := 0;
    assert line[..0] == [] && line[0..] == line;
    assert Converted(line, 0, line);
    if '`' in line {
      p := ReplaceStep(line, 0, line, "<code>");
      out := ReplaceFirst(line, '`', "<code>");
    } else {
      out := line;
    }
    while '`' in out
      invariant Converted(line, p, out)
      invariant '`' in out ==> CodeTag(line[..p]) == "</code>"
      decreases |line| - p
    {
      p := ReplaceStep(line, p, out, "</code>");
      out := ReplaceFirst(out, '`', "</code>");
      if '`' in out {
        p := ReplaceStep(line, p, out, "<code>");
        out := ReplaceFirst(out, '`', "<code>");
      }
    }
    TicksLeft(line, p, out);
    TickFree(line, p, |line|);
    assert line[..|line|] == line;
  }

  // ---------------------------------------------------------------------
  // Tables

  /** `[c.strip() for c in line.split("|")[1:-1]]` */
  function Cells(line: string): seq<string> {
    Map(Strip, PySlice(Split(line, '|'), 1, -1))
  }

  /** A separator row: every cell is `---` or starts with `-`. */
  predicate IsSeparator(cells: seq<string>) {
    forall i :: 0 <= i < |cells| ==> cells[i] == "---" || StartsWith(cells[i], "-")
  }

  /** One table row with every cell in `<tag>` elements. */
  function Row(cells: seq<string>, tag: string): (r: string)
    ensures !IsTableTag(r)
  {
    var inner := Flatten(Map((c: string) => "<" + tag + ">" + c + "</" + tag + ">", cells));
    OtherTag("<tr>" + inner + "</tr>");
    "<tr>" + inner + "</tr>"
  }

  // ---------------------------------------------------------------------
  // Images

  /** `re.match(r"!\[([^\]]*)\]\(([^)]+)\)", line)` on a line starting
      with `![`: the alternative text runs to the first `]`, which must be
      followed by `(`; the source runs to the next `)` and is not empty.
      Anything after the `)` is ignored. */
  function ImageMatch(line: string): (r: Option<(string, string)>)
    requires StartsWith(line, "![")
    ensures r.Some? ==>
              var (alt, src) := r.value;
              var n := |alt| + 2;
              ']' !in alt && ')' !in src && |src| > 0 && n + 2 + |src| < |line|
              && line[2..n] == alt && line[n] == ']' && line[n + 1] == '('
              && line[n + 2..n + 2 + |src|] == src && line[n + 2 + |src|] == ')'
  {
    var rest := line[2..];
    var i := Find(rest, "]");
    if i < 0 || i + 1 >= |rest| || rest[i + 1] != '(' then None
    else
      var tail := rest[i + 2..];
      var j := Find(tail, ")");
      if j <= 0 then None
      else
        NoCharBefore(rest, ']', i);
        NoCharBefore(tail, ')', j);
        assert rest[..i] == line[2..i + 2] && rest[i] == line[i + 2] && rest[i + 1] == line[i + 3];
        assert tail[..j] == line[i + 4..i + 4 + j] && tail[j] == line[i + 4 + j];
        Some((rest[..i], tail[..j]))
  }

  /** Before the first occurrence found by `find`, the character does not
      occur. */
  lemma NoCharBefore(s: string, c: char, i: int)
    requires i == Find(s, [c]) && i >= 0
    ensures i < |s| && s[i] == c && c !in s[..i]
  {
    assert OccursAt(s, [c], i);
    assert s[i..i + 1] == [c];
    forall k | 0 <= k < i
      ensures s[k] != c
    {
      assert !OccursAt(s, [c], k);
      assert s[k..k + 1] == [s[k]];
    }
  }

  /** `find` of a character returns its first position. */
  lemma FindChar(s: string, c: char, n: nat)
    requires n < |s| && s[n] == c && c !in s[..n]
    ensures Find(s, [c]) == n
  {
    assert s[n..n + 1] == [c];
    assert OccursAt(s, [c], n);
    forall k | 0 <= k < n
      ensures !OccursAt(s, [c], k)
    {
      assert s[k..k + 1] == [s[k]] && s[..n][k] == s[k];
    }
  }

  /** Every image line is recognised: alternative text without `]`, a
      non-empty source without `)`, anything after. */
  lemma ImageMatchFinds(alt: string, src: string, after: string)
    requires ']' !in alt && ')' !in src && |src| > 0
    ensures ImageMatch("![" + alt + "](" + src + ")" + after) == Some((alt, src))
  {
    var line := "![" + alt + "](" + src + ")" + after;
    var rest := alt + "](" + src + ")" + after;
    assert line[2..] == rest;
    var i := |alt|;
    assert rest[..i] == alt && rest[i] == ']' && rest[i + 1] == '(';
    FindChar(rest, ']', i);
    var tail := src + ")" + after;
    assert rest[i + 2..] == tail;
    assert tail[..|src|] == src && tail[|src|] == ')';
    FindChar(tail, ')', |src|);
  }

  // ---------------------------------------------------------------------
  // The converter

  /** The lines written so far and whether a table is open. */
  datatype State = State(out: seq<string>, inTable: bool)

  /** The state with an open table closed. */
  function CloseTable(st: State): (r: State)
    ensures !r.inTable
    ensures st.inTable ==> r.out == st.out + ["</table>"]
    ensures !st.inTable ==> r == st
  {
    if st.inTable then State(st.out + ["</table>"], false) else st
  }

  /** `b` is `a` with more lines after it: lines are only ever appended. */
  predicate Extends(b: seq<string>, a: seq<string>) {
    |a| <= |b| && forall i :: 0 <= i < |a| ==> b[i] == a[i]
  }

  /** A table line: opens a table if none is open, then skips a
      separator row or adds a row, of header cells when it directly
      follows `<table>`. */
  function TableLine(st: State, line: string): (r: State)
    requires |st.out| > 0
    ensures r.inTable && Extends(r.out, st.out)
  {
    var out1 := if st.inTable then st.out else st.out + ["<table>"];
    var cells := Cells(line);
    if IsSeparator(cells) then State(out1, true)
    else
      var tag := if out1[|out1| - 1] == "<table>" then "th" else "td";
      State(out1 + [Row(cells, tag)], true)
  }

  /** One iteration of the loop over the Markdown lines. */
  function Step(st: State, line: string): (r: State)
    requires |st.out| > 0
    ensures Extends(r.out, st.out)
  {
    if StartsWith(line, "# ") then State(st.out + ["<h1>" + line[2..] + "</h1>"], st.inTable)
    else if StartsWith(line, "## ") then State(st.out + ["<h2>" + line[3..] + "</h2>"], st.inTable)
    else if StartsWith(line, "### ") then State(st.out + ["<h3>" + line[4..] + "</h3>"], st.inTable)
    else if StartsWith(line, "| ") then TableLine(st, line)
    else if StartsWith(line, "![") then
      match ImageMatch(line)
      case Some((alt, src)) => State(st.out + ["<img src='" + src + "' alt='" + alt + "'>"], st.inTable)
      case None => st
    else TextLine(st, line)
  }

  /** The remaining cases: bold and italic lines, a rule (which closes an
      open table), a blank line (which closes it too) and a paragraph. */
  function TextLine(st: State, line: string): (r: State)
    requires |st.out| > 0
    ensures Extends(r.out, st.out)
  {
    if StartsWith(line, "**") && EndsWith(line, "**") then
      State(st.out + ["<p><strong>" + PySlice(line, 2, -2) + "</strong></p>"], st.inTable)
    else if StartsWith(line, "*") && EndsWith(line, "*") then
      State(st.out + ["<p><em>" + PySlice(line, 1, -1) + "</em></p>"], st.inTable)
    else if StartsWith(line, "---") then
      var closed := CloseTable(st);
      State(closed.out + ["<hr>"], false)
    else if Strip(line) == "" then CloseTable(st)
    else State(st.out + ["<p>" + CodeSpans(line) + "</p>"], st.inTable)
  }

  /** The loop over all lines. */
  function Convert(st: State, lines: seq<string>): (r: State)
    requires |st.out| > 0
    ensures Extends(r.out, st.out)
    decreases |lines|
  {
    if |lines| == 0 then st else Convert(Step(st, lines[0]), lines[1..])
  }

  /** The stylesheet lines of the page head. */
  const Style: seq<string> :=
    ["body { font-family: -apple-system, sans-serif; max-width: 900px; margin: 0 auto; padding: 20px; }",
     "table { border-collapse: collapse; width: 100%; margin: 1em 0; }",
     "th, td { border: 1px solid #ddd; padding: 8px; text-align: left; }",
     "th { background-color: #f5f5f5; }",
     "code { background: #f5f5f5; padding: 2px 6px; border-radius: 3px; }",
     "h1, h2, h3 { color: #333; }",
     "img { max-width: 100%; }"]

  /** The page head with stylesheet `style`, up to and including
      `<body>`. */
  function Head(deviceId: string, style: seq<string>): (r: seq<string>)
    ensures |r| == |style| + 9 && r[0] == "<!DOCTYPE html>" && r[|r| - 1] == "<body>"
  {
    ["<!DOCTYPE html>", "<html>", "<head>", "<title>DVK Report: " + deviceId + "</title>",
     "<meta charset='utf-8'>", "<style>"]
    + style + ["</style>", "</head>", "<body>"]
  }

  /** The lines of `generate_html_report(markdown, device_id)`. */
  function HtmlLines(markdown: string, deviceId: string): (r: seq<string>)
    ensures |r| >= 11 && r[0] == "<!DOCTYPE html>"
    ensures r[|r| - 2] == "</body>" && r[|r| - 1] == "</html>"
  {
    Page(markdown, deviceId, Style)
  }

  /** The page for any stylesheet. */
  function Page(markdown: string, deviceId: string, style: seq<string>): (r: seq<string>)
    ensures |r| >= 11 && r[0] == "<!DOCTYPE html>"
    ensures r[|r| - 2] == "</body>" && r[|r| - 1] == "</html>"
  {
    var head := Head(deviceId, style);
    var st := Convert(State(head, false), Split(markdown, '\n'));
    assert st.out[0] == head[0];
    CloseTable(st).out + ["</body>", "</html>"]
  }

  /** `generate_html_report(markdown, device_id)`: the lines joined by
      newlines. */
  function GenerateHtml(markdown: string, deviceId: string): (r: string)
    ensures StartsWith(r, "<!DOCTYPE html>\n")
    ensures EndsWith(r, "\n</html>")
  {
    var lines := HtmlLines(markdown, deviceId);
    JoinEnds(lines, "\n");
    Join(lines, "\n")
  }

  /** Joining at least two lines: the first line and the separator lead,
      the separator and the last line end. */
  lemma {:induction false} JoinEnds(parts: seq<string>, sep: string)
    requires |parts| >= 2
    ensures IsPrefix(parts[0] + sep, Join(parts, sep))
    ensures IsSuffix(sep + parts[|parts| - 1], Join(parts, sep))
  {
    var j := Join(parts, sep);
    var rest := Join(parts[1..], sep);
    assert j == parts[0] + sep + rest;
    assert j[..|parts[0] + sep|] == parts[0] + sep;
    if |parts| == 2 {
      assert rest == parts[1];
    } else {
      JoinEnds(parts[1..], sep);
      var tail := sep + parts[|parts| - 1];
      assert rest[|rest| - |tail|..] == tail;
      assert j[|j| - |tail|..] == rest[|rest| - |tail|..];
    }
  }

  /** Headings of the three levels keep their text after the marker. */
  lemma Headings(st: State, text: string)
    requires |st.out| > 0
    ensures Step(st, "# " + text) == State(st.out + ["<h1>" + text + "</h1>"], st.inTable)
    ensures Step(st, "## " + text) == State(st.out + ["<h2>" + text + "</h2>"], st.inTable)
    ensures Step(st, "### " + text) == State(st.out + ["<h3>" + text + "</h3>"], st.inTable)
  {
    assert ("# " + text)[..2] == "# " && ("# " + text)[2..] == text;
    assert ("## " + text)[1] == '#' && ("## " + text)[..3] == "## " && ("## " + text)[3..] == text;
    assert ("### " + text)[1] == '#' && ("### " + text)[2] == '#';
    assert ("### " + text)[..4] == "### " && ("### " + text)[4..] == text;
  }

  /** A header row, a separator row and a data row outside a table make a
      table with one row of header cells and one of data cells. */
  lemma ThreeLineTable(st: State, header: string, sep: string, data: string)
    requires |st.out| > 0 && !st.inTable
    requires StartsWith(header, "| ") && StartsWith(sep, "| ") && StartsWith(data, "| ")
    requires !IsSeparator(Cells(header)) && IsSeparator(Cells(sep)) && !IsSeparator(Cells(data))
    ensures Convert(st, [header, sep, data])
            == State(st.out + ["<table>", Row(Cells(header), "th"), Row(Cells(data), "td")], true)
  {
    var row := Row(Cells(header), "th");
    StepTable(st, header);
    HeaderRow(st, header);
    var st1 := State(st.out + ["<table>", row], true);
    StepTable(st1, sep);
    SeparatorRow(st1, sep);
    StepTable(st1, data);
    DataRow(st1, data);
    var st3 := State(st1.out + [Row(Cells(data), "td")], true);
    assert Convert(st1, [data]) == st3 by {
      assert [data][1..] == [];
    }
    assert Convert(st1, [sep, data]) == Convert(st1, [data]) by {
      assert [sep, data][1..] == [data];
    }
    assert Convert(st, [header, sep, data]) == Convert(st1, [sep, data]) by {
      assert [header, sep, data][1..] == [sep, data];
    }
  }

  /** The first row of a new table has header cells. */
  lemma HeaderRow(st: State, line: string)
    requires |st.out| > 0 && !st.inTable && !IsSeparator(Cells(line))
    ensures TableLine(st, line) == State(st.out + ["<table>", Row(Cells(line), "th")], true)
  {
  }

  /** A row after another row has data cells. */
  lemma DataRow(st: State, line: string)
    requires |st.out| > 0 && st.inTable && st.out[|st.out| - 1] != "<table>" && !IsSeparator(Cells(line))
    ensures TableLine(st, line) == State(st.out + [Row(Cells(line), "td")], true)
  {
  }

  /** A separator row only opens the table. */
  lemma SeparatorRow(st: State, line: string)
    requires |st.out| > 0 && IsSeparator(Cells(line))
    ensures TableLine(st, line) == State(if st.inTable then st.out else st.out + ["<table>"], true)
  {
  }

  /** A line starting with `| ` is a table line. */
  lemma StepTable(st: State, line: string)
    requires |st.out| > 0 && StartsWith(line, "| ")
    ensures Step(st, line) == TableLine(st, line)
  {
    NotHeading(line);
  }

  /** A line starting with `| ` is no heading. */
  lemma NotHeading(line: string)
    requires StartsWith(line, "| ")
    ensures !StartsWith(line, "# ") && !StartsWith(line, "## ") && !StartsWith(line, "### ")
  {
    assert line[0] == '|';
  }

  // ---------------------------------------------------------------------
  // Tables open and close in turn

  predicate IsTableTag(l: string) {
    l == "<table>" || l == "</table>"
  }

  /** The `<table>` and `</table>` lines among `lines`, in order. */
  function TableTags(lines: seq<string>): seq<string> {
    if |lines| == 0 then []
    else TableTags(lines[..|lines| - 1]) + (if IsTableTag(lines[|lines| - 1]) then [lines[|lines| - 1]] else [])
  }

  /** Tags alternate, opening first; an open table leaves one more
      opening than closing. */
  predicate Balanced(lines: seq<string>, inTable: bool) {
    var tags := TableTags(lines);
    (forall i :: 0 <= i < |tags| ==> tags[i] == if i % 2 == 0 then "<table>" else "</table>")
    && (|tags| % 2 == 1 <==> inTable)
  }

  lemma AppendLine(lines: seq<string>, l: string)
    ensures TableTags(lines + [l]) == TableTags(lines) + (if IsTableTag(l) then [l] else [])
  {
    assert (lines + [l])[..|lines|] == lines;
  }

  /** A tag that continues the alternation keeps it. */
  lemma AppendTag(lines: seq<string>, inTable: bool, l: string)
    requires Balanced(lines, inTable)
    requires l == if inTable then "</table>" else "<table>"
    ensures Balanced(lines + [l], !inTable)
  {
    AppendLine(lines, l);
  }

  lemma AppendOther(lines: seq<string>, inTable: bool, l: string)
    requires Balanced(lines, inTable) && !IsTableTag(l)
    ensures Balanced(lines + [l], inTable)
  {
    AppendLine(lines, l);
  }

  /** Every non-tag line the converter writes begins with a tag other
      than `<table>` and `</table>`. */
  lemma OtherTag(l: string)
    requires |l| >= 3 && (l[0] != '<' || (l[1] != '/' && (l[1] != 't' || l[2] != 'a')))
    ensures !IsTableTag(l)
  {
    assert "<table>"[0] == '<' && "<table>"[1] == 't' && "<table>"[2] == 'a' && "</table>"[1] == '/';
  }

  /** Each step keeps the tables balanced. */
  lemma StepBalanced(st: State, line: string)
    requires |st.out| > 0 && Balanced(st.out, st.inTable)
    ensures Balanced(Step(st, line).out, Step(st, line).inTable)
  {
    var r := Step(st, line);
    if StartsWith(line, "# ") {
      OtherTag(r.out[|r.out| - 1]);
      AppendOther(st.out, st.inTable, r.out[|r.out| - 1]);
    } else if StartsWith(line, "## ") {
      OtherTag(r.out[|r.out| - 1]);
      AppendOther(st.out, st.inTable, r.out[|r.out| - 1]);
    } else if StartsWith(line, "### ") {
      OtherTag(r.out[|r.out| - 1]);
      AppendOther(st.out, st.inTable, r.out[|r.out| - 1]);
    } else if StartsWith(line, "| ") {
      TableLineBalanced(st, line);
    } else if StartsWith(line, "![") {
      match ImageMatch(line)
      case Some((alt, src)) =>
        var l := "<img src='" + src + "' alt='" + alt + "'>";
        OtherTag(l);
        AppendOther(st.out, st.inTable, l);
      case None =>
    } else {
      TextLineBalanced(st, line);
    }
  }

  lemma TextLineBalanced(st: State, line: string)
    requires |st.out| > 0 && Balanced(st.out, st.inTable)
    ensures Balanced(TextLine(st, line).out, TextLine(st, line).inTable)
  {
    if StartsWith(line, "**") && EndsWith(line, "**") {
      var l := "<p><strong>" + PySlice(line, 2, -2) + "</strong></p>";
      OtherTag(l);
      AppendOther(st.out, st.inTable, l);
    } else if StartsWith(line, "*") && EndsWith(line, "*") {
      var l := "<p><em>" + PySlice(line, 1, -1) + "</em></p>";
      OtherTag(l);
      AppendOther(st.out, st.inTable, l);
    } else if StartsWith(line, "---") {
      var closed := CloseTable(st);
      if st.inTable {
        AppendTag(st.out, true, "</table>");
      }
      OtherTag("<hr>");
      AppendOther(closed.out, false, "<hr>");
    } else if Strip(line) == "" {
      if st.inTable {
        AppendTag(st.out, true, "</table>");
      }
    } else {
      var l := "<p>" + CodeSpans(line) + "</p>";
      OtherTag(l);
      AppendOther(st.out, st.inTable, l);
    }
  }

  lemma TableLineBalanced(st: State, line: string)
    requires |st.out| > 0 && Balanced(st.out, st.inTable)
    ensures Balanced(TableLine(st, line).out, true)
  {
    var out1 := if st.inTable then st.out else st.out + ["<table>"];
    if !st.inTable {
      AppendTag(st.out, false, "<table>");
    }
    var cells := Cells(line);
    if !IsSeparator(cells) {
      var tag := if out1[|out1| - 1] == "<table>" then "th" else "td";
      var row := Row(cells, tag);
      AppendOther(out1, true, row);
    }
  }

  lemma {:induction false} ConvertBalanced(st: State, lines: seq<string>)
    requires |st.out| > 0 && Balanced(st.out, st.inTable)
    ensures Balanced(Convert(st, lines).out, Convert(st, lines).inTable)
    decreases |lines|
  {
    if |lines| > 0 {
      StepBalanced(st, lines[0]);
      ConvertBalanced(Step(st, lines[0]), lines[1..]);
    }
  }

  /** In the page, `<table>` and `</table>` lines alternate, opening first,
      and every table is closed: by a blank line, a `---` line or the end
      of the input. */
  lemma TablesClosed(markdown: string, deviceId: string)
    ensures Balanced(HtmlLines(markdown, deviceId), false)
  {
    forall k | 0 <= k < |Style|
      ensures !IsTableTag(Style[k])
    {
      assert Style[k] == Style[0] || Style[k] == Style[1] || Style[k] == Style[2] || Style[k] == Style[3]
             || Style[k] == Style[4] || Style[k] == Style[5] || Style[k] == Style[6];
    }
    PageTablesClosed(markdown, deviceId, Style);
  }

  lemma PageTablesClosed(markdown: string, deviceId: string, style: seq<string>)
    requires forall k :: 0 <= k < |style| ==> !IsTableTag(style[k])
    ensures Balanced(Page(markdown, deviceId, style), false)
  {
    var head := Head(deviceId, style);
    HeadBalanced(deviceId, style);
    var st := Convert(State(head, false), Split(markdown, '\n'));
    ConvertBalanced(State(head, false), Split(markdown, '\n'));
    var closed := CloseTable(st);
    if st.inTable {
      AppendTag(st.out, true, "</table>");
    }
    AppendOther(closed.out, false, "</body>");
    AppendOther(closed.out + ["</body>"], false, "</html>");
    assert Page(markdown, deviceId, style) == closed.out + ["</body>"] + ["</html>"];
  }

  /** The head holds no table tags. */
  lemma HeadBalanced(deviceId: string, style: seq<string>)
    requires forall k :: 0 <= k < |style| ==> !IsTableTag(style[k])
    ensures Balanced(Head(deviceId, style), false)
  {
    var head := Head(deviceId, style);
    forall k | 0 <= k < |head|
      ensures !IsTableTag(head[k])
    {
      if k == 3 {
        OtherTag(head[3]);
      } else if 6 <= k < 6 + |style| {
        assert head[k] == style[k - 6];
      }
    }
    HeadHasNoTags(head);
  }

  lemma {:induction false} HeadHasNoTags(lines: seq<string>)
    requires forall k :: 0 <= k < |lines| ==> !IsTableTag(lines[k])
    ensures TableTags(lines) == []
  {
    if |lines| > 0 {
      HeadHasNoTags(lines[..|lines| - 1]);
    }
  }
}
