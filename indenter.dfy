/**
 * The formatter's two manual line-based indenters (the XML fallback and the HTML formatter).
 * Each is a loop over the lines of the tag-broken text that keeps an indent counter and a list of
 * output lines; `XmlFold`/`HtmlFold` state what the loop has produced after a prefix of the lines,
 * and the methods are proved to compute exactly that.
 */
module Indenter {
  import opened Optional
  import opened PyStr
  import opened Rewrite

  /** The loop state: the output lines so far and the current indent level. */
  datatype Layout = Layout(lines: seq<string>, indent: nat)

  /**
   * What a loop does with one stripped non-blank line, given the current indent: the indent it
   * prints the line at, and the indent it leaves for the next line.
   */
  type Rule = (nat, string) -> (nat, nat)

  /** `'  ' * n` */
  function Pad(n: nat): (r: string)
    ensures |r| == 2 * n
    ensures forall i :: 0 <= i < |r| ==> r[i] == ' '
  {
    seq(2 * n, _ => ' ')
  }

  /** The lines the indenter splits the text into: each tag starts a line. */
  function TagLines(content: string): seq<string>
  {
    Split(BreakTags(content), '\n')
  }

  /** The stripped, non-blank lines, in order: what every output line must carry after its indent. */
  function Kept(lines: seq<string>): seq<string>
    decreases |lines|
  {
    if lines == [] then []
    else
      var line := Strip(lines[|lines| - 1]);
      Kept(lines[..|lines| - 1]) + (if line == [] then [] else [line])
  }

  /** `o` is `l` behind an even number of spaces. */
  predicate IndentedCopy(o: string, l: string)
  {
    |l| <= |o| && o == Pad((|o| - |l|) / 2) + l
  }

  /** Indent depth of an output line `o` that carries `l`. */
  function Depth(o: string, l: string): int
  {
    (|o| - |l|) / 2
  }

  lemma PadCopy(d: nat, l: string)
    ensures IndentedCopy(Pad(d) + l, l) && Depth(Pad(d) + l, l) == d
  {
  }

  /** One iteration of either loop: blank lines are skipped, others printed as the rule says. */
  function Step(st: Layout, raw: string, rule: Rule): Layout
  {
    var line := Strip(raw);
    if line == [] then st
    else
      var (at, next) := rule(st.indent, line);
      Layout(st.lines + [Pad(at) + line], next)
  }

  /** The loop's state after the given lines, starting from no output and indent 0. */
  function Fold(lines: seq<string>, rule: Rule): Layout
    decreases |lines|
  {
    if lines == [] then Layout([], 0) else Step(Fold(lines[..|lines| - 1], rule), lines[|lines| - 1], rule)
  }

  /**
   * Whatever the rule, every stripped non-blank line is printed once, in order, behind an even
   * number of spaces, and lines the rule prints at indent 0 are printed as they are.
   */
  lemma {:induction false} FoldKeepsLines(lines: seq<string>, rule: Rule, atZero: string -> bool)
    requires forall i: nat, l: string :: atZero(l) ==> rule(i, l).0 == 0
    ensures var out := Fold(lines, rule).lines;
      |out| == |Kept(lines)|
      && (forall k :: 0 <= k < |out| ==> IndentedCopy(out[k], Kept(lines)[k]))
      && (forall k :: 0 <= k < |out| && atZero(Kept(lines)[k]) ==> out[k] == Kept(lines)[k])
    decreases |lines|
  {
    if lines != [] {
      var pre := lines[..|lines| - 1];
      FoldKeepsLines(pre, rule, atZero);
      var st := Fold(pre, rule);
      var line := Strip(lines[|lines| - 1]);
      if line != [] {
        var at := rule(st.indent, line).0;
        PadCopy(at, line);
        assert at == 0 ==> Pad(at) + line == line;
      }
    }
  }

  // ---------------------------------------------------------------------------------------------
  // The XML fallback indenter

  /** The XML loop's rule. */
  function XmlRule(indent: nat, line: string): (nat, nat)
  {
    if StartsWith(line, "<?xml") then (0, indent)
    else if StartsWith(line, "</") then
      var d := if indent > 0 then indent - 1 else 0;
      (d, d)
    else if EndsWith(line, "/>") then (indent, indent)
    else if StartsWith(line, "<") then
      (indent, if !EndsWith(line, "/>") && !Contains(line, "</") then indent + 1 else indent)
    else (indent, indent)
  }

  function XmlFold(lines: seq<string>): Layout
  {
    Fold(lines, XmlRule)
  }

  /** What `_simple_xml_format` returns. */
  function XmlLayout(content: string): string
  {
    Join(XmlFold(TagLines(content)).lines, "\n")
  }

  /** `_simple_xml_format`: split the tag-broken text into lines, indent them, join them back. */
  method SimpleXmlFormat(content: string) returns (r: string)
    ensures r == XmlLayout(content)
  {
    var lines := TagLines(content);
    var formatted := IndentXmlLines(lines);
    r := Join(formatted, "\n");
  }

  /** The loop of `_simple_xml_format` over the lines, with its indent counter. */
  method IndentXmlLines(lines: seq<string>) returns (formatted: seq<string>)
    ensures formatted == XmlFold(lines).lines
  {
    formatted := [];
    var indentLevel: nat := 0;
    for i := 0 to |lines|
      invariant Layout(formatted, indentLevel) == XmlFold(lines[..i])
    {
      assert lines[..i + 1][..i] == lines[..i];
      var line := Strip(lines[i]);
      if line != [] {
        if StartsWith(line, "<?xml") {
          formatted := formatted + [line];
          assert Pad(0) + line == line;
        } else if StartsWith(line, "</") {
          indentLevel := if indentLevel > 0 then indentLevel - 1 else 0;
          formatted := formatted + [Pad(indentLevel) + line];
        } else if EndsWith(line, "/>") {
          formatted := formatted + [Pad(indentLevel) + line];
        } else if StartsWith(line, "<") {
          formatted := formatted + [Pad(indentLevel) + line];
          if !EndsWith(line, "/>") && !Contains(line, "</") {
            indentLevel := indentLevel + 1;
          }
        } else {
          formatted := formatted + [Pad(indentLevel) + line];
        }
      }
    }
    assert lines[..|lines|] == lines;
  }

  /**
   * Every stripped non-blank line is printed once, in order, behind an even number of spaces;
   * a line starting with "<?xml" is printed without indent.
   */
  lemma XmlFoldKeepsLines(lines: seq<string>)
    ensures var out := XmlFold(lines).lines;
      |out| == |Kept(lines)|
      && (forall k :: 0 <= k < |out| ==> IndentedCopy(out[k], Kept(lines)[k]))
      && (forall k :: 0 <= k < |out| && StartsWith(Kept(lines)[k], "<?xml") ==> out[k] == Kept(lines)[k])
  {
    FoldKeepsLines(lines, XmlRule, l => StartsWith(l, "<?xml"));
  }

  /** The first kept line is the first line, stripped, when that one is not blank. */
  lemma {:induction false} KeptFirst(lines: seq<string>)
    requires lines != [] && Strip(lines[0]) != []
    ensures |Kept(lines)| >= 1 && Kept(lines)[0] == Strip(lines[0])
    decreases |lines|
  {
    if |lines| > 1 {
      var pre := lines[..|lines| - 1];
      assert pre[0] == lines[0];
      KeptFirst(pre);
    }
  }

  /** The fallback keeps a leading XML declaration at the very front of its output. */
  lemma XmlLayoutKeepsDeclaration(content: string)
    requires StartsWith(content, "<?xml")
    ensures StartsWith(XmlLayout(content), "<?xml")
  {
    BreakTagsKeepsPrefix(content, "<?xml");
    var lines := TagLines(content);
    SplitKeepsPrefix(BreakTags(content), '\n', "<?xml");
    StripKeepsPrefix(lines[0], "<?xml");
    KeptFirst(lines);
    XmlFoldKeepsLines(lines);
    var out := XmlFold(lines).lines;
    JoinStartsWithFirst(out, "\n");
    assert Join(out, "\n")[..|out[0]|] == out[0];
    assert out[0][..5] == "<?xml";
  }

  /** How one line moves the XML indent; it rises, by one, exactly after an opening line that neither closes itself nor holds a closing tag. */
  lemma XmlRuleIndent(indent: nat, line: string)
    ensures StartsWith(line, "</") && !StartsWith(line, "<?xml") ==>
      XmlRule(indent, line) == (if indent == 0 then (0, 0) else (indent - 1, indent - 1))
    ensures XmlRule(indent, line).1 > indent ==>
      XmlRule(indent, line) == (indent, indent + 1) && StartsWith(line, "<") && !EndsWith(line, "/>") && !Contains(line, "</")
    ensures (StartsWith(line, "<") && !StartsWith(line, "<?xml") && !StartsWith(line, "</") && !EndsWith(line, "/>")
             && !Contains(line, "</")) ==> XmlRule(indent, line) == (indent, indent + 1)
  {
  }

  // ---------------------------------------------------------------------------------------------
  // The HTML indenter

  /** HTML5 void elements, as listed in the formatter. */
  const VoidElements: seq<string> :=
    ["area", "base", "br", "col", "embed", "hr", "img", "input", "link", "meta", "param", "source", "track", "wbr"]

  predicate IsAsciiLetter(c: char) { ('a' <= c <= 'z') || ('A' <= c <= 'Z') }

  predicate IsAsciiAlnum(c: char) { IsAsciiLetter(c) || ('0' <= c <= '9') }

  /** Length of the run of ASCII letters and digits at the start of `s`. */
  function AlnumRun(s: string): (n: nat)
    ensures n <= |s|
    ensures forall i :: 0 <= i < n ==> IsAsciiAlnum(s[i])
    ensures n == |s| || !IsAsciiAlnum(s[n])
    decreases |s|
  {
    if s != [] && IsAsciiAlnum(s[0]) then 1 + AlnumRun(s[1..]) else 0
  }

  /** `re.match(r'<([a-zA-Z][a-zA-Z0-9]*)', line).group(1)`, or None when it does not match. */
  function TagName(line: string): (r: Option<string>)
    ensures r.Some? ==> |r.value| >= 1 && StartsWith(line, "<" + r.value) && IsAsciiLetter(r.value[0])
  {
    if |line| >= 2 && line[0] == '<' && IsAsciiLetter(line[1]) then
      Some(line[1..2 + AlnumRun(line[2..])])
    else None
  }

  /** The line ends with the closing tag of a void element. */
  predicate EndsWithVoidClose(line: string)
  {
    exists k | 0 <= k < |VoidElements| :: EndsWith(line, "</" + VoidElements[k] + ">")
  }

  /** An opening line raises the indent: its lower-cased name is no void element and it is not closed on the line. */
  predicate Opens(line: string)
  {
    var tag := TagName(line);
    tag.Some? && Lower(tag.value) !in VoidElements && !EndsWith(line, "/>")
    && !Contains(line, "</" + tag.value + ">")
  }

  predicate IsDoctype(line: string)
  {
    StartsWith(Lower(line), "<!doctype")
  }

  /** The HTML loop's rule. */
  function HtmlRule(indent: nat, line: string): (nat, nat)
  {
    if IsDoctype(line) then (0, indent)
    else if StartsWith(line, "<!--") then (indent, indent)
    else if StartsWith(line, "</") then
      var d := if indent > 0 then indent - 1 else 0;
      (d, d)
    else if EndsWithVoidClose(line) || EndsWith(line, "/>") then (indent, indent)
    else if StartsWith(line, "<") then (indent, if Opens(line) then indent + 1 else indent)
    else (indent, indent)
  }

  function HtmlFold(lines: seq<string>): Layout
  {
    Fold(lines, HtmlRule)
  }

  /** What `_simple_html_format` returns. */
  function HtmlLayout(content: string): string
  {
    Join(HtmlFold(TagLines(content)).lines, "\n")
  }

  /** `_simple_html_format`: split the tag-broken text into lines, indent them, join them back. */
  method SimpleHtmlFormat(content: string) returns (r: string)
    ensures r == HtmlLayout(content)
  {
    var lines := TagLines(content);
    var formatted := IndentHtmlLines(lines);
    r := Join(formatted, "\n");
  }

  /** The loop of `_simple_html_format` over the lines, with its indent counter. */
  method IndentHtmlLines(lines: seq<string>) returns (formatted: seq<string>)
    ensures formatted == HtmlFold(lines).lines
  {
    formatted := [];
    var indentLevel: nat := 0;
    for i := 0 to |lines|
      invariant Layout(formatted, indentLevel) == HtmlFold(lines[..i])
    {
      assert lines[..i + 1][..i] == lines[..i];
      var line := Strip(lines[i]);
      if line != [] {
        if StartsWith(Lower(line), "<!doctype") {
          formatted := formatted + [line];
          assert Pad(0) + line == line;
        } else if StartsWith(line, "<!--") {
          formatted := formatted + [Pad(indentLevel) + line];
        } else if StartsWith(line, "</") {
          indentLevel := if indentLevel > 0 then indentLevel - 1 else 0;
          formatted := formatted + [Pad(indentLevel) + line];
        } else if EndsWithVoidClose(line) || EndsWith(line, "/>") {
          formatted := formatted + [Pad(indentLevel) + line];
        } else if StartsWith(line, "<") {
          formatted := formatted + [Pad(indentLevel) + line];
          var tagName := TagName(line);
          if tagName.Some? && Lower(tagName.value) !in VoidElements && !EndsWith(line, "/>") {
            if !Contains(line, "</" + tagName.value + ">") {
              indentLevel := indentLevel + 1;
            }
          }
        } else {
          formatted := formatted + [Pad(indentLevel) + line];
        }
      }
    }
    assert lines[..|lines|] == lines;
  }

  /**
   * Every stripped non-blank line is printed once, in order, behind an even number of spaces;
   * a doctype line (in any letter case) is printed without indent.
   */
  lemma HtmlFoldKeepsLines(lines: seq<string>)
    ensures var out := HtmlFold(lines).lines;
      |out| == |Kept(lines)|
      && (forall k :: 0 <= k < |out| ==> IndentedCopy(out[k], Kept(lines)[k]))
      && (forall k :: 0 <= k < |out| && IsDoctype(Kept(lines)[k]) ==> out[k] == Kept(lines)[k])
  {
    FoldKeepsLines(lines, HtmlRule, IsDoctype);
  }

  /**
   * How one line moves the HTML indent: doctype and comment lines leave it alone (a comment is
   * printed at the current indent), a closing line lowers it by one but not below 0, and it rises,
   * by exactly one, exactly for an opening line of a non-void element that is not closed on it.
   */
  lemma HtmlRuleIndent(indent: nat, line: string)
    ensures IsDoctype(line) ==> HtmlRule(indent, line) == (0, indent)
    ensures StartsWith(line, "<!--") ==> HtmlRule(indent, line) == (indent, indent)
    ensures StartsWith(line, "</") ==> HtmlRule(indent, line) == (if indent == 0 then (0, 0) else (indent - 1, indent - 1))
    ensures HtmlRule(indent, line).1 > indent ==>
      HtmlRule(indent, line) == (indent, indent + 1) && StartsWith(line, "<") && !StartsWith(line, "</") && Opens(line)
    ensures (StartsWith(line, "<") && !IsDoctype(line) && !StartsWith(line, "<!--") && !StartsWith(line, "</")
             && !EndsWithVoidClose(line) && !EndsWith(line, "/>") && Opens(line)) ==> HtmlRule(indent, line) == (indent, indent + 1)
  {
    if StartsWith(line, "<!--") {
      assert Lower(line)[2] == '-';
    }
    if StartsWith(line, "</") {
      assert Lower(line)[1] == '/';
    }
  }
}
