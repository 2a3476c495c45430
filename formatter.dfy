/**
 * The content formatter: detection of JSON, XML and HTML by string heuristics, formatting by a
 * MIME hint with fall-back to detection, the trailing-comma repair of broken JSON, and minification.
 * The JSON codec and the DOM pretty-printer are parameters; every regular expression is written out.
 */
module Formatter {
  import opened Optional
  import opened PyStr
  import opened Rewrite
  import opened Indenter
  import opened Json

  /** The first characters of the three error results; `format_content` tests for them. */
  const JsonErrorMarker: string := "/* JSON Format Error"
  const XmlErrorMarker: string := "<!-- XML Format Error"
  const HtmlErrorMarker: string := "<!-- HTML Format Error"

  /** What `format_xml` puts in front of XML that has no declaration, followed by a line break. */
  const XmlDeclaration: string := "<?xml version=\"1.0\" encoding=\"UTF-8\"?>"

  /** `xml.dom.minidom.parseString(text).toprettyxml(indent="  ")`: the pretty text, or the parse error. */
  datatype DomResult = Pretty(text: string) | DomFailed(message: string)

  type Dom = string -> DomResult

  // ---------------------------------------------------------------------------------------------
  // _is_json

  /** Starts with '{' and ends with '}', or starts with '[' and ends with ']'. */
  predicate Bracketed(t: string)
  {
    (StartsWith(t, "{") && EndsWith(t, "}")) || (StartsWith(t, "[") && EndsWith(t, "]"))
  }

  /** The fallback test for text the decoder rejects. */
  predicate JsonLike(t: string)
  {
    Contains(t, "\"") && (Contains(t, ":") || Contains(t, "[") || Contains(t, "{"))
  }

  /** `_is_json`: bracketed, and either it decodes or it looks like JSON. */
  predicate IsJson(content: string, codec: Codec)
  {
    var t := Strip(content);
    t != [] && Bracketed(t) && (codec.loads(t).Parsed? || JsonLike(t))
  }

  /**
   * Text the decoder rejects counts as JSON exactly when it contains a double quote: the bracket
   * it starts with already satisfies the second half of the fallback test.
   */
  lemma IsJsonExactly(content: string, codec: Codec)
    ensures IsJson(content, codec) <==>
      Bracketed(Strip(content)) && (codec.loads(Strip(content)).Parsed? || Contains(Strip(content), "\""))
  {
    var t := Strip(content);
    if StartsWith(t, "{") {
      StartsWithContains(t, "{");
    }
    if StartsWith(t, "[") {
      StartsWithContains(t, "[");
    }
  }

  // ---------------------------------------------------------------------------------------------
  // _is_xml

  /** The characters of `t` in [a, b) are ASCII letters or digits. */
  predicate AlnumBetween(t: string, a: nat, b: nat)
    requires b <= |t|
  {
    forall m | a <= m < b :: IsAsciiAlnum(t[m])
  }

  /** The class `[>\\s]` of a raw string: '>', a backslash, or the letter 's'. */
  predicate InStartClass(c: char)
  {
    c == '>' || c == '\\' || c == 's'
  }

  /**
   * `re.match(r'^<[a-zA-Z][a-zA-Z0-9]*[>\\s]', t)`: some position j after the first letter ends a
   * run of letters and digits and holds a character of the class.
   */
  predicate XmlStartPattern(t: string)
  {
    |t| >= 2 && t[0] == '<' && IsAsciiLetter(t[1])
    && exists j | 2 <= j < |t| :: AlnumBetween(t, 2, j) && InStartClass(t[j])
  }

  /**
   * Since the name may give back characters, the start pattern holds exactly when the name after
   * '<' and its first letter contains an 's', or is followed by '>' or a backslash. Whitespace
   * after the name does not count.
   */
  lemma {:induction false} XmlStartPatternExactly(t: string)
    requires |t| >= 2 && t[0] == '<' && IsAsciiLetter(t[1])
    ensures var n := AlnumRun(t[2..]);
      XmlStartPattern(t) <==> ('s' in t[2..2 + n] || (2 + n < |t| && (t[2 + n] == '>' || t[2 + n] == '\\')))
  {
    var n := AlnumRun(t[2..]);
    if XmlStartPattern(t) {
      XmlStartMatched(t, n);
    }
    if 's' in t[2..2 + n] || (2 + n < |t| && (t[2 + n] == '>' || t[2 + n] == '\\')) {
      XmlStartMatches(t, n);
    }
  }

  /** A match ends inside the name at an 's', or right after it. */
  lemma XmlStartMatched(t: string, n: nat)
    requires XmlStartPattern(t) && n == AlnumRun(t[2..])
    ensures 's' in t[2..2 + n] || (2 + n < |t| && (t[2 + n] == '>' || t[2 + n] == '\\'))
  {
    var j :| 2 <= j < |t| && AlnumBetween(t, 2, j) && InStartClass(t[j]);
    if j < 2 + n {
      assert t[2..][j - 2] == t[j];
      assert t[2..2 + n][j - 2] == t[j];
    } else if j > 2 + n {
      assert false;
    } else {
      assert t[2 + n] == t[j];
    }
  }

  /** An 's' inside the name, or a '>' or backslash right after it, ends a match. */
  lemma XmlStartMatches(t: string, n: nat)
    requires |t| >= 2 && t[0] == '<' && IsAsciiLetter(t[1]) && n == AlnumRun(t[2..])
    requires 's' in t[2..2 + n] || (2 + n < |t| && (t[2 + n] == '>' || t[2 + n] == '\\'))
    ensures XmlStartPattern(t)
  {
    if 's' in t[2..2 + n] {
      var k :| 0 <= k < n && t[2..2 + n][k] == 's';
      assert t[2 + k] == 's';
      forall m | 2 <= m < 2 + k
        ensures IsAsciiAlnum(t[m])
      {
        assert t[2..][m - 2] == t[m];
      }
      assert AlnumBetween(t, 2, 2 + k);
    } else {
      forall m | 2 <= m < 2 + n
        ensures IsAsciiAlnum(t[m])
      {
        assert t[2..][m - 2] == t[m];
      }
      assert AlnumBetween(t, 2, 2 + n);
    }
  }

  /** `<([a-zA-Z][a-zA-Z0-9]*)(?:\s|>)` matches at i. */
  predicate OpenTagAt(t: string, i: nat)
  {
    i + 1 < |t| && t[i] == '<' && IsAsciiLetter(t[i + 1])
    && var e := i + 2 + AlnumRun(t[i + 2..]);
    e < |t| && (IsSpace(t[e]) || t[e] == '>')
  }

  /** `</([a-zA-Z][a-zA-Z0-9]*)>` matches at i. */
  predicate CloseTagAt(t: string, i: nat)
  {
    i + 2 < |t| && t[i] == '<' && t[i + 1] == '/' && IsAsciiLetter(t[i + 2])
    && var e := i + 3 + AlnumRun(t[i + 3..]);
    e < |t| && t[e] == '>'
  }

  /** One of the five start patterns of `_is_xml`. */
  predicate XmlStart(t: string)
  {
    StartsWith(t, "<?xml") || StartsWith(t, "<soap:") || StartsWith(t, "<rss") || StartsWith(t, "<feed")
    || XmlStartPattern(t)
  }

  /** `_is_xml`: a start pattern, and `findall` finds an opening or a closing tag somewhere. */
  predicate IsXml(content: string)
  {
    var t := Strip(content);
    t != [] && XmlStart(t)
    && ((exists i | 0 <= i < |t| :: OpenTagAt(t, i)) || (exists i | 0 <= i < |t| :: CloseTagAt(t, i)))
  }

  /** XML is only ever detected in text whose first non-blank character is '<'. */
  lemma IsXmlStartsWithAngle(content: string)
    ensures IsXml(content) ==> StartsWith(Strip(content), "<")
  {
    var t := Strip(content);
    if IsXml(content) {
      assert t[..1] == [t[0]];
      if StartsWith(t, "<?xml") {
        assert t[..5][0] == t[0];
      } else if StartsWith(t, "<soap:") {
        assert t[..6][0] == t[0];
      } else if StartsWith(t, "<rss") {
        assert t[..4][0] == t[0];
      } else if StartsWith(t, "<feed") {
        assert t[..5][0] == t[0];
      }
    }
  }

  /**
   * An opening tag with an attribute is not XML when its name has no 's': the name of
   * `<note id="1">` is followed by a space, which the class does not hold.
   */
  lemma XmlAttributeRejected()
    ensures !XmlStartPattern("<note id=\"1\">")
  {
    var a := "<note id=\"1\">";
    assert a[2] == 'o' && a[3] == 't' && a[4] == 'e' && a[5] == ' ';
    forall j | 2 <= j < |a|
      ensures !(AlnumBetween(a, 2, j) && InStartClass(a[j]))
    {
      if j > 5 {
        assert !IsAsciiAlnum(a[5]);
      }
    }
  }

  /** The same tag is XML once its name holds an 's' (`<notes id="1">`). */
  lemma XmlAttributeAccepted()
    ensures XmlStartPattern("<notes id=\"1\">")
  {
    var b := "<notes id=\"1\">";
    assert b[5] == 's';
    assert AlnumBetween(b, 2, 5);
  }

  // ---------------------------------------------------------------------------------------------
  // _is_html

  const HtmlPatterns: seq<string> :=
    ["<!doctype html", "<html", "<head", "<body", "<div", "<p>", "<span", "<h1", "<h2", "<table", "<style", "<script"]

  /** `_is_html`: the lower-cased, stripped text contains one of the patterns. */
  predicate IsHtml(content: string)
  {
    var t := Strip(Lower(content));
    t != [] && exists k | 0 <= k < |HtmlPatterns| :: Contains(t, HtmlPatterns[k])
  }

  /**
   * HTML detection is a case-insensitive substring test over the patterns: neither the stripping
   * nor the emptiness test changes the outcome.
   */
  lemma IsHtmlExactly(content: string)
    ensures IsHtml(content) <==> exists k | 0 <= k < |HtmlPatterns| :: Contains(Lower(content), HtmlPatterns[k])
  {
    var l := Lower(content);
    forall k | 0 <= k < |HtmlPatterns|
      ensures Contains(Strip(l), HtmlPatterns[k]) <==> Contains(l, HtmlPatterns[k])
    {
      ContainsStrip(l, HtmlPatterns[k]);
    }
  }

  // ---------------------------------------------------------------------------------------------
  // format_json

  /** `f"/* JSON Format Error: {message} */\n{text}"` */
  function JsonError(message: string, text: string): (r: string)
    ensures StartsWith(r, JsonErrorMarker)
  {
    JsonErrorMarker + ": " + message + " */\n" + text
  }

  /**
   * `format_json`: the indented dump of the decoded text; after a decoding error, of the text with
   * its trailing commas removed; when that fails too, the first error and the repaired text.
   */
  function FormatJson(content: string, codec: Codec): string
  {
    match codec.loads(content)
    case Parsed(v) => codec.dumpsIndented(v)
    case LoadFailed(DecodeError(m)) =>
      var repaired := RepairTrailingCommas(content);
      (match codec.loads(repaired)
       case Parsed(v) => codec.dumpsIndented(v)
       case LoadFailed(_) => JsonError(m, repaired))
    case LoadFailed(OtherFailure(m)) => JsonError(m, content)
  }

  /**
   * The repair only drops commas and whitespace: if the repaired text decodes the result is its
   * dump, and otherwise the error result carries the first error and the repaired text, which
   * agrees with the input on every other character and is the input itself when it has no comma.
   */
  lemma FormatJsonRepair(content: string, codec: Codec, m: string)
    requires codec.loads(content) == LoadFailed(DecodeError(m))
    ensures var repaired := RepairTrailingCommas(content);
      && Keep(repaired, Solid) == Keep(content, Solid)
      && (',' !in content ==> repaired == content)
      && (codec.loads(repaired).Parsed? ==> FormatJson(content, codec) == codec.dumpsIndented(codec.loads(repaired).value))
      && (codec.loads(repaired).LoadFailed? ==> FormatJson(content, codec) == JsonError(m, repaired))
  {
    RepairKeepsSolid(content);
    if ',' !in content {
      DropCommaWithoutComma(content, '}');
      DropCommaWithoutComma(content, ']');
    }
  }

  /** The error result starts with the marker exactly when neither text decodes. */
  lemma FormatJsonFails(content: string, codec: Codec)
    requires forall v :: !StartsWith(codec.dumpsIndented(v), JsonErrorMarker)
    ensures StartsWith(FormatJson(content, codec), JsonErrorMarker) <==>
      (codec.loads(content).LoadFailed? && (codec.loads(content).error.DecodeError? ==>
         codec.loads(RepairTrailingCommas(content)).LoadFailed?))
  {
  }

  // ---------------------------------------------------------------------------------------------
  // format_xml and format_html

  /** The text `format_xml` hands to the parser: stripped, with the declaration added if missing. */
  function XmlDocument(content: string): (d: string)
    ensures StartsWith(d, "<?xml")
  {
    var c := Strip(content);
    if StartsWith(c, "<?xml") then c
    else
      var d := XmlDeclaration + "\n" + c;
      assert d[0] == '<' && d[1] == '?' && d[2] == 'x' && d[3] == 'm' && d[4] == 'l';
      assert d[..5] == "<?xml";
      d
  }

  /** `[line for line in lines if line.strip()]` */
  function DropBlankLines(lines: seq<string>): seq<string>
    decreases |lines|
  {
    if lines == [] then []
    else (if Strip(lines[0]) == [] then [] else [lines[0]]) + DropBlankLines(lines[1..])
  }

  /** Exactly the blank lines are dropped (the order is kept by construction). */
  lemma {:induction false} DropBlankLinesKeeps(lines: seq<string>)
    ensures forall l :: l in DropBlankLines(lines) <==> l in lines && Strip(l) != []
    decreases |lines|
  {
    if lines != [] {
      DropBlankLinesKeeps(lines[1..]);
      assert lines == [lines[0]] + lines[1..];
    }
  }

  /**
   * `format_xml`: the DOM's pretty text without its blank lines; if the DOM rejects the document,
   * the manual indenter's layout of that same declaration-prefixed document.
   */
  function FormatXml(content: string, dom: Dom): string
  {
    var d := XmlDocument(content);
    match dom(d)
    case Pretty(text) => Join(DropBlankLines(Split(text, '\n')), "\n")
    case DomFailed(_) => XmlLayout(d)
  }

  /**
   * The fallback cannot fail, so the XML error result is never produced: when the DOM rejects the
   * document, the result starts with the XML declaration and not with the error marker.
   */
  lemma FormatXmlFallback(content: string, dom: Dom)
    requires dom(XmlDocument(content)).DomFailed?
    ensures StartsWith(FormatXml(content, dom), "<?xml")
    ensures !StartsWith(FormatXml(content, dom), XmlErrorMarker)
  {
    XmlLayoutKeepsDeclaration(XmlDocument(content));
    DeclarationIsNoMarker(FormatXml(content, dom));
  }

  lemma DeclarationIsNoMarker(r: string)
    requires StartsWith(r, "<?xml")
    ensures !StartsWith(r, XmlErrorMarker)
  {
    assert r[..5][1] == '?';
  }

  /** The DOM's output is kept line for line, blank lines dropped. */
  lemma FormatXmlPretty(content: string, dom: Dom)
    requires dom(XmlDocument(content)).Pretty?
    ensures var lines := DropBlankLines(Split(dom(XmlDocument(content)).text, '\n'));
      FormatXml(content, dom) == Join(lines, "\n")
      && (forall k :: 0 <= k < |lines| ==> Strip(lines[k]) != [] && '\n' !in lines[k])
  {
    var lines := Split(dom(XmlDocument(content)).text, '\n');
    DropBlankLinesKeeps(lines);
    forall k | 0 <= k < |DropBlankLines(lines)|
      ensures '\n' !in DropBlankLines(lines)[k]
    {
      assert DropBlankLines(lines)[k] in DropBlankLines(lines);
      assert DropBlankLines(lines)[k] in lines;
    }
  }

  /** `format_html`; the manual formatter raises nothing, so this is its layout. */
  function FormatHtml(content: string): string
  {
    HtmlLayout(content)
  }

  // ---------------------------------------------------------------------------------------------
  // format_content

  /** `content_type` is present and not empty, and contains `name`. */
  predicate HintNames(hint: Option<string>, name: string)
  {
    hint.Some? && hint.value != [] && Contains(hint.value, name)
  }

  /**
   * The first half of `format_content` on stripped text: the formatter the hint names, by the
   * priority json, xml, html, unless its result starts with that formatter's error marker.
   */
  function ByHint(c: string, hint: Option<string>, codec: Codec, dom: Dom): Option<string>
  {
    if HintNames(hint, "json") then
      var r := FormatJson(c, codec);
      if StartsWith(r, JsonErrorMarker) then None else Some(r)
    else if HintNames(hint, "xml") then
      var r := FormatXml(c, dom);
      if StartsWith(r, XmlErrorMarker) then None else Some(r)
    else if HintNames(hint, "html") then
      var r := FormatHtml(c);
      if StartsWith(r, HtmlErrorMarker) then None else Some(r)
    else None
  }

  /** The second half: detection in the order JSON, XML, HTML, else the text itself. */
  function ByDetection(c: string, codec: Codec, dom: Dom): string
  {
    if IsJson(c, codec) then FormatJson(c, codec)
    else if IsXml(c) then FormatXml(c, dom)
    else if IsHtml(c) then FormatHtml(c)
    else c
  }

  /** `format_content` */
  function FormatContent(content: string, hint: Option<string>, codec: Codec, dom: Dom): string
  {
    if Strip(content) == [] then content
    else
      var c := Strip(content);
      match ByHint(c, hint, codec, dom)
      case Some(r) => r
      case None => ByDetection(c, codec, dom)
  }

  /** Empty and whitespace-only content comes back unchanged, whatever the hint. */
  lemma FormatContentBlank(content: string, hint: Option<string>, codec: Codec, dom: Dom)
    requires AllSpace(content)
    ensures FormatContent(content, hint, codec, dom) == content
  {
    StripTrims(content);
  }

  /** Other content is stripped first: surrounding whitespace never changes the result. */
  lemma FormatContentStrips(content: string, hint: Option<string>, codec: Codec, dom: Dom)
    requires !AllSpace(content)
    ensures FormatContent(content, hint, codec, dom) == FormatContent(Strip(content), hint, codec, dom)
  {
    StripTrims(content);
    StripIdempotent(content);
  }

  /**
   * Without a usable hint the result is the detected format's result, tried in the order JSON,
   * XML, HTML, and the stripped text when none is detected. The auto-detected JSON path keeps an
   * error result.
   */
  lemma FormatContentDetects(content: string, hint: Option<string>, codec: Codec, dom: Dom)
    requires !AllSpace(content)
    requires !HintNames(hint, "json") && !HintNames(hint, "xml") && !HintNames(hint, "html")
    ensures var c := Strip(content); var r := FormatContent(content, hint, codec, dom);
      && (IsJson(content, codec) ==> r == FormatJson(c, codec))
      && (!IsJson(content, codec) && IsXml(content) ==> r == FormatXml(c, dom))
      && (!IsJson(content, codec) && !IsXml(content) && IsHtml(content) ==> r == FormatHtml(c))
      && (!IsJson(content, codec) && !IsXml(content) && !IsHtml(content) ==> r == c)
  {
    StripTrims(content);
    DetectionIgnoresStrip(content, codec);
    assert ByHint(Strip(content), hint, codec, dom) == None;
  }

  /** The detectors strip their argument themselves. */
  lemma DetectionIgnoresStrip(content: string, codec: Codec)
    ensures IsJson(Strip(content), codec) == IsJson(content, codec)
    ensures IsXml(Strip(content)) == IsXml(content)
    ensures IsHtml(Strip(content)) == IsHtml(content)
  {
    StripIdempotent(content);
    StripLowerCommute(content);
  }

  /**
   * A hint containing "json" decides before any other word in it: the result is the JSON
   * formatter's, unless that is an error result, in which case detection decides.
   */
  lemma FormatContentJsonHint(content: string, hint: Option<string>, codec: Codec, dom: Dom)
    requires !AllSpace(content) && HintNames(hint, "json")
    ensures var c := Strip(content); var r := FormatContent(content, hint, codec, dom);
      && (!StartsWith(FormatJson(c, codec), JsonErrorMarker) ==> r == FormatJson(c, codec))
      && (StartsWith(FormatJson(c, codec), JsonErrorMarker) ==> r == ByDetection(c, codec, dom))
  {
    StripTrims(content);
  }

  /**
   * An XML hint (without "json") never falls through to detection when the DOM rejects the
   * document: the fallback indenter's layout is the result.
   */
  lemma FormatContentXmlHintFallback(content: string, hint: Option<string>, codec: Codec, dom: Dom)
    requires !AllSpace(content) && !HintNames(hint, "json") && HintNames(hint, "xml")
    requires dom(XmlDocument(Strip(content))).DomFailed?
    ensures FormatContent(content, hint, codec, dom) == XmlLayout(XmlDocument(Strip(content)))
  {
    StripTrims(content);
    FormatXmlFallback(Strip(content), dom);
  }

  /** Lower-casing and stripping commute, as stripping only looks at whitespace. */
  lemma StripLowerCommute(s: string)
    ensures Strip(Lower(Strip(s))) == Strip(Lower(s))
  {
    StripLower(s);
    StripIdempotent(Lower(s));
  }

  // ---------------------------------------------------------------------------------------------
  // minify_content

  /** The XML/HTML branch: comments removed, whitespace runs collapsed, gaps between tags closed, stripped. */
  function MinifyMarkup(content: string): string
  {
    Strip(CloseGaps(CollapseSpace(RemoveComments(content))))
  }

  /** `minify_content` */
  function MinifyContent(content: string, hint: Option<string>, codec: Codec): string
  {
    if content == [] then content
    else if IsJson(content, codec) || HintNames(hint, "json") then
      match codec.loads(content)
      case Parsed(v) => codec.dumpsCompact(v)
      case LoadFailed(_) => content
    else if IsXml(content) || IsHtml(content) then MinifyMarkup(content)
    else content
  }

  /**
   * Minified markup has no whitespace at either end, no two whitespace characters next to each
   * other, no whitespace but ' ', and no whitespace between '>' and '<'.
   */
  lemma MinifyMarkupShape(content: string)
    ensures var r := MinifyMarkup(content);
      && (r == [] || (!IsSpace(r[0]) && !IsSpace(r[|r| - 1])))
      && NoDoubleSpace(r) && OnlyPlainSpaces(r) && NoGap(r)
  {
    var c := CollapseSpace(RemoveComments(content));
    CollapseSpaceShape(RemoveComments(content));
    CloseGapsShape(c);
    var g := CloseGaps(c);
    StripTrims(g);
    StripKeepsShape(g);
  }

  /** Markup without comments keeps every non-whitespace character, in order. */
  lemma MinifyMarkupKeepsText(content: string)
    requires !Contains(content, "<!--")
    ensures Keep(MinifyMarkup(content), NotSpace) == Keep(content, NotSpace)
  {
    RemoveCommentsWithoutOpening(content);
    CollapseSpaceKeepsText(content);
    CloseGapsKeepsText(CollapseSpace(content));
    StripKeepsText(CloseGaps(CollapseSpace(content)));
  }

  /** A leading comment is removed entirely (when its body has no earlier "-->"). */
  lemma MinifyMarkupDropsComment(body: string, rest: string)
    requires !Contains(body, "-->")
    ensures MinifyMarkup("<!--" + body + "-->" + rest) == MinifyMarkup(rest)
  {
    RemoveLeadingComment(body, rest);
  }

  /**
   * A comment anywhere after comment-free text is removed entirely before the whitespace passes
   * run; for `<a><!-- x --></a>` that leaves `<a></a>`.
   */
  lemma MinifyMarkupDropsInnerComment(p: string, body: string, rest: string)
    requires !Contains(p, "<!--") && !Contains(body, "-->")
    ensures MinifyMarkup(p + "<!--" + body + "-->" + rest) == Strip(CloseGaps(CollapseSpace(p + RemoveComments(rest))))
  {
    RemoveCommentAfter(p, body, rest);
  }

  /**
   * The JSON branch wins over markup: when it is taken the result is the compact dump, or the
   * unchanged input if it does not decode; markup minification is never tried.
   */
  lemma MinifyContentJson(content: string, hint: Option<string>, codec: Codec)
    requires content != [] && (IsJson(content, codec) || HintNames(hint, "json"))
    ensures codec.loads(content).Parsed? ==> MinifyContent(content, hint, codec) == codec.dumpsCompact(codec.loads(content).value)
    ensures codec.loads(content).LoadFailed? ==> MinifyContent(content, hint, codec) == content
  {
  }

  /** Empty content, and content detected as neither JSON, XML nor HTML, comes back unchanged. */
  lemma MinifyContentUnchanged(content: string, hint: Option<string>, codec: Codec)
    requires content == [] || (!IsJson(content, codec) && !HintNames(hint, "json") && !IsXml(content) && !IsHtml(content))
    ensures MinifyContent(content, hint, codec) == content
  {
  }
}
