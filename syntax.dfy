/**
 * `SyntaxHighlighter.detect_language`: the GtkSource language id for a response body, decided by the
 * Content-Type header first and by the shape of the body second. The JSON decoder is a parameter.
 */
module Syntax {
  import opened Optional
  import opened PyStr
  import opened Json

  /** The four language ids the classifier can answer. */
  predicate IsLanguageId(id: string)
  {
    id == "json" || id == "xml" || id == "html" || id == "text"
  }

  /** The language the Content-Type header names, by the priority json, xml, html. */
  function HintLanguage(contentType: Option<string>): Option<string>
  {
    if contentType.None? || contentType.value == [] then None
    else
      var mime := Lower(contentType.value);
      if Contains(mime, "json") then Some("json")
      else if Contains(mime, "xml") then Some("xml")
      else if Contains(mime, "html") then Some("html")
      else None
  }

  /** `detect_language` */
  function DetectLanguage(content: string, contentType: Option<string>, loads: string -> Loaded): (id: string)
    ensures IsLanguageId(id)
  {
    if content == [] then "text"
    else
      var c := Strip(content);
      if HintLanguage(contentType).Some? then HintLanguage(contentType).value
      else if (StartsWith(c, "{") || StartsWith(c, "[")) && loads(c).Parsed? then "json"
      else if StartsWith(c, "<?xml") || StartsWith(c, "<") then (if Contains(Lower(c), "<html") then "html" else "xml")
      else "text"
  }

  /** Empty content is text whatever the header; otherwise a header naming a language decides. */
  lemma DetectByHint(content: string, contentType: Option<string>, loads: string -> Loaded)
    ensures content == [] ==> DetectLanguage(content, contentType, loads) == "text"
    ensures content != [] && HintLanguage(contentType).Some? ==>
      DetectLanguage(content, contentType, loads) == HintLanguage(contentType).value
  {
  }

  /** The header test ignores letter case and prefers json to xml to html. */
  lemma HintCaseInsensitive(contentType: string)
    requires contentType != []
    ensures Contains(Lower(contentType), "json") ==> HintLanguage(Some(contentType)) == Some("json")
    ensures !Contains(Lower(contentType), "json") && Contains(Lower(contentType), "xml") ==>
      HintLanguage(Some(contentType)) == Some("xml")
    ensures HintLanguage(Some(contentType)) == HintLanguage(Some(Lower(contentType)))
  {
    LowerIdempotent(contentType);
  }

  /** `c` cannot start both like JSON and like markup. */
  lemma ShapesExclusive(c: string)
    ensures (StartsWith(c, "{") || StartsWith(c, "[")) ==> !StartsWith(c, "<")
  {
    if StartsWith(c, "{") || StartsWith(c, "[") {
      assert c[..1][0] == c[0];
    }
  }

  /**
   * Without a usable header: a body that starts like JSON is json when it decodes and otherwise
   * text, since it cannot also start like markup; a body that starts with '<' is html when it
   * contains "<html" in any letter case and xml otherwise; anything else is text.
   */
  lemma DetectByShape(content: string, contentType: Option<string>, loads: string -> Loaded)
    requires HintLanguage(contentType).None?
    ensures var c := Strip(content); var id := DetectLanguage(content, contentType, loads);
      && ((StartsWith(c, "{") || StartsWith(c, "[")) ==> (id == "json" <==> loads(c).Parsed?) && (id == "json" || id == "text"))
      && (StartsWith(c, "<") ==> id == (if Contains(Lower(c), "<html") then "html" else "xml"))
      && (!StartsWith(c, "{") && !StartsWith(c, "[") && !StartsWith(c, "<") ==> id == "text")
  {
    var c := Strip(content);
    ShapesExclusive(c);
    if StartsWith(c, "<") {
      assert c[..1][0] == c[0];
    }
  }

  /** Blank content is text when no header names a language. */
  lemma DetectBlank(content: string, contentType: Option<string>, loads: string -> Loaded)
    requires HintLanguage(contentType).None?
    requires AllSpace(content)
    ensures DetectLanguage(content, contentType, loads) == "text"
  {
    var c := Strip(content);
    StripTrims(content);
    assert c == [];
  }
}
