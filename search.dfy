/**
 * `SearchPanel`: finds every occurrence of a query in the text of a response view, highlights them,
 * and moves a cursor through them with wrap-around. Text positions are character offsets; the
 * case-insensitive comparison of the text widget is a parameter `fold`, two characters matching
 * when they fold to the same character.
 */
module Search {
  import opened Optional
  import opened PyStr

  /** A match, as the offsets of its first character and of the character after it. */
  type Span = (nat, nat)

  const IdlePlaceholder: string := "Search in response..."

  /** The query occurs, up to case, at offset `p`. */
  predicate MatchAt(text: string, query: string, fold: char -> char, p: nat)
  {
    p + |query| <= |text| && forall k :: 0 <= k < |query| ==> fold(text[p + k]) == fold(query[k])
  }

  /** `forward_search` from `start`: the leftmost occurrence at or after `start`. */
  function ForwardSearch(text: string, query: string, fold: char -> char, start: nat): (r: Option<Span>)
    ensures r.Some? ==> start <= r.value.0 && r.value.1 == r.value.0 + |query| && MatchAt(text, query, fold, r.value.0)
    ensures r.Some? ==> forall p :: start <= p < r.value.0 ==> !MatchAt(text, query, fold, p)
    ensures r.None? ==> forall p :: start <= p ==> !MatchAt(text, query, fold, p)
    decreases |text| - start
  {
    if start + |query| > |text| then None
    else if MatchAt(text, query, fold, start) then Some((start, start + |query|))
    else ForwardSearch(text, query, fold, start + 1)
  }

  /** The matches `highlight_all_matches` records: each search resumes at the end of the previous match. */
  function AllMatches(text: string, query: string, fold: char -> char, from: nat): seq<Span>
    requires query != []
    decreases |text| - from
  {
    match ForwardSearch(text, query, fold, from)
    case None => []
    case Some(m) => [m] + AllMatches(text, query, fold, m.1)
  }

  /** Every recorded span is an occurrence at or after `from`. */
  lemma {:induction false} AllMatchesSound(text: string, query: string, fold: char -> char, from: nat)
    requires query != []
    ensures forall m :: m in AllMatches(text, query, fold, from) ==>
      from <= m.0 && m.1 == m.0 + |query| && MatchAt(text, query, fold, m.0)
    decreases |text| - from
  {
    var found := ForwardSearch(text, query, fold, from);
    if found.Some? {
      AllMatchesSound(text, query, fold, found.value.1);
      assert AllMatches(text, query, fold, from) == [found.value] + AllMatches(text, query, fold, found.value.1);
    }
  }

  /** The spans are increasing and do not overlap, since each search resumes where the last match ended. */
  lemma {:induction false} AllMatchesOrdered(text: string, query: string, fold: char -> char, from: nat)
    requires query != []
    ensures forall k :: 0 <= k < |AllMatches(text, query, fold, from)| - 1 ==>
      AllMatches(text, query, fold, from)[k].0 < AllMatches(text, query, fold, from)[k].1 <= AllMatches(text, query, fold, from)[k + 1].0
    decreases |text| - from
  {
    var ms := AllMatches(text, query, fold, from);
    var found := ForwardSearch(text, query, fold, from);
    if found.Some? {
      var rest := AllMatches(text, query, fold, found.value.1);
      AllMatchesOrdered(text, query, fold, found.value.1);
      AllMatchesSound(text, query, fold, found.value.1);
      assert ms == [found.value] + rest;
      forall k | 0 <= k < |ms| - 1
        ensures ms[k].0 < ms[k].1 <= ms[k + 1].0
      {
        if k == 0 {
          assert ms[1] == rest[0] && rest[0] in rest;
        } else {
          assert ms[k] == rest[k - 1] && ms[k + 1] == rest[k];
        }
      }
    }
  }

  /** Offset `p` lies inside one of the spans. */
  predicate Covered(ms: seq<Span>, p: nat)
  {
    exists k :: 0 <= k < |ms| && ms[k].0 <= p < ms[k].1
  }

  /**
   * No occurrence is missed: every occurrence at or after `from` starts inside a recorded span,
   * so the only ones not recorded overlap an earlier match.
   */
  lemma {:induction false} AllMatchesComplete(text: string, query: string, fold: char -> char, from: nat)
    requires query != []
    ensures forall p :: from <= p && MatchAt(text, query, fold, p) ==> Covered(AllMatches(text, query, fold, from), p)
    decreases |text| - from
  {
    var ms := AllMatches(text, query, fold, from);
    var found := ForwardSearch(text, query, fold, from);
    if found.Some? {
      var m := found.value;
      var rest := AllMatches(text, query, fold, m.1);
      AllMatchesComplete(text, query, fold, m.1);
      assert ms == [m] + rest;
      forall p | from <= p && MatchAt(text, query, fold, p)
        ensures Covered(ms, p)
      {
        if p < m.1 {
          assert 0 < |ms| && ms[0].0 <= p < ms[0].1;
        } else {
          assert Covered(rest, p);
          var k :| 0 <= k < |rest| && rest[k].0 <= p < rest[k].1;
          assert ms[k + 1] == rest[k];
          assert 0 <= k + 1 < |ms| && ms[k + 1].0 <= p < ms[k + 1].1;
        }
      }
    }
  }

  /** The cursor after `on_next_match`. */
  function NextIndex(c: nat, n: nat): (r: nat)
    requires c < n
    ensures r < n
  {
    (c + 1) % n
  }

  /** The cursor after `on_prev_match`; Python's `%` floors, like Dafny's for a positive divisor. */
  function PrevIndex(c: nat, n: nat): (r: nat)
    requires c < n
    ensures r < n
  {
    (c - 1) % n
  }

  lemma NextIndexValue(c: nat, n: nat)
    requires c < n
    ensures NextIndex(c, n) == if c == n - 1 then 0 else c + 1
  {
    if c == n - 1 {
      assert c + 1 == 1 * n + 0;
    } else {
      assert c + 1 == 0 * n + (c + 1);
    }
  }

  lemma PrevIndexValue(c: nat, n: nat)
    requires c < n
    ensures PrevIndex(c, n) == if c == 0 then n - 1 else c - 1
  {
    if c == 0 {
      assert c - 1 == -1 * n + (n - 1);
    } else {
      assert c - 1 == 0 * n + (c - 1);
    }
  }

  /** Next and previous undo each other and wrap around at both ends. */
  lemma NavigationWraps(c: nat, n: nat)
    requires c < n
    ensures PrevIndex(NextIndex(c, n), n) == c && NextIndex(PrevIndex(c, n), n) == c
    ensures c == n - 1 ==> NextIndex(c, n) == 0
    ensures c == 0 ==> PrevIndex(c, n) == n - 1
  {
    NextIndexValue(c, n);
    PrevIndexValue(c, n);
    NextIndexValue(PrevIndex(c, n), n);
    PrevIndexValue(NextIndex(c, n), n);
  }

  /** The entry's placeholder: the 1-based position of the cursor and the number of matches. */
  function Placeholder(matches: seq<Span>, cursor: Option<nat>): string
  {
    if |matches| > 0 && cursor.Some? then "Search... (" + NatToString(cursor.value + 1) + "/" + NatToString(|matches|) + ")"
    else IdlePlaceholder
  }

  /** The count can be read back from the placeholder, and without a cursor the idle text shows. */
  lemma PlaceholderShowsCount(matches: seq<Span>, cursor: Option<nat>)
    ensures |matches| > 0 && cursor.Some? ==>
      exists a: string, b: string :: Placeholder(matches, cursor) == "Search... (" + a + "/" + b + ")"
        && DecimalValue(a) == cursor.value + 1 && DecimalValue(b) == |matches|
    ensures |matches| == 0 || cursor.None? ==> Placeholder(matches, cursor) == IdlePlaceholder
  {
    if |matches| > 0 && cursor.Some? {
      var a, b := NatToString(cursor.value + 1), NatToString(|matches|);
      DecimalRoundTrip(cursor.value + 1);
      DecimalRoundTrip(|matches|);
      assert Placeholder(matches, cursor) == "Search... (" + a + "/" + b + ")";
    }
  }

  /**
   * The loop of `highlight_all_matches`: search forward from the start of the buffer, record the
   * match, and resume at its end until no match is left.
   */
  method FindMatches(buffer: string, searchText: string, fold: char -> char) returns (matches: seq<Span>)
    requires searchText != []
    ensures matches == AllMatches(buffer, searchText, fold, 0)
  {
    var start: nat := 0;
    matches := [];
    while true
      invariant matches + AllMatches(buffer, searchText, fold, start) == AllMatches(buffer, searchText, fold, 0)
      decreases |buffer| - start
    {
      var found := ForwardSearch(buffer, searchText, fold, start);
      if found.None? {
        assert AllMatches(buffer, searchText, fold, start) == [];
        break;
      }
      var (matchStart, matchEnd) := found.value;
      assert AllMatches(buffer, searchText, fold, start) == [(matchStart, matchEnd)] + AllMatches(buffer, searchText, fold, matchEnd);
      matches := matches + [(matchStart, matchEnd)];
      start := matchEnd;
    }
  }

  class SearchPanel {
    /** the text of the searched buffer */
    var text: string
    const fold: char -> char
    var matches: seq<Span>
    var currentMatch: Option<nat>
    /** the spans carrying the highlight tag */
    var highlights: seq<Span>
    /** the buffer's selection */
    var selection: Span
    var entryText: string
    var placeholder: string
    var prevSensitive: bool
    var nextSensitive: bool
    var visible: bool

    /** The cursor, when set, names a match. */
    ghost predicate Valid()
      reads this
    {
      currentMatch.Some? ==> currentMatch.value < |matches|
    }

    constructor(text: string, fold: char -> char)
      ensures Valid() && this.text == text && this.fold == fold
      ensures matches == [] && currentMatch == None && highlights == [] && selection == (0, 0)
      ensures entryText == "" && placeholder == IdlePlaceholder && !prevSensitive && !nextSensitive && visible
    {
      this.text := text;
      this.fold := fold;
      matches := [];
      currentMatch := None;
      highlights := [];
      selection := (0, 0);
      entryText := "";
      placeholder := IdlePlaceholder;
      prevSensitive := false;
      nextSensitive := false;
      visible := true;
    }

    method ClearHighlights()
      modifies this
      ensures Valid() && matches == [] && currentMatch == None && highlights == [] && selection == (0, 0)
      ensures placeholder == IdlePlaceholder && !prevSensitive && !nextSensitive
      ensures text == old(text) && entryText == old(entryText) && visible == old(visible)
    {
      highlights := [];
      selection := (0, 0);
      matches := [];
      currentMatch := None;
      UpdateButtons();
    }

    /** The query is the stripped entry text; with no query no match is left and no cursor set. */
    method OnSearchChanged()
      modifies this
      ensures var query := Strip(old(entryText));
        && Valid()
        && matches == (if query == [] then [] else AllMatches(text, query, fold, 0))
        && highlights == matches
        && currentMatch == (if matches != [] then Some(0) else None)
        && selection == (if matches != [] then matches[0] else (0, 0))
        && placeholder == Placeholder(matches, currentMatch)
        && prevSensitive == nextSensitive == (matches != [])
      ensures text == old(text) && entryText == old(entryText) && visible == old(visible)
    {
      var searchText := Strip(entryText);
      ClearHighlights();
      if searchText != [] {
        HighlightAllMatches(searchText);
        if matches != [] {
          currentMatch := Some(0);
          selection := matches[0];
        }
        UpdateButtons();
      } else {
        UpdateButtons();
      }
    }

    /** The matches are collected by `FindMatches`, and each gets the highlight tag. */
    method HighlightAllMatches(searchText: string)
      requires searchText != []
      modifies this
      ensures matches == AllMatches(text, searchText, fold, 0)
      ensures highlights == old(highlights) + matches
      ensures text == old(text) && currentMatch == old(currentMatch) && selection == old(selection)
      ensures entryText == old(entryText) && placeholder == old(placeholder) && visible == old(visible)
      ensures prevSensitive == old(prevSensitive) && nextSensitive == old(nextSensitive)
    {
      var found := FindMatches(text, searchText, fold);
      matches := found;
      highlights := highlights + found;
    }

    method OnNextMatch()
      requires Valid()
      modifies this
      ensures Valid() && matches == old(matches) && highlights == old(highlights) && text == old(text)
      ensures old(matches) == [] || old(currentMatch).None? ==>
        && currentMatch == old(currentMatch) && selection == old(selection) && placeholder == old(placeholder)
        && prevSensitive == old(prevSensitive) && nextSensitive == old(nextSensitive)
      ensures old(matches) != [] && old(currentMatch).Some? ==>
        && currentMatch == Some(NextIndex(old(currentMatch).value, |matches|))
        && selection == matches[currentMatch.value]
        && placeholder == Placeholder(matches, currentMatch)
        && prevSensitive && nextSensitive
      ensures entryText == old(entryText) && visible == old(visible)
    {
      if matches == [] || currentMatch == None {
        return;
      }
      currentMatch := Some((currentMatch.value + 1) % |matches|);
      selection := matches[currentMatch.value];
      UpdateButtons();
    }

    method OnPrevMatch()
      requires Valid()
      modifies this
      ensures Valid() && matches == old(matches) && highlights == old(highlights) && text == old(text)
      ensures old(matches) == [] || old(currentMatch).None? ==>
        && currentMatch == old(currentMatch) && selection == old(selection) && placeholder == old(placeholder)
        && prevSensitive == old(prevSensitive) && nextSensitive == old(nextSensitive)
      ensures old(matches) != [] && old(currentMatch).Some? ==>
        && currentMatch == Some(PrevIndex(old(currentMatch).value, |matches|))
        && selection == matches[currentMatch.value]
        && placeholder == Placeholder(matches, currentMatch)
        && prevSensitive && nextSensitive
      ensures entryText == old(entryText) && visible == old(visible)
    {
      if matches == [] || currentMatch == None {
        return;
      }
      currentMatch := Some((currentMatch.value - 1) % |matches|);
      selection := matches[currentMatch.value];
      UpdateButtons();
    }

    method UpdateButtons()
      modifies this
      ensures prevSensitive == nextSensitive == (matches != [])
      ensures placeholder == Placeholder(matches, currentMatch)
      ensures text == old(text) && matches == old(matches) && currentMatch == old(currentMatch)
      ensures highlights == old(highlights) && selection == old(selection)
      ensures entryText == old(entryText) && visible == old(visible)
    {
      var hasMatches := matches != [];
      prevSensitive := hasMatches;
      nextSensitive := hasMatches;
      if hasMatches && currentMatch.Some? {
        var countText := NatToString(currentMatch.value + 1) + "/" + NatToString(|matches|);
        placeholder := "Search... (" + countText + ")";
      } else {
        placeholder := IdlePlaceholder;
      }
    }

    method OnCloseSearch()
      modifies this
      ensures Valid() && matches == [] && currentMatch == None && highlights == []
      ensures entryText == "" && !visible && placeholder == IdlePlaceholder && text == old(text)
      ensures selection == (0, 0) && !prevSensitive && !nextSensitive
    {
      ClearHighlights();
      entryText := "";
      visible := false;
    }
  }
}
