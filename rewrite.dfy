/**
 * The specific regular-expression substitutions the formatter applies, each written out as a
 * left-to-right scan with the same match and resume positions as Python's `re.sub`.
 */
module Rewrite {
  import opened Optional
  import opened PyStr

  /** The characters of `s` that satisfy `keep`, in order. */
  function Keep(s: string, keep: char -> bool): string
    decreases |s|
  {
    if s == [] then [] else (if keep(s[0]) then [s[0]] else []) + Keep(s[1..], keep)
  }

  lemma {:induction false} KeepAppend(a: string, b: string, keep: char -> bool)
    ensures Keep(a + b, keep) == Keep(a, keep) + Keep(b, keep)
    decreases |a|
  {
    if a == [] {
      assert a + b == b;
    } else {
      KeepAppend(a[1..], b, keep);
      assert a + b == [a[0]] + (a[1..] + b);
      KeepCons(a[0], a[1..] + b, keep);
      assert a == [a[0]] + a[1..];
      KeepCons(a[0], a[1..], keep);
    }
  }

  /** Characters that are not kept at the front can be skipped. */
  lemma {:induction false} KeepSkip(s: string, k: nat, keep: char -> bool)
    requires k <= |s|
    requires forall i :: 0 <= i < k ==> !keep(s[i])
    ensures Keep(s, keep) == Keep(s[k..], keep)
    decreases k
  {
    if k > 0 {
      KeepSkip(s[1..], k - 1, keep);
      assert s[1..][k - 1..] == s[k..];
    }
  }

  lemma KeepCons(c: char, t: string, keep: char -> bool)
    ensures Keep([c] + t, keep) == (if keep(c) then [c] else []) + Keep(t, keep)
  {
    assert ([c] + t)[0] == c;
    assert ([c] + t)[1..] == t;
  }

  lemma {:induction false} KeepNone(s: string, keep: char -> bool)
    requires forall i :: 0 <= i < |s| ==> !keep(s[i])
    ensures Keep(s, keep) == []
    decreases |s|
  {
    if s != [] {
      KeepNone(s[1..], keep);
    }
  }

  predicate NotSpace(c: char) { !IsSpace(c) }

  /** Neither a comma nor whitespace: what the trailing-comma repair must leave alone. */
  predicate Solid(c: char) { c != ',' && !IsSpace(c) }

  // ---------------------------------------------------------------------------------------------
  // re.sub(r',\s*}', '}', s) and re.sub(r',\s*]', ']', s)

  function DropCommaBefore(s: string, close: char): (r: string)
    ensures |r| <= |s|
    decreases |s|
  {
    if s == [] then []
    else
      var k := 1 + SpaceRun(s[1..]);
      if s[0] == ',' && k < |s| && s[k] == close then [close] + DropCommaBefore(s[k + 1..], close)
      else [s[0]] + DropCommaBefore(s[1..], close)
  }

  /** The repair deletes only commas and whitespace: every other character survives, in order. */
  lemma {:induction false} DropCommaKeepsSolid(s: string, close: char)
    requires Solid(close)
    ensures Keep(DropCommaBefore(s, close), Solid) == Keep(s, Solid)
    decreases |s|
  {
    if s != [] {
      var k := 1 + SpaceRun(s[1..]);
      if s[0] == ',' && k < |s| && s[k] == close {
        var t := DropCommaBefore(s[k + 1..], close);
        DropCommaKeepsSolid(s[k + 1..], close);
        assert DropCommaBefore(s, close) == [close] + t;
        CommaGapKeepsSolid(s, k, close, t);
      } else {
        DropCommaKeepsSolid(s[1..], close);
        assert DropCommaBefore(s, close) == [s[0]] + DropCommaBefore(s[1..], close);
        KeepHead(s, DropCommaBefore(s[1..], close), Solid);
      }
    }
  }

  /** Replacing ',', a run of whitespace and `close` by `close` keeps the solid characters. */
  lemma CommaGapKeepsSolid(s: string, k: nat, close: char, t: string)
    requires Solid(close) && 1 <= k < |s| && s[0] == ',' && s[k] == close
    requires k == 1 + SpaceRun(s[1..])
    requires Keep(t, Solid) == Keep(s[k + 1..], Solid)
    ensures Keep([close] + t, Solid) == Keep(s, Solid)
  {
    forall i | 1 <= i < k
      ensures !Solid(s[i])
    {
      assert s[1..][..k - 1][i - 1] == s[i];
    }
    KeepSkip(s, k, Solid);
    assert s[k..] == [close] + s[k + 1..];
    KeepCons(close, s[k + 1..], Solid);
    KeepCons(close, t, Solid);
  }

  /** Text without a comma is left as it is. */
  lemma {:induction false} DropCommaWithoutComma(s: string, close: char)
    requires ',' !in s
    ensures DropCommaBefore(s, close) == s
    decreases |s|
  {
    if s != [] {
      assert s[0] in s;
      assert forall c :: c in s[1..] ==> c in s;
      DropCommaWithoutComma(s[1..], close);
    }
  }

  /** Both substitutions of the JSON repair, '}' first and then ']'. */
  function RepairTrailingCommas(s: string): string
  {
    DropCommaBefore(DropCommaBefore(s, '}'), ']')
  }

  lemma RepairKeepsSolid(s: string)
    ensures Keep(RepairTrailingCommas(s), Solid) == Keep(s, Solid)
  {
    DropCommaKeepsSolid(s, '}');
    DropCommaKeepsSolid(DropCommaBefore(s, '}'), ']');
  }

  // ---------------------------------------------------------------------------------------------
  // re.sub(r'>\s*<', '>\n<', s): every '>' that whitespace (possibly none) separates from a '<'
  // gets a line break instead, so that each tag starts a line.

  function BreakTags(s: string): (r: string)
    decreases |s|
  {
    if s == [] then []
    else
      var k := 1 + SpaceRun(s[1..]);
      if s[0] == '>' && k < |s| && s[k] == '<' then ">\n<" + BreakTags(s[k + 1..])
      else [s[0]] + BreakTags(s[1..])
  }

  /** Breaking tags only trades whitespace for a line break: the other characters stay, in order. */
  lemma {:induction false} BreakTagsKeepsText(s: string)
    ensures Keep(BreakTags(s), NotSpace) == Keep(s, NotSpace)
    decreases |s|
  {
    if s != [] {
      var k := 1 + SpaceRun(s[1..]);
      if s[0] == '>' && k < |s| && s[k] == '<' {
        var t := BreakTags(s[k + 1..]);
        BreakTagsKeepsText(s[k + 1..]);
        assert BreakTags(s) == ">\n<" + t;
        KeepLineBreak(t);
        GapKeepsText(s, k, t);
      } else {
        BreakTagsKeepsText(s[1..]);
        assert BreakTags(s) == [s[0]] + BreakTags(s[1..]);
        KeepHead(s, BreakTags(s[1..]), NotSpace);
      }
    }
  }

  lemma KeepLineBreak(t: string)
    ensures Keep(">\n<" + t, NotSpace) == Keep("><" + t, NotSpace)
  {
    var u := ['<'] + t;
    assert NotSpace('>') && !NotSpace('\n');
    assert ">\n<" + t == ['>'] + (['\n'] + u);
    assert "><" + t == ['>'] + u;
    KeepCons('\n', u, NotSpace);
    KeepCons('>', ['\n'] + u, NotSpace);
    KeepCons('>', u, NotSpace);
  }

  /** A prefix without '>' is not touched. */
  lemma {:induction false} BreakTagsKeepsPrefix(s: string, p: string)
    requires StartsWith(s, p) && '>' !in p
    ensures StartsWith(BreakTags(s), p)
    decreases |p|
  {
    if p != [] {
      assert s[0] == p[0];
      assert p == [p[0]] + p[1..];
      assert forall c :: c in p[1..] ==> c in p;
      BreakTagsKeepsPrefix(s[1..], p[1..]);
    }
  }

  // ---------------------------------------------------------------------------------------------
  // re.sub(r'<!--.*?-->', '', s, flags=re.DOTALL): a comment runs from "<!--" to the FIRST "-->"
  // that starts at least four characters later; an opening without such an end is left alone.

  /** The first position at or after `from` where `p` occurs. */
  function FindFrom(s: string, p: string, from: nat): (r: Option<nat>)
    ensures r.Some? ==> from <= r.value && OccursAt(s, p, r.value)
    ensures r.Some? ==> forall j :: from <= j < r.value ==> !OccursAt(s, p, j)
    ensures r.None? ==> forall j :: from <= j ==> !OccursAt(s, p, j)
    decreases |s| - from
  {
    if from + |p| > |s| then None
    else if OccursAt(s, p, from) then Some(from)
    else FindFrom(s, p, from + 1)
  }

  function RemoveComments(s: string): (r: string)
    ensures |r| <= |s|
    decreases |s|
  {
    if s == [] then []
    else if StartsWith(s, "<!--") && FindFrom(s, "-->", 4).Some? then
      RemoveComments(s[FindFrom(s, "-->", 4).value + 3..])
    else [s[0]] + RemoveComments(s[1..])
  }

  /** Text where no comment opens is left as it is. */
  lemma {:induction false} RemoveCommentsWithoutOpening(s: string)
    requires !Contains(s, "<!--")
    ensures RemoveComments(s) == s
    decreases |s|
  {
    if s != [] {
      if StartsWith(s, "<!--") {
        StartsWithContains(s, "<!--");
      }
      assert !Contains(s[1..], "<!--") by {
        forall i | 0 <= i <= |s[1..]| - 4
          ensures !OccursAt(s[1..], "<!--", i)
        {
          assert s[1..][i..i + 4] == s[i + 1..i + 5];
          assert !OccursAt(s, "<!--", i + 1);
        }
      }
      RemoveCommentsWithoutOpening(s[1..]);
    }
  }

  /** A comment at the front, whose body holds no "-->", disappears with its delimiters. */
  lemma RemoveLeadingComment(body: string, rest: string)
    requires !Contains(body, "-->")
    ensures RemoveComments("<!--" + body + "-->" + rest) == RemoveComments(rest)
  {
    var s := "<!--" + body + "-->" + rest;
    var e := 4 + |body|;
    assert OccursAt(s, "-->", e) by {
      assert s[e..e + 3] == "-->";
    }
    forall j | 4 <= j < e
      ensures !OccursAt(s, "-->", j)
    {
      if j + 3 <= e {
        assert !OccursAt(body, "-->", j - 4);
        assert s[j..j + 3] == body[j - 4..j - 1];
      } else {
        assert s[j + 2] == '-';
        assert s[j..j + 3][2] == s[j + 2];
      }
    }
    assert StartsWith(s, "<!--");
    assert FindFrom(s, "-->", 4) == Some(e);
    assert s[e + 3..] == rest;
  }

  /**
   * A comment after text where no comment opens disappears with its delimiters; the text before it
   * is kept as it is.
   */
  lemma {:induction false} RemoveCommentAfter(p: string, body: string, rest: string)
    requires !Contains(p, "<!--") && !Contains(body, "-->")
    ensures RemoveComments(p + "<!--" + body + "-->" + rest) == p + RemoveComments(rest)
    decreases |p|
  {
    if p == [] {
      assert p + "<!--" + body + "-->" + rest == "<!--" + body + "-->" + rest;
      RemoveLeadingComment(body, rest);
    } else {
      var s := p + "<!--" + body + "-->" + rest;
      var tail := p[1..] + "<!--" + body + "-->" + rest;
      assert s[1..] == tail;
      assert s[0] == p[0];
      assert !StartsWith(s, "<!--") by {
        if |p| >= 4 {
          assert s[..4] == p[..4];
          assert !OccursAt(p, "<!--", 0);
        } else {
          assert s[..4][|p|] == '<';
        }
      }
      assert !Contains(p[1..], "<!--") by {
        forall i | 0 <= i <= |p[1..]| - 4
          ensures !OccursAt(p[1..], "<!--", i)
        {
          assert p[1..][i..i + 4] == p[i + 1..i + 5];
          assert !OccursAt(p, "<!--", i + 1);
        }
      }
      RemoveCommentAfter(p[1..], body, rest);
      assert RemoveComments(s) == [p[0]] + RemoveComments(tail);
      assert [p[0]] + p[1..] == p;
    }
  }

  /**
   * One pass is not enough to leave no comment opening: removing the comment in `<!<!--x-->--`
   * joins the text around it into `<!--`.
   */
  lemma RemovalCanFormOpening()
    ensures RemoveComments("<!<!--x-->--") == "<!--"
  {
    assert !Contains("<!", "<!--");
    assert !Contains("x", "-->");
    RemoveCommentAfter("<!", "x", "--");
    assert "<!" + "<!--" + "x" + "-->" + "--" == "<!<!--x-->--";
    assert !Contains("--", "<!--");
    RemoveCommentsWithoutOpening("--");
  }

  // ---------------------------------------------------------------------------------------------
  // re.sub(r'\s+', ' ', s) and re.sub(r'>\s+<', '><', s)

  predicate NoDoubleSpace(s: string)
  {
    forall i :: 0 <= i < |s| - 1 ==> !(IsSpace(s[i]) && IsSpace(s[i + 1]))
  }

  predicate OnlyPlainSpaces(s: string)
  {
    forall i :: 0 <= i < |s| ==> IsSpace(s[i]) ==> s[i] == ' '
  }

  /** No whitespace stands between a '>' and a following '<'. */
  predicate NoGap(s: string)
  {
    forall i :: 0 <= i < |s| - 2 ==> !(s[i] == '>' && IsSpace(s[i + 1]) && s[i + 2] == '<')
  }

  lemma DoubleSpaceCons(c: char, t: string)
    requires NoDoubleSpace(t) && (t == [] || !IsSpace(c) || !IsSpace(t[0]))
    ensures NoDoubleSpace([c] + t)
  {
    var s := [c] + t;
    assert forall i :: 1 <= i < |s| ==> s[i] == t[i - 1];
  }

  lemma PlainSpacesCons(c: char, t: string)
    requires OnlyPlainSpaces(t) && (IsSpace(c) ==> c == ' ')
    ensures OnlyPlainSpaces([c] + t)
  {
    var s := [c] + t;
    assert forall i :: 1 <= i < |s| ==> s[i] == t[i - 1];
  }

  lemma NoGapCons(c: char, t: string)
    requires NoGap(t) && !(c == '>' && |t| >= 2 && IsSpace(t[0]) && t[1] == '<')
    ensures NoGap([c] + t)
  {
    var s := [c] + t;
    assert forall i :: 1 <= i < |s| ==> s[i] == t[i - 1];
  }

  /** Every run of whitespace becomes one ordinary space. */
  function CollapseSpace(s: string): (r: string)
    ensures s == [] <==> r == []
    ensures s != [] ==> (IsSpace(r[0]) <==> IsSpace(s[0]))
    decreases |s|
  {
    if s == [] then []
    else if IsSpace(s[0]) then [' '] + CollapseSpace(s[1 + SpaceRun(s[1..])..])
    else [s[0]] + CollapseSpace(s[1..])
  }

  /** After collapsing, no two whitespace characters touch and the only whitespace is ' '. */
  lemma {:induction false} CollapseSpaceShape(s: string)
    ensures NoDoubleSpace(CollapseSpace(s)) && OnlyPlainSpaces(CollapseSpace(s))
    decreases |s|
  {
    if s != [] {
      if IsSpace(s[0]) {
        var t := s[1 + SpaceRun(s[1..])..];
        CollapseSpaceShape(t);
        DoubleSpaceCons(' ', CollapseSpace(t));
        PlainSpacesCons(' ', CollapseSpace(t));
      } else {
        CollapseSpaceShape(s[1..]);
        DoubleSpaceCons(s[0], CollapseSpace(s[1..]));
        PlainSpacesCons(s[0], CollapseSpace(s[1..]));
      }
    }
  }

  /** Whitespace between '>' and '<' is dropped. */
  function CloseGaps(s: string): (r: string)
    ensures s == [] <==> r == []
    ensures s != [] ==> r[0] == s[0]
    decreases |s|
  {
    if s == [] then []
    else
      var k := 1 + SpaceRun(s[1..]);
      if s[0] == '>' && 1 < k < |s| && s[k] == '<' then "><" + CloseGaps(s[k + 1..])
      else [s[0]] + CloseGaps(s[1..])
  }

  /** Closing gaps leaves no '>' whitespace '<' and keeps the whitespace shape collapsing gave. */
  lemma {:induction false} CloseGapsShape(s: string)
    ensures NoGap(CloseGaps(s))
    ensures NoDoubleSpace(s) ==> NoDoubleSpace(CloseGaps(s))
    ensures OnlyPlainSpaces(s) ==> OnlyPlainSpaces(CloseGaps(s))
    decreases |s|
  {
    if s != [] {
      var k := 1 + SpaceRun(s[1..]);
      if s[0] == '>' && 1 < k < |s| && s[k] == '<' {
        var r := CloseGaps(s[k + 1..]);
        CloseGapsShape(s[k + 1..]);
        SliceKeepsShape(s, k + 1, |s|);
        assert CloseGaps(s) == "><" + r;
        TagPairShape(r);
      } else {
        CloseGapsShape(s[1..]);
        assert CloseGaps(s) == [s[0]] + CloseGaps(s[1..]);
        KeptHeadShape(s);
      }
    }
  }

  /** A first character that starts no gap keeps the three shapes of the rest. */
  lemma KeptHeadShape(s: string)
    requires s != []
    requires !(s[0] == '>' && 1 < 1 + SpaceRun(s[1..]) < |s| && s[1 + SpaceRun(s[1..])] == '<')
    requires NoGap(CloseGaps(s[1..]))
    requires NoDoubleSpace(s[1..]) ==> NoDoubleSpace(CloseGaps(s[1..]))
    requires OnlyPlainSpaces(s[1..]) ==> OnlyPlainSpaces(CloseGaps(s[1..]))
    ensures NoGap([s[0]] + CloseGaps(s[1..]))
    ensures NoDoubleSpace(s) ==> NoDoubleSpace([s[0]] + CloseGaps(s[1..]))
    ensures OnlyPlainSpaces(s) ==> OnlyPlainSpaces([s[0]] + CloseGaps(s[1..]))
  {
    var r := CloseGaps(s[1..]);
    SliceKeepsShape(s, 1, |s|);
    if s[0] == '>' && |r| >= 2 && IsSpace(r[0]) {
      NoGapFormed(s);
    }
    NoGapCons(s[0], r);
    if NoDoubleSpace(s) {
      assert s[1..] != [] ==> r[0] == s[1];
      DoubleSpaceCons(s[0], r);
    }
    if OnlyPlainSpaces(s) {
      PlainSpacesCons(s[0], r);
    }
  }

  /** Putting "><" in front keeps the three shapes. */
  lemma TagPairShape(r: string)
    requires NoGap(r)
    ensures NoGap("><" + r)
    ensures NoDoubleSpace(r) ==> NoDoubleSpace("><" + r)
    ensures OnlyPlainSpaces(r) ==> OnlyPlainSpaces("><" + r)
  {
    assert "><" + r == ['>'] + (['<'] + r);
    NoGapCons('<', r);
    NoGapCons('>', ['<'] + r);
    if NoDoubleSpace(r) {
      DoubleSpaceCons('<', r);
      DoubleSpaceCons('>', ['<'] + r);
    }
    if OnlyPlainSpaces(r) {
      PlainSpacesCons('<', r);
      PlainSpacesCons('>', ['<'] + r);
    }
  }

  /** r[0] is s[1], a space, so r[1] is the first character of CloseGaps(s[2..]), namely s[2]. */
  lemma NoGapFormed(s: string)
    requires |s| >= 3 && s[0] == '>' && IsSpace(s[1])
    requires !(1 < 1 + SpaceRun(s[1..]) < |s| && s[1 + SpaceRun(s[1..])] == '<')
    ensures CloseGaps(s[1..])[1] != '<'
  {
    var t := s[1..];
    assert t[0] == s[1] && t[1..] == s[2..];
    assert CloseGaps(t) == [t[0]] + CloseGaps(t[1..]);
    assert CloseGaps(t)[1] == s[2];
    assert SpaceRun(t) == 1 + SpaceRun(s[2..]);
  }

  lemma SliceKeepsShape(s: string, a: nat, b: nat)
    requires a <= b <= |s|
    ensures NoDoubleSpace(s) ==> NoDoubleSpace(s[a..b])
    ensures NoGap(s) ==> NoGap(s[a..b])
    ensures OnlyPlainSpaces(s) ==> OnlyPlainSpaces(s[a..b])
  {
    var t := s[a..b];
    assert forall i :: 0 <= i < |t| ==> t[i] == s[a + i];
  }

  lemma WhitespaceRun(s: string, k: nat)
    requires s != [] && IsSpace(s[0]) && k == 1 + SpaceRun(s[1..])
    ensures k <= |s| && forall i :: 0 <= i < k ==> !NotSpace(s[i])
  {
    forall i | 1 <= i < k
      ensures IsSpace(s[i])
    {
      assert s[1..][..k - 1][i - 1] == s[i];
    }
  }

  /** Collapsing whitespace keeps every other character, in order. */
  lemma {:induction false} CollapseSpaceKeepsText(s: string)
    ensures Keep(CollapseSpace(s), NotSpace) == Keep(s, NotSpace)
    decreases |s|
  {
    if s != [] {
      if IsSpace(s[0]) {
        var k := 1 + SpaceRun(s[1..]);
        CollapseSpaceKeepsText(s[k..]);
        assert CollapseSpace(s) == [' '] + CollapseSpace(s[k..]);
        KeepCons(' ', CollapseSpace(s[k..]), NotSpace);
        WhitespaceRun(s, k);
        KeepSkip(s, k, NotSpace);
      } else {
        CollapseSpaceKeepsText(s[1..]);
        assert CollapseSpace(s) == [s[0]] + CollapseSpace(s[1..]);
        KeepHead(s, CollapseSpace(s[1..]), NotSpace);
      }
    }
  }

  /** Closing gaps only drops whitespace: every other character stays, in order. */
  lemma {:induction false} CloseGapsKeepsText(s: string)
    ensures Keep(CloseGaps(s), NotSpace) == Keep(s, NotSpace)
    decreases |s|
  {
    if s != [] {
      var k := 1 + SpaceRun(s[1..]);
      if s[0] == '>' && 1 < k < |s| && s[k] == '<' {
        CloseGapsKeepsText(s[k + 1..]);
        assert CloseGaps(s) == "><" + CloseGaps(s[k + 1..]);
        GapKeepsText(s, k, CloseGaps(s[k + 1..]));
      } else {
        CloseGapsKeepsText(s[1..]);
        assert CloseGaps(s) == [s[0]] + CloseGaps(s[1..]);
        KeepHead(s, CloseGaps(s[1..]), NotSpace);
      }
    }
  }

  /** Putting the first character of `s` before a text that keeps what the rest of `s` keeps. */
  lemma KeepHead(s: string, t: string, keep: char -> bool)
    requires s != [] && Keep(t, keep) == Keep(s[1..], keep)
    ensures Keep([s[0]] + t, keep) == Keep(s, keep)
  {
    KeepCons(s[0], t, keep);
    KeepCons(s[0], s[1..], keep);
    assert s == [s[0]] + s[1..];
  }

  /**
   * Replacing '>', a run of whitespace and '<' by "><" keeps the other characters (the run may be
   * empty, as in the tag breaking above).
   */
  lemma GapKeepsText(s: string, k: nat, t: string)
    requires 1 <= k < |s| && s[0] == '>' && s[k] == '<'
    requires k == 1 + SpaceRun(s[1..])
    requires Keep(t, NotSpace) == Keep(s[k + 1..], NotSpace)
    ensures Keep("><" + t, NotSpace) == Keep(s, NotSpace)
  {
    assert Keep(s[1..], NotSpace) == ['<'] + Keep(s[k + 1..], NotSpace) by {
      var u := s[1..];
      forall i | 0 <= i < k - 1
        ensures !NotSpace(u[i])
      {
        assert u[..k - 1][i] == u[i];
      }
      KeepSkip(u, k - 1, NotSpace);
      assert u[k - 1..] == ['<'] + s[k + 1..];
      KeepCons('<', s[k + 1..], NotSpace);
    }
    assert Keep(s, NotSpace) == ['>'] + Keep(s[1..], NotSpace) by {
      assert s == ['>'] + s[1..];
      KeepCons('>', s[1..], NotSpace);
    }
    KeepCons('>', ['<'] + t, NotSpace);
    KeepCons('<', t, NotSpace);
    assert "><" + t == ['>'] + (['<'] + t);
  }

  /** `strip` removes whitespace only. */
  lemma StripKeepsText(s: string)
    ensures Keep(Strip(s), NotSpace) == Keep(s, NotSpace)
  {
    var a, b := StripSlice(s);
    KeepTrimmed(s, a, b);
  }

  lemma KeepTrimmed(s: string, a: nat, b: nat)
    requires a <= b <= |s| && AllSpace(s[..a]) && AllSpace(s[b..])
    ensures Keep(s[a..b], NotSpace) == Keep(s, NotSpace)
  {
    assert s == s[..a] + s[a..b] + s[b..];
    KeepAppend(s[..a] + s[a..b], s[b..], NotSpace);
    KeepAppend(s[..a], s[a..b], NotSpace);
    KeepNone(s[..a], NotSpace);
    KeepNone(s[b..], NotSpace);
  }

  /** Stripping keeps the whitespace shape. */
  lemma StripKeepsShape(s: string)
    ensures NoDoubleSpace(s) ==> NoDoubleSpace(Strip(s))
    ensures NoGap(s) ==> NoGap(Strip(s))
    ensures OnlyPlainSpaces(s) ==> OnlyPlainSpaces(Strip(s))
  {
    var a, b := StripSlice(s);
    SliceKeepsShape(s, a, b);
  }
}
