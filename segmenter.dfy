/**
 * Splitting a chat message into text parts and code parts, as the message
 * formatter does before rendering: the fence regex is run left to right with
 * a `lastIndex` cursor; white-space-only text before or between fences is
 * dropped, trailing text is always kept, and code parts are numbered in order.
 */
module Segmenter {
  import opened Wrappers
  import opened JsString
  import opened FenceRegex

  /** A text part is a plain substring; a code part is the record `{id, type, content, language, name}`. */
  datatype Part =
    | Text(text: string)
    | Code(id: string, kind: string, content: string, language: string, name: string)

  /** `match[1] || "text"`. */
  function Language(m: Fence): string {
    if m.tag.Some? && m.tag.value != [] then m.tag.value else "text"
  }

  /** The code part made of the `k`-th match. */
  function CodeRecord(k: nat, m: Fence): Part {
    var language := Language(m);
    Code("code-" + NatToString(k), "code", m.body, language, "snippet." + language)
  }

  // ---------------------------------------------------------------------------
  // Specification: the layout of the message as the scanner sees it, and the
  // parts rendered from that layout.
  // ---------------------------------------------------------------------------

  /** A span of the message: unmatched text, or one match of the fence regex. */
  datatype Piece = Gap(text: string) | Block(fence: Fence)

  /** The message from `from` on, cut at the successive leftmost matches. */
  function Layout(s: string, from: nat): seq<Piece>
    requires from <= |s|
    decreases |s| - from
  {
    match Exec(s, from)
    case None => if from < |s| then [Gap(s[from..])] else []
    case Some(m) =>
      (if from < m.start then [Gap(s[from..m.start])] else []) + [Block(m)] + Layout(s, End(m))
  }

  /**
   * The parts made of a layout: each match becomes the next code record, a gap
   * becomes a text part unless it is white space and not the last piece.
   */
  function Render(ps: seq<Piece>, k: nat): seq<Part>
    decreases |ps|
  {
    if ps == [] then []
    else
      match ps[0]
      case Gap(t) => (if |ps| == 1 || !IsBlank(t) then [Text(t)] else []) + Render(ps[1..], k)
      case Block(m) => [CodeRecord(k, m)] + Render(ps[1..], k + 1)
  }

  /** The parts of message `s`. */
  function Segments(s: string): seq<Part> {
    Render(Layout(s, 0), 0)
  }

  // ---------------------------------------------------------------------------
  // The scanning loop.
  // ---------------------------------------------------------------------------

  /** A match, with the gap in front of it when there is one, followed by more pieces. */
  lemma RenderGapBlock(g: seq<Piece>, m: Fence, rest: seq<Piece>, k: nat)
    requires g == [] || (|g| == 1 && g[0].Gap?)
    ensures Render(g + [Block(m)] + rest, k) ==
      (if g != [] && !IsBlank(g[0].text) then [Text(g[0].text)] else [])
      + [CodeRecord(k, m)] + Render(rest, k + 1)
  {
    var br := [Block(m)] + rest;
    assert br[1..] == rest;
    assert Render(br, k) == [CodeRecord(k, m)] + Render(rest, k + 1);
    if g != [] {
      var ps := g + [Block(m)] + rest;
      assert ps == [g[0]] + br;
      assert ps[1..] == br;
    } else {
      assert g + [Block(m)] + rest == br;
    }
  }

  /** The layout from `from` when `exec` finds `m` there. */
  lemma LayoutStep(s: string, from: nat, m: Fence)
    requires from <= |s| && Exec(s, from) == Some(m)
    ensures from <= m.start && End(m) <= |s|
    ensures Layout(s, from) ==
      (if from < m.start then [Gap(s[from..m.start])] else []) + [Block(m)] + Layout(s, End(m))
  {
  }

  lemma RenderStep(s: string, from: nat, k: nat, m: Fence)
    requires from <= |s| && Exec(s, from) == Some(m)
    ensures Render(Layout(s, from), k) ==
      (if from < m.start && !IsBlank(s[from..m.start]) then [Text(s[from..m.start])] else [])
      + [CodeRecord(k, m)] + Render(Layout(s, End(m)), k + 1)
  {
    LayoutStep(s, from, m);
    var g := if from < m.start then [Gap(s[from..m.start])] else [];
    RenderGapBlock(g, m, Layout(s, End(m)), k);
  }

  lemma Regroup<T>(a: seq<T>, b: seq<T>, c: seq<T>, d: seq<T>)
    ensures a + b + c + d == a + (b + c + d)
  {
  }

  /** The segmenter: a loop over `exec` that pushes text and code parts. */
  method Segment(content: string) returns (parts: seq<Part>)
    ensures parts == Segments(content)
  {
    parts := [];
    var lastIndex: nat := 0;
    var codeBlockIndex: nat := 0;
    var found := Exec(content, lastIndex);
    while found.Some?
      invariant lastIndex <= |content|
      invariant found == Exec(content, lastIndex)
      invariant parts + Render(Layout(content, lastIndex), codeBlockIndex) == Segments(content)
      decreases |content| - lastIndex
    {
      var m := found.value;
      ghost var before := parts;
      RenderStep(content, lastIndex, codeBlockIndex, m);
      ghost var kept := if lastIndex < m.start && !IsBlank(content[lastIndex..m.start])
        then [Text(content[lastIndex..m.start])] else [];
      if m.start > lastIndex {
        var textContent := content[lastIndex..m.start];
        TrimEmptyIffBlank(textContent);
        if Trim(textContent) != [] {
          parts := parts + [Text(textContent)];
        }
      }
      assert parts == before + kept;
      var language := if m.tag.Some? && m.tag.value != [] then m.tag.value else "text";
      var code := m.body;
      parts := parts + [Code("code-" + NatToString(codeBlockIndex), "code", code, language, "snippet." + language)];
      assert parts == before + kept + [CodeRecord(codeBlockIndex, m)];
      ghost var rest := Render(Layout(content, End(m)), codeBlockIndex + 1);
      Regroup(before, kept, [CodeRecord(codeBlockIndex, m)], rest);
      codeBlockIndex := codeBlockIndex + 1;
      lastIndex := End(m);
      found := Exec(content, lastIndex);
    }
    assert Layout(content, lastIndex) == if lastIndex < |content| then [Gap(content[lastIndex..])] else [];
    if lastIndex < |content| {
      assert Render([Gap(content[lastIndex..])], codeBlockIndex) == [Text(content[lastIndex..])];
      parts := parts + [Text(content[lastIndex..])];
    }
  }

  // ---------------------------------------------------------------------------
  // The layout is a lossless partition of the message into gaps and matches.
  // ---------------------------------------------------------------------------

  function PieceText(p: Piece): string {
    match p
    case Gap(t) => t
    case Block(m) => Raw(m)
  }

  /** The text the pieces span, in order. */
  function Join(ps: seq<Piece>): string
    decreases |ps|
  {
    if ps == [] then [] else PieceText(ps[0]) + Join(ps[1..])
  }

  lemma {:induction false} JoinAppend(a: seq<Piece>, b: seq<Piece>)
    ensures Join(a + b) == Join(a) + Join(b)
    decreases |a|
  {
    if a == [] {
      assert a + b == b;
    } else {
      var ab := a + b;
      assert ab[0] == a[0];
      assert ab[1..] == a[1..] + b;
      JoinAppend(a[1..], b);
      assert Join(ab) == PieceText(a[0]) + (Join(a[1..]) + Join(b));
    }
  }

  /** Gaps and matched fence texts, concatenated in order, give back the message. */
  lemma {:induction false} LayoutJoin(s: string, from: nat)
    requires from <= |s|
    ensures Join(Layout(s, from)) == s[from..]
    decreases |s| - from
  {
    match Exec(s, from)
    case None =>
      if from < |s| {
        assert Join([Gap(s[from..])]) == s[from..] + Join([]);
      }
    case Some(m) =>
      LayoutJoin(s, End(m));
      RawAt(s, m);
      LayoutStep(s, from, m);
      var g := if from < m.start then [Gap(s[from..m.start])] else [];
      JoinGapBlock(g, m, Layout(s, End(m)));
      assert Join(g) == s[from..m.start] by {
        if from < m.start {
          assert Join(g) == s[from..m.start] + Join([]);
        }
      }
      SliceThree(s, from, m.start, End(m));
  }

  lemma JoinGapBlock(g: seq<Piece>, m: Fence, rest: seq<Piece>)
    ensures Join(g + [Block(m)] + rest) == Join(g) + Raw(m) + Join(rest)
  {
    JoinAppend(g + [Block(m)], rest);
    JoinAppend(g, [Block(m)]);
    assert Join([Block(m)]) == Raw(m) by {
      assert Join([Block(m)]) == Raw(m) + Join([]);
    }
  }

  lemma SliceThree(s: string, a: nat, b: nat, c: nat)
    requires a <= b <= c <= |s|
    ensures s[a..] == s[a..b] + s[b..c] + s[c..]
  {
  }

  /** The matches in a layout, in order. */
  function Fences(ps: seq<Piece>): seq<Fence>
    decreases |ps|
  {
    if ps == [] then [] else (if ps[0].Block? then [ps[0].fence] else []) + Fences(ps[1..])
  }

  lemma {:induction false} FencesAppend(a: seq<Piece>, b: seq<Piece>)
    ensures Fences(a + b) == Fences(a) + Fences(b)
    decreases |a|
  {
    if a == [] {
      assert a + b == b;
    } else {
      var ab := a + b;
      var head := if a[0].Block? then [a[0].fence] else [];
      assert ab[0] == a[0];
      assert ab[1..] == a[1..] + b;
      FencesAppend(a[1..], b);
      assert Fences(ab) == head + (Fences(a[1..]) + Fences(b));
      assert Fences(a) == head + Fences(a[1..]);
    }
  }

  /** `fs` are fences of `s`, in order and not overlapping, the first at or after `from`. */
  ghost predicate FencesIn(s: string, fs: seq<Fence>, from: nat)
    decreases |fs|
  {
    fs == [] || (from <= fs[0].start && IsFenceAt(s, fs[0]) && FencesIn(s, fs[1..], End(fs[0])))
  }

  lemma {:induction false} FencesInEach(s: string, fs: seq<Fence>, from: nat, i: nat)
    requires FencesIn(s, fs, from) && i < |fs|
    ensures IsFenceAt(s, fs[i]) && from <= fs[i].start
    decreases |fs|
  {
    if i > 0 {
      FencesInEach(s, fs[1..], End(fs[0]), i - 1);
    }
  }

  lemma FencesStep(s: string, from: nat, m: Fence)
    requires from <= |s| && Exec(s, from) == Some(m)
    ensures Fences(Layout(s, from)) == [m] + Fences(Layout(s, End(m)))
  {
    var g := if from < m.start then [Gap(s[from..m.start])] else [];
    var rest := Layout(s, End(m));
    FencesAppend(g + [Block(m)], rest);
    FencesAppend(g, [Block(m)]);
    assert Fences(g) == [] by {
      if from < m.start { assert Fences(g) == [] + Fences([]); }
    }
    assert Fences([Block(m)]) == [m] + Fences([]);
  }

  lemma {:induction false} LayoutFences(s: string, from: nat)
    requires from <= |s|
    ensures FencesIn(s, Fences(Layout(s, from)), from)
    decreases |s| - from
  {
    match Exec(s, from)
    case None =>
      if from < |s| {
        assert Fences([Gap(s[from..])]) == [] + Fences([]);
      }
    case Some(m) =>
      LayoutFences(s, End(m));
      FencesStep(s, from, m);
      var fs := Fences(Layout(s, from));
      assert fs[1..] == Fences(Layout(s, End(m)));
  }

  /**
   * No complete fence escapes the scan: every fence of the message starts
   * inside the span of one of the matches the scan found (usually it is one).
   */
  lemma {:induction false} LayoutCovers(s: string, from: nat)
    requires from <= |s|
    ensures var fs := Fences(Layout(s, from));
      forall m': Fence :: from <= m'.start && IsFenceAt(s, m') ==>
        exists i :: 0 <= i < |fs| && fs[i].start <= m'.start < End(fs[i])
    decreases |s| - from
  {
    match Exec(s, from)
    case None =>
    case Some(m) =>
      LayoutCovers(s, End(m));
      FencesStep(s, from, m);
      var rest := Fences(Layout(s, End(m)));
      forall m': Fence | from <= m'.start && IsFenceAt(s, m')
        ensures exists i :: 0 <= i < |[m] + rest| && ([m] + rest)[i].start <= m'.start < End(([m] + rest)[i])
      {
        CoveredByFirstOrRest(m, rest, m', End(m));
      }
  }

  lemma CoveredByFirstOrRest(m: Fence, rest: seq<Fence>, m': Fence, end: nat)
    requires m.start <= m'.start && end == End(m)
    requires end <= m'.start ==> exists j :: 0 <= j < |rest| && rest[j].start <= m'.start < End(rest[j])
    ensures var fs := [m] + rest; exists i :: 0 <= i < |fs| && fs[i].start <= m'.start < End(fs[i])
  {
    var fs := [m] + rest;
    if m'.start < End(m) {
      assert fs[0] == m;
    } else {
      var j :| 0 <= j < |rest| && rest[j].start <= m'.start < End(rest[j]);
      assert fs[j + 1] == rest[j];
    }
  }

  // ---------------------------------------------------------------------------
  // From the layout to the parts.
  // ---------------------------------------------------------------------------

  /**
   * `parts` can be read off `ps`: each match is the next code record (numbered
   * from `k`), each gap is the next text part verbatim or, only when it is
   * white space and some piece follows it, absent. Which of the two a white
   * gap before a match gets is settled by `SegmentsDropBlankGaps`.
   */
  ghost predicate Explains(ps: seq<Piece>, parts: seq<Part>, k: nat)
    decreases |ps|
  {
    if ps == [] then parts == []
    else
      match ps[0]
      case Block(m) => parts != [] && parts[0] == CodeRecord(k, m) && Explains(ps[1..], parts[1..], k + 1)
      case Gap(t) =>
        || (parts != [] && parts[0] == Text(t) && Explains(ps[1..], parts[1..], k))
        || (|ps| > 1 && IsBlank(t) && Explains(ps[1..], parts, k))
  }

  lemma {:induction false} RenderExplains(ps: seq<Piece>, k: nat)
    ensures Explains(ps, Render(ps, k), k)
    decreases |ps|
  {
    if ps != [] {
      var r := Render(ps, k);
      match ps[0]
      case Gap(t) =>
        RenderExplains(ps[1..], k);
        if |ps| == 1 || !IsBlank(t) {
          assert r[1..] == Render(ps[1..], k);
        } else {
          assert r == Render(ps[1..], k);
        }
      case Block(m) =>
        RenderExplains(ps[1..], k + 1);
        assert r[1..] == Render(ps[1..], k + 1);
    }
  }

  /** Gaps are non-empty and never adjacent: a gap is last or followed by a match. */
  ghost predicate WellLaid(ps: seq<Piece>)
    decreases |ps|
  {
    ps == [] ||
    match ps[0]
    case Gap(t) => t != [] && (|ps| == 1 || ps[1].Block?) && WellLaid(ps[1..])
    case Block(_) => WellLaid(ps[1..])
  }

  lemma {:induction false} LayoutWellLaid(s: string, from: nat)
    requires from <= |s|
    ensures WellLaid(Layout(s, from))
    decreases |s| - from
  {
    match Exec(s, from)
    case None =>
    case Some(m) =>
      LayoutWellLaid(s, End(m));
      var rest := Layout(s, End(m));
      assert ([Block(m)] + rest)[1..] == rest;
      if from < m.start {
        var ps := [Gap(s[from..m.start])] + [Block(m)] + rest;
        assert ps[1..] == [Block(m)] + rest;
      }
  }

  predicate NoAdjacentTexts(parts: seq<Part>) {
    forall i :: 0 <= i < |parts| - 1 ==> !(parts[i].Text? && parts[i + 1].Text?)
  }

  predicate TextsNonEmpty(parts: seq<Part>) {
    forall i :: 0 <= i < |parts| && parts[i].Text? ==> parts[i].text != []
  }

  lemma {:induction false} RenderWellFormed(ps: seq<Piece>, k: nat)
    requires WellLaid(ps)
    ensures NoAdjacentTexts(Render(ps, k)) && TextsNonEmpty(Render(ps, k))
    ensures ps != [] && ps[0].Block? ==> Render(ps, k) != [] && Render(ps, k)[0].Code?
    decreases |ps|
  {
    if ps != [] {
      var r := Render(ps, k);
      match ps[0]
      case Gap(t) =>
        RenderWellFormed(ps[1..], k);
        var r' := Render(ps[1..], k);
        if |ps| == 1 || !IsBlank(t) {
          assert r == [Text(t)] + r';
          assert r' != [] ==> r'[0].Code?;
          assert forall i :: 1 <= i < |r| ==> r[i] == r'[i - 1];
        }
      case Block(m) =>
        RenderWellFormed(ps[1..], k + 1);
        var r' := Render(ps[1..], k + 1);
        assert r == [CodeRecord(k, m)] + r';
        assert forall i :: 1 <= i < |r| ==> r[i] == r'[i - 1];
    }
  }

  /** The code parts, in order. */
  function Codes(parts: seq<Part>): (cs: seq<Part>)
    ensures forall i :: 0 <= i < |cs| ==> cs[i].Code?
    decreases |parts|
  {
    if parts == [] then [] else (if parts[0].Code? then [parts[0]] else []) + Codes(parts[1..])
  }

  lemma {:induction false} CodesAppend(a: seq<Part>, b: seq<Part>)
    ensures Codes(a + b) == Codes(a) + Codes(b)
    decreases |a|
  {
    if a == [] {
      assert a + b == b;
    } else {
      assert (a + b)[1..] == a[1..] + b;
      CodesAppend(a[1..], b);
    }
  }

  /** The `i`-th code part is the record of the `i`-th match, numbered from `k`. */
  lemma {:induction false} RenderCodes(ps: seq<Piece>, k: nat)
    ensures |Codes(Render(ps, k))| == |Fences(ps)|
    ensures forall i :: 0 <= i < |Fences(ps)| ==> Codes(Render(ps, k))[i] == CodeRecord(k + i, Fences(ps)[i])
    decreases |ps|
  {
    if ps != [] {
      match ps[0]
      case Gap(t) =>
        RenderCodes(ps[1..], k);
        CodesOfGapStep(ps, k);
      case Block(m) =>
        RenderCodes(ps[1..], k + 1);
        CodesOfBlockStep(ps, k);
    }
  }

  lemma CodesOfGapStep(ps: seq<Piece>, k: nat)
    requires ps != [] && ps[0].Gap?
    ensures Codes(Render(ps, k)) == Codes(Render(ps[1..], k))
    ensures Fences(ps) == Fences(ps[1..])
  {
    var t := ps[0].text;
    var kept := if |ps| == 1 || !IsBlank(t) then [Text(t)] else [];
    CodesAppend(kept, Render(ps[1..], k));
    assert Codes(kept) == [] by {
      if kept != [] { assert Codes(kept) == [] + Codes([]); }
    }
  }

  lemma CodesOfBlockStep(ps: seq<Piece>, k: nat)
    requires ps != [] && ps[0].Block?
    ensures Codes(Render(ps, k)) == [CodeRecord(k, ps[0].fence)] + Codes(Render(ps[1..], k + 1))
    ensures Fences(ps) == [ps[0].fence] + Fences(ps[1..])
  {
    var m := ps[0].fence;
    CodesAppend([CodeRecord(k, m)], Render(ps[1..], k + 1));
    assert Codes([CodeRecord(k, m)]) == [CodeRecord(k, m)] + Codes([]);
  }

  /** The parts of `TailStart(s, from)..` onwards: where the text after the last match begins. */
  function TailStart(s: string, from: nat): (t: nat)
    requires from <= |s|
    ensures from <= t <= |s|
    decreases |s| - from
  {
    match Exec(s, from)
    case None => from
    case Some(m) => TailStart(s, End(m))
  }

  lemma {:induction false} RenderTail(s: string, from: nat, k: nat)
    requires from <= |s|
    ensures forall m: Fence :: TailStart(s, from) <= m.start ==> !IsFenceAt(s, m)
    ensures var r := Render(Layout(s, from), k);
      TailStart(s, from) < |s| ==> r != [] && r[|r| - 1] == Text(s[TailStart(s, from)..])
    ensures var r := Render(Layout(s, from), k);
      TailStart(s, from) == |s| && r != [] ==> r[|r| - 1].Code?
    decreases |s| - from
  {
    match Exec(s, from)
    case None =>
      if from < |s| {
        assert Render(Layout(s, from), k) == [Text(s[from..])] + Render([], k);
      }
    case Some(m) =>
      RenderTail(s, End(m), k + 1);
      RenderStep(s, from, k, m);
  }

  // ---------------------------------------------------------------------------
  // What the segmenter promises about a message.
  // ---------------------------------------------------------------------------

  /**
   * A message with no complete fence, an unterminated opening fence included,
   * is one text part equal to the whole message, even when it is all white
   * space; the empty message has no parts.
   */
  lemma SegmentsWithoutFence(s: string)
    requires forall m: Fence :: !IsFenceAt(s, m)
    ensures s == [] ==> Segments(s) == []
    ensures s != [] ==> Segments(s) == [Text(s)]
  {
    assert Exec(s, 0) == None;
    if s != [] {
      assert s[0..] == s;
      assert Layout(s, 0) == [Gap(s)];
      assert Render([Gap(s)], 0) == [Text(s)] + Render([], 0);
    }
  }

  /** A message has a code part exactly when it contains a complete fence. */
  lemma SegmentsHaveCodeIffFence(s: string)
    ensures Codes(Segments(s)) != [] <==> exists m: Fence :: IsFenceAt(s, m)
  {
    var fs := Fences(Layout(s, 0));
    RenderCodes(Layout(s, 0), 0);
    LayoutFences(s, 0);
    LayoutCovers(s, 0);
    if fs != [] {
      FencesInEach(s, fs, 0, 0);
    }
  }

  /**
   * The partition is lossless: the gaps and the matched fence texts give
   * back the message, every match is a fence of the message, and the parts
   * keep every match as a code record and every gap verbatim, except that
   * a white-space gap that some match follows may be absent.
   */
  lemma SegmentsLossless(s: string)
    ensures Join(Layout(s, 0)) == s
    ensures FencesIn(s, Fences(Layout(s, 0)), 0)
    ensures Explains(Layout(s, 0), Segments(s), 0)
  {
    LayoutJoin(s, 0);
    assert s[0..] == s;
    LayoutFences(s, 0);
    RenderExplains(Layout(s, 0), 0);
  }

  /** Two text parts are never adjacent, and no text part is empty. */
  lemma SegmentsWellFormed(s: string)
    ensures NoAdjacentTexts(Segments(s)) && TextsNonEmpty(Segments(s))
  {
    LayoutWellLaid(s, 0);
    RenderWellFormed(Layout(s, 0), 0);
  }

  /**
   * Text after the last fence is always the last part, white space or not;
   * otherwise the parts end with a code part.
   */
  lemma SegmentsKeepTrailingText(s: string)
    ensures forall m: Fence :: TailStart(s, 0) <= m.start ==> !IsFenceAt(s, m)
    ensures var r := Segments(s);
      TailStart(s, 0) < |s| ==> r != [] && r[|r| - 1] == Text(s[TailStart(s, 0)..])
    ensures var r := Segments(s);
      TailStart(s, 0) == |s| && r != [] ==> r[|r| - 1].Code?
  {
    RenderTail(s, 0, 0);
  }

  /**
   * The `i`-th code part comes from the `i`-th match: it spans three
   * backticks, the optional tag, a newline, the code and three backticks;
   * its id is `code-i`, its type "code", its content the exact body (never
   * holding three backticks), its language the tag or "text", and its name
   * `snippet.` followed by the language.
   */
  lemma SegmentsCodeParts(s: string)
    ensures var cs, fs := Codes(Segments(s)), Fences(Layout(s, 0));
      && |cs| == |fs|
      && forall i :: 0 <= i < |cs| ==>
        && IsFenceAt(s, fs[i])
        && s[fs[i].start..End(fs[i])] == "```" + TagText(fs[i].tag) + "\n" + cs[i].content + "```"
        && cs[i].id == "code-" + NatToString(i)
        && cs[i].kind == "code"
        && cs[i].content == fs[i].body
        && (forall p :: !TripleAt(cs[i].content, p))
        && cs[i].language == (if fs[i].tag.Some? then fs[i].tag.value else "text")
        && cs[i].name == "snippet." + cs[i].language
  {
    var cs, fs := Codes(Segments(s)), Fences(Layout(s, 0));
    RenderCodes(Layout(s, 0), 0);
    LayoutFences(s, 0);
    forall i | 0 <= i < |cs|
      ensures IsFenceAt(s, fs[i])
      ensures s[fs[i].start..End(fs[i])] == "```" + TagText(fs[i].tag) + "\n" + cs[i].content + "```"
      ensures forall p :: !TripleAt(cs[i].content, p)
    {
      FencesInEach(s, fs, 0, i);
      RawAt(s, fs[i]);
      BodyHasNoTriple(s, fs[i]);
    }
  }

  /** A white-space text part, if any, is the last part. */
  predicate BlankOnlyLast(parts: seq<Part>) {
    forall i :: 0 <= i < |parts| && parts[i].Text? && IsBlank(parts[i].text) ==> i == |parts| - 1
  }

  lemma {:induction false} RenderBlankOnlyLast(ps: seq<Piece>, k: nat)
    ensures BlankOnlyLast(Render(ps, k))
    decreases |ps|
  {
    if ps != [] {
      var r := Render(ps, k);
      match ps[0]
      case Gap(t) =>
        RenderBlankOnlyLast(ps[1..], k);
        var rest := Render(ps[1..], k);
        if |ps| == 1 {
          assert ps[1..] == [];
          assert r == [Text(t)];
        } else if !IsBlank(t) {
          assert r == [Text(t)] + rest;
          assert forall i :: 0 < i < |r| ==> r[i] == rest[i - 1];
        } else {
          assert r == rest;
        }
      case Block(m) =>
        RenderBlankOnlyLast(ps[1..], k + 1);
        var rest := Render(ps[1..], k + 1);
        assert r == [CodeRecord(k, m)] + rest;
        assert forall i :: 0 < i < |r| ==> r[i] == rest[i - 1];
    }
  }

  /**
   * White space before or between fences never becomes a part: a text part
   * that is only white space is the last part of the message.
   */
  lemma SegmentsDropBlankGaps(s: string)
    ensures var r := Segments(s);
      forall i :: 0 <= i < |r| && r[i].Text? && IsBlank(r[i].text) ==> i == |r| - 1
  {
    RenderBlankOnlyLast(Layout(s, 0), 0);
  }

  /** Code part ids are pairwise distinct. */
  lemma SegmentsCodeIdsDistinct(s: string)
    ensures var cs := Codes(Segments(s));
      forall i, j :: 0 <= i < j < |cs| ==> cs[i].id != cs[j].id
  {
    var cs := Codes(Segments(s));
    SegmentsCodeParts(s);
    forall i, j | 0 <= i < j < |cs| ensures cs[i].id != cs[j].id {
      if cs[i].id == cs[j].id {
        assert NatToString(i) == cs[i].id[5..];
        assert NatToString(j) == cs[j].id[5..];
        NatToStringInjective(i, j);
      }
    }
  }
}
