/** Concrete messages and the parts the segmenter makes of them. */
module SegmentExamples {
  import opened Wrappers
  import opened JsString
  import opened FenceRegex
  import opened Segmenter

  lemma NoTripleWithoutBacktick(s: string, a: nat, b: nat)
    requires a <= b <= |s| && '`' !in s[a..b]
    ensures forall p :: a <= p < b ==> !TripleAt(s, p)
  {
    forall p | a <= p < b ensures !TripleAt(s, p) {
      assert s[p] == s[a..b][p - a];
    }
  }

  /** A fence needs a closing backtick after its opening three and the newline. */
  lemma NoFenceWithoutClose(s: string)
    requires |s| >= 3 && '`' !in s[3..]
    ensures forall m: Fence :: !IsFenceAt(s, m)
  {
    forall m: Fence ensures !IsFenceAt(s, m) {
    }
  }

  /** Plain text is one text part equal to the message. */
  lemma PlainText()
    ensures Segments("plain text only") == [Text("plain text only")]
  {
    NoFenceWithoutClose("plain text only");
    SegmentsWithoutFence("plain text only");
  }

  /** White space without a fence is kept too: the message is one text part. */
  lemma BlankMessage()
    ensures Segments("  \n") == [Text("  \n")]
  {
    NoFenceWithoutClose("  \n");
    SegmentsWithoutFence("  \n");
  }

  /** An unterminated fence stays text. */
  lemma UnterminatedFence()
    ensures Segments("```js\nconst a=1;") == [Text("```js\nconst a=1;")]
  {
    var s := "```js\nconst a=1;";
    assert s[3..] == "js\nconst a=1;";
    NoFenceWithoutClose(s);
    SegmentsWithoutFence(s);
  }

  lemma NoFenceStartsWithoutBacktick(s: string, a: nat, b: nat)
    requires a <= b <= |s| && '`' !in s[a..b]
    ensures forall m: Fence :: a <= m.start < b ==> !IsFenceAt(s, m)
  {
    forall m: Fence | a <= m.start < b ensures !IsFenceAt(s, m) {
      assert s[m.start] == s[a..b][m.start - a];
    }
  }

  lemma SliceAt(x: string, y: string, z: string)
    ensures (x + y + z)[|x|..|x| + |y|] == y
  {
  }

  lemma RegroupFence(p: string, q: string, t: string, n: string, b: string, q2: string, c: string)
    ensures p + (q + t + n + b + q2) + c == (p + q) + t + (n + b + q2 + c)
    ensures p + (q + t + n + b + q2) + c == (p + q + t + n) + b + (q2 + c)
  {
  }

  /** A fence written out between any two texts is a match at the position it starts. */
  lemma FenceOfParts(p: string, m: Fence, c: string)
    requires m.start == |p|
    requires m.tag.Some? ==> m.tag.value != [] && AllWord(m.tag.value)
    requires '`' !in m.body
    ensures IsFenceAt(p + Raw(m) + c, m)
  {
    var s := p + Raw(m) + c;
    var tag := TagText(m.tag);
    var n, e := NewlinePos(m), ClosePos(m);
    RegroupFence(p, "```", tag, "\n", m.body, "```", c);
    SliceAt(p + "```", tag, "\n" + m.body + "```" + c);
    SliceAt(p + "```" + tag + "\n", m.body, "```" + c);
    assert s[m.start + 3..n] == tag;
    assert s[n + 1..e] == m.body;
    assert s[n] == '\n';
    assert TripleAt(s, m.start);
    assert TripleAt(s, e);
    forall q | n + 1 <= q < e ensures !TripleAt(s, q) {
      assert s[q] == s[n + 1..e][q - n - 1];
    }
  }

  lemma JsIsWord()
    ensures AllWord("js")
  {
    assert IsWordChar('j') && IsWordChar('s');
  }

  lemma FenceBetweenTextRaw(m: Fence)
    requires m == Fence(7, Some("js"), "const a=1;\n")
    ensures Raw(m) == "```js\nconst a=1;\n```"
  {
    assert TagText(m.tag) == "js";
  }

  lemma FenceBetweenTextSplit(s: string, m: Fence)
    requires s == "before\n```js\nconst a=1;\n```\nafter"
    requires m == Fence(7, Some("js"), "const a=1;\n")
    ensures s == "before\n" + Raw(m) + "\nafter"
  {
    FenceBetweenTextRaw(m);
  }

  lemma FenceBetweenTextFence(s: string, m: Fence)
    requires s == "before\n```js\nconst a=1;\n```\nafter"
    requires m == Fence(7, Some("js"), "const a=1;\n")
    ensures IsFenceAt(s, m)
  {
    FenceBetweenTextSplit(s, m);
    JsIsWord();
    assert '`' !in m.body;
    FenceOfParts("before\n", m, "\nafter");
  }

  lemma FenceBetweenTextLayout(s: string, m: Fence)
    requires s == "before\n```js\nconst a=1;\n```\nafter"
    requires m == Fence(7, Some("js"), "const a=1;\n")
    ensures Layout(s, 0) == [Gap("before\n"), Block(m), Gap("\nafter")]
  {
    FenceBetweenTextFence(s, m);
    NoFenceStartsWithoutBacktick(s, 0, 7);
    ExecFinds(s, 0, m);
    assert s[27..] == "\nafter";
    ExecNoneWithoutBacktick(s, 27);
    assert s[0..7] == "before\n";
    LayoutStep(s, 0, m);
  }

  lemma NotBlankAt(t: string, i: nat)
    requires i < |t| && !IsJsWhite(t[i])
    ensures !IsBlank(t)
  {
  }

  /** The first code record. */
  lemma FirstCode(m: Fence)
    ensures CodeRecord(0, m) == Code("code-0", "code", m.body, Language(m), "snippet." + Language(m))
  {
    assert NatToString(0) == "0";
  }

  /** A gap, a match and a gap. */
  lemma RenderGapBlockGap(a: string, m: Fence, b: string, k: nat)
    ensures Render([Gap(a), Block(m), Gap(b)], k) ==
      (if IsBlank(a) then [] else [Text(a)]) + [CodeRecord(k, m), Text(b)]
  {
    var ps := [Gap(a), Block(m), Gap(b)];
    assert ps[1..] == [Block(m), Gap(b)];
    assert ps[1..][1..] == [Gap(b)];
    assert Render([Gap(b)], k + 1) == [Text(b)] + Render([], k + 1);
  }

  lemma SegmentsOfGapBlockGap(s: string, a: string, m: Fence, b: string)
    requires Layout(s, 0) == [Gap(a), Block(m), Gap(b)] && !IsBlank(a)
    ensures Segments(s) == [Text(a), CodeRecord(0, m), Text(b)]
  {
    RenderGapBlockGap(a, m, b, 0);
  }

  /** The first code record, for a fence whose language is `language`. */
  lemma FirstCodeOf(m: Fence, language: string, name: string)
    requires Language(m) == language && name == "snippet." + language
    ensures CodeRecord(0, m) == Code("code-0", "code", m.body, language, name)
  {
    FirstCode(m);
  }

  lemma SnippetNames()
    ensures "snippet." + "js" == "snippet.js"
    ensures "snippet." + "text" == "snippet.text"
  {
  }

  /** A non-blank text followed by a match. */
  lemma RenderTextBlock(a: string, m: Fence, k: nat)
    requires !IsBlank(a)
    ensures Render([Gap(a), Block(m)], k) == [Text(a), CodeRecord(k, m)]
  {
    var ps := [Gap(a), Block(m)];
    assert ps[1..] == [Block(m)];
    assert ps[1..][1..] == [];
    assert Render(ps[1..], k) == [CodeRecord(k, m)] + Render([], k + 1);
  }

  lemma RenderBlockGap(m: Fence, b: string, k: nat)
    ensures Render([Block(m), Gap(b)], k) == [CodeRecord(k, m), Text(b)]
  {
    var ps := [Block(m), Gap(b)];
    assert ps[1..] == [Gap(b)];
    assert Render([Gap(b)], k + 1) == [Text(b)] + Render([], k + 1);
  }

  /** Text, a tagged fence, text. */
  lemma FenceBetweenText(s: string)
    requires s == "before\n```js\nconst a=1;\n```\nafter"
    ensures Segments(s) ==
      [Text("before\n"), Code("code-0", "code", "const a=1;\n", "js", "snippet.js"), Text("\nafter")]
  {
    var m := Fence(7, Some("js"), "const a=1;\n");
    FenceBetweenTextLayout(s, m);
    NotBlankAt("before\n", 0);
    SegmentsOfGapBlockGap(s, "before\n", m, "\nafter");
    SnippetNames();
    FirstCodeOf(m, "js", "snippet.js");
  }

  lemma FourBackticksLayout(s: string, m: Fence)
    requires s == "````js\nx```"
    requires m == Fence(1, Some("js"), "x")
    ensures Layout(s, 0) == [Gap("`"), Block(m)]
  {
    assert s[4..6] == "js";
    assert s[7..8] == "x";
    assert !TripleAt(s, 7);
    assert IsFenceAt(s, m);
    forall m': Fence | 0 <= m'.start < 1 ensures !IsFenceAt(s, m') {
      assert s[3] == '`' && !IsWordChar(s[3]);
    }
    ExecFinds(s, 0, m);
    assert Exec(s, 11) == None;
    assert s[0..1] == "`";
    LayoutStep(s, 0, m);
  }

  /**
   * Four backticks: the match starts at the second one, so the first stays in
   * the text (a CommonMark reader would see one fence of four).
   */
  lemma FourBackticks(s: string)
    requires s == "````js\nx```"
    ensures Segments(s) == [Text("`"), Code("code-0", "code", "x", "js", "snippet.js")]
  {
    var m := Fence(1, Some("js"), "x");
    FourBackticksLayout(s, m);
    NotBlankAt("`", 0);
    RenderTextBlock("`", m, 0);
    SnippetNames();
    FirstCodeOf(m, "js", "snippet.js");
  }

  lemma BlankAroundFenceLayout(s: string, m: Fence)
    requires s == " \n```\nx```\n "
    requires m == Fence(2, None, "x")
    ensures Layout(s, 0) == [Gap(" \n"), Block(m), Gap("\n ")]
  {
    assert s[6..7] == "x";
    assert !TripleAt(s, 6);
    assert IsFenceAt(s, m);
    NoFenceStartsWithoutBacktick(s, 0, 2);
    ExecFinds(s, 0, m);
    assert s[10..] == "\n ";
    ExecNoneWithoutBacktick(s, 10);
    assert s[0..2] == " \n";
    LayoutStep(s, 0, m);
  }

  /**
   * White space before the first fence is dropped; white space after the last
   * fence is kept. An untagged fence has language "text".
   */
  lemma BlankAroundFence(s: string)
    requires s == " \n```\nx```\n "
    ensures Segments(s) == [Code("code-0", "code", "x", "text", "snippet.text"), Text("\n ")]
  {
    var m := Fence(2, None, "x");
    BlankAroundFenceLayout(s, m);
    assert IsBlank(" \n");
    RenderGapBlockGap(" \n", m, "\n ", 0);
    SnippetNames();
    FirstCodeOf(m, "text", "snippet.text");
  }

  lemma FirstCloseWinsLayout(s: string, m: Fence)
    requires s == "```\na`````"
    requires m == Fence(0, None, "a")
    ensures Layout(s, 0) == [Block(m), Gap("``")]
  {
    assert s[4..5] == "a";
    assert !TripleAt(s, 4);
    assert IsFenceAt(s, m);
    ExecFinds(s, 0, m);
    assert Exec(s, 8) == None by {
      assert !TripleAt(s, 8) && !TripleAt(s, 9);
    }
    assert s[8..] == "``";
    LayoutStep(s, 0, m);
  }

  /** The first three backticks after the newline close the fence; the rest is text. */
  lemma FirstCloseWins(s: string)
    requires s == "```\na`````"
    ensures Segments(s) == [Code("code-0", "code", "a", "text", "snippet.text"), Text("``")]
  {
    var m := Fence(0, None, "a");
    FirstCloseWinsLayout(s, m);
    RenderBlockGap(m, "``", 0);
    SnippetNames();
    FirstCodeOf(m, "text", "snippet.text");
  }
}
