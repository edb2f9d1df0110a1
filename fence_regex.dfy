/**
 * The fence regular expression of the message formatter,
 *   /```(\w+)?\n([\s\S]*?)```/g
 * under ECMAScript matching semantics: what one match attempt at a position
 * yields, and what `exec` yields when it searches from `lastIndex`.
 */
module FenceRegex {
  import opened Wrappers
  import opened JsString

  /** Three backticks start at position `k` of `s`. */
  predicate TripleAt(s: string, k: int) {
    0 <= k && k + 3 <= |s| && s[k] == '`' && s[k + 1] == '`' && s[k + 2] == '`'
  }

  /**
   * One match: where it starts, capture group 1 (`None` when the optional
   * group did not participate) and capture group 2, the body.
   */
  datatype Fence = Fence(start: nat, tag: Option<string>, body: string)

  function TagText(tag: Option<string>): string {
    tag.GetOr("")
  }

  /** The matched text, `match[0]`. */
  function Raw(m: Fence): string {
    "```" + TagText(m.tag) + "\n" + m.body + "```"
  }

  /** Where the newline after the tag sits. */
  function NewlinePos(m: Fence): nat {
    m.start + 3 + |TagText(m.tag)|
  }

  /** Where the closing delimiter starts. */
  function ClosePos(m: Fence): nat {
    NewlinePos(m) + 1 + |m.body|
  }

  /** `match.index + match[0].length`. */
  function End(m: Fence): nat {
    ClosePos(m) + 3
  }

  /**
   * `m` is what the pattern matches when tried at `m.start`: three backticks,
   * an optional non-empty run of word characters, a newline, the body, and the
   * FIRST three backticks at or after the body's start (the lazy `*?`).
   */
  predicate IsFenceAt(s: string, m: Fence) {
    && End(m) <= |s|
    && TripleAt(s, m.start)
    && (m.tag.Some? ==> m.tag.value != [] && AllWord(m.tag.value))
    && s[m.start + 3..NewlinePos(m)] == TagText(m.tag)
    && s[NewlinePos(m)] == '\n'
    && s[NewlinePos(m) + 1..ClosePos(m)] == m.body
    && TripleAt(s, ClosePos(m))
    && (forall p :: NewlinePos(m) + 1 <= p < ClosePos(m) ==> !TripleAt(s, p))
  }

  /** The end of the run of word characters that begins at `i` (greedy `\w+`). */
  function WordRunEnd(s: string, i: nat): (j: nat)
    requires i <= |s|
    ensures i <= j <= |s|
    ensures forall p :: i <= p < j ==> IsWordChar(s[p])
    ensures j == |s| || !IsWordChar(s[j])
    decreases |s| - i
  {
    if i < |s| && IsWordChar(s[i]) then WordRunEnd(s, i + 1) else i
  }

  /** The first closing delimiter at or after `from` (lazy `[\s\S]*?` followed by ```). */
  function FindTriple(s: string, from: nat): (r: Option<nat>)
    ensures r.Some? ==> from <= r.value && TripleAt(s, r.value)
    ensures r.Some? ==> forall p :: from <= p < r.value ==> !TripleAt(s, p)
    ensures r.None? ==> forall p :: from <= p ==> !TripleAt(s, p)
    decreases |s| - from
  {
    if from + 3 > |s| then None
    else if TripleAt(s, from) then Some(from)
    else FindTriple(s, from + 1)
  }

  /** Two fences at one position have the same tag. */
  lemma FenceTagUnique(s: string, m: Fence, m': Fence)
    requires IsFenceAt(s, m) && IsFenceAt(s, m') && m.start == m'.start
    ensures m.tag == m'.tag
  {
    var j := WordRunEnd(s, m.start + 3);
    FenceNewlineAt(s, m.start, j, m);
    FenceNewlineAt(s, m.start, j, m');
    assert TagText(m.tag) == s[m.start + 3..j] == TagText(m'.tag);
  }

  /** A fence starting at `m.start` is determined by that position. */
  lemma FenceUnique(s: string, m: Fence, m': Fence)
    requires IsFenceAt(s, m) && IsFenceAt(s, m') && m.start == m'.start
    ensures m == m'
  {
    FenceTagUnique(s, m, m');
    var c, c' := ClosePos(m), ClosePos(m');
    assert c == c' by {
      assert !(c < c') by { assert TripleAt(s, c); }
      assert !(c' < c) by { assert TripleAt(s, c'); }
    }
  }

  /**
   * One attempt of the pattern at position `i`; it succeeds exactly with the
   * fence that starts there. Backtracking cannot rescue a failed attempt: the
   * tag is followed by a newline, which `\w` does not match, so only the whole
   * word run (or none of it, when the run is empty) can precede the newline.
   */
  function MatchAt(s: string, i: nat): (r: Option<Fence>)
    ensures r.Some? ==> r.value.start == i && IsFenceAt(s, r.value)
    ensures forall m: Fence :: m.start == i ==> (IsFenceAt(s, m) <==> r == Some(m))
  {
    if !TripleAt(s, i) then None
    else
      var j := WordRunEnd(s, i + 3);
      if j == |s| || s[j] != '\n' then
        assert forall m: Fence :: m.start == i ==> !IsFenceAt(s, m) by {
          forall m: Fence | m.start == i ensures !IsFenceAt(s, m) {
            FenceNewlineAt(s, i, j, m);
          }
        }
        None
      else
        var tag := if j == i + 3 then None else Some(s[i + 3..j]);
        match FindTriple(s, j + 1)
        case None =>
          assert forall m: Fence :: m.start == i ==> !IsFenceAt(s, m) by {
            forall m: Fence | m.start == i ensures !IsFenceAt(s, m) {
              FenceNewlineAt(s, i, j, m);
            }
          }
          None
        case Some(k) =>
          var m := Fence(i, tag, s[j + 1..k]);
          assert NewlinePos(m) == j;
          assert IsFenceAt(s, m);
          forall m': Fence | m'.start == i ensures IsFenceAt(s, m') <==> m' == m {
            if IsFenceAt(s, m') { FenceUnique(s, m, m'); }
          }
          Some(m)
  }

  /** A fence at `i` puts its newline right after the word run at `i + 3`. */
  lemma FenceNewlineAt(s: string, i: nat, j: nat, m: Fence)
    requires i + 3 <= |s| && j == WordRunEnd(s, i + 3)
    ensures m.start == i && IsFenceAt(s, m) ==> NewlinePos(m) == j
  {
  }

  /**
   * `fenceRegex.exec(s)` with `lastIndex == from`: the leftmost fence that
   * starts at or after `from`, or `None` (exec's `null`) when there is none.
   */
  function Exec(s: string, from: nat): (r: Option<Fence>)
    requires from <= |s|
    ensures r.Some? ==> from <= r.value.start && IsFenceAt(s, r.value)
    ensures r.Some? ==> forall m: Fence :: from <= m.start < r.value.start ==> !IsFenceAt(s, m)
    ensures r.None? ==> forall m: Fence :: from <= m.start ==> !IsFenceAt(s, m)
    decreases |s| - from
  {
    if from == |s| then None
    else
      match MatchAt(s, from)
      case Some(m) => Some(m)
      case None => Exec(s, from + 1)
  }

  lemma SliceSplit(s: string, a: nat, b: nat, c: nat)
    requires a <= b <= c <= |s|
    ensures s[a..c] == s[a..b] + s[b..c]
  {
  }

  lemma Regroup5(a: string, b: string, c: string, d: string, e: string)
    ensures a + b + c + d + e == a + (b + (c + (d + e)))
  {
  }

  lemma TripleSlice(s: string, k: nat)
    requires TripleAt(s, k)
    ensures s[k..k + 3] == "```"
  {
  }

  lemma CharSlice(s: string, k: nat)
    requires k < |s|
    ensures s[k..k + 1] == [s[k]]
  {
  }

  /** Five consecutive slices of `s` make up the slice that spans them. */
  lemma SlicesJoin(s: string, i0: nat, i1: nat, i2: nat, i3: nat, i4: nat, i5: nat,
                   x1: string, x2: string, x3: string, x4: string, x5: string)
    requires i0 <= i1 <= i2 <= i3 <= i4 <= i5 <= |s|
    requires s[i0..i1] == x1 && s[i1..i2] == x2 && s[i2..i3] == x3 && s[i3..i4] == x4 && s[i4..i5] == x5
    ensures s[i0..i5] == x1 + x2 + x3 + x4 + x5
  {
    SliceSplit(s, i3, i4, i5);
    SliceSplit(s, i2, i3, i5);
    SliceSplit(s, i1, i2, i5);
    SliceSplit(s, i0, i1, i5);
    Regroup5(x1, x2, x3, x4, x5);
  }

  /** The matched text `match[0]` is the substring the fence spans. */
  lemma RawAt(s: string, m: Fence)
    requires IsFenceAt(s, m)
    ensures s[m.start..End(m)] == Raw(m)
  {
    var a, n, c := m.start, NewlinePos(m), ClosePos(m);
    TripleSlice(s, a);
    TripleSlice(s, c);
    CharSlice(s, n);
    SlicesJoin(s, a, a + 3, n, n + 1, c, End(m), "```", TagText(m.tag), "\n", m.body, "```");
  }

  /** The body never holds three backticks in a row: the first closing delimiter ends the fence. */
  lemma BodyHasNoTriple(s: string, m: Fence)
    requires IsFenceAt(s, m)
    ensures forall p :: !TripleAt(m.body, p)
  {
    forall p | TripleAt(m.body, p) ensures false {
      var q := NewlinePos(m) + 1 + p;
      assert s[q] == m.body[p] && s[q + 1] == m.body[p + 1] && s[q + 2] == m.body[p + 2];
      assert TripleAt(s, q);
    }
  }

  /** `exec` from `from` finds `m` when `m` is a fence and none starts between `from` and `m.start`. */
  lemma ExecFinds(s: string, from: nat, m: Fence)
    requires from <= m.start && IsFenceAt(s, m)
    requires forall m': Fence :: from <= m'.start < m.start ==> !IsFenceAt(s, m')
    ensures Exec(s, from) == Some(m)
  {
    var r := Exec(s, from);
    assert r.Some?;
    FenceUnique(s, m, r.value);
  }

  /** No fence is found from `from` when no backtick occurs from `from` on. */
  lemma ExecNoneWithoutBacktick(s: string, from: nat)
    requires from <= |s|
    requires '`' !in s[from..]
    ensures Exec(s, from) == None
  {
  }
}
