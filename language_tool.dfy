/**
 * `autocorrectWithLanguageTool` and `applyLTReplacements`: the text is sent to
 * LanguageTool, whose answer is a list of matches (offset, length, suggested
 * replacements). The matches are sorted by offset and spliced into the text
 * with a cursor that only moves forward; a match that starts before the cursor
 * overlaps one already applied and is skipped.
 */
module LanguageTool {
  import opened Wrappers

  /** One element of LanguageTool's `matches` array. `offset` and `length` may
    * be missing (then read as 0); `replacements` holds the `value` of every
    * suggestion, `None` where that value is not a string. */
  datatype Match = Match(offset: Option<nat>, length: Option<nat>, replacements: seq<Option<string>>)

  /** `m.offset ?? 0` */
  function Off(m: Match): nat {
    m.offset.GetOr(0)
  }

  /** `m.length ?? 0` */
  function Len(m: Match): nat {
    m.length.GetOr(0)
  }

  function End(m: Match): nat {
    Off(m) + Len(m)
  }

  /** `m.replacements?.[0]?.value`, kept only when it is a string. */
  function FirstReplacement(m: Match): Option<string> {
    if |m.replacements| > 0 then m.replacements[0] else None
  }

  /** `s.slice(a, b)` for non-negative bounds: both are clamped to the length
    * of `s`, and the slice is empty when `a >= b`. */
  function Slice(s: string, a: nat, b: nat): (r: string)
    ensures a <= b <= |s| ==> r == s[a..b]
    ensures b <= a || |s| <= a ==> r == []
    ensures |r| <= |s|
  {
    var lo := if a < |s| then a else |s|;
    var hi := if b < |s| then b else |s|;
    if lo < hi then s[lo..hi] else []
  }

  lemma SliceConcat(s: string, a: nat, b: nat, c: nat)
    requires a <= b <= c
    ensures Slice(s, a, b) + Slice(s, b, c) == Slice(s, a, c)
  {
    var lo := if a < |s| then a else |s|;
    var mid := if b < |s| then b else |s|;
    var hi := if c < |s| then c else |s|;
    assert Slice(s, a, b) == s[lo..mid];
    assert Slice(s, b, c) == s[mid..hi];
    assert Slice(s, a, c) == s[lo..hi];
    assert s[lo..mid] + s[mid..hi] == s[lo..hi];
  }

  /* ---------- `[...matches].sort((a, b) => (a.offset ?? 0) - (b.offset ?? 0))` ---------- */

  predicate SortedByOffset(ms: seq<Match>) {
    forall i, j :: 0 <= i < j < |ms| ==> Off(ms[i]) <= Off(ms[j])
  }

  /** Puts `m` into a sorted list after every match whose offset is not larger. */
  function Insert(ms: seq<Match>, m: Match): (r: seq<Match>)
    requires SortedByOffset(ms)
    ensures |r| == |ms| + 1
    ensures r[0] == m || (ms != [] && r[0] == ms[0])
    ensures SortedByOffset(r)
  {
    if ms == [] then [m]
    else if Off(m) < Off(ms[0]) then [m] + ms
    else
      var rest := Insert(ms[1..], m);
      assert Off(ms[0]) <= Off(rest[0]);
      [ms[0]] + rest
  }

  lemma {:induction false} InsertPermutes(ms: seq<Match>, m: Match)
    requires SortedByOffset(ms)
    ensures multiset(Insert(ms, m)) == multiset(ms) + multiset{m}
  {
    if ms != [] && Off(ms[0]) <= Off(m) {
      InsertPermutes(ms[1..], m);
      assert ms == [ms[0]] + ms[1..];
    }
  }

  /** The stable sort of JavaScript's `Array.prototype.sort` by offset. */
  function SortByOffset(ms: seq<Match>): (r: seq<Match>)
    ensures |r| == |ms|
    ensures SortedByOffset(r)
  {
    if ms == [] then []
    else Insert(SortByOffset(ms[..|ms| - 1]), ms[|ms| - 1])
  }

  /** Sorting neither loses nor duplicates a match. */
  lemma {:induction false} SortPermutes(ms: seq<Match>)
    ensures multiset(SortByOffset(ms)) == multiset(ms)
  {
    if ms != [] {
      var init, last := ms[..|ms| - 1], ms[|ms| - 1];
      var sorted := SortByOffset(init);
      assert SortByOffset(ms) == Insert(sorted, last);
      SortPermutes(init);
      InsertPermutes(sorted, last);
      MultisetSnoc(ms);
    }
  }

  lemma MultisetSnoc(ms: seq<Match>)
    requires ms != []
    ensures multiset(ms) == multiset(ms[..|ms| - 1]) + multiset{ms[|ms| - 1]}
  {
    assert ms == ms[..|ms| - 1] + [ms[|ms| - 1]];
  }

  /** The matches at offset `o`, in their order in `ms`. */
  function AtOffset(ms: seq<Match>, o: nat): seq<Match> {
    if ms == [] then []
    else (if Off(ms[0]) == o then [ms[0]] else []) + AtOffset(ms[1..], o)
  }

  lemma {:induction false} AtOffsetConcat(a: seq<Match>, b: seq<Match>, o: nat)
    ensures AtOffset(a + b, o) == AtOffset(a, o) + AtOffset(b, o)
  {
    if a != [] {
      var head := if Off(a[0]) == o then [a[0]] else [];
      assert (a + b)[0] == a[0] && (a + b)[1..] == a[1..] + b;
      AtOffsetConcat(a[1..], b, o);
      ConcatAssoc(head, AtOffset(a[1..], o), AtOffset(b, o));
    } else {
      assert a + b == b;
    }
  }

  lemma {:induction false} AtOffsetAbove(ms: seq<Match>, o: nat)
    requires forall i :: 0 <= i < |ms| ==> o < Off(ms[i])
    ensures AtOffset(ms, o) == []
  {
    if ms != [] {
      AtOffsetAbove(ms[1..], o);
    }
  }

  lemma AtOffsetSingle(m: Match, o: nat)
    ensures AtOffset([m], o) == if Off(m) == o then [m] else []
  {
    assert [m][1..] == [];
  }

  lemma {:induction false} InsertStable(ms: seq<Match>, m: Match, o: nat)
    requires SortedByOffset(ms)
    ensures AtOffset(Insert(ms, m), o) == AtOffset(ms, o) + AtOffset([m], o)
  {
    if ms == [] {
      assert AtOffset(ms, o) == [];
    } else if Off(m) < Off(ms[0]) {
      InsertAtFrontStable(ms, m, o);
    } else {
      var rest := Insert(ms[1..], m);
      assert Insert(ms, m) == [ms[0]] + rest;
      InsertStable(ms[1..], m, o);
      ConsStable(ms[0], rest, ms[1..], [m], o);
      assert [ms[0]] + ms[1..] == ms;
    }
  }

  lemma ConsStable(h: Match, rest: seq<Match>, tail: seq<Match>, more: seq<Match>, o: nat)
    requires AtOffset(rest, o) == AtOffset(tail, o) + AtOffset(more, o)
    ensures AtOffset([h] + rest, o) == AtOffset([h] + tail, o) + AtOffset(more, o)
  {
    var a0, x, y := if Off(h) == o then [h] else [], AtOffset(tail, o), AtOffset(more, o);
    AtOffsetCons(h, rest, o);
    AtOffsetCons(h, tail, o);
    ConcatAssoc(a0, x, y);
  }

  lemma ConcatAssoc<T>(a: seq<T>, b: seq<T>, c: seq<T>)
    ensures a + (b + c) == (a + b) + c
  {
  }

  lemma AtOffsetCons(h: Match, rest: seq<Match>, o: nat)
    ensures AtOffset([h] + rest, o) == (if Off(h) == o then [h] else []) + AtOffset(rest, o)
  {
    assert ([h] + rest)[1..] == rest;
  }

  lemma InsertAtFrontStable(ms: seq<Match>, m: Match, o: nat)
    requires SortedByOffset(ms) && ms != [] && Off(m) < Off(ms[0])
    ensures AtOffset([m] + ms, o) == AtOffset(ms, o) + AtOffset([m], o)
  {
    AtOffsetSingle(m, o);
    AtOffsetCons(m, ms, o);
    if Off(m) == o {
      AtOffsetAbove(ms, o);
    }
  }

  /** Sorting keeps the matches that share an offset in their original order,
    * so of two matches at one offset the one LanguageTool listed first is
    * applied first. */
  lemma {:induction false} SortIsStable(ms: seq<Match>, o: nat)
    ensures AtOffset(SortByOffset(ms), o) == AtOffset(ms, o)
  {
    if ms != [] {
      var init, last := ms[..|ms| - 1], ms[|ms| - 1];
      var sorted := SortByOffset(init);
      assert SortByOffset(ms) == Insert(sorted, last);
      SortIsStable(init, o);
      InsertStable(sorted, last, o);
      AtOffsetSnoc(ms, o);
    }
  }

  lemma AtOffsetSnoc(ms: seq<Match>, o: nat)
    requires ms != []
    ensures AtOffset(ms, o) == AtOffset(ms[..|ms| - 1], o) + AtOffset([ms[|ms| - 1]], o)
  {
    assert ms == ms[..|ms| - 1] + [ms[|ms| - 1]];
    AtOffsetConcat(ms[..|ms| - 1], [ms[|ms| - 1]], o);
  }

  /* ---------- the splice ---------- */

  /** What an applied match contributes: its first replacement, or else the
    * text it covers. */
  function Piece(text: string, m: Match): string {
    match FirstReplacement(m)
    case Some(r) => r
    case None => Slice(text, Off(m), End(m))
  }

  /** What the loop of `applyLTReplacements` appends from `cursor` on when the
    * matches still to visit are `ms`. */
  function Splice(text: string, ms: seq<Match>, cursor: nat): string
    decreases |ms|
  {
    if ms == [] then Slice(text, cursor, |text|)
    else if Off(ms[0]) < cursor then Splice(text, ms[1..], cursor)
    else Slice(text, cursor, Off(ms[0])) + Piece(text, ms[0]) + Splice(text, ms[1..], End(ms[0]))
  }

  /** Where the cursor goes after visiting `m`: it stays put when `m` starts
    * before it, and otherwise moves to the end of `m`. Either way it does not
    * move back. */
  function NextCursor(m: Match, cursor: nat): (c: nat)
    ensures cursor <= c
  {
    if Off(m) < cursor then cursor else End(m)
  }

  /** `cursors[k]` is the cursor before visiting `ms[k]`, starting from 0. */
  predicate CursorWalk(ms: seq<Match>, cursors: seq<nat>) {
    && |cursors| == |ms| + 1
    && cursors[0] == 0
    && forall k :: 0 <= k < |ms| ==> cursors[k + 1] == NextCursor(ms[k], cursors[k])
  }

  /** `applyLTReplacements(original, matches)`: sort, then splice. */
  method ApplyReplacements(original: string, matches: seq<Match>) returns (out: string, ghost cursors: seq<nat>)
    ensures out == Splice(original, SortByOffset(matches), 0)
    ensures CursorWalk(SortByOffset(matches), cursors)
    ensures forall k :: 0 <= k < |matches| ==> cursors[k] <= cursors[k + 1]
  {
    var ms := SortByOffset(matches);
    out, cursors := SpliceMatches(original, ms);
  }

  /** The loop of `applyLTReplacements` over the sorted matches `ms`. The ghost
    * `cursors` records the cursor before each match and after the last one; it
    * never decreases. */
  method SpliceMatches(original: string, ms: seq<Match>) returns (out: string, ghost cursors: seq<nat>)
    ensures out == Splice(original, ms, 0)
    ensures CursorWalk(ms, cursors)
    ensures forall k :: 0 <= k < |ms| ==> cursors[k] <= cursors[k + 1]
  {
    out := "";
    var cursor: nat := 0;
    cursors := [0];
    for k := 0 to |ms|
      invariant |cursors| == k + 1 && cursors[k] == cursor && cursors[0] == 0
      invariant forall j :: 0 <= j < k ==> cursors[j + 1] == NextCursor(ms[j], cursors[j])
      invariant out + Splice(original, ms[k..], cursor) == Splice(original, ms, 0)
    {
      var m := ms[k];
      var off, len, repl := Off(m), Len(m), FirstReplacement(m);
      if off < cursor {
        SpliceSkip(original, ms, k, cursor);
        WalkExtends(ms, cursors, k, cursor);
        cursors := cursors + [cursor];
        continue;
      }
      var piece := if repl.Some? then repl.value else Slice(original, off, off + len);
      assert piece == Piece(original, m);
      SpliceAdvance(original, ms, k, cursor, out);
      out := out + Slice(original, cursor, off) + piece;
      cursor := off + len;
      WalkExtends(ms, cursors, k, cursor);
      cursors := cursors + [cursor];
    }
    out := out + Slice(original, cursor, |original|);
  }

  /** The walk of cursors grows by the cursor after the next match. */
  lemma WalkExtends(ms: seq<Match>, cursors: seq<nat>, k: nat, next: nat)
    requires k < |ms| && |cursors| == k + 1
    requires forall j :: 0 <= j < k ==> cursors[j + 1] == NextCursor(ms[j], cursors[j])
    requires next == NextCursor(ms[k], cursors[k])
    ensures forall j :: 0 <= j < k + 1 ==> (cursors + [next])[j + 1] == NextCursor(ms[j], (cursors + [next])[j])
  {
  }

  /** A match that starts before the cursor is skipped. */
  lemma SpliceSkip(text: string, ms: seq<Match>, k: nat, cursor: nat)
    requires k < |ms| && Off(ms[k]) < cursor
    ensures Splice(text, ms[k..], cursor) == Splice(text, ms[k + 1..], cursor)
  {
    assert ms[k..][0] == ms[k] && ms[k..][1..] == ms[k + 1..];
  }

  /** A match at or after the cursor is applied: the text up to it and its
    * piece are appended, and the cursor moves to its end. */
  lemma SpliceAdvance(text: string, ms: seq<Match>, k: nat, cursor: nat, out: string)
    requires k < |ms| && cursor <= Off(ms[k])
    ensures out + Splice(text, ms[k..], cursor) ==
      (out + Slice(text, cursor, Off(ms[k])) + Piece(text, ms[k])) + Splice(text, ms[k + 1..], End(ms[k]))
  {
    assert ms[k..][0] == ms[k] && ms[k..][1..] == ms[k + 1..];
    ConcatAssoc4(out, Slice(text, cursor, Off(ms[k])), Piece(text, ms[k]), Splice(text, ms[k + 1..], End(ms[k])));
  }

  lemma ConcatAssoc4<T>(a: seq<T>, b: seq<T>, c: seq<T>, d: seq<T>)
    ensures a + (b + c + d) == a + b + c + d
  {
  }

  /** A list of matches whose every piece is the text it covers (no match has a
    * string replacement, or each replacement equals what it replaces) leaves
    * the text as it is from the cursor on. */
  lemma {:induction false} SpliceOfCoveredText(text: string, ms: seq<Match>, cursor: nat)
    requires forall i :: 0 <= i < |ms| ==> Piece(text, ms[i]) == Slice(text, Off(ms[i]), End(ms[i]))
    ensures Splice(text, ms, cursor) == Slice(text, cursor, |text|)
  {
    if ms != [] {
      var m := ms[0];
      SpliceOfCoveredText(text, ms[1..], if Off(m) < cursor then cursor else End(m));
      if cursor <= Off(m) {
        SliceConcat(text, cursor, Off(m), End(m));
        if End(m) <= |text| {
          SliceConcat(text, cursor, End(m), |text|);
        }
      }
    }
  }

  /** With no match carrying a string replacement, the text comes back unchanged. */
  lemma NoReplacementKeepsText(text: string, matches: seq<Match>)
    requires forall i :: 0 <= i < |matches| ==> FirstReplacement(matches[i]).None?
    ensures Splice(text, SortByOffset(matches), 0) == text
  {
    var ms := SortByOffset(matches);
    SortPermutes(matches);
    forall i | 0 <= i < |ms|
      ensures FirstReplacement(ms[i]).None?
    {
      assert ms[i] in multiset(matches);
    }
    SpliceOfCoveredText(text, ms, 0);
  }

  /** The matches the loop applies, starting from `cursor`. */
  function Applied(ms: seq<Match>, cursor: nat): seq<Match>
    decreases |ms|
  {
    if ms == [] then []
    else if Off(ms[0]) < cursor then Applied(ms[1..], cursor)
    else [ms[0]] + Applied(ms[1..], End(ms[0]))
  }

  /** Applied matches lie at or after the cursor, in order, and never overlap:
    * each one ends no later than the next one starts. */
  lemma {:induction false} AppliedDoNotOverlap(ms: seq<Match>, cursor: nat)
    ensures forall i :: 0 <= i < |Applied(ms, cursor)| ==> cursor <= Off(Applied(ms, cursor)[i])
    ensures forall i, j :: 0 <= i < j < |Applied(ms, cursor)| ==>
      End(Applied(ms, cursor)[i]) <= Off(Applied(ms, cursor)[j])
  {
    if ms != [] {
      var m := ms[0];
      if Off(m) < cursor {
        AppliedDoNotOverlap(ms[1..], cursor);
      } else {
        AppliedDoNotOverlap(ms[1..], End(m));
        var a := Applied(ms, cursor);
        assert a[1..] == Applied(ms[1..], End(m));
        forall i, j | 0 <= i < j < |a|
          ensures End(a[i]) <= Off(a[j])
        {
          if i > 0 {
            assert a[i] == a[1..][i - 1] && a[j] == a[1..][j - 1];
          } else {
            assert a[j] == a[1..][j - 1];
          }
        }
      }
    }
  }

  /** Skipped matches make no difference: splicing only the applied ones gives
    * the same text. */
  lemma {:induction false} SpliceOfApplied(text: string, ms: seq<Match>, cursor: nat)
    ensures Splice(text, Applied(ms, cursor), cursor) == Splice(text, ms, cursor)
  {
    if ms != [] {
      var m := ms[0];
      if Off(m) < cursor {
        SpliceOfApplied(text, ms[1..], cursor);
      } else {
        SpliceOfApplied(text, ms[1..], End(m));
        assert Applied(ms, cursor)[1..] == Applied(ms[1..], End(m));
      }
    }
  }

  /** What `autocorrectWithLanguageTool` returns for LanguageTool's answer:
    * `None` stands for a failed request or an unreadable body. */
  function Autocorrected(text: string, response: Option<seq<Match>>): (r: string)
    ensures response.None? ==> r == text
    ensures response == Some([]) ==> r == text
  {
    match response
    case None => text
    case Some(ms) => if ms == [] then text else Splice(text, SortByOffset(ms), 0)
  }

  /** `autocorrectWithLanguageTool(text)`: a failed request, an empty list of
    * matches, or a list without replacements leaves the text unchanged. */
  method AutocorrectWithLanguageTool(text: string, response: Option<seq<Match>>) returns (r: string)
    ensures r == Autocorrected(text, response)
    ensures response.Some? && (forall i :: 0 <= i < |response.value| ==> FirstReplacement(response.value[i]).None?)
      ==> r == text
  {
    match response
    case None =>
      r := text;
    case Some(ms) =>
      if |ms| == 0 {
        r := text;
      } else {
        ghost var cursors;
        r, cursors := ApplyReplacements(text, ms);
        if forall i :: 0 <= i < |ms| ==> FirstReplacement(ms[i]).None? {
          NoReplacementKeepsText(text, ms);
        }
      }
  }
}
