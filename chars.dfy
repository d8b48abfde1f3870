/**
 * Character classes and the few JavaScript string built-ins the bot relies on:
 * the `\s` class, `toLowerCase`, `trim`, `split(/(\s+)/)` with its separators
 * kept, `split(/\s+/)`, and `join("")`. Strings are sequences of code points.
 */
module Chars {

  /** The characters JavaScript's `\s` matches; `trim` strips the same set. */
  predicate IsSpace(c: char) {
    || c == '\t' || c == '\n' || c == '\U{B}' || c == '\U{C}' || c == '\r' || c == ' '
    || c == '\U{A0}' || c == '\U{1680}' || '\U{2000}' <= c <= '\U{200A}'
    || c == '\U{2028}' || c == '\U{2029}' || c == '\U{202F}' || c == '\U{205F}'
    || c == '\U{3000}' || c == '\U{FEFF}'
  }

  /** No character of `w` is a space. */
  predicate NoSpace(w: string) {
    forall i :: 0 <= i < |w| ==> !IsSpace(w[i])
  }

  /** Every character of `w` is a space; `w` may be empty. */
  predicate Blank(w: string) {
    forall i :: 0 <= i < |w| ==> IsSpace(w[i])
  }

  /** A word: a non-empty string without spaces. */
  predicate IsWord(w: string) {
    w != [] && NoSpace(w)
  }

  /** A non-empty string of spaces. */
  predicate IsSpaces(w: string) {
    w != [] && Blank(w)
  }

  /** `[A-Za-z]` */
  predicate IsLatin(c: char) {
    'A' <= c <= 'Z' || 'a' <= c <= 'z'
  }

  /** `[А-Яа-яІіЇїЄєҐґ]`, the Cyrillic class of the mixed-alphabet check: the range
    * А..я holds the 32 basic capitals and smalls (Ъ, Ы, Э among them) but not Ё/ё. */
  predicate IsBasicCyrillic(c: char) {
    'А' <= c <= 'я' || c in "ІіЇїЄєҐґ"
  }

  /** `[ІіЇїЄєҐґ]`: letters Ukrainian has and Russian does not. */
  predicate IsUkrainianOnly(c: char) {
    c in "ІіЇїЄєҐґ"
  }

  /** `[ЁёЪъЫыЭэ]`: letters Russian has and Ukrainian does not. */
  predicate IsRussianOnly(c: char) {
    c in "ЁёЪъЫыЭэ"
  }

  /** `[А-Яа-яІіЇїЄєҐґЁёЪъЫыЭэ]`, the Cyrillic class of language detection. */
  predicate IsCyrillic(c: char) {
    IsBasicCyrillic(c) || IsRussianOnly(c)
  }

  predicate HasLatin(s: string) {
    exists i :: 0 <= i < |s| && IsLatin(s[i])
  }

  predicate HasBasicCyrillic(s: string) {
    exists i :: 0 <= i < |s| && IsBasicCyrillic(s[i])
  }

  predicate HasCyrillic(s: string) {
    exists i :: 0 <= i < |s| && IsCyrillic(s[i])
  }

  predicate HasUkrainianOnly(s: string) {
    exists i :: 0 <= i < |s| && IsUkrainianOnly(s[i])
  }

  predicate HasRussianOnly(s: string) {
    exists i :: 0 <= i < |s| && IsRussianOnly(s[i])
  }

  /** `toLowerCase` on one character, for the Latin and Cyrillic alphabets. */
  function LowerChar(c: char): (d: char)
    ensures IsLatin(c) ==> IsLatin(d) && 'a' <= d <= 'z'
    ensures !IsLatin(c) ==> !IsLatin(d)
    ensures IsCyrillic(c) ==> IsCyrillic(d)
    ensures IsSpace(d) == IsSpace(c)
  {
    if 'A' <= c <= 'Z' || 'А' <= c <= 'Я' then (c as int + 32) as char
    else if '\U{400}' <= c <= '\U{40F}' then (c as int + 80) as char
    else if c == 'Ґ' then 'ґ'
    else c
  }

  /** `s.toLowerCase()` */
  function Lower(s: string): (r: string)
    ensures |r| == |s|
    ensures forall i :: 0 <= i < |s| ==> r[i] == LowerChar(s[i])
  {
    seq(|s|, i requires 0 <= i < |s| => LowerChar(s[i]))
  }

  predicate IsLowerCase(s: string) {
    Lower(s) == s
  }

  lemma LowerIsLowerCase(s: string)
    ensures IsLowerCase(Lower(s))
  {
    forall i | 0 <= i < |s|
      ensures LowerChar(LowerChar(s[i])) == LowerChar(s[i])
    {
    }
  }

  /** Lower-case ASCII letters and hyphens only, as in "zh-cn". */
  predicate IsAsciiLowerCode(s: string) {
    forall i :: 0 <= i < |s| ==> 'a' <= s[i] <= 'z' || s[i] == '-'
  }

  lemma AsciiLowerCodeIsLowerCase(s: string)
    requires IsAsciiLowerCode(s)
    ensures IsLowerCase(s)
  {
  }

  /** `s.trimStart()`: the suffix of `s` left after its leading spaces. */
  function TrimStart(s: string): (r: string)
    ensures |r| <= |s| && r == s[|s| - |r|..]
    ensures forall i :: 0 <= i < |s| - |r| ==> IsSpace(s[i])
    ensures r == [] || !IsSpace(r[0])
  {
    if s != [] && IsSpace(s[0]) then
      var r := TrimStart(s[1..]);
      assert s[1..][|s| - 1 - |r|..] == s[|s| - |r|..];
      assert forall i :: 1 <= i < |s| - |r| ==> s[i] == s[1..][i - 1];
      r
    else s
  }

  /** `s.trimEnd()`: the prefix of `s` left before its trailing spaces. */
  function TrimEnd(s: string): (r: string)
    ensures |r| <= |s| && r == s[..|r|]
    ensures forall i :: |r| <= i < |s| ==> IsSpace(s[i])
    ensures r == [] || !IsSpace(r[|r| - 1])
  {
    if s != [] && IsSpace(s[|s| - 1]) then TrimEnd(s[..|s| - 1]) else s
  }

  /** `r` is the slice of `s` that starts at `i`, and `s` holds only spaces
    * before and after it. */
  predicate SpacesAround(s: string, i: int, r: string) {
    && 0 <= i <= |s| - |r| && s[i..i + |r|] == r
    && (forall j :: 0 <= j < i ==> IsSpace(s[j]))
    && (forall j :: i + |r| <= j < |s| ==> IsSpace(s[j]))
  }

  /** `s.trim()`: `TrimIsSlice` and `TrimUnique` below characterise it as the
    * slice of `s` between its leading and its trailing spaces. */
  function Trim(s: string): (r: string)
    ensures |r| <= |s|
    ensures r == [] || (!IsSpace(r[0]) && !IsSpace(r[|r| - 1]))
  {
    TrimEnd(TrimStart(s))
  }

  /** The trimmed text is the slice of `s` after its leading spaces, and only
    * spaces follow it. */
  lemma TrimIsSlice(s: string)
    ensures SpacesAround(s, |s| - |TrimStart(s)|, Trim(s))
  {
    SpacesAroundPrefixOfSuffix(s, TrimStart(s), TrimEnd(TrimStart(s)));
  }

  /** A prefix `r` of a suffix `a` of `s`, where `s` has only spaces before
    * `a` and `a` only spaces after `r`, has only spaces around it in `s`. */
  lemma SpacesAroundPrefixOfSuffix(s: string, a: string, r: string)
    requires |a| <= |s| && a == s[|s| - |a|..]
    requires forall j :: 0 <= j < |s| - |a| ==> IsSpace(s[j])
    requires |r| <= |a| && r == a[..|r|]
    requires forall j :: |r| <= j < |a| ==> IsSpace(a[j])
    ensures SpacesAround(s, |s| - |a|, r)
  {
    var i := |s| - |a|;
    SliceOfSuffix(s, i, |r|);
    forall j | i + |r| <= j < |s|
      ensures IsSpace(s[j])
    {
      ShiftedIndex(s, i, j);
    }
  }

  /** A prefix of a suffix is a slice. */
  lemma SliceOfSuffix<T>(s: seq<T>, i: nat, n: nat)
    requires i + n <= |s|
    ensures s[i..][..n] == s[i..i + n]
  {
  }

  /** An element of a suffix is an element of the sequence, shifted. */
  lemma ShiftedIndex<T>(s: seq<T>, i: nat, j: nat)
    requires i <= j < |s|
    ensures s[j] == s[i..][j - i]
  {
  }

  /** There is one way to cut a string into leading spaces, a middle that
    * neither starts nor ends with a space, and trailing spaces; `Trim`
    * yields that middle. */
  lemma TrimUnique(s: string, i: int, m: string)
    requires SpacesAround(s, i, m)
    requires m == [] || (!IsSpace(m[0]) && !IsSpace(m[|m| - 1]))
    ensures Trim(s) == m
  {
    var r := Trim(s);
    var i' := |s| - |TrimStart(s)|;
    TrimIsSlice(s);
    if m == [] {
      assert forall j :: 0 <= j < |s| ==> IsSpace(s[j]);
    } else {
      assert s[i] == m[0] && s[i + |m| - 1] == m[|m| - 1];
      assert s[i'] == r[0] && s[i' + |r| - 1] == r[|r| - 1];
      assert i' == i;
      assert |r| == |m|;
    }
  }

  /** Spaces around a middle that neither starts nor ends with a space are
    * what `trim` removes. */
  lemma TrimOfPadded(lead: string, m: string, trail: string)
    requires Blank(lead) && Blank(trail)
    requires m == [] || (!IsSpace(m[0]) && !IsSpace(m[|m| - 1]))
    ensures Trim(lead + m + trail) == m
  {
    var s := lead + m + trail;
    assert s[|lead|..|lead| + |m|] == m;
    assert forall j :: 0 <= j < |lead| ==> s[j] == lead[j];
    assert forall j :: |lead| + |m| <= j < |s| ==> s[j] == trail[j - |lead| - |m|];
    TrimUnique(s, |lead|, m);
  }

  /** `ts.join("")` */
  function Join(ts: seq<string>): (r: string)
  {
    if ts == [] then [] else ts[0] + Join(ts[1..])
  }

  /** A non-empty run of characters that are all spaces or all non-spaces. */
  predicate IsRun(t: string) {
    t != [] && forall i :: 0 <= i < |t| ==> IsSpace(t[i]) == IsSpace(t[0])
  }

  /** What `split(/(\s+)/)` yields, empty strings aside: runs that alternate
    * between non-spaces and spaces. */
  predicate IsRunSplit(ts: seq<string>) {
    && (forall k :: 0 <= k < |ts| ==> IsRun(ts[k]))
    && (forall k :: 0 <= k < |ts| - 1 ==> IsSpace(ts[k][0]) != IsSpace(ts[k + 1][0]))
  }

  /** The length of the maximal run at the start of a non-empty string. */
  function RunLength(s: string): (n: nat)
    requires s != []
    ensures 1 <= n <= |s|
    ensures forall i :: 0 <= i < n ==> IsSpace(s[i]) == IsSpace(s[0])
    ensures n < |s| ==> IsSpace(s[n]) != IsSpace(s[0])
  {
    if |s| == 1 || IsSpace(s[1]) != IsSpace(s[0]) then 1 else 1 + RunLength(s[1..])
  }

  /** `s.split(/(\s+)/)`: the whitespace runs are kept as tokens between the
    * other runs. JavaScript also yields an empty string at an end of `s` that
    * is a space, and `[""]` for `""`; those contribute nothing to a join. */
  function Tokens(s: string): (ts: seq<string>)
    ensures IsRunSplit(ts)
    ensures Join(ts) == s
    decreases |s|
  {
    if s == [] then []
    else
      var n := RunLength(s);
      var rest := Tokens(s[n..]);
      HeadRun(s);
      FirstOfJoin(rest);
      ConsRunSplit(s[..n], rest);
      [s[..n]] + rest
  }

  /** The maximal run at the start of `s` is a run, and what follows it starts
    * with the other kind of character. */
  lemma HeadRun(s: string)
    requires s != []
    ensures var n := RunLength(s);
      && IsRun(s[..n]) && s[..n] + s[n..] == s
      && (n < |s| ==> IsSpace(s[n..][0]) != IsSpace(s[..n][0]))
  {
    var n := RunLength(s);
    var head := s[..n];
    assert forall i :: 0 <= i < |head| ==> head[i] == s[i];
    assert IsRun(head);
    SplitAt(s, n);
  }

  /** Padding with nothing on either side leaves the sequence as it was. */
  lemma UnpaddedIsSame<T>(ws: seq<T>)
    ensures [] + ws + [] == ws
  {
  }

  /** A sequence is its prefix followed by the rest. */
  lemma SplitAt<T>(s: seq<T>, n: nat)
    requires n <= |s|
    ensures s[..n] + s[n..] == s
  {
  }

  /** A run-split joins into a string that starts with its first run. */
  lemma FirstOfJoin(ts: seq<string>)
    requires IsRunSplit(ts)
    ensures ts != [] ==> Join(ts) != [] && Join(ts)[0] == ts[0][0]
  {
    if ts != [] {
      assert Join(ts) == ts[0] + Join(ts[1..]);
    }
  }

  /** A run followed by a run-split that starts with the other kind of run is
    * a run-split, and the two join into the run followed by the rest. */
  lemma ConsRunSplit(head: string, rest: seq<string>)
    requires IsRun(head) && IsRunSplit(rest)
    requires rest != [] ==> IsSpace(rest[0][0]) != IsSpace(head[0])
    ensures IsRunSplit([head] + rest)
    ensures Join([head] + rest) == head + Join(rest)
  {
    var ts := [head] + rest;
    assert ts[1..] == rest;
    forall k | 1 <= k < |ts|
      ensures IsRun(ts[k])
    {
      assert ts[k] == rest[k - 1];
    }
  }

  /** A run-split is recovered from its join: `split` undoes `join`. */
  lemma {:induction false} TokensOfJoin(ts: seq<string>)
    requires IsRunSplit(ts)
    ensures Tokens(Join(ts)) == ts
  {
    if ts != [] {
      var s := Join(ts);
      var rest := Join(ts[1..]);
      assert s == ts[0] + rest;
      assert IsRunSplit(ts[1..]);
      if rest != [] {
        assert Join(ts[1..]) == ts[1] + Join(ts[2..]);
        assert rest[0] == ts[1][0];
      }
      RunLengthOfConcat(ts[0], rest);
      assert s[..|ts[0]|] == ts[0];
      assert s[|ts[0]|..] == rest;
      TokensOfJoin(ts[1..]);
    }
  }

  /** A word without spaces is a single token. */
  lemma SingleToken(s: string)
    requires s != [] && NoSpace(s)
    ensures Tokens(s) == [s]
  {
    SingletonRunSplit(s);
    TokensOfJoin([s]);
  }

  lemma SingletonRunSplit(s: string)
    requires s != [] && NoSpace(s)
    ensures IsRunSplit([s])
    ensures Join([s]) == s
  {
    assert IsRun(s);
    JoinSingle(s);
  }

  lemma JoinSingle(s: string)
    ensures Join([s]) == s
  {
    assert Join([s]) == s + Join([]);
  }

  lemma {:induction false} RunLengthOfConcat(a: string, b: string)
    requires IsRun(a)
    requires b != [] ==> IsSpace(b[0]) != IsSpace(a[0])
    ensures RunLength(a + b) == |a|
  {
    if |a| > 1 {
      assert (a + b)[1..] == a[1..] + b;
      RunLengthOfConcat(a[1..], b);
    }
  }

  /** The non-space runs of `s`, in order: its words. */
  function Words(s: string): (ws: seq<string>)
    ensures forall k :: 0 <= k < |ws| ==> ws[k] != [] && NoSpace(ws[k])
  {
    NonSpaceRuns(Tokens(s))
  }

  /** The pieces of `ts` that are words, in order; on a run-split, the runs
    * that are not spaces. */
  function NonSpaceRuns(ts: seq<string>): (ws: seq<string>)
    ensures forall k :: 0 <= k < |ws| ==> IsWord(ws[k])
  {
    if ts == [] then []
    else if IsWord(ts[0]) then [ts[0]] + NonSpaceRuns(ts[1..])
    else NonSpaceRuns(ts[1..])
  }

  /** `t.split(/\s+/)`: the words of `t`, with an empty string before them when
    * `t` starts with a space and after them when it ends with one; `[""]` for `""`. */
  function SplitOnSpaces(t: string): (parts: seq<string>)
    ensures parts != []
    ensures forall k :: 0 <= k < |parts| ==> NoSpace(parts[k])
  {
    if t == [] then [""]
    else Padded(IsSpace(t[0]), Words(t), IsSpace(t[|t| - 1]))
  }

  /** `ws` with an empty string before it when `lead` holds and after it when
    * `trail` does. */
  function Padded(lead: bool, ws: seq<string>, trail: bool): (parts: seq<string>)
    requires forall k :: 0 <= k < |ws| ==> NoSpace(ws[k])
    ensures forall k :: 0 <= k < |parts| ==> NoSpace(parts[k])
    ensures |parts| == |ws| + (if lead then 1 else 0) + (if trail then 1 else 0)
  {
    (if lead then [""] else []) + ws + (if trail then [""] else [])
  }

  /* ---------- Texts built from words ---------- */

  /** The pieces of the text made of the words `ws`, with `seps[k]` between
    * `ws[k]` and `ws[k + 1]`: it starts with the first word and ends with the
    * last. */
  function Interleave<T>(ws: seq<T>, seps: seq<T>): (ts: seq<T>)
    requires ws != [] && |seps| == |ws| - 1
    ensures |ts| == 2 * |ws| - 1
    ensures ts[0] == ws[0] && ts[|ts| - 1] == ws[|ws| - 1]
    decreases |ws|
  {
    if |ws| == 1 then [ws[0]]
    else
      var rest := Interleave(ws[1..], seps[1..]);
      assert ws[1..][|ws| - 2] == ws[|ws| - 1];
      [ws[0], seps[0]] + rest
  }

  /** `ws` are words and `seps` the whitespace between consecutive ones. */
  predicate Separated(ws: seq<string>, seps: seq<string>) {
    && ws != [] && |seps| == |ws| - 1
    && (forall k :: 0 <= k < |ws| ==> IsWord(ws[k]))
    && (forall k :: 0 <= k < |seps| ==> IsSpaces(seps[k]))
  }

  /** The text of the words `ws` separated by `seps`, after the spaces `lead`
    * and before the spaces `trail`. */
  function Spaced(lead: string, ws: seq<string>, seps: seq<string>, trail: string): string
    requires ws != [] && |seps| == |ws| - 1
  {
    lead + Join(Interleave(ws, seps)) + trail
  }

  /** `s` as a list of at most one piece. */
  function Pad<T>(s: seq<T>): seq<seq<T>> {
    if s == [] then [] else [s]
  }

  /** The first and last pieces of a non-empty list with optional pieces at
    * its ends. */
  lemma EndsOfPadded<T>(lead: seq<T>, mid: seq<seq<T>>, trail: seq<T>)
    requires mid != []
    ensures var ts := Pad(lead) + mid + Pad(trail);
      && ts[0] == (if lead != [] then lead else mid[0])
      && ts[|ts| - 1] == (if trail != [] then trail else mid[|mid| - 1])
  {
  }

  /** Joining two lists of pieces joins their joins. */
  lemma {:induction false} JoinAppend(a: seq<string>, b: seq<string>)
    ensures Join(a + b) == Join(a) + Join(b)
  {
    if a == [] {
      assert a + b == b;
    } else {
      assert (a + b)[0] == a[0];
      assert (a + b)[1..] == a[1..] + b;
      JoinAppend(a[1..], b);
    }
  }

  /** A run-split joins into a string that ends with its last run. */
  lemma {:induction false} LastOfJoin(ts: seq<string>)
    requires IsRunSplit(ts) && ts != []
    ensures var j := Join(ts); var last := ts[|ts| - 1];
      j != [] && j[|j| - 1] == last[|last| - 1]
  {
    assert IsRun(ts[0]);
    if |ts| > 1 {
      assert IsRunSplit(ts[1..]);
      LastOfJoin(ts[1..]);
    }
  }

  /** Two run-splits that meet with different kinds of run make one. */
  lemma AppendRunSplit(a: seq<string>, b: seq<string>)
    requires IsRunSplit(a) && IsRunSplit(b)
    requires a != [] && b != [] ==> IsSpace(a[|a| - 1][0]) != IsSpace(b[0][0])
    ensures IsRunSplit(a + b)
  {
    var ts := a + b;
    forall k | 0 <= k < |ts|
      ensures IsRun(ts[k])
    {
      if k < |a| {
        assert ts[k] == a[k];
      } else {
        assert ts[k] == b[k - |a|];
      }
    }
    forall k | 0 <= k < |ts| - 1
      ensures IsSpace(ts[k][0]) != IsSpace(ts[k + 1][0])
    {
      if k + 1 < |a| {
        assert ts[k] == a[k] && ts[k + 1] == a[k + 1];
      } else if k + 1 == |a| {
        assert ts[k] == a[|a| - 1] && ts[k + 1] == b[0];
      } else {
        assert ts[k] == b[k - |a|] && ts[k + 1] == b[k - |a| + 1];
      }
    }
  }

  /** The words of two lists of pieces put together are the words of each. */
  lemma {:induction false} NonSpaceRunsAppend(a: seq<string>, b: seq<string>)
    ensures NonSpaceRuns(a + b) == NonSpaceRuns(a) + NonSpaceRuns(b)
  {
    if a == [] {
      assert a + b == b;
    } else {
      assert (a + b)[0] == a[0];
      assert (a + b)[1..] == a[1..] + b;
      NonSpaceRunsAppend(a[1..], b);
    }
  }

  /** Dropping the first word and separator leaves words separated by
    * whitespace. */
  lemma SeparatedTail(ws: seq<string>, seps: seq<string>)
    requires Separated(ws, seps) && |ws| > 1
    ensures Separated(ws[1..], seps[1..])
  {
    assert forall k :: 0 <= k < |ws| - 1 ==> ws[1..][k] == ws[k + 1];
    assert forall k :: 0 <= k < |seps| - 1 ==> seps[1..][k] == seps[k + 1];
  }

  /** Words with whitespace between them make a run-split. */
  lemma {:induction false} InterleaveRunSplit(ws: seq<string>, seps: seq<string>)
    requires Separated(ws, seps)
    ensures IsRunSplit(Interleave(ws, seps))
  {
    assert IsRun(ws[0]);
    if |ws| > 1 {
      assert IsRun(seps[0]);
      SeparatedTail(ws, seps);
      var rest := Interleave(ws[1..], seps[1..]);
      InterleaveRunSplit(ws[1..], seps[1..]);
      assert IsRunSplit([ws[0], seps[0]]);
      AppendRunSplit([ws[0], seps[0]], rest);
    }
  }

  /** A word followed by a piece that is not one contributes just the word. */
  lemma NonSpaceRunsOfWordThenSpaces(w: string, sp: string, rest: seq<string>)
    requires IsWord(w) && !IsWord(sp)
    ensures NonSpaceRuns([w, sp] + rest) == [w] + NonSpaceRuns(rest)
  {
    var ts := [w, sp] + rest;
    assert ts[1..] == [sp] + rest;
    assert ts[1..][1..] == rest;
  }

  /** The words of words with whitespace between them are those words. */
  lemma {:induction false} NonSpaceRunsOfInterleave(ws: seq<string>, seps: seq<string>)
    requires Separated(ws, seps)
    ensures NonSpaceRuns(Interleave(ws, seps)) == ws
  {
    assert IsWord(ws[0]);
    if |ws| == 1 {
      assert NonSpaceRuns([ws[0]]) == [ws[0]] + NonSpaceRuns([]);
    } else {
      assert IsSpace(seps[0][0]);
      SeparatedTail(ws, seps);
      NonSpaceRunsOfInterleave(ws[1..], seps[1..]);
      NonSpaceRunsOfWordThenSpaces(ws[0], seps[0], Interleave(ws[1..], seps[1..]));
    }
  }

  /** Blank ends around words interleaved with whitespace make a run-split. */
  lemma PaddedRunSplit(lead: string, ws: seq<string>, seps: seq<string>, trail: string)
    requires Separated(ws, seps) && Blank(lead) && Blank(trail)
    ensures IsRunSplit(Pad(lead) + Interleave(ws, seps) + Pad(trail))
  {
    var it := Interleave(ws, seps);
    InterleaveRunSplit(ws, seps);
    assert IsRunSplit(Pad(lead)) && IsRunSplit(Pad(trail));
    assert IsWord(ws[0]) && IsWord(ws[|ws| - 1]);
    AppendRunSplit(Pad(lead), it);
    var front := Pad(lead) + it;
    assert front[|front| - 1] == ws[|ws| - 1];
    AppendRunSplit(front, Pad(trail));
  }

  /** The pieces join back into the text. */
  lemma JoinOfPadded(lead: string, ws: seq<string>, seps: seq<string>, trail: string)
    requires ws != [] && |seps| == |ws| - 1
    ensures Join(Pad(lead) + Interleave(ws, seps) + Pad(trail)) == Spaced(lead, ws, seps, trail)
  {
    var it := Interleave(ws, seps);
    JoinAppend(Pad(lead), it);
    JoinAppend(Pad(lead) + it, Pad(trail));
    JoinSingle(lead);
    JoinSingle(trail);
  }

  /** Blank ends add no words. */
  lemma NonSpaceRunsOfPadded(lead: string, ws: seq<string>, seps: seq<string>, trail: string)
    requires Separated(ws, seps) && Blank(lead) && Blank(trail)
    ensures NonSpaceRuns(Pad(lead) + Interleave(ws, seps) + Pad(trail)) == ws
  {
    var it := Interleave(ws, seps);
    NonSpaceRunsOfInterleave(ws, seps);
    NonSpaceRunsAppend(Pad(lead), it);
    NonSpaceRunsAppend(Pad(lead) + it, Pad(trail));
    assert NonSpaceRuns(Pad(lead)) == [] by {
      if lead != [] {
        assert IsSpace(lead[0]);
        assert NonSpaceRuns([lead]) == NonSpaceRuns([]);
      }
    }
    assert NonSpaceRuns(Pad(trail)) == [] by {
      if trail != [] {
        assert IsSpace(trail[0]);
        assert NonSpaceRuns([trail]) == NonSpaceRuns([]);
      }
    }
    UnpaddedIsSame(ws);
  }

  /** Blank ends around words interleaved with whitespace: the pieces of the
    * text, as `split(/(\s+)/)` cuts it. */
  lemma TokensOfSpaced(lead: string, ws: seq<string>, seps: seq<string>, trail: string)
    requires Separated(ws, seps) && Blank(lead) && Blank(trail)
    ensures Tokens(Spaced(lead, ws, seps, trail)) == Pad(lead) + Interleave(ws, seps) + Pad(trail)
  {
    PaddedRunSplit(lead, ws, seps, trail);
    JoinOfPadded(lead, ws, seps, trail);
    TokensOfJoin(Pad(lead) + Interleave(ws, seps) + Pad(trail));
  }

  /** Such a text starts with a space exactly when `lead` is not empty, and
    * ends with one exactly when `trail` is not. */
  lemma EndsOfSpaced(lead: string, ws: seq<string>, seps: seq<string>, trail: string)
    requires Separated(ws, seps) && Blank(lead) && Blank(trail)
    ensures var t := Spaced(lead, ws, seps, trail);
      t != [] && IsSpace(t[0]) == (lead != []) && IsSpace(t[|t| - 1]) == (trail != [])
  {
    var ts := Pad(lead) + Interleave(ws, seps) + Pad(trail);
    PaddedRunSplit(lead, ws, seps, trail);
    JoinOfPadded(lead, ws, seps, trail);
    EndsOfPadded(lead, Interleave(ws, seps), trail);
    FirstOfJoin(ts);
    LastOfJoin(ts);
    assert IsWord(ws[0]) && IsWord(ws[|ws| - 1]);
  }

  /** `split(/\s+/)` on any text of words: the words in order, with an empty
    * string before them exactly when the text starts with a space and after
    * them exactly when it ends with one. */
  lemma SplitOnSpacesOfSpaced(lead: string, ws: seq<string>, seps: seq<string>, trail: string)
    requires Separated(ws, seps) && Blank(lead) && Blank(trail)
    ensures Words(Spaced(lead, ws, seps, trail)) == ws
    ensures SplitOnSpaces(Spaced(lead, ws, seps, trail)) == Padded(lead != [], ws, trail != [])
  {
    TokensOfSpaced(lead, ws, seps, trail);
    NonSpaceRunsOfPadded(lead, ws, seps, trail);
    EndsOfSpaced(lead, ws, seps, trail);
  }

  /** `trim` on any text of words removes exactly its blank ends. */
  lemma TrimOfSpaced(lead: string, ws: seq<string>, seps: seq<string>, trail: string)
    requires Separated(ws, seps) && Blank(lead) && Blank(trail)
    ensures Trim(Spaced(lead, ws, seps, trail)) == Spaced([], ws, seps, [])
  {
    var it := Interleave(ws, seps);
    InterleaveRunSplit(ws, seps);
    FirstOfJoin(it);
    LastOfJoin(it);
    assert IsWord(ws[0]) && IsWord(ws[|ws| - 1]);
    TrimOfPadded(lead, Join(it), trail);
    UnpaddedIsSame(Join(it));
  }
}
