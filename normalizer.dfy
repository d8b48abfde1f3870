/**
 * `normalizeMixed`: repairs words typed with the wrong keyboard layout.
 * The text is split into whitespace and non-whitespace runs; in every run the
 * Russian letters ы, Ы, э, Э, ъ, Ъ become the Ukrainian и, И, е, Е, ʼ, ʼ, and a
 * run that then holds both Cyrillic and Latin letters has its 24 Latin
 * look-alikes replaced by the Cyrillic letters they resemble.
 */
module Normalizer {
  import opened Chars

  /** The letters the `rusToUkr` table rewrites. */
  predicate IsReplacedRussian(c: char) {
    c == 'ы' || c == 'Ы' || c == 'э' || c == 'Э' || c == 'ъ' || c == 'Ъ'
  }

  /** `rusToUkr[ch] || ch` */
  function RusToUkr(c: char): (d: char)
    ensures IsReplacedRussian(c) ==> IsBasicCyrillic(d) || d == 'ʼ'
    ensures !IsReplacedRussian(c) ==> d == c
    ensures !IsReplacedRussian(d) && !IsSpace(d) == !IsSpace(c) && IsLatin(d) == IsLatin(c)
    ensures IsBasicCyrillic(d) <==> IsBasicCyrillic(c) && c != 'ъ' && c != 'Ъ'
  {
    match c
    case 'ы' => 'и'
    case 'Ы' => 'И'
    case 'э' => 'е'
    case 'Э' => 'Е'
    case 'ъ' => 'ʼ'
    case 'Ъ' => 'ʼ'
    case _ => c
  }

  /** The keys of the `latinToCyr` table. */
  predicate IsLookalike(c: char) {
    IsLatin(c) && LatinToCyr(c) != c
  }

  /** `latinToCyr[ch] || ch` */
  function LatinToCyr(c: char): (d: char)
    ensures d != c ==> IsLatin(c) && IsBasicCyrillic(d) && !IsReplacedRussian(d)
    ensures !IsLatin(d) || d == c
    ensures IsSpace(d) == IsSpace(c)
  {
    match c
    case 'A' => 'А'
    case 'a' => 'а'
    case 'B' => 'В'
    case 'E' => 'Е'
    case 'e' => 'е'
    case 'K' => 'К'
    case 'k' => 'к'
    case 'M' => 'М'
    case 'm' => 'м'
    case 'H' => 'Н'
    case 'O' => 'О'
    case 'o' => 'о'
    case 'P' => 'Р'
    case 'p' => 'р'
    case 'C' => 'С'
    case 'c' => 'с'
    case 'T' => 'Т'
    case 't' => 'т'
    case 'X' => 'Х'
    case 'x' => 'х'
    case 'I' => 'І'
    case 'i' => 'і'
    case 'Y' => 'У'
    case 'y' => 'у'
    case _ => c
  }

  /** `tok.replace(/[ыЫэЭъЪ]/g, …)` */
  function ReplaceRussian(t: string): (r: string)
    ensures |r| == |t|
    ensures forall i :: 0 <= i < |t| ==> r[i] == RusToUkr(t[i])
  {
    seq(|t|, i requires 0 <= i < |t| => RusToUkr(t[i]))
  }

  /** `tok.replace(/[A-Za-z]/g, …)` */
  function ReplaceLookalikes(t: string): (r: string)
    ensures |r| == |t|
    ensures forall i :: 0 <= i < |t| ==> r[i] == LatinToCyr(t[i])
  {
    seq(|t|, i requires 0 <= i < |t| => LatinToCyr(t[i]))
  }

  /** `isCyr(tok) && isLat(tok)` */
  predicate IsMixed(t: string) {
    HasBasicCyrillic(t) && HasLatin(t)
  }

  /** The per-token step of `normalizeMixed`. Every character keeps its place;
    * Russian letters of the table always become Ukrainian ones; a Latin letter
    * changes only when the token, after that first step, is mixed, and then
    * exactly when it is one of the 24 look-alikes. */
  function NormalizeToken(t: string): (r: string)
    ensures |r| == |t|
    ensures forall i :: 0 <= i < |t| && IsReplacedRussian(t[i]) ==> r[i] == RusToUkr(t[i])
    ensures forall i :: 0 <= i < |t| && !IsReplacedRussian(t[i]) && !IsLatin(t[i]) ==> r[i] == t[i]
    ensures forall i :: 0 <= i < |t| && IsLatin(t[i]) && !IsMixed(ReplaceRussian(t)) ==> r[i] == t[i]
    ensures forall i :: 0 <= i < |t| && IsLatin(t[i]) && !IsLookalike(t[i]) ==> r[i] == t[i]
    ensures IsMixed(ReplaceRussian(t)) ==> forall i :: 0 <= i < |t| ==> !IsLookalike(r[i])
    ensures forall i :: 0 <= i < |t| ==> !IsReplacedRussian(r[i]) && IsSpace(r[i]) == IsSpace(t[i])
  {
    var u := ReplaceRussian(t);
    if IsMixed(u) then ReplaceLookalikes(u) else u
  }

  /** Applies `NormalizeToken` to every token. */
  function NormalizeTokens(ts: seq<string>): (us: seq<string>)
    ensures |us| == |ts|
    ensures forall k :: 0 <= k < |ts| ==> us[k] == NormalizeToken(ts[k])
  {
    seq(|ts|, k requires 0 <= k < |ts| => NormalizeToken(ts[k]))
  }

  /** `normalizeMixed(text)`: split, normalise every token, join. */
  function NormalizeMixed(text: string): (r: string)
  {
    Join(NormalizeTokens(Tokens(text)))
  }

  /** Per character, what `normalizeMixed` may do: a Russian letter of the table
    * becomes its Ukrainian letter, a Latin letter stays or becomes its Cyrillic
    * look-alike, and anything else stays. */
  predicate Step(a: char, b: char) {
    if IsReplacedRussian(a) then b == RusToUkr(a)
    else if IsLatin(a) then b == a || b == LatinToCyr(a)
    else b == a
  }

  predicate Steps(s: string, r: string) {
    |r| == |s| && forall i :: 0 <= i < |s| ==> Step(s[i], r[i])
  }

  lemma NormalizeTokenSteps(t: string)
    ensures Steps(t, NormalizeToken(t))
  {
  }

  lemma {:induction false} JoinSteps(ts: seq<string>, us: seq<string>)
    requires |ts| == |us|
    requires forall k :: 0 <= k < |ts| ==> Steps(ts[k], us[k])
    ensures Steps(Join(ts), Join(us))
  {
    if ts != [] {
      JoinSteps(ts[1..], us[1..]);
      var a, b := Join(ts), Join(us);
      assert a == ts[0] + Join(ts[1..]);
      assert b == us[0] + Join(us[1..]);
      forall i | 0 <= i < |a|
        ensures Step(a[i], b[i])
      {
        if i < |ts[0]| {
          assert a[i] == ts[0][i] && b[i] == us[0][i];
        } else {
          assert a[i] == Join(ts[1..])[i - |ts[0]|];
          assert b[i] == Join(us[1..])[i - |us[0]|];
        }
      }
    }
  }

  /** `normalizeMixed` keeps the length of the text and changes characters
    * only as `Step` allows, one for one and in place. */
  lemma NormalizeMixedSteps(text: string)
    ensures Steps(text, NormalizeMixed(text))
    ensures |NormalizeMixed(text)| == |text|
  {
    var ts := Tokens(text);
    forall k | 0 <= k < |ts|
      ensures Steps(ts[k], NormalizeTokens(ts)[k])
    {
      NormalizeTokenSteps(ts[k]);
    }
    JoinSteps(ts, NormalizeTokens(ts));
  }

  /** No ы, Ы, э, Э, ъ or Ъ survives `normalizeMixed`. */
  lemma NormalizeMixedRemovesRussian(text: string)
    ensures forall i :: 0 <= i < |NormalizeMixed(text)| ==> !IsReplacedRussian(NormalizeMixed(text)[i])
  {
    NormalizeMixedSteps(text);
  }

  /** After the ы/э/ъ step a token is mixed exactly when it has a Latin letter and
    * a Cyrillic letter other than ъ and Ъ: those two become ʼ, which is not Cyrillic. */
  lemma MixedAfterReplacement(t: string)
    ensures IsMixed(ReplaceRussian(t))
        <==> HasLatin(t) && exists i :: 0 <= i < |t| && IsBasicCyrillic(t[i]) && t[i] != 'ъ' && t[i] != 'Ъ'
  {
    var u := ReplaceRussian(t);
    if HasLatin(t) {
      var i :| 0 <= i < |t| && IsLatin(t[i]);
      assert IsLatin(u[i]);
    }
    if HasLatin(u) {
      var i :| 0 <= i < |u| && IsLatin(u[i]);
      assert IsLatin(t[i]);
    }
    if exists i :: 0 <= i < |t| && IsBasicCyrillic(t[i]) && t[i] != 'ъ' && t[i] != 'Ъ' {
      var i :| 0 <= i < |t| && IsBasicCyrillic(t[i]) && t[i] != 'ъ' && t[i] != 'Ъ';
      assert IsBasicCyrillic(u[i]);
    }
    if HasBasicCyrillic(u) {
      var i :| 0 <= i < |u| && IsBasicCyrillic(u[i]);
      assert IsBasicCyrillic(t[i]) && t[i] != 'ъ' && t[i] != 'Ъ';
    }
  }

  lemma NormalizeTokenIdempotent(t: string)
    ensures NormalizeToken(NormalizeToken(t)) == NormalizeToken(t)
  {
    var u := ReplaceRussian(t);
    var v := NormalizeToken(t);
    assert ReplaceRussian(v) == v;
    if IsMixed(u) {
      var i :| 0 <= i < |u| && IsBasicCyrillic(u[i]);
      assert IsBasicCyrillic(v[i]);
      assert ReplaceLookalikes(v) == v;
    } else {
      assert v == u;
    }
  }

  /** The tokens of the normalised text are the normalised tokens: a token
    * changes only letters into letters, so its whitespace runs stay put. */
  lemma TokensOfNormalized(text: string)
    ensures Tokens(NormalizeMixed(text)) == NormalizeTokens(Tokens(text))
  {
    var ts := Tokens(text);
    var us := NormalizeTokens(ts);
    forall k | 0 <= k < |us|
      ensures IsRun(us[k]) && IsSpace(us[k][0]) == IsSpace(ts[k][0])
    {
      NormalizedRun(ts[k]);
    }
    TokensOfJoin(us);
  }

  /** A normalised run is a run of the same kind. */
  lemma NormalizedRun(t: string)
    requires IsRun(t)
    ensures var r := NormalizeToken(t); IsRun(r) && IsSpace(r[0]) == IsSpace(t[0])
  {
  }

  /** `normalizeMixed` is idempotent. */
  lemma NormalizeMixedIdempotent(text: string)
    ensures NormalizeMixed(NormalizeMixed(text)) == NormalizeMixed(text)
  {
    var ts := Tokens(text);
    var us := NormalizeTokens(ts);
    TokensOfNormalized(text);
    forall k | 0 <= k < |us|
      ensures NormalizeToken(us[k]) == us[k]
    {
      NormalizeTokenIdempotent(ts[k]);
    }
    assert NormalizeTokens(us) == us;
  }

  /** Text without any Cyrillic letter passes through `normalizeMixed` unchanged. */
  lemma NormalizeMixedWithoutCyrillic(text: string)
    requires forall i :: 0 <= i < |text| ==> !IsCyrillic(text[i])
    ensures NormalizeMixed(text) == text
  {
    NormalizeMixedSteps(text);
    var ts := Tokens(text);
    NoCyrillicInTokens(ts);
    forall k | 0 <= k < |ts|
      ensures NormalizeToken(ts[k]) == ts[k]
    {
      assert !HasBasicCyrillic(ReplaceRussian(ts[k]));
    }
    assert NormalizeTokens(ts) == ts;
  }

  lemma {:induction false} NoCyrillicInTokens(ts: seq<string>)
    requires forall i :: 0 <= i < |Join(ts)| ==> !IsCyrillic(Join(ts)[i])
    ensures forall k, i :: 0 <= k < |ts| && 0 <= i < |ts[k]| ==> !IsCyrillic(ts[k][i])
  {
    if ts != [] {
      assert Join(ts) == ts[0] + Join(ts[1..]);
      assert forall i :: 0 <= i < |ts[0]| ==> ts[0][i] == Join(ts)[i];
      assert forall i :: 0 <= i < |Join(ts[1..])| ==> Join(ts[1..])[i] == Join(ts)[|ts[0]| + i];
      NoCyrillicInTokens(ts[1..]);
      assert forall k :: 1 <= k < |ts| ==> ts[k] == ts[1..][k - 1];
    }
  }

  /** A text without spaces is normalised as one token. */
  lemma NormalizeMixedOfWord(t: string)
    requires t != [] && NoSpace(t)
    ensures NormalizeMixed(t) == NormalizeToken(t)
  {
    SingleToken(t);
    var u := NormalizeToken(t);
    assert NormalizeTokens([t]) == [u];
    JoinSingle(u);
  }

  /** The Russian ы in "привыт" becomes и; with no Latin letter nothing else
    * changes. */
  lemma ExampleRussianLetter()
    ensures NormalizeMixed("привыт") == "привит"
  {
    NormalizeMixedOfWord("привыт");
    RussianLetterToken();
  }

  lemma RussianLetterToken()
    ensures NormalizeToken("привыт") == "привит"
  {
    assert ReplaceRussian("привыт") == "привит";
    assert !HasLatin("привит");
  }

  /** A Latin `i` typed inside a Cyrillic word becomes the Cyrillic `і`. */
  lemma ExampleMixedWord()
    ensures NormalizeMixed("прив" + ['\U{69}'] + "т") == "привіт"
  {
    var t := "прив" + ['\U{69}'] + "т";
    NormalizeMixedOfWord(t);
    MixedWordToken(t);
  }

  lemma MixedWordToken(t: string)
    requires t == "прив" + ['\U{69}'] + "т"
    ensures NormalizeToken(t) == "привіт"
  {
    assert forall i :: 0 <= i < |t| ==> !IsReplacedRussian(t[i]);
    assert ReplaceRussian(t) == t;
    assert IsBasicCyrillic(t[0]) && IsLatin(t[4]);
    var r := ReplaceLookalikes(t);
    assert forall i :: 0 <= i < |t| && i != 4 ==> !IsLatin(t[i]) && r[i] == t[i];
    assert r[4] == '\U{456}';
    assert r == "привіт";
  }
}
