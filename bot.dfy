/**
 * The bot itself: the `/setlang` and `/mylang` commands over the per-user
 * preference store, the choice of the target language, and the text handler
 * that runs the pipeline normalise → autocorrect → detect → choose a target →
 * translate, and replies with the translation.
 */
module Bot {
  import opened Wrappers
  import opened Chars
  import opened LangCodes
  import opened Normalizer
  import opened LanguageTool
  import opened Detector
  import opened Providers

  /** A Telegram user id. */
  type UserId = int

  const NotSet: string := "(не встановлено)"
  const UsageHint: string := "Вкажіть код мови. Напр.: /setlang pl"
  const SetPrefix: string := "Готово! Цільова мова для вас: "
  const MyLangPrefix: string := "Ваше /setlang: "

  /* ---------- /setlang ---------- */

  /** `parts[1]?.toLowerCase()` for `parts = text.trim().split(/\s+/)`, when it
    * is not empty: the first word after the command, in lower case. */
  function SetLangArgument(text: string): (arg: Option<string>)
    ensures arg.Some? ==> arg.value != [] && IsLowerCase(arg.value)
    ensures arg.Some? ==> forall i :: 0 <= i < |arg.value| ==> !IsSpace(arg.value[i])
  {
    var parts := SplitOnSpaces(Trim(text));
    if |parts| >= 2 && parts[1] != [] then
      LowerIsLowerCase(parts[1]);
      Some(Lower(parts[1]))
    else None
  }

  /** `/setlang` reads the second word of the message, whatever whitespace
    * surrounds and separates its words, and ignores any words after it; a
    * message of one word has no argument. */
  lemma SetLangReadsSecondWord(lead: string, ws: seq<string>, seps: seq<string>, trail: string)
    requires Separated(ws, seps) && Blank(lead) && Blank(trail)
    ensures SetLangArgument(Spaced(lead, ws, seps, trail)) == if |ws| >= 2 then Some(Lower(ws[1])) else None
  {
    TrimOfSpaced(lead, ws, seps, trail);
    SplitOnSpacesOfSpaced([], ws, seps, []);
    UnpaddedIsSame(ws);
    if |ws| >= 2 {
      assert IsWord(ws[1]);
    }
  }

  /** An empty message, or one of spaces only, has no argument either. */
  lemma SetLangOfBlank(text: string)
    requires Blank(text)
    ensures SetLangArgument(text).None?
  {
    UnpaddedIsSame(text);
    TrimOfPadded(text, [], []);
  }

  /** What the store may hold: a non-empty word in lower case. */
  predicate IsCode(s: string) {
    IsWord(s) && IsLowerCase(s)
  }

  /** `normLang(raw) || raw`: the canonical code when `raw` is in the alias
    * table, `raw` itself otherwise. */
  function StoredCode(raw: string): (code: string)
    requires raw != []
    ensures code != []
    ensures NormLang(raw).Some? ==> code == NormLang(raw).value
    ensures NormLang(raw).None? ==> code == raw
  {
    NormLang(raw).GetOr(raw)
  }

  /** Storing a stored code again changes nothing: `/setlang` is idempotent. */
  lemma StoredCodeIdempotent(raw: string)
    requires raw != []
    ensures StoredCode(StoredCode(raw)) == StoredCode(raw)
  {
    if NormLang(raw).Some? {
      NormLangFixedPoint(raw);
    }
  }

  /** The stored code of a lower-case word is a lower-case word. */
  lemma StoredCodeIsLowerWord(raw: string)
    requires IsCode(raw)
    ensures IsCode(StoredCode(raw))
  {
    if NormLang(raw).Some? {
      var code := NormLang(raw).value;
      AliasIsCanonical(Lower(raw));
      assert IsAsciiLowerCode(code);
    }
  }

  /* ---------- The preference store ---------- */

  /** `userPrefs`: the target language each user fixed with `/setlang`. */
  class PrefStore {
    var prefs: map<UserId, string>

    /** Every stored code is a code. */
    ghost predicate Valid()
      reads this
    {
      forall u :: u in prefs ==> IsCode(prefs[u])
    }

    constructor ()
      ensures prefs == map[] && Valid()
    {
      prefs := map[];
    }

    /** `userPrefs.get(user)` */
    function Preference(user: UserId): (pref: Option<string>)
      reads this
      ensures pref.Some? <==> user in prefs
      ensures pref.Some? ==> pref.value == prefs[user]
    {
      if user in prefs then Some(prefs[user]) else None
    }

    /** `/setlang` sent by `user` as `text`: without an argument only the usage
      * hint is sent back; with one, the stored code of the argument replaces
      * whatever the user had before, and every other user keeps theirs. */
    method SetLang(user: UserId, text: string) returns (reply: string)
      requires Valid()
      modifies this
      ensures Valid()
      ensures SetLangArgument(text).None? ==> prefs == old(prefs) && reply == UsageHint
      ensures SetLangArgument(text).Some? ==>
        var code := StoredCode(SetLangArgument(text).value);
        prefs == old(prefs)[user := code] && reply == SetPrefix + code
    {
      var raw := SetLangArgument(text);
      if raw.None? {
        return UsageHint;
      }
      assert IsCode(raw.value);
      StoredCodeIsLowerWord(raw.value);
      var code := StoredCode(raw.value);
      prefs := prefs[user := code];
      forall u | u in prefs
        ensures IsCode(prefs[u])
      {
        if u != user {
          assert prefs[u] == old(prefs)[u];
        }
      }
      reply := SetPrefix + code;
    }

    /** `/mylang` sent by `user`: the stored code, or the "not set" marker. */
    method MyLang(user: UserId) returns (reply: string)
      requires Valid()
      ensures user in prefs ==> reply == MyLangPrefix + prefs[user]
      ensures user !in prefs ==> reply == MyLangPrefix + NotSet
    {
      var pref := Preference(user);
      reply := MyLangPrefix + if pref.Some? && pref.value != [] then pref.value else NotSet;
    }
  }

  /* ---------- The target language ---------- */

  /** The default rule: Ukrainian and Russian go to Polish, everything else to
    * Russian. */
  function DefaultTarget(lowerSrc: string): (target: string)
    ensures target == "pl" <==> lowerSrc == "uk" || lowerSrc == "ru"
    ensures target == "pl" || target == "ru"
  {
    if lowerSrc == "uk" || lowerSrc == "ru" then "pl" else "ru"
  }

  /** The target of the long-running bot: a stored preference in lower case,
    * else the default rule on the lower-cased source. */
  function Target(src: string, pref: Option<string>): (target: string)
    ensures pref.Some? && pref.value != [] ==> target == Lower(pref.value)
    ensures pref.None? || pref.value == [] ==> target == DefaultTarget(Lower(src))
    ensures IsLowerCase(target)
    ensures target != []
  {
    if pref.Some? && pref.value != [] then
      LowerIsLowerCase(pref.value);
      Lower(pref.value)
    else
      assert Lower("pl") == "pl" && Lower("ru") == "ru";
      DefaultTarget(Lower(src))
  }

  /** The target of the webhook copy: the default rule compares the source as
    * it is, without lower-casing it. */
  function TargetWebhook(src: string, pref: Option<string>): (target: string)
    ensures pref.Some? && pref.value != [] ==> target == Lower(pref.value)
    ensures pref.None? || pref.value == [] ==> target == DefaultTarget(src)
  {
    if pref.Some? && pref.value != [] then Lower(pref.value) else DefaultTarget(src)
  }

  /** On every source `detectLang` can return, the two copies pick the same
    * target. */
  lemma TargetsAgreeOnDetectedSources(text: string, detected: Option<string>, pref: Option<string>)
    ensures var src := DetectLang(text, detected);
      Target(src, pref) == TargetWebhook(src, pref)
  {
    DetectedCodeIsLowerPair(text, detected);
  }

  /** On a source in upper case the two copies differ. */
  lemma TargetsDifferOnUpperCase()
    ensures Target("UK", None) == "pl"
    ensures TargetWebhook("UK", None) == "ru"
  {
    assert Lower("UK") == "uk";
  }

  /** `src && target && src.toLowerCase() === target`: the handler's skip. */
  predicate SkipSameLanguage(src: string, target: string) {
    src != [] && target != [] && Lower(src) == target
  }

  /** Without a preference the default rule never picks the source's own
    * language, so only a preference can make the handler skip. */
  lemma DefaultNeverSkips(src: string)
    ensures !SkipSameLanguage(src, Target(src, None))
  {
  }

  /** With a preference, the handler skips exactly the messages whose source is
    * the preferred language, up to letter case. */
  lemma PreferenceSkipsOwnLanguage(src: string, pref: string)
    requires src != [] && pref != []
    ensures SkipSameLanguage(src, Target(src, Some(pref))) <==> Lower(src) == Lower(pref)
  {
  }

  /** Past the handler's skip, the guard of `translateSmartToTarget` never
    * fires on a detected source: the chain always consults MyMemory. */
  lemma ChainGuardAfterSkip(text: string, detected: Option<string>, pref: Option<string>)
    ensures var src := DetectLang(text, detected); var target := Target(src, pref);
      !SkipSameLanguage(src, target) ==> !SameLanguage(src, target)
  {
    var src := DetectLang(text, detected);
    DetectedCodeIsLowerPair(text, detected);
    assert src != "auto";
  }

  /* ---------- The text handler ---------- */

  /** `Переклад (${src}→${target}):\n${translated}` */
  function ReplyText(src: string, target: string, translated: string): (reply: string)
    ensures |reply| > |translated| && reply[|reply| - |translated|..] == translated
    ensures reply[|reply| - |translated| - 1] == '\n'
  {
    "Переклад (" + src + "→" + target + "):\n" + translated
  }

  /** What LanguageTool makes of the normalised message. */
  function Corrected(text: string, lt: Option<seq<Match>>): string {
    Autocorrected(NormalizeMixed(text), lt)
  }

  /** The requests made before translating: LanguageTool always, the detection
    * service only for text without Cyrillic letters. */
  function PrefixCalls(text: string, lt: Option<seq<Match>>): (calls: seq<Call>)
    ensures 1 <= |calls| <= 2 && calls[0] == LanguageToolCall(NormalizeMixed(text))
    ensures |calls| == 2 <==> !HasCyrillic(Corrected(text, lt))
    ensures |calls| == 2 ==> calls[1] == DetectCall(Corrected(text, lt))
  {
    var corrected := Corrected(text, lt);
    [LanguageToolCall(NormalizeMixed(text))] + if HasCyrillic(corrected) then [] else [DetectCall(corrected)]
  }

  /** What the handler replies to `text` from a user whose preference is
    * `pref`, given the services' answers. */
  function HandlerReply(
    text: string, pref: Option<string>, lt: Option<seq<Match>>, detected: Option<string>,
    myMemory: (string, string) -> Option<string>,
    libre: (LibreInstance, LibreRequest) -> LibreReply): (reply: Option<string>)
  {
    var corrected := Corrected(text, lt);
    ReplyFor(corrected, DetectLang(corrected, detected), pref, myMemory, libre)
  }

  /** The part of the handler after detection: the reply to the corrected
    * text `corrected` in language `src`. */
  function ReplyFor(
    corrected: string, src: string, pref: Option<string>,
    myMemory: (string, string) -> Option<string>,
    libre: (LibreInstance, LibreRequest) -> LibreReply): (reply: Option<string>)
    ensures reply.Some? <==>
      !SkipSameLanguage(src, Target(src, pref)) && Translation(corrected, src, Target(src, pref), myMemory, libre).Some?
  {
    var target := Target(src, pref);
    if SkipSameLanguage(src, target) then None
    else
      var translated := Translation(corrected, src, target, myMemory, libre);
      if translated.Some? then Some(ReplyText(src, target, translated.value)) else None
  }

  /** A message in the language a user prefers is never answered. */
  lemma NoReplyInPreferredLanguage(
    text: string, pref: string, lt: Option<seq<Match>>, detected: Option<string>,
    myMemory: (string, string) -> Option<string>,
    libre: (LibreInstance, LibreRequest) -> LibreReply)
    requires pref != []
    requires Lower(DetectLang(Corrected(text, lt), detected)) == Lower(pref)
    ensures HandlerReply(text, Some(pref), lt, detected, myMemory, libre).None?
  {
    DetectedCodeIsLowerPair(Corrected(text, lt), detected);
  }

  /** Every reply names a source and a target that differ, and carries a
    * non-empty translation. */
  lemma ReplyNamesTwoLanguages(
    text: string, pref: Option<string>, lt: Option<seq<Match>>, detected: Option<string>,
    myMemory: (string, string) -> Option<string>,
    libre: (LibreInstance, LibreRequest) -> LibreReply)
    requires HandlerReply(text, pref, lt, detected, myMemory, libre).Some?
    ensures var src := DetectLang(Corrected(text, lt), detected); var target := Target(src, pref);
      exists t :: t != [] && HandlerReply(text, pref, lt, detected, myMemory, libre) == Some(ReplyText(src, target, t))
        && Lower(src) != target
  {
    var src := DetectLang(Corrected(text, lt), detected);
    var target := Target(src, pref);
    DetectedCodeIsLowerPair(Corrected(text, lt), detected);
    var t := Translation(Corrected(text, lt), src, target, myMemory, libre).value;
    assert HandlerReply(text, pref, lt, detected, myMemory, libre) == Some(ReplyText(src, target, t));
  }

  lemma DefaultIsPolishForUkrainian()
    ensures Target("uk", None) == "pl"
  {
    assert Lower("uk") == "uk";
  }

  /** The example of the help text: with no corrections and no preference,
    * "привыт" is read as Ukrainian "привит" and translated into Polish. */
  lemma PryvytGoesToPolish(detected: Option<string>)
    ensures Corrected("привыт", None) == "привит"
    ensures DetectLang(Corrected("привыт", None), detected) == "uk"
    ensures Target(DetectLang(Corrected("привыт", None), detected), None) == "pl"
  {
    ExampleRussianLetter();
    assert Corrected("привыт", None) == "привит";
    SharedLettersAreUkrainian(detected);
    DefaultIsPolishForUkrainian();
  }

  /** The handler for a text message from `sender`: messages from bots are
    * ignored; otherwise the pipeline runs and `reply` is what is sent back,
    * `calls` the requests made, in order. */
  method HandleText(
    store: PrefStore, sender: UserId, fromBot: bool, text: string,
    lt: Option<seq<Match>>, detected: Option<string>,
    myMemory: (string, string) -> Option<string>,
    libre: (LibreInstance, LibreRequest) -> LibreReply)
    returns (reply: Option<string>, calls: seq<Call>)
    ensures fromBot ==> reply.None? && calls == []
    ensures !fromBot ==> reply == HandlerReply(text, store.Preference(sender), lt, detected, myMemory, libre)
    ensures !fromBot ==>
      var prefix := PrefixCalls(text, lt);
      var src := DetectLang(Corrected(text, lt), detected);
      var target := Target(src, store.Preference(sender));
      && |prefix| <= |calls| && calls[..|prefix|] == prefix
      && (forall k :: |prefix| <= k < |calls| ==> calls[k].IsTranslation())
      && (|calls| == |prefix| <==> SkipSameLanguage(src, target))
      && (|prefix| < |calls| ==> calls[|prefix|] == MyMemoryCall(Corrected(text, lt), MyMemoryPair(src, target)))
      && (!SkipSameLanguage(src, target) ==> ChainTrace(calls[|prefix|..], Corrected(text, lt), src, target, myMemory, libre))
  {
    if fromBot {
      return None, [];
    }
    var corrected;
    corrected, calls := Prepare(text, lt);
    var src := DetectLang(corrected, detected);
    DetectedCodeIsLowerPair(corrected, detected);
    var providerCalls;
    reply, providerCalls := Respond(corrected, src, store.Preference(sender), myMemory, libre);
    assert (calls + providerCalls)[..|calls|] == calls;
    assert (calls + providerCalls)[|calls|..] == providerCalls;
    calls := calls + providerCalls;
  }

  /** The handler before detection: normalise, autocorrect, and record the
    * requests made so far. */
  method Prepare(text: string, lt: Option<seq<Match>>) returns (corrected: string, calls: seq<Call>)
    ensures corrected == Corrected(text, lt)
    ensures calls == PrefixCalls(text, lt)
  {
    var fixed := NormalizeMixed(text);
    calls := [LanguageToolCall(fixed)];
    corrected := AutocorrectWithLanguageTool(fixed, lt);
    if !HasCyrillic(corrected) {
      calls := calls + [DetectCall(corrected)];
    }
  }

  /** The handler after detection: choose the target, skip the source's own
    * language, else translate and format the reply. */
  method Respond(
    corrected: string, src: string, pref: Option<string>,
    myMemory: (string, string) -> Option<string>,
    libre: (LibreInstance, LibreRequest) -> LibreReply)
    returns (reply: Option<string>, calls: seq<Call>)
    requires |src| == 2
    ensures reply == ReplyFor(corrected, src, pref, myMemory, libre)
    ensures forall k :: 0 <= k < |calls| ==> calls[k].IsTranslation()
    ensures calls == [] <==> SkipSameLanguage(src, Target(src, pref))
    ensures calls != [] ==> calls[0] == MyMemoryCall(corrected, MyMemoryPair(src, Target(src, pref)))
    ensures !SkipSameLanguage(src, Target(src, pref)) ==> ChainTrace(calls, corrected, src, Target(src, pref), myMemory, libre)
  {
    var target := Target(src, pref);
    if SkipSameLanguage(src, target) {
      return None, [];
    }
    assert src != "auto";
    var translated;
    translated, calls := TranslateSmartToTarget(corrected, src, target, myMemory, libre);
    if translated.None? {
      return None, calls;
    }
    reply := Some(ReplyText(src, target, translated.value));
  }

  /* ---------- The preference lookup as the source writes it ---------- */

  /** `normLang(raw) || raw` as written: what `/setlang` stores. */
  function StoredAsWritten(raw: string): (v: JsValue)
    requires raw != []
    ensures Lower(raw) != "constructor" && Lower(raw) != "__proto__" ==> v == Str(StoredCode(raw))
  {
    match NormLangAsWritten(raw)
    case Some(v) => v
    case None => Str(raw)
  }

  /** The target as written, with a stored value that may not be a string:
    * `None` when `pref.toLowerCase()` throws, which the handler's catch-all
    * turns into silence. */
  function TargetAsWritten(src: string, pref: Option<JsValue>): (target: Option<string>)
    ensures pref.None? ==> target == Some(Target(src, None))
    ensures pref.Some? && pref.value.Str? ==> target == Some(Target(src, Some(pref.value.s)))
  {
    match pref
    case None => Some(Target(src, None))
    case Some(Str(s)) => Some(Target(src, Some(s)))
    case Some(_) => None
  }

  /** The target is always lower case, so `memoryPairCode` as written can
    * only find `constructor` or `__proto__` on it, never a method of
    * `Object.prototype`. */
  lemma TargetMemoryPairCodeAsWritten(src: string, pref: Option<string>)
    ensures var target := Target(src, pref);
      target != "constructor" && target != "__proto__" ==> MemoryPairCodeAsWritten(target) == Str(MemoryPairCode(target))
  {
    MemoryPairCodeAsWrittenOnLowerCase(Target(src, pref));
  }

  /** `/setlang constructor` stores the function `Object`, after which every
    * message of that user throws before any translation: the user is never
    * answered again. The corrected store keeps the word as an unknown code,
    * which then reaches `memoryPairCode` as the target: there the as-written
    * lookup would find the inherited member too, so the correction needs the
    * own-key lookup of `MemoryPairCode` as well. */
  lemma SetLangConstructorSilencesUser(src: string)
    ensures StoredAsWritten("constructor") == ObjectConstructor
    ensures TargetAsWritten(src, Some(StoredAsWritten("constructor"))).None?
    ensures StoredCode("constructor") == "constructor"
    ensures Target(src, Some(StoredCode("constructor"))) == "constructor"
    ensures MemoryPairCodeAsWritten(Target(src, Some(StoredCode("constructor")))) == ObjectConstructor
    ensures MemoryPairCode(Target(src, Some(StoredCode("constructor")))) == "constructor"
  {
    assert Lower("constructor") == "constructor";
    assert "constructor" !in Aliases;
    MemoryPairCodeAsWrittenLeaksConstructor();
  }
}
