/**
 * The translation providers: `translateMyMemory`, `translateLibre` over its
 * two LibreTranslate instances, and `translateSmartToTarget`, which tries
 * MyMemory first and LibreTranslate second. The services are parameters: a
 * function from the request the bot would send to the part of the reply it
 * reads. Every network or parse failure is an answer without a usable text.
 */
module Providers {
  import opened Wrappers
  import opened Chars
  import opened LangCodes

  /** A request the pipeline makes, in the order it makes them. */
  datatype Call =
    | LanguageToolCall(text: string)
    | DetectCall(text: string)
    | MyMemoryCall(q: string, langpair: string)
    | LibreCall(base: LibreInstance, request: LibreRequest)
  {
    /** A request to one of the translation providers. */
    predicate IsTranslation() {
      MyMemoryCall? || LibreCall?
    }
  }

  /* ---------- MyMemory ---------- */

  /** The `langpair` parameter of a MyMemory request. */
  function MyMemoryPair(src: string, tgt: string): (pair: string)
    ensures |pair| == |src| + 1 + |tgt| && pair[|src|] == '|'
  {
    MemoryPairCode(src) + "|" + MemoryPairCode(tgt)
  }

  /** The pair can be split back at its bar into the two codes it carries. */
  lemma MyMemoryPairSplits(src: string, tgt: string)
    requires '|' !in src && '|' !in tgt
    ensures var pair := MyMemoryPair(src, tgt); var n := |MemoryPairCode(src)|;
      && n < |pair| && pair[n] == '|'
      && (forall i :: 0 <= i < n ==> pair[i] != '|')
      && Lower(pair[..n]) == Lower(src) && Lower(pair[n + 1..]) == Lower(tgt)
  {
    var pair := MyMemoryPair(src, tgt);
    var a, b := MemoryPairCode(src), MemoryPairCode(tgt);
    assert pair == a + "|" + b;
    assert pair[..|a|] == a;
    assert pair[|a| + 1..] == b;
  }

  /** `translateMyMemory(text, src, tgt)`. `service(q, langpair)` is the
    * `responseData.translatedText` of MyMemory's reply when that is a string;
    * a non-empty one comes back trimmed. */
  function TranslateMyMemory(text: string, src: string, tgt: string, service: (string, string) -> Option<string>): (r: Option<string>)
    ensures r.Some? <==> service(text, MyMemoryPair(src, tgt)).Some? && service(text, MyMemoryPair(src, tgt)).value != ""
    ensures r.Some? ==> r.value == Trim(service(text, MyMemoryPair(src, tgt)).value)
  {
    var out := service(text, MyMemoryPair(src, tgt));
    if out.Some? && out.value != "" then Some(Trim(out.value)) else None
  }

  /* ---------- LibreTranslate ---------- */

  /** The JSON body posted to `<base>/translate`. */
  datatype LibreRequest = LibreRequest(q: string, source: string, target: string, format: string)

  /** The parts of a LibreTranslate reply the bot reads: an object's
    * `translatedText` and `translated_text`, or an array's first element's
    * `translatedText`; `NoBody` for a failed request or a body that is not JSON. */
  datatype LibreReply =
    | NoBody
    | Object(translatedText: Option<string>, translatedTextSnake: Option<string>)
    | Array(firstTranslatedText: Option<string>)

  /** JavaScript truthiness of an optional string. */
  predicate Truthy(s: Option<string>) {
    s.Some? && s.value != ""
  }

  /** `d?.translatedText || d?.translated_text || (Array.isArray(d) && d[0]?.translatedText)`,
    * when truthy. */
  function LibreText(d: LibreReply): (t: Option<string>)
    ensures t.Some? ==> t.value != ""
    ensures t.None? <==> match d
      case NoBody => true
      case Object(a, b) => !Truthy(a) && !Truthy(b)
      case Array(c) => !Truthy(c)
    ensures d.Object? && Truthy(d.translatedText) ==> t == d.translatedText
    ensures d.Object? && !Truthy(d.translatedText) && Truthy(d.translatedTextSnake) ==> t == d.translatedTextSnake
    ensures d.Array? && Truthy(d.firstTranslatedText) ==> t == d.firstTranslatedText
  {
    match d
    case NoBody => None
    case Object(a, b) => if Truthy(a) then a else if Truthy(b) then b else None
    case Array(c) => if Truthy(c) then c else None
  }

  /** A LibreTranslate instance the bot knows, named after its host. */
  datatype LibreInstance = LibreTranslateDe | TranslateAstianOrg
  {
    /** The base URL that `/translate` is appended to. */
    function Url(): string
    {
      match this
      case LibreTranslateDe => "https://libretranslate.de"
      case TranslateAstianOrg => "https://translate.astian.org"
    }
  }

  /** The LibreTranslate instances, in the order they are tried. */
  const LibreBases: seq<LibreInstance> := [LibreTranslateDe, TranslateAstianOrg]

  /** Instance `k` is the first in `bases` whose reply to `request` has a text. */
  predicate FirstWithText(bases: seq<LibreInstance>, request: LibreRequest, service: (LibreInstance, LibreRequest) -> LibreReply, k: int) {
    && 0 <= k < |bases|
    && LibreText(service(bases[k], request)).Some?
    && forall j :: 0 <= j < k ==> LibreText(service(bases[j], request)).None?
  }

  /** What `translateLibre` returns when it asks the instances `bases` in turn:
    * the trimmed text of the first one that has a text, and nothing when none
    * has one. */
  function FirstLibreResult(bases: seq<LibreInstance>, request: LibreRequest, service: (LibreInstance, LibreRequest) -> LibreReply): (r: Option<string>)
    ensures (forall k :: 0 <= k < |bases| ==> LibreText(service(bases[k], request)).None?) ==> r.None?
    ensures forall k :: FirstWithText(bases, request, service, k) ==>
      r == Some(Trim(LibreText(service(bases[k], request)).value))
  {
    if bases == [] then None
    else match LibreText(service(bases[0], request))
      case Some(t) => Some(Trim(t))
      case None =>
        var r := FirstLibreResult(bases[1..], request, service);
        assert forall k :: FirstWithText(bases, request, service, k) ==> FirstWithText(bases[1..], request, service, k - 1);
        r
  }

  /** `translateLibre(text, src, tgt)`: posts to each base in turn and returns
    * the trimmed text of the first reply that has one. `contacted` lists the
    * bases it posted to: always a non-empty prefix of `LibreBases`, every one
    * but the last without a text, the last one with the text returned, and all
    * of them when none had a text. */
  method TranslateLibre(text: string, src: string, tgt: string, service: (LibreInstance, LibreRequest) -> LibreReply)
    returns (r: Option<string>, contacted: seq<LibreInstance>)
    ensures 1 <= |contacted| <= |LibreBases| && contacted == LibreBases[..|contacted|]
    ensures forall k :: 0 <= k < |contacted| - 1 ==>
      LibreText(service(contacted[k], LibreRequest(text, src, tgt, "text"))).None?
    ensures r.None? <==> (contacted == LibreBases &&
      forall k :: 0 <= k < |LibreBases| ==> LibreText(service(LibreBases[k], LibreRequest(text, src, tgt, "text"))).None?)
    ensures r.Some? ==>
      var t := LibreText(service(contacted[|contacted| - 1], LibreRequest(text, src, tgt, "text")));
      t.Some? && r.value == Trim(t.value)
    ensures r == FirstLibreResult(LibreBases, LibreRequest(text, src, tgt, "text"), service)
  {
    var bases := LibreBases;
    var request := LibreRequest(text, src, tgt, "text");
    contacted := [];
    var k := 0;
    while k < |bases|
      invariant 0 <= k <= |bases|
      invariant contacted == bases[..k]
      invariant forall j :: 0 <= j < k ==> LibreText(service(bases[j], request)).None?
    {
      var base := bases[k];
      contacted := contacted + [base];
      var t := LibreText(service(base, request));
      if t.Some? {
        assert FirstWithText(bases, request, service, k);
        return Some(Trim(t.value)), contacted;
      }
      k := k + 1;
    }
    return None, contacted;
  }

  /* ---------- The chain ---------- */

  /** `!src` becomes "auto". */
  function SourceOrAuto(src: string): (s: string)
    ensures s != ""
    ensures src != "" ==> s == src
  {
    if src == "" then "auto" else src
  }

  /** The guard of `translateSmartToTarget`: a known source equal to the
    * target up to letter case. */
  predicate SameLanguage(src: string, tgt: string)
    ensures SameLanguage(src, tgt) ==> src != "" && src != "auto" && Lower(src) == Lower(tgt)
  {
    SourceOrAuto(src) != "auto" && Lower(SourceOrAuto(src)) == Lower(tgt)
  }

  /** What `translateSmartToTarget` returns: nothing for the same language,
    * else MyMemory's text if it is non-empty after trimming, else
    * LibreTranslate's if that is, else nothing. */
  function Translation(
    text: string, src: string, tgt: string,
    myMemory: (string, string) -> Option<string>,
    libre: (LibreInstance, LibreRequest) -> LibreReply): (r: Option<string>)
    ensures r.Some? ==> r.value != ""
    ensures SameLanguage(src, tgt) ==> r.None?
    ensures !SameLanguage(src, tgt) && Truthy(TranslateMyMemory(text, SourceOrAuto(src), tgt, myMemory)) ==>
      r == TranslateMyMemory(text, SourceOrAuto(src), tgt, myMemory)
    ensures !SameLanguage(src, tgt) && !Truthy(TranslateMyMemory(text, SourceOrAuto(src), tgt, myMemory)) ==>
      var lt := FirstLibreResult(LibreBases, LibreRequest(text, SourceOrAuto(src), tgt, "text"), libre);
      r == if Truthy(lt) then lt else None
  {
    var s := SourceOrAuto(src);
    if SameLanguage(src, tgt) then None
    else
      var mm := TranslateMyMemory(text, s, tgt, myMemory);
      if Truthy(mm) then mm
      else
        var lt := FirstLibreResult(LibreBases, LibreRequest(text, s, tgt, "text"), libre);
        if Truthy(lt) then lt else None
  }

  /** When MyMemory has a text, LibreTranslate's answer does not matter. */
  lemma MyMemoryComesFirst(
    text: string, src: string, tgt: string,
    myMemory: (string, string) -> Option<string>,
    libre1: (LibreInstance, LibreRequest) -> LibreReply, libre2: (LibreInstance, LibreRequest) -> LibreReply)
    requires Truthy(TranslateMyMemory(text, SourceOrAuto(src), tgt, myMemory))
    ensures Translation(text, src, tgt, myMemory, libre1) == Translation(text, src, tgt, myMemory, libre2)
  {
  }

  /** When every provider fails, there is no translation. */
  lemma AllProvidersFail(
    text: string, src: string, tgt: string,
    myMemory: (string, string) -> Option<string>,
    libre: (LibreInstance, LibreRequest) -> LibreReply)
    requires forall q, pair :: !Truthy(myMemory(q, pair))
    requires forall base, request :: LibreText(libre(base, request)).None?
    ensures Translation(text, src, tgt, myMemory, libre).None?
  {
    var request := LibreRequest(text, SourceOrAuto(src), tgt, "text");
    assert forall k :: 0 <= k < |LibreBases| ==> LibreText(libre(LibreBases[k], request)).None?;
  }

  /** The requests posted to the first `n` LibreTranslate instances, in order. */
  function LibreCalls(n: nat, request: LibreRequest): (calls: seq<Call>)
    requires n <= |LibreBases|
    ensures |calls| == n
    ensures forall k :: 0 <= k < n ==> calls[k] == LibreCall(LibreBases[k], request)
  {
    seq(n, k requires 0 <= k < n => LibreCall(LibreBases[k], request))
  }

  /** The requests the LibreTranslate stage posts: one per instance, in the
    * order of the list, stopping after the first instance that answers with
    * a text; every instance before it answered without one. */
  predicate LibreTrace(
    calls: seq<Call>, request: LibreRequest,
    libre: (LibreInstance, LibreRequest) -> LibreReply)
  {
    && 1 <= |calls| <= |LibreBases|
    && (forall k :: 0 <= k < |calls| ==> calls[k] == LibreCall(LibreBases[k], request))
    && (forall k :: 0 <= k < |calls| - 1 ==> LibreText(libre(LibreBases[k], request)).None?)
    && (|calls| < |LibreBases| ==> LibreText(libre(LibreBases[|calls| - 1], request)).Some?)
  }

  /** The instances' answers fix the requests the stage posts. */
  lemma LibreTraceDeterminesCalls(
    calls1: seq<Call>, calls2: seq<Call>, request: LibreRequest,
    libre: (LibreInstance, LibreRequest) -> LibreReply)
    requires LibreTrace(calls1, request, libre) && LibreTrace(calls2, request, libre)
    ensures calls1 == calls2
  {
    var firstHasText := LibreText(libre(LibreBases[0], request)).Some?;
    assert |calls1| == if firstHasText then 1 else 2;
    assert |calls2| == if firstHasText then 1 else 2;
    assert forall k :: 0 <= k < |calls1| ==> calls1[k] == calls2[k];
  }

  /** The LibreTranslate stage of `translateSmartToTarget`: its result and
    * the requests it posts, one per instance contacted. */
  method LibreStage(text: string, src: string, tgt: string, libre: (LibreInstance, LibreRequest) -> LibreReply)
    returns (r: Option<string>, calls: seq<Call>)
    ensures r == FirstLibreResult(LibreBases, LibreRequest(text, src, tgt, "text"), libre)
    ensures LibreTrace(calls, LibreRequest(text, src, tgt, "text"), libre)
  {
    var contacted;
    r, contacted := TranslateLibre(text, src, tgt, libre);
    calls := LibreCalls(|contacted|, LibreRequest(text, src, tgt, "text"));
  }

  /** The requests `translateSmartToTarget(text, src, tgt)` makes: none for
    * the same language; otherwise MyMemory first, and the LibreTranslate
    * stage's requests only after MyMemory gave no text. */
  predicate ChainTrace(
    calls: seq<Call>, text: string, src: string, tgt: string,
    myMemory: (string, string) -> Option<string>,
    libre: (LibreInstance, LibreRequest) -> LibreReply)
  {
    var s := SourceOrAuto(src);
    && (calls == [] <==> SameLanguage(src, tgt))
    && (calls != [] ==>
      && calls[0] == MyMemoryCall(text, MyMemoryPair(s, tgt))
      && (|calls| == 1 <==> Truthy(TranslateMyMemory(text, s, tgt, myMemory)))
      && (|calls| > 1 ==> LibreTrace(calls[1..], LibreRequest(text, s, tgt, "text"), libre)))
  }

  /** The services' answers fix the requests made: two traces of the same
    * chain are equal. */
  lemma ChainTraceDeterminesCalls(
    calls1: seq<Call>, calls2: seq<Call>, text: string, src: string, tgt: string,
    myMemory: (string, string) -> Option<string>,
    libre: (LibreInstance, LibreRequest) -> LibreReply)
    requires ChainTrace(calls1, text, src, tgt, myMemory, libre)
    requires ChainTrace(calls2, text, src, tgt, myMemory, libre)
    ensures calls1 == calls2
  {
    if |calls1| > 1 {
      LibreTraceDeterminesCalls(calls1[1..], calls2[1..], LibreRequest(text, SourceOrAuto(src), tgt, "text"), libre);
      assert calls1 == [calls1[0]] + calls1[1..];
      assert calls2 == [calls2[0]] + calls2[1..];
    }
  }

  /** `translateSmartToTarget(text, src, tgt)`. For the same language nothing
    * is called; otherwise MyMemory is asked first, and LibreTranslate only
    * when MyMemory gave no text or one that is empty once trimmed. */
  method TranslateSmartToTarget(
    text: string, src: string, tgt: string,
    myMemory: (string, string) -> Option<string>,
    libre: (LibreInstance, LibreRequest) -> LibreReply)
    returns (r: Option<string>, calls: seq<Call>)
    ensures r == Translation(text, src, tgt, myMemory, libre)
    ensures ChainTrace(calls, text, src, tgt, myMemory, libre)
    ensures forall k :: 0 <= k < |calls| ==> calls[k].IsTranslation()
  {
    var s := SourceOrAuto(src);
    if SameLanguage(src, tgt) {
      return None, [];
    }
    calls := [MyMemoryCall(text, MyMemoryPair(s, tgt))];
    var out := TranslateMyMemory(text, s, tgt, myMemory);
    if Truthy(out) {
      MyMemoryOnlyTrace(text, src, tgt, myMemory, libre);
      return out, calls;
    }
    var libreOut, libreCalls := LibreStage(text, s, tgt, libre);
    LibreFallbackTrace(libreCalls, text, src, tgt, myMemory, libre);
    calls := calls + libreCalls;
    if Truthy(libreOut) {
      return libreOut, calls;
    }
    return None, calls;
  }

  /** The trace when MyMemory answers: its request alone. */
  lemma MyMemoryOnlyTrace(
    text: string, src: string, tgt: string,
    myMemory: (string, string) -> Option<string>,
    libre: (LibreInstance, LibreRequest) -> LibreReply)
    requires !SameLanguage(src, tgt) && Truthy(TranslateMyMemory(text, SourceOrAuto(src), tgt, myMemory))
    ensures ChainTrace([MyMemoryCall(text, MyMemoryPair(SourceOrAuto(src), tgt))], text, src, tgt, myMemory, libre)
  {
  }

  /** The trace when MyMemory has no text: its request, then the
    * LibreTranslate stage's. */
  lemma LibreFallbackTrace(
    libreCalls: seq<Call>, text: string, src: string, tgt: string,
    myMemory: (string, string) -> Option<string>,
    libre: (LibreInstance, LibreRequest) -> LibreReply)
    requires !SameLanguage(src, tgt) && !Truthy(TranslateMyMemory(text, SourceOrAuto(src), tgt, myMemory))
    requires LibreTrace(libreCalls, LibreRequest(text, SourceOrAuto(src), tgt, "text"), libre)
    ensures var calls := [MyMemoryCall(text, MyMemoryPair(SourceOrAuto(src), tgt))] + libreCalls;
      && ChainTrace(calls, text, src, tgt, myMemory, libre)
      && forall k :: 1 <= k < |calls| ==> calls[k].LibreCall?
  {
    var calls := [MyMemoryCall(text, MyMemoryPair(SourceOrAuto(src), tgt))] + libreCalls;
    assert calls[1..] == libreCalls;
  }
}
