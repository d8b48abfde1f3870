/**
 * The two language-code tables: `normLang`, which canonicalises what a user
 * types after /setlang, and `memoryPairCode`, which spells the two Chinese
 * codes the way MyMemory expects them.
 */
module LangCodes {
  import opened Wrappers
  import opened Chars

  /** The alias table of `normLang`: every key maps to its canonical code. */
  const Aliases: map<string, string> := map[
    "uk" := "uk", "ru" := "ru", "pl" := "pl", "en" := "en", "tr" := "tr",
    "de" := "de", "fr" := "fr", "es" := "es", "it" := "it", "pt" := "pt",
    "ar" := "ar", "fa" := "fa", "hi" := "hi", "ja" := "ja", "ko" := "ko",
    "zh" := "zh-cn", "zh-hans" := "zh-cn", "zh-cn" := "zh-cn",
    "zh-hant" := "zh-tw", "zh-tw" := "zh-tw"
  ]

  /** Every code in the table is canonical: it maps to itself, and it is
    * written in lower case. */
  lemma AliasIsCanonical(key: string)
    requires key in Aliases
    ensures Aliases[key] in Aliases && Aliases[Aliases[key]] == Aliases[key]
    ensures IsAsciiLowerCode(Aliases[key]) && IsLowerCase(Aliases[key])
  {
    AsciiLowerCodeIsLowerCase(Aliases[key]);
  }

  /** `normLang(code)`: `None` for the empty string and for codes outside the
    * table; otherwise the canonical code of the lower-cased input. */
  function NormLang(code: string): (r: Option<string>)
    ensures code == "" ==> r == None
    ensures r.Some? <==> Lower(code) in Aliases
    ensures r.Some? ==> r.value in Aliases && Aliases[r.value] == r.value && IsLowerCase(r.value)
  {
    if code == "" then None
    else
      var key := Lower(code);
      if key in Aliases then
        AliasIsCanonical(key);
        Some(Aliases[key])
      else None
  }

  /** `normLang` ignores letter case. */
  lemma NormLangIgnoresCase(code: string)
    ensures NormLang(Lower(code)) == NormLang(code)
  {
    LowerIsLowerCase(code);
  }

  /** Every code `normLang` returns is a fixed point of it. */
  lemma NormLangFixedPoint(code: string)
    requires NormLang(code).Some?
    ensures NormLang(NormLang(code).value) == NormLang(code)
  {
  }

  /** The Chinese aliases: "zh", "zh-hans" and "zh-cn" mean Simplified Chinese,
    * "zh-hant" and "zh-tw" Traditional Chinese, in any letter case. */
  lemma NormLangChinese(code: string)
    ensures Lower(code) in {"zh", "zh-hans", "zh-cn"} ==> NormLang(code) == Some("zh-cn")
    ensures Lower(code) in {"zh-hant", "zh-tw"} ==> NormLang(code) == Some("zh-tw")
  {
  }

  /** The spelling MyMemory wants for the two Chinese codes. */
  const PairCodes: map<string, string> := map["zh-cn" := "ZH-CN", "zh-tw" := "ZH-TW"]

  lemma ChineseCodesLower()
    ensures Lower("ZH-CN") == "zh-cn" && Lower("zh-cn") == "zh-cn"
    ensures Lower("ZH-TW") == "zh-tw" && Lower("zh-tw") == "zh-tw"
  {
  }

  /** `memoryPairCode(code)`: the two Chinese codes are upper-cased, every
    * other code is returned as it is. Only letter case ever changes. */
  function MemoryPairCode(code: string): (r: string)
    ensures Lower(r) == Lower(code)
    ensures code in PairCodes ==> r == PairCodes[code]
    ensures r == code <==> code !in PairCodes
    ensures '|' !in code ==> '|' !in r
  {
    if code in PairCodes then
      ChineseCodesLower();
      PairCodes[code]
    else code
  }

  /** The two codes MyMemory gets upper-cased, and a code that is left as it
    * is; the lookup is by exact key, so a code in another letter case is not
    * in the table. */
  lemma MemoryPairCodeExamples()
    ensures MemoryPairCode("zh-cn") == "ZH-CN" && MemoryPairCode("zh-tw") == "ZH-TW"
    ensures MemoryPairCode("Zh-cn") == "Zh-cn" && MemoryPairCode("uk") == "uk"
  {
    assert "Zh-cn" !in PairCodes;
  }

  /* ---------- The lookup as the source writes it ---------- */

  /** What reading a property of a JavaScript object literal can give: one of
    * the table's strings, or a member every object inherits from
    * `Object.prototype`: the function `Object` (`constructor`), the prototype
    * object itself (`__proto__`), or one of its methods, named. */
  datatype JsValue = Str(s: string) | ObjectConstructor | ObjectPrototype | PrototypeMethod(name: string)

  /** The methods of `Object.prototype`; each name holds a capital letter. */
  const PrototypeMethods: set<string> := {
    "hasOwnProperty", "isPrototypeOf", "propertyIsEnumerable",
    "toLocaleString", "toString", "valueOf",
    "__defineGetter__", "__defineSetter__", "__lookupGetter__", "__lookupSetter__"
  }

  /** Every name `table[key]` finds on an object literal without it being an
    * own key. */
  const InheritedNames: set<string> := PrototypeMethods + {"constructor", "__proto__"}

  /** `table[key]` on an object literal: own keys, then inherited members. */
  function ObjectLookup(table: map<string, string>, key: string): (r: Option<JsValue>)
    ensures key in table ==> r == Some(Str(table[key]))
    ensures key !in table ==> (r.Some? <==> key in InheritedNames)
  {
    if key in table then Some(Str(table[key]))
    else if key == "constructor" then Some(ObjectConstructor)
    else if key == "__proto__" then Some(ObjectPrototype)
    else if key in PrototypeMethods then Some(PrototypeMethod(key))
    else None
  }

  /** The position of a capital letter in a method name of `Object.prototype`. */
  function CapitalIndex(name: string): (i: nat)
    requires name in PrototypeMethods
    ensures i < |name| && 'A' <= name[i] <= 'Z'
  {
    if name == "hasOwnProperty" then 3
    else if name == "isPrototypeOf" then 2
    else if name == "propertyIsEnumerable" then 8
    else if name == "toLocaleString" then 2
    else if name == "toString" then 2
    else if name == "valueOf" then 5
    else if name == "__defineGetter__" then 8
    else if name == "__defineSetter__" then 8
    else if name == "__lookupGetter__" then 8
    else 8
  }

  /** A lower-cased text never names a method of `Object.prototype`, so a
    * lookup on a lower-cased key can only find `constructor` or `__proto__`. */
  lemma LowerIsNoPrototypeMethod(code: string)
    ensures Lower(code) !in PrototypeMethods
  {
    forall name | name in PrototypeMethods
      ensures Lower(code) != name
    {
      var i := CapitalIndex(name);
      if i < |code| {
        assert Lower(code)[i] == LowerChar(code[i]);
      }
    }
  }

  /** `normLang(code)` exactly as written: `map[code] || null` also finds the
    * inherited members, which are truthy. */
  function NormLangAsWritten(code: string): (r: Option<JsValue>)
    ensures code == "" ==> r == None
    ensures r.Some? ==> !r.value.PrototypeMethod?
  {
    if code == "" then None
    else
      LowerIsNoPrototypeMethod(code);
      ObjectLookup(Aliases, Lower(code))
  }

  /** The as-written lookup and `NormLang` agree on every code except the two
    * inherited names a lower-cased key can hit. */
  lemma NormLangAsWrittenAgrees(code: string)
    requires Lower(code) != "constructor" && Lower(code) != "__proto__"
    ensures NormLangAsWritten(code) == if NormLang(code).Some? then Some(Str(NormLang(code).value)) else None
  {
    LowerIsNoPrototypeMethod(code);
  }

  /** "constructor" (in any letter case) is not a language code, yet the
    * as-written lookup returns the function `Object` for it instead of null. */
  lemma NormLangAsWrittenLeaksConstructor()
    ensures NormLangAsWritten("Constructor") == Some(ObjectConstructor)
    ensures NormLang("Constructor") == None
  {
    assert Lower("Constructor") == "constructor";
  }

  /** `memoryPairCode(code)` exactly as written: `map[code] || code` also
    * finds the inherited members, and since the key is not lower-cased first,
    * the methods of `Object.prototype` as well. */
  function MemoryPairCodeAsWritten(code: string): (r: JsValue)
    ensures code !in InheritedNames ==> r == Str(MemoryPairCode(code))
    ensures code in PrototypeMethods ==> r == PrototypeMethod(code)
  {
    match ObjectLookup(PairCodes, code)
    case Some(v) => v
    case None => Str(code)
  }

  /** For the code "constructor" the as-written lookup returns the function
    * `Object` rather than the code itself. */
  lemma MemoryPairCodeAsWrittenLeaksConstructor()
    ensures MemoryPairCodeAsWritten("constructor") == ObjectConstructor
    ensures MemoryPairCode("constructor") == "constructor"
  {
    assert "constructor" !in PairCodes;
  }

  /** On a lower-case code the as-written lookup can only go wrong for the two
    * all-lower-case inherited names. */
  lemma MemoryPairCodeAsWrittenOnLowerCase(code: string)
    requires IsLowerCase(code)
    ensures code != "constructor" && code != "__proto__" ==> MemoryPairCodeAsWritten(code) == Str(MemoryPairCode(code))
  {
    LowerIsNoPrototypeMethod(code);
  }
}
