/** The basic English/Hindi translator: a dispatch on the language pair, a
    first-match phrase lookup over a fixed ordered table, and a language
    detector based on the Devanagari block. */
module Translator {
  import opened PyText

  /** The `translations` table, in insertion order: (English phrase, Hindi). */
  const Phrases: seq<(string, string)> := [
    ("hello", "नमस्ते"),
    ("how are you", "कैसे हो आप"),
    ("thank you", "धन्यवाद"),
    ("goodbye", "अलविदा"),
    ("yes", "हाँ"),
    ("no", "नहीं"),
    ("please", "कृपया"),
    ("sorry", "माफ़ कीजिए"),
    ("welcome", "स्वागत है"),
    ("good morning", "सुप्रभात"),
    ("good night", "शुभ रात्रि")
  ]

  const HindiComingSoon := " (Hindi translation coming soon!)"
  const EnglishComingSoon := " (English translation coming soon!)"

  /** The `k`-th phrase of `table` occurs in `lower` and no earlier one does. */
  predicate FirstAt(table: seq<(string, string)>, lower: string, k: int)
  {
    0 <= k < |table| && Contains(lower, table[k].0)
    && forall j :: 0 <= j < k ==> !Contains(lower, table[j].0)
  }

  /** No phrase of `table` occurs in `lower`. */
  predicate NoneOccurs(table: seq<(string, string)>, lower: string)
  {
    forall k :: 0 <= k < |table| ==> !Contains(lower, table[k].0)
  }

  /** The position of the first phrase of `table` that occurs in `lower`. */
  function FirstMatch(table: seq<(string, string)>, lower: string): (r: Option<nat>)
    ensures forall k :: FirstAt(table, lower, k) ==> r == Some(k)
    ensures r.None? <==> NoneOccurs(table, lower)
    ensures r.Some? ==> r.value < |table| && Contains(lower, table[r.value].0)
    ensures r.Some? ==> forall j :: 0 <= j < r.value ==> !Contains(lower, table[j].0)
  {
    if table == [] then None
    else if Contains(lower, table[0].0) then Some(0)
    else match FirstMatch(table[1..], lower)
      case None => None
      case Some(k) => Some(k + 1)
  }

  /** _english_to_hindi: the text followed by the Hindi of the first table
      phrase found in its lower-case form, or by a "coming soon" note. */
  function EnglishToHindi(text: string): (r: string)
    ensures text < r
    ensures forall k :: FirstAt(Phrases, Lower(text), k) ==> r == text + " (" + Phrases[k].1 + ")"
    ensures NoneOccurs(Phrases, Lower(text)) ==> r == text + HindiComingSoon
  {
    match FirstMatch(Phrases, Lower(text))
    case Some(k) => text + " (" + Phrases[k].1 + ")"
    case None => text + HindiComingSoon
  }

  /** _hindi_to_english: the text followed by a "coming soon" note. */
  function HindiToEnglish(text: string): (r: string)
    ensures text < r
  {
    text + EnglishComingSoon
  }

  function NotSupported(source: string, target: string): string
  {
    "Translation from " + source + " to " + target + " not yet supported"
  }

  predicate IsSupportedPair(source: string, target: string)
  {
    (source == "en" && target == "hi") || (source == "hi" && target == "en")
  }

  /** translate: only the pairs ("en", "hi") and ("hi", "en") are translated. */
  function Translate(text: string, source: string, target: string): (r: string)
    ensures source == "en" && target == "hi" ==> r == EnglishToHindi(text)
    ensures source == "hi" && target == "en" ==> r == HindiToEnglish(text)
    ensures IsSupportedPair(source, target) ==> text < r
    ensures !IsSupportedPair(source, target) ==> r == NotSupported(source, target)
  {
    if source == "en" && target == "hi" then EnglishToHindi(text)
    else if source == "hi" && target == "en" then HindiToEnglish(text)
    else NotSupported(source, target)
  }

  /** get_supported_languages */
  function SupportedLanguages(): (langs: map<string, string>)
    ensures langs.Keys == {"en", "hi"}
    ensures forall source, target :: IsSupportedPair(source, target) ==> source in langs && target in langs
  {
    map["en" := "English", "hi" := "Hindi (basic support)"]
  }

  predicate IsDevanagari(c: char)
  {
    '\U{0900}' <= c <= '\U{097F}'
  }

  function HasDevanagari(s: string): (b: bool)
    ensures b <==> exists i :: 0 <= i < |s| && IsDevanagari(s[i])
  {
    if s == [] then false
    else IsDevanagari(s[0]) || (assert forall i :: 0 < i < |s| ==> s[i] == s[1..][i - 1]; HasDevanagari(s[1..]))
  }

  /** detect_language: "hi" exactly when some character lies in the
      Devanagari block U+0900..U+097F, "en" otherwise. */
  function DetectLanguage(text: string): (lang: string)
    ensures lang == "hi" <==> exists i :: 0 <= i < |text| && IsDevanagari(text[i])
    ensures lang == "en" <==> !exists i :: 0 <= i < |text| && IsDevanagari(text[i])
  {
    if HasDevanagari(text) then "hi" else "en"
  }

  /** Every detected language is one of the supported languages. */
  lemma {:induction false} DetectedIsSupported(text: string)
    ensures DetectLanguage(text) in SupportedLanguages()
  {
  }

  /** Every Hindi entry of the table starts with a Devanagari character. */
  lemma {:induction false} PhrasesAreDevanagari(k: nat)
    requires k < |Phrases|
    ensures Phrases[k].1 != [] && IsDevanagari(Phrases[k].1[0])
  {
  }

  /** When a phrase matches, the English-to-Hindi output is detected as Hindi. */
  lemma {:induction false} MatchedTranslationIsHindi(text: string)
    requires FirstMatch(Phrases, Lower(text)).Some?
    ensures DetectLanguage(EnglishToHindi(text)) == "hi"
  {
    var k := FirstMatch(Phrases, Lower(text)).value;
    PhrasesAreDevanagari(k);
    var r := EnglishToHindi(text);
    assert r == text + " (" + Phrases[k].1 + ")";
    assert r[|text| + 2] == Phrases[k].1[0];
  }

  /** Table order decides the winner: "hello" comes before "how are you". */
  lemma HelloHowAreYou()
    ensures Contains(Lower("Hello, how are you?"), "how are you")
    ensures EnglishToHindi("Hello, how are you?") == "Hello, how are you? (नमस्ते)"
  {
    HelloMatchesFirst();
    HowAreYouOccurs();
    TranslationAt("Hello, how are you?", 0);
    HelloAnnotated();
  }

  lemma HelloAnnotated()
    ensures "Hello, how are you?" + " (" + Phrases[0].1 + ")" == "Hello, how are you? (नमस्ते)"
  {
    assert Phrases[0].1 == "नमस्ते";
  }

  /** The translation once the first matching phrase is known. */
  lemma {:induction false} TranslationAt(text: string, k: nat)
    requires FirstMatch(Phrases, Lower(text)) == Some(k)
    ensures k < |Phrases| && EnglishToHindi(text) == text + " (" + Phrases[k].1 + ")"
  {
  }

  lemma HelloMatchesFirst()
    ensures FirstMatch(Phrases, Lower("Hello, how are you?")) == Some(0)
  {
    var lower := Lower("Hello, how are you?");
    LowerExample();
    assert OccursAt(lower, "hello", 0);
    ContainsAt(lower, "hello", 0);
  }

  lemma HowAreYouOccurs()
    ensures Contains(Lower("Hello, how are you?"), "how are you")
  {
    var lower := Lower("Hello, how are you?");
    LowerExample();
    assert OccursAt(lower, "how are you", 7);
    ContainsAt(lower, "how are you", 7);
  }

  lemma LowerExample()
    ensures Lower("Hello, how are you?") == "hello, how are you?"
  {
    var s := "Hello, how are you?";
    assert forall i :: 1 <= i < |s| ==> LowerChar(s[i]) == s[i];
  }

  /** The English detection example of the translator's test. */
  lemma DetectsEnglishExample()
    ensures DetectLanguage("Hello, how are you?") == "en"
  {
    var s := "Hello, how are you?";
    assert forall i :: 0 <= i < |s| ==> s[i] <= 'z';
  }

  /** The Hindi detection example of the translator's test. */
  lemma DetectsHindiExample()
    ensures DetectLanguage("नमस्ते, आप कैसे हैं?") == "hi"
  {
    assert IsDevanagari("नमस्ते, आप कैसे हैं?"[0]);
  }
}
