/**
 * The app settings kept in a key-value store: the theme, the biometric
 * lock, two API keys, the AI provider and five quick-emoji slots. Reading
 * decodes the store into the settings record, each missing key taking its
 * default; each setter writes a single key.
 */
module Preferences {
  import opened Wrappers

  datatype ThemeMode = System | Light | Dark

  datatype AiProvider = NoProvider | OpenAi | Gemini

  function ThemeOrdinal(m: ThemeMode): int {
    match m
    case System => 0
    case Light => 1
    case Dark => 2
  }

  function ProviderOrdinal(p: AiProvider): int {
    match p
    case NoProvider => 0
    case OpenAi => 1
    case Gemini => 2
  }

  /** `ThemeMode.values().getOrElse(i) { SYSTEM }`. */
  function ThemeFromOrdinal(i: int): (m: ThemeMode)
    ensures 0 <= i < 3 ==> ThemeOrdinal(m) == i
    ensures !(0 <= i < 3) ==> m == System
  {
    if i == 1 then Light else if i == 2 then Dark else System
  }

  /** `AiProvider.values().getOrElse(i) { NONE }`. */
  function ProviderFromOrdinal(i: int): (p: AiProvider)
    ensures 0 <= i < 3 ==> ProviderOrdinal(p) == i
    ensures !(0 <= i < 3) ==> p == NoProvider
  {
    if i == 1 then OpenAi else if i == 2 then Gemini else NoProvider
  }

  /** A stored value: the store holds ints, booleans and strings. */
  datatype PrefValue = IntPref(i: int) | BoolPref(b: bool) | StringPref(s: string)

  const ThemeKey := "theme"
  const BiometricKey := "bio"
  const OpenAiKeyKey := "openai_key"
  const GeminiKeyKey := "gemini_key"
  const ProviderKey := "provider"
  const EmojiKeys := ["emoji_1", "emoji_2", "emoji_3", "emoji_4", "emoji_5"]

  /** Grinning, slightly smiling, neutral, slightly frowning, sleeping. */
  const DefaultQuickEmojis := ["\U{1F600}", "\U{1F642}", "\U{1F610}", "\U{1F641}", "\U{1F634}"]

  datatype AppPrefs = AppPrefs(
    theme: ThemeMode,
    requireBiometric: bool,
    openAiKey: string,
    geminiKey: string,
    provider: AiProvider,
    quickEmojis: seq<string>)

  /** The settings before anything is stored. */
  const Defaults := AppPrefs(System, false, "", "", NoProvider, DefaultQuickEmojis)

  predicate IntOrMissing(data: map<string, PrefValue>, key: string) {
    key in data ==> data[key].IntPref?
  }

  predicate BoolOrMissing(data: map<string, PrefValue>, key: string) {
    key in data ==> data[key].BoolPref?
  }

  predicate StringOrMissing(data: map<string, PrefValue>, key: string) {
    key in data ==> data[key].StringPref?
  }

  /** Every key the settings use holds a value of its own type, if any. */
  predicate WellTyped(data: map<string, PrefValue>) {
    && IntOrMissing(data, ThemeKey)
    && BoolOrMissing(data, BiometricKey)
    && StringOrMissing(data, OpenAiKeyKey)
    && StringOrMissing(data, GeminiKeyKey)
    && IntOrMissing(data, ProviderKey)
    && forall k :: 0 <= k < 5 ==> StringOrMissing(data, EmojiKeys[k])
  }

  function IntOr(data: map<string, PrefValue>, key: string, default: int): int
    requires IntOrMissing(data, key)
  {
    if key in data then data[key].i else default
  }

  function BoolOr(data: map<string, PrefValue>, key: string, default: bool): bool
    requires BoolOrMissing(data, key)
  {
    if key in data then data[key].b else default
  }

  function StringOr(data: map<string, PrefValue>, key: string, default: string): string
    requires StringOrMissing(data, key)
  {
    if key in data then data[key].s else default
  }

  /**
   * Decoding the store. A key holding a value of another type makes the
   * read fail (null here); otherwise every field is read with its default,
   * the enums falling back on an ordinal out of range, and the quick emojis
   * are always five, each slot from its own key or its default.
   */
  function Decode(data: map<string, PrefValue>): (r: Option<AppPrefs>)
    ensures r.None? <==> !WellTyped(data)
    ensures r.Some? ==> |r.value.quickEmojis| == 5
    ensures r.Some? ==> forall k :: 0 <= k < 5 ==>
              r.value.quickEmojis[k] == (if EmojiKeys[k] in data then data[EmojiKeys[k]].s else DefaultQuickEmojis[k])
    ensures r.Some? && ThemeKey !in data ==> r.value.theme == System
    ensures r.Some? && ThemeKey in data && !(0 <= data[ThemeKey].i < 3) ==> r.value.theme == System
    ensures r.Some? && ProviderKey !in data ==> r.value.provider == NoProvider
    ensures r.Some? && ProviderKey in data && !(0 <= data[ProviderKey].i < 3) ==> r.value.provider == NoProvider
    ensures r.Some? && BiometricKey !in data ==> !r.value.requireBiometric
    ensures r.Some? && OpenAiKeyKey !in data ==> r.value.openAiKey == ""
    ensures r.Some? && GeminiKeyKey !in data ==> r.value.geminiKey == ""
  {
    if !WellTyped(data) then None
    else
      Some(AppPrefs(
        theme := ThemeFromOrdinal(IntOr(data, ThemeKey, 0)),
        requireBiometric := BoolOr(data, BiometricKey, false),
        openAiKey := StringOr(data, OpenAiKeyKey, ""),
        geminiKey := StringOr(data, GeminiKeyKey, ""),
        provider := ProviderFromOrdinal(IntOr(data, ProviderKey, 0)),
        quickEmojis := seq(5, k requires 0 <= k < 5 => StringOr(data, EmojiKeys[k], DefaultQuickEmojis[k]))))
  }

  /** An empty store decodes to the default settings. */
  lemma EmptyStoreDecodesToDefaults()
    ensures Decode(map[]) == Some(Defaults)
  {
    var r := Decode(map[]).value;
    assert r.quickEmojis == DefaultQuickEmojis;
  }

  /** `coerceIn(lo, hi)`. */
  function Clamp(i: int, lo: int, hi: int): (r: int)
    requires lo <= hi
    ensures lo <= r <= hi
    ensures lo <= i <= hi ==> r == i
    ensures i < lo ==> r == lo
    ensures i > hi ==> r == hi
  {
    if i < lo then lo else if i > hi then hi else i
  }

  /** The emoji keys are five distinct keys, none shared with another setting. */
  lemma EmojiKeysDistinct()
    ensures forall a, b :: 0 <= a < b < 5 ==> EmojiKeys[a] != EmojiKeys[b]
    ensures forall k :: 0 <= k < 5 ==> EmojiKeys[k] !in {ThemeKey, BiometricKey, OpenAiKeyKey, GeminiKeyKey, ProviderKey}
  {
  }

  /** Setting the theme and reading back yields that theme and changes no other setting. */
  lemma SetThemeThenDecode(data: map<string, PrefValue>, mode: ThemeMode)
    requires WellTyped(data)
    ensures Decode(data[ThemeKey := IntPref(ThemeOrdinal(mode))]) == Some(Decode(data).value.(theme := mode))
  {
    EmojiKeysDistinct();
    var after := data[ThemeKey := IntPref(ThemeOrdinal(mode))];
    assert Decode(after).value.quickEmojis == Decode(data).value.quickEmojis;
  }

  /** Setting the provider and reading back yields that provider and changes no other setting. */
  lemma SetProviderThenDecode(data: map<string, PrefValue>, p: AiProvider)
    requires WellTyped(data)
    ensures Decode(data[ProviderKey := IntPref(ProviderOrdinal(p))]) == Some(Decode(data).value.(provider := p))
  {
    EmojiKeysDistinct();
    var after := data[ProviderKey := IntPref(ProviderOrdinal(p))];
    assert Decode(after).value.quickEmojis == Decode(data).value.quickEmojis;
  }

  /** The biometric flag and the two API keys read back as written, nothing else changing. */
  lemma SetFlagAndKeysThenDecode(data: map<string, PrefValue>, required: bool, key: string)
    requires WellTyped(data)
    ensures Decode(data[BiometricKey := BoolPref(required)]) == Some(Decode(data).value.(requireBiometric := required))
    ensures Decode(data[OpenAiKeyKey := StringPref(key)]) == Some(Decode(data).value.(openAiKey := key))
    ensures Decode(data[GeminiKeyKey := StringPref(key)]) == Some(Decode(data).value.(geminiKey := key))
  {
    EmojiKeysDistinct();
    assert Decode(data[BiometricKey := BoolPref(required)]).value.quickEmojis == Decode(data).value.quickEmojis;
    assert Decode(data[OpenAiKeyKey := StringPref(key)]).value.quickEmojis == Decode(data).value.quickEmojis;
    assert Decode(data[GeminiKeyKey := StringPref(key)]).value.quickEmojis == Decode(data).value.quickEmojis;
  }

  /**
   * Setting a quick emoji changes exactly the slot the clamped index names:
   * indexes below 0 write the first slot and above 4 the last.
   */
  lemma SetQuickEmojiThenDecode(data: map<string, PrefValue>, index: int, emoji: string)
    requires WellTyped(data)
    ensures var slot := Clamp(index, 0, 4);
            Decode(data[EmojiKeys[slot] := StringPref(emoji)])
            == Some(Decode(data).value.(quickEmojis := Decode(data).value.quickEmojis[slot := emoji]))
  {
    EmojiKeysDistinct();
    var slot := Clamp(index, 0, 4);
    var after := data[EmojiKeys[slot] := StringPref(emoji)];
    assert WellTyped(after);
    assert Decode(after).value.quickEmojis == Decode(data).value.quickEmojis[slot := emoji];
  }

  /** The preference store: one map from key to value, updated in place by each setter. */
  class PreferencesStore {
    var data: map<string, PrefValue>

    ghost predicate Valid()
      reads this
    {
      WellTyped(data)
    }

    constructor ()
      ensures Valid() && data == map[]
    {
      data := map[];
    }

    /** The settings as read now: never failing on a store only the setters wrote. */
    function Current(): (p: AppPrefs)
      requires Valid()
      reads this
      ensures Decode(data) == Some(p)
    {
      Decode(data).value
    }

    method SetTheme(mode: ThemeMode)
      requires Valid()
      modifies this
      ensures Valid()
      ensures data == old(data)[ThemeKey := IntPref(ThemeOrdinal(mode))]
    {
      data := data[ThemeKey := IntPref(ThemeOrdinal(mode))];
    }

    method SetBiometric(required: bool)
      requires Valid()
      modifies this
      ensures Valid()
      ensures data == old(data)[BiometricKey := BoolPref(required)]
    {
      data := data[BiometricKey := BoolPref(required)];
    }

    method SetOpenAiKey(key: string)
      requires Valid()
      modifies this
      ensures Valid()
      ensures data == old(data)[OpenAiKeyKey := StringPref(key)]
    {
      data := data[OpenAiKeyKey := StringPref(key)];
    }

    method SetGeminiKey(key: string)
      requires Valid()
      modifies this
      ensures Valid()
      ensures data == old(data)[GeminiKeyKey := StringPref(key)]
    {
      data := data[GeminiKeyKey := StringPref(key)];
    }

    method SetProvider(p: AiProvider)
      requires Valid()
      modifies this
      ensures Valid()
      ensures data == old(data)[ProviderKey := IntPref(ProviderOrdinal(p))]
    {
      data := data[ProviderKey := IntPref(ProviderOrdinal(p))];
    }

    /** Writes the slot `index` names after clamping it into 0..4. */
    method SetQuickEmoji(index: int, emoji: string)
      requires Valid()
      modifies this
      ensures Valid()
      ensures data == old(data)[EmojiKeys[Clamp(index, 0, 4)] := StringPref(emoji)]
    {
      var k := EmojiKeys[Clamp(index, 0, 4)];
      data := data[k := StringPref(emoji)];
    }
  }
}
