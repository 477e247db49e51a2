/**
 The language preference of the landing page: the two-entry translation
 table, the rule that picks the active language at start-up from the stored
 preference and the browser locale, and the write-back of the chosen code.
 Browser storage and the locale are passed in as plain values.
 */
module Preference {

  datatype Option<T> = None | Some(value: T)

  /** The display strings of one language. */
  datatype Translation = Translation(
    title: string,
    description: string,
    tags: seq<string>,
    contact: string)

  /** Key under which the chosen language is kept in local storage. */
  const StorageKey: string := "selectedLang"

  /** The translation table: exactly the codes "en" and "es". */
  const Translations: map<string, Translation> := map[
    "en" := Translation(
      "404builder",
      "Not everything that works is truly well built.",
      ["# Red Team", "# Pentester", "# Reverser"],
      "Contact"),
    "es" := Translation(
      "404builder",
      "No todo lo que funciona est\U{00E1} realmente bien hecho.",
      ["# Red Team", "# Pentester", "# Reverser"],
      "Contacto")
  ]

  /** JavaScript's `String.prototype.startsWith`, case-sensitive. */
  predicate StartsWith(s: string, prefix: string)
  {
    |prefix| <= |s| && s[..|prefix|] == prefix
  }

  /** The code derived from the locale when nothing usable is stored. */
  function LocaleDefault(locale: string): (lang: string)
    ensures lang in Translations
    ensures lang == "es" <==> StartsWith(locale, "es")
  {
    if StartsWith(locale, "es") then "es" else "en"
  }

  /**
   The start-up language: JavaScript's `||` treats both a missing item and
   the empty string as absent. A stored value is NOT checked against the
   table.
   */
  function Resolve(stored: Option<string>, locale: string): (lang: string)
    ensures lang != ""
    ensures stored.Some? && stored.value != "" ==> lang == stored.value
    ensures stored == None || stored == Some("") ==>
              (lang == "es" <==> StartsWith(locale, "es")) &&
              (lang == "en" <==> !StartsWith(locale, "es"))
  {
    if stored.Some? && stored.value != "" then stored.value else LocaleDefault(locale)
  }

  /** `translations[lang]`: no translation record (None) for a code outside the table. */
  function Lookup(lang: string): (t: Option<Translation>)
    ensures t.Some? <==> lang == "en" || lang == "es"
    ensures t.Some? ==> t.value.title == "404builder" && |t.value.tags| == 3
  {
    if lang in Translations then Some(Translations[lang]) else None
  }

  /** `localStorage.setItem(StorageKey, lang)`: only that one key changes. */
  function Save(storage: map<string, string>, lang: string): (storage': map<string, string>)
    ensures StorageKey in storage' && storage'[StorageKey] == lang
    ensures storage'.Keys == storage.Keys + {StorageKey}
    ensures forall k :: k in storage && k != StorageKey ==> storage'[k] == storage[k]
  {
    storage[StorageKey := lang]
  }

  /**
   The language a fresh page load starts in: `localStorage.getItem`
   (None for null) followed by the `||` fallback.
   */
  function Load(storage: map<string, string>, locale: string): (lang: string)
    ensures StorageKey in storage && storage[StorageKey] != "" ==> lang == storage[StorageKey]
    ensures StorageKey !in storage || storage[StorageKey] == "" ==> lang == LocaleDefault(locale)
  {
    Resolve(if StorageKey in storage then Some(storage[StorageKey]) else None, locale)
  }

  /**
   The resolved code has a translation exactly when nothing usable was
   stored, or the stored value is itself one of the two codes.
   */
  lemma ResolvedHasTranslation(stored: Option<string>, locale: string)
    ensures Lookup(Resolve(stored, locale)).Some? <==>
              stored == None || stored == Some("") ||
              stored == Some("en") || stored == Some("es")
  {
  }

  /** Saving a non-empty code and loading again gives that code back, whatever the locale. */
  lemma SaveThenLoad(storage: map<string, string>, lang: string, locale: string)
    requires lang != ""
    ensures Load(Save(storage, lang), locale) == lang
  {
  }

  /** Saving the empty string makes the next load fall back to the locale. */
  lemma SaveEmptyFallsBack(storage: map<string, string>, locale: string)
    ensures Load(Save(storage, ""), locale) == LocaleDefault(locale)
  {
  }

  /** With nothing stored, "es-PY" resolves to "es" and "fr-FR" to "en". */
  lemma LocaleExamples()
    ensures Resolve(None, "es-PY") == "es"
    ensures Resolve(None, "fr-FR") == "en"
    ensures Resolve(Some(""), "es") == "es"
  {
  }
}
