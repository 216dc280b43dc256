/** The two display languages of the site and the lookups keyed by them (src/lib/i18n.ts). */
module I18n {
  import opened Wrappers

  /** `Language = keyof typeof languages`: Indonesian (`'id'`, the default) or English (`'en'`). */
  datatype Language = Id | En

  /** The key under which a language appears in the `languages` table. */
  function Code(l: Language): string
  {
    match l
    case Id => "id"
    case En => "en"
  }

  /** Which strings are keys of `languages`, and the language each one names. */
  function ParseLanguage(s: string): (r: Option<Language>)
    ensures r.Some? <==> s == "id" || s == "en"
    ensures r.Some? ==> Code(r.value) == s
  {
    if s == "id" then Some(Id) else if s == "en" then Some(En) else None
  }

  /** Every language's code is a key, and reading it back gives the same language. */
  lemma CodeRoundTrip(l: Language)
    ensures ParseLanguage(Code(l)) == Some(l)
    ensures forall m: Language :: Code(m) == Code(l) ==> m == l
  {
    match l
    case Id =>
      assert Code(En) != "id" by { assert Code(En)[0] == 'e'; }
    case En =>
      assert Code(Id) != "en" by { assert Code(Id)[0] == 'i'; }
  }

  /** `getLanguageName`: the name a language is shown under in the language switcher. */
  function LanguageName(l: Language): string
  {
    match l
    case Id => "Indonesia"
    case En => "English"
  }

  /** Distinct languages are shown under distinct names, and the names are the ones of the table. */
  lemma LanguageNameDistinguishes(a: Language, b: Language)
    ensures LanguageName(a) == LanguageName(b) <==> a == b
    ensures LanguageName(Id) == "Indonesia" && LanguageName(En) == "English"
  {
    if a != b {
      assert LanguageName(a)[0] != LanguageName(b)[0];
    }
  }

  /** The locale-selection idiom `locale === 'id' ? idValue : enValue`. */
  function Select<T>(l: Language, idValue: T, enValue: T): T
  {
    if l == Id then idValue else enValue
  }

  /** The `translations` table: one translation table per language; its contents are not modelled. */
  datatype Translations<T> = Translations(id: T, en: T)

  /** `getTranslation`: total, and every language gets its own table. */
  function GetTranslation<T>(tables: Translations<T>, l: Language): (t: T)
    ensures l == Id ==> t == tables.id
    ensures l == En ==> t == tables.en
  {
    match l
    case Id => tables.id
    case En => tables.en
  }
}
