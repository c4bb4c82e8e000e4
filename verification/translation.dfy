/**
 * The translation table and the lookup rule of `Localizer.translate`
 * (src/index.ts), as a pure function of the table, the current language,
 * the source string and the optional language argument.
 */
module Translation {
  import opened Text

  datatype Option<T> = None | Some(value: T) {
    /** The value, or `d` when absent: a JavaScript default parameter. */
    function GetOr(d: T): T {
      match this
      case Some(v) => v
      case None => d
    }
  }

  /** The kinds of error the localizer throws. */
  datatype Error =
    | ConfigError       // `updateConfig` given an empty file path
    | ArgumentError     // `translate` given an empty source string
    | TranslationError  // the source string is not a key of the table
    | LoadError         // the translation file cannot be read or parsed

  datatype Result<T> = Ok(value: T) | Err(error: Error)

  datatype Outcome = Pass | Fail(error: Error)

  /**
   * A parsed translation file: the `default` language, and `strings` from a
   * source string to its translations keyed by language code.
   */
  datatype Table = Table(default: string, strings: map<string, map<string, string>>)

  /**
   * Translate `source` into `lang`, or into `current` when no language is
   * given. The language is lower-cased and compared with the table's
   * default as it is stored; the default language passes `source` through.
   * Otherwise `source` must be a key of the table; a translation that is
   * missing or empty falls back to `source`.
   */
  function Translate(table: Table, current: string, source: string, lang: Option<string>): (r: Result<string>)
    ensures r.Ok? ==> r.value != ""
    ensures r.Err? ==> r.error == ArgumentError || r.error == TranslationError
  {
    if source == "" then Err(ArgumentError)
    else
      var l := ToLower(lang.GetOr(current));
      if l == table.default then Ok(source)
      else if source !in table.strings then Err(TranslationError)
      else if l in table.strings[source] && table.strings[source][l] != "" then Ok(table.strings[source][l])
      else Ok(source)
  }

  /** The language `Translate` looks up. */
  function Target(current: string, lang: Option<string>): string {
    ToLower(lang.GetOr(current))
  }

  /** An empty source string is rejected. */
  lemma TranslateRejectsEmpty(table: Table, current: string, lang: Option<string>)
    ensures Translate(table, current, "", lang) == Err(ArgumentError)
  {
  }

  /**
   * In the default language the source string comes back unchanged, whether
   * or not the table holds it.
   */
  lemma TranslateDefaultPassesThrough(table: Table, current: string, source: string, lang: Option<string>)
    requires source != ""
    requires Target(current, lang) == table.default
    ensures Translate(table, current, source, lang) == Ok(source)
  {
  }

  /** In any other language a source string missing from the table is an error. */
  lemma TranslateMissingKey(table: Table, current: string, source: string, lang: Option<string>)
    requires source != ""
    requires Target(current, lang) != table.default
    requires source !in table.strings
    ensures Translate(table, current, source, lang) == Err(TranslationError)
  {
  }

  /** A stored, non-empty translation is returned. */
  lemma TranslateStored(table: Table, current: string, source: string, lang: Option<string>)
    requires source != ""
    requires Target(current, lang) != table.default
    requires source in table.strings
    requires Target(current, lang) in table.strings[source]
    requires table.strings[source][Target(current, lang)] != ""
    ensures Translate(table, current, source, lang) == Ok(table.strings[source][Target(current, lang)])
  {
  }

  /** A translation that is absent or empty falls back to the source string, silently. */
  lemma TranslateFallsBack(table: Table, current: string, source: string, lang: Option<string>)
    requires source != ""
    requires source in table.strings
    requires Target(current, lang) !in table.strings[source] || table.strings[source][Target(current, lang)] == ""
    ensures Translate(table, current, source, lang) == Ok(source)
  {
  }

  /** Exactly the two guarded cases fail, each with its own kind. */
  lemma TranslateFailsExactly(table: Table, current: string, source: string, lang: Option<string>)
    ensures Translate(table, current, source, lang).Err? <==>
              source == "" || (Target(current, lang) != table.default && source !in table.strings)
    ensures Translate(table, current, source, lang).Err? ==>
              Translate(table, current, source, lang).error == (if source == "" then ArgumentError else TranslationError)
  {
  }

  /**
   * A translation is never empty, and is either the source string itself or
   * the table's entry for it in the target language.
   */
  lemma TranslateResultOrigin(table: Table, current: string, source: string, lang: Option<string>)
    requires Translate(table, current, source, lang).Ok?
    ensures Translate(table, current, source, lang).value != ""
    ensures var r := Translate(table, current, source, lang).value;
            r == source ||
            (source in table.strings && Target(current, lang) in table.strings[source] &&
             r == table.strings[source][Target(current, lang)])
  {
  }

  /** The language argument is case-insensitive: it is lower-cased first. */
  lemma TranslateIgnoresCase(table: Table, current: string, source: string, lang: string)
    ensures Translate(table, current, source, Some(lang)) == Translate(table, current, source, Some(ToLower(lang)))
  {
    ToLowerIdempotent(lang);
  }

  /** Omitting the language means the current one, and its case does not matter either. */
  lemma TranslateDefaultsToCurrent(table: Table, current: string, source: string)
    ensures Translate(table, current, source, None) == Translate(table, current, source, Some(current))
    ensures Translate(table, current, source, None) == Translate(table, ToLower(current), source, None)
  {
    ToLowerIdempotent(current);
  }

  /**
   * The default is compared as stored: a default holding an upper-case
   * letter never matches a lower-cased language, so no language passes
   * through and every string must be in the table.
   */
  lemma UpperCaseDefaultNeverPassesThrough(table: Table, current: string, source: string, lang: Option<string>, k: nat)
    requires k < |table.default| && IsUpper(table.default[k])
    requires source != "" && source !in table.strings
    ensures Translate(table, current, source, lang) == Err(TranslationError)
  {
  }
}
