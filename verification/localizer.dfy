/**
 * The `Localizer` class of src/index.ts: the current language, the loaded
 * translation table and the path it was loaded from, with the operations
 * that change them and the two translation operations.
 *
 * Reading and parsing a file is not modelled; a `Files` map stands for its
 * outcome, giving the parsed table of every path that loads.
 */
module Localizing {
  import opened Text
  import opened Placeholders
  import opened Translation

  /** The configuration: the translation file's path and an optional language. */
  datatype Config = Config(filePath: string, lang: Option<string>)

  /** The options of `translateWithPlaceholders`. */
  datatype Settings = Settings(lang: Option<string>, placeholders: seq<string>)

  /** The parsed table of every path whose file reads and parses; other paths fail to load. */
  type Files = map<string, Table>

  /** The language `setLocale` stores: the argument as given, or else the table's default lower-cased. */
  function LocaleFor(lang: Option<string>, table: Table): (r: string)
    ensures lang.Some? ==> r == lang.value
    ensures lang.None? ==> r == ToLower(table.default) && IsLower(r)
  {
    lang.GetOr(ToLower(table.default))
  }

  class Localizer {
    var lang: string
    var file: Table
    var filePath: string

    /**
     * A localizer whose configuration has not been applied yet. It exists
     * only so that `Create` has an object to apply the configuration to;
     * the source has no such state.
     */
    constructor Unconfigured()
      ensures lang == "" && filePath == "" && file == Table("", map[])
    {
      lang := "";
      file := Table("", map[]);
      filePath := "";
    }

    /**
     * The constructor of the source: a fresh localizer with `config`
     * applied, or the error that applying it throws.
     */
    static method Create(config: Config, files: Files) returns (r: Result<Localizer>)
      ensures r.Err? <==> config.filePath == "" || config.filePath !in files
      ensures r.Err? ==> r.error == if config.filePath == "" then ConfigError else LoadError
      ensures r.Ok? ==> fresh(r.value)
      ensures r.Ok? ==> r.value.filePath == config.filePath && r.value.file == files[config.filePath]
      ensures r.Ok? ==> r.value.lang == LocaleFor(config.lang, files[config.filePath])
    {
      var l := new Localizer.Unconfigured();
      var o := l.UpdateConfig(config, files);
      if o.Fail? {
        return Err(o.error);
      }
      return Ok(l);
    }

    /**
     * Apply a configuration: an empty path fails before anything changes;
     * otherwise the table is reloaded from the path and, if that worked,
     * the language is set from `config.lang`.
     */
    method UpdateConfig(config: Config, files: Files) returns (o: Outcome)
      modifies this
      ensures config.filePath == "" ==> o == Fail(ConfigError) && unchanged(this)
      ensures config.filePath != "" ==> filePath == config.filePath
      ensures config.filePath != "" && config.filePath !in files ==>
                o == Fail(LoadError) && file == old(file) && lang == old(lang)
      ensures config.filePath != "" && config.filePath in files ==>
                o == Pass && file == files[config.filePath] && lang == LocaleFor(config.lang, file)
    {
      if config.filePath == "" {
        return Fail(ConfigError);
      }
      o := UpdateTranslationsFile(Some(config.filePath), files);
      if o.Fail? {
        return;
      }
      var current := SetLocale(config.lang);
    }

    /**
     * Set the language: an explicit one is stored exactly as given, with no
     * lower-casing; without one, the table's default lower-cased.
     */
    method SetLocale(language: Option<string>) returns (r: string)
      modifies this`lang
      ensures lang == LocaleFor(language, file)
      ensures r == lang
    {
      lang := language.GetOr(ToLower(file.default));
      r := lang;
    }

    /** `translate` against the current table and language. */
    function Translate(source: string, language: Option<string>): (r: Result<string>)
      reads this
      ensures r.Err? <==> source == "" || (Target(lang, language) != file.default && source !in file.strings)
      ensures r.Ok? ==> r.value != ""
    {
      TranslateFailsExactly(file, lang, source, language);
      Translation.Translate(file, lang, source, language)
    }

    /** `_`, the short name of `translate`. */
    function ShortTranslate(source: string, language: Option<string>): (r: Result<string>)
      reads this
      ensures r == Translate(source, language)
    {
      Translate(source, language)
    }

    /**
     * Translate, then for each placeholder in ascending index order replace
     * every `[[i]]` of the text so far by the i-th placeholder, with
     * JavaScript's `replaceAll`. An error of the translation is passed on.
     * Placeholders without `$` are inserted literally.
     */
    method TranslateWithPlaceholders(source: string, settings: Settings) returns (r: Result<string>)
      ensures Translate(source, settings.lang).Err? ==> r == Translate(source, settings.lang)
      ensures Translate(source, settings.lang).Ok? ==>
                r == Ok(FillJs(Translate(source, settings.lang).value, settings.placeholders))
      ensures Translate(source, settings.lang).Ok? &&
              (forall i :: 0 <= i < |settings.placeholders| ==> '$' !in settings.placeholders[i]) ==>
                r == Ok(Fill(Translate(source, settings.lang).value, settings.placeholders))
    {
      var t := Translate(source, settings.lang);
      if t.Err? {
        return t;
      }
      var ps := settings.placeholders;
      var translated := t.value;
      for i := 0 to |ps|
        invariant translated == SubstituteJs(t.value, ps, i)
      {
        translated := ReplaceAllJs(translated, Token(i), ps[i]);
      }
      if forall i :: 0 <= i < |ps| ==> '$' !in ps[i] {
        FillJsLiteral(t.value, ps);
      }
      return Ok(translated);
    }

    /** `__`, the short name of `translateWithPlaceholders`. */
    method ShortTranslateWithPlaceholders(source: string, settings: Settings) returns (r: Result<string>)
      ensures Translate(source, settings.lang).Err? ==> r == Translate(source, settings.lang)
      ensures Translate(source, settings.lang).Ok? ==>
                r == Ok(FillJs(Translate(source, settings.lang).value, settings.placeholders))
      ensures Translate(source, settings.lang).Ok? &&
              (forall i :: 0 <= i < |settings.placeholders| ==> '$' !in settings.placeholders[i]) ==>
                r == Ok(Fill(Translate(source, settings.lang).value, settings.placeholders))
    {
      r := TranslateWithPlaceholders(source, settings);
    }

    /**
     * Reload the table from `path`, or from the current path when none is
     * given. The path is stored before the read, so a failed load leaves
     * the new path beside the old table. The table is replaced as a whole
     * and the language is left as it is.
     */
    method UpdateTranslationsFile(path: Option<string>, files: Files) returns (o: Outcome)
      modifies this`filePath, this`file
      ensures filePath == path.GetOr(old(filePath))
      ensures filePath in files ==> o == Pass && file == files[filePath]
      ensures filePath !in files ==> o == Fail(LoadError) && file == old(file)
    {
      filePath := path.GetOr(filePath);
      if filePath !in files {
        return Fail(LoadError);
      }
      file := files[filePath];
      o := Pass;
    }
  }

  /**
   * A client run: load a table, switch to French, translate a stored
   * string, a missing one, and the same string in the default language;
   * then reload from a second file that lacks the string.
   */
  method ClientRun()
  {
    var hi := map["fr" := "salut"];
    var first := Table("en", map["hi" := hi]);
    var second := Table("en", map["bye" := map["fr" := "au revoir"]]);
    var files := map["first.json" := first, "second.json" := second];
    var created := Localizer.Create(Config("first.json", None), files);
    assert created.Ok?;
    var l := created.value;
    assert l.lang == ToLower("en");

    var fr := l.SetLocale(Some("fr"));
    ToLowerFixesExactlyLower("fr");
    assert l.Translate("hi", None) == Ok("salut");
    assert l.Translate("bye", None) == Err(TranslationError);

    var en := l.SetLocale(Some("en"));
    ToLowerFixesExactlyLower("en");
    assert l.Translate("hi", None) == Ok("hi");

    var upper := l.SetLocale(Some("FR"));
    assert l.lang == "FR";
    assert ToLower("FR") == "fr";
    assert l.Translate("hi", None) == Ok("salut");

    var o := l.UpdateTranslationsFile(Some("second.json"), files);
    assert o == Pass && l.lang == "FR";
    assert l.Translate("hi", None) == Err(TranslationError);

    o := l.UpdateTranslationsFile(Some("missing.json"), files);
    assert o == Fail(LoadError) && l.filePath == "missing.json" && l.file == second;
  }

  /**
   * A client run of `__` in the default language: both tokens are filled
   * with `name`, which holds no `$`.
   */
  method ClientPlaceholders(l: Localizer, name: string)
    requires l.lang == l.file.default && IsLower(l.lang) && '$' !in name
  {
    var source := "Hello " + Token(0) + ", " + Token(0) + "!";
    ToLowerFixesExactlyLower(l.lang);
    var greeting := l.ShortTranslateWithPlaceholders(source, Settings(None, [name]));
    FillEveryOccurrence("Hello ", ", ", "!", name);
    assert greeting == Ok("Hello " + name + ", " + name + "!");
  }
}
