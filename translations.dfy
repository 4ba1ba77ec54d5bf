// The translation manager of translations.py: which languages are supported,
// how a language code is read from the system locale and the environment,
// which translation tables are loaded, the default tables written when none
// is found, and the lookup with its fallback language.

module Translations {
  import opened Common

  // ---------------------------------------------------------------------------
  // Supported languages
  // ---------------------------------------------------------------------------

  const Supported: seq<string> := ["en", "fr", "es", "de", "it", "nl", "pt"]
  const DefaultLanguage: string := "en"
  const FallbackLanguage: string := "fr"

  /** `_is_supported_language`. */
  predicate IsSupportedLanguage(code: string)
  {
    code in Supported
  }

  lemma SupportedExactly(code: string)
    ensures IsSupportedLanguage(code) <==>
      code == "en" || code == "fr" || code == "es" || code == "de" || code == "it" || code == "nl" || code == "pt"
  {
  }

  lemma SupportedDistinct()
    ensures forall i, j :: 0 <= i < j < |Supported| ==> Supported[i] != Supported[j]
  {
  }

  /** `get_available_languages`: each supported code with its own name. */
  function AvailableLanguages(): map<string, string>
  {
    map["fr" := "Français", "en" := "English", "es" := "Español", "de" := "Deutsch",
        "it" := "Italiano", "nl" := "Nederlands", "pt" := "Português"]
  }

  /** The languages offered by name are exactly the supported ones. */
  lemma AvailableLanguagesAreSupported()
    ensures forall code :: code in AvailableLanguages() <==> IsSupportedLanguage(code)
  {
    forall code ensures code in AvailableLanguages() <==> IsSupportedLanguage(code) {
      SupportedExactly(code);
    }
  }

  // ---------------------------------------------------------------------------
  // Reading a language code (detect_system_language)
  // ---------------------------------------------------------------------------

  /** `r` is `s` lower-cased up to, and without, the first character from
      `stops`. */
  ghost predicate CutBefore(s: string, r: string, stops: set<char>)
  {
    |r| <= |s| &&
    (forall i :: 0 <= i < |r| ==> r[i] == LowerChar(s[i]) && s[i] !in stops) &&
    (|r| < |s| ==> s[|r|] in stops)
  }

  /** `value.split('_')[0].lower()`: locale names and the macOS AppleLocale. */
  function LocaleCode(value: string): string
  {
    Lower(BeforeFirst(value, '_'))
  }

  /** `value.split('_')[0].split('.')[0].lower()`: the LANG variable. */
  function LangCode(value: string): string
  {
    Lower(BeforeFirst(BeforeFirst(value, '_'), '.'))
  }

  /** `value.split('_')[0].split('.')[0].split(':')[0].lower()`: LC_ALL,
      LC_MESSAGES and LANGUAGE. */
  function EnvCode(value: string): string
  {
    Lower(BeforeFirst(BeforeFirst(BeforeFirst(value, '_'), '.'), ':'))
  }

  /** Each code is the value lower-cased up to its first separator: '_' for
      locales; '_' or '.' for LANG; '_', '.' or ':' for the other variables. */
  lemma CodesCutAtSeparators(value: string)
    ensures CutBefore(value, LocaleCode(value), {'_'})
    ensures CutBefore(value, LangCode(value), {'_', '.'})
    ensures CutBefore(value, EnvCode(value), {'_', '.', ':'})
  {
    var a := BeforeFirst(value, '_');
    var b := BeforeFirst(a, '.');
    var c := BeforeFirst(b, ':');
    assert |b| < |a| ==> value[|b|] == a[|b|];
    assert |c| < |b| ==> value[|c|] == b[|c|];
  }

  /** The cut is determined: when `p` is a prefix of `s` free of stop
      characters and followed by one (or by the end), the code is `p`
      lower-cased. */
  lemma CutBeforeIsLowerPrefix(s: string, r: string, stops: set<char>, p: string)
    requires CutBefore(s, r, stops)
    requires p <= s && (forall i :: 0 <= i < |p| ==> p[i] !in stops) && (|p| < |s| ==> s[|p|] in stops)
    ensures r == Lower(p)
  {
    if |r| != |p| {
      assert false;
    }
  }

  /** A value made of a code and a separator-led tail gives the code back,
      lower-cased; so does the bare code. */
  lemma CodesOfLocaleName(p: string, rest: string)
    requires '_' !in p && '.' !in p && ':' !in p
    ensures LocaleCode(p + "_" + rest) == Lower(p) && LocaleCode(p) == Lower(p)
    ensures LangCode(p + "_" + rest) == Lower(p) && LangCode(p + "." + rest) == Lower(p) && LangCode(p) == Lower(p)
    ensures EnvCode(p + "_" + rest) == Lower(p) && EnvCode(p + "." + rest) == Lower(p) &&
            EnvCode(p + ":" + rest) == Lower(p) && EnvCode(p) == Lower(p)
  {
    CodesBeforeSeparator(p, '_', rest);
    CodesBeforeSeparator(p, '.', rest);
    CodesBeforeSeparator(p, ':', rest);
    assert p + "_" + rest == p + ['_'] + rest;
    assert p + "." + rest == p + ['.'] + rest;
    assert p + ":" + rest == p + [':'] + rest;
    CodesCutAtSeparators(p);
    CutBeforeIsLowerPrefix(p, LocaleCode(p), {'_'}, p);
    CutBeforeIsLowerPrefix(p, LangCode(p), {'_', '.'}, p);
    CutBeforeIsLowerPrefix(p, EnvCode(p), {'_', '.', ':'}, p);
  }

  lemma CodesBeforeSeparator(p: string, sep: char, rest: string)
    requires '_' !in p && '.' !in p && ':' !in p
    ensures sep == '_' ==> LocaleCode(p + [sep] + rest) == Lower(p)
    ensures sep == '_' || sep == '.' ==> LangCode(p + [sep] + rest) == Lower(p)
    ensures sep == '_' || sep == '.' || sep == ':' ==> EnvCode(p + [sep] + rest) == Lower(p)
  {
    var v := p + [sep] + rest;
    assert p <= v && v[|p|] == sep;
    CodesCutAtSeparators(v);
    if sep == '_' {
      CutBeforeIsLowerPrefix(v, LocaleCode(v), {'_'}, p);
    }
    if sep == '_' || sep == '.' {
      CutBeforeIsLowerPrefix(v, LangCode(v), {'_', '.'}, p);
    }
    if sep == '_' || sep == '.' || sep == ':' {
      CutBeforeIsLowerPrefix(v, EnvCode(v), {'_', '.', ':'}, p);
    }
  }

  /** What the detection can see. An empty string stands for a value that is
      missing, unset, or whose reading raised. */
  datatype Environment = Environment(
    systemLocale: string,    // locale.getlocale()[0]
    defaultLocale: string,   // locale.getdefaultlocale()[0]
    lang: string,            // LANG
    lcAll: string,           // LC_ALL
    lcMessages: string,      // LC_MESSAGES
    language: string,        // LANGUAGE
    darwin: bool,            // sys.platform == 'darwin'
    appleLocale: string)     // output of `defaults read -g AppleLocale`

  /** The codes read from a list of environment variables. */
  function EnvCodes(values: seq<string>): (r: seq<string>)
    ensures |r| == |values|
    ensures forall i :: 0 <= i < |values| ==> r[i] == EnvCode(values[i])
  {
    if values == [] then [] else [EnvCode(values[0])] + EnvCodes(values[1..])
  }

  /** The codes the detection methods yield, in the order they are tried. */
  function Candidates(env: Environment): seq<string>
  {
    [LocaleCode(env.systemLocale), LocaleCode(env.defaultLocale), LangCode(env.lang)] +
    EnvCodes([env.lcAll, env.lcMessages, env.language]) +
    (if env.darwin then [LocaleCode(env.appleLocale)] else [])
  }

  /** The position of the first supported code, or the length. */
  function FirstSupportedIndex(codes: seq<string>): (i: nat)
    ensures i <= |codes|
    ensures forall j :: 0 <= j < i ==> !IsSupportedLanguage(codes[j])
    ensures i < |codes| ==> IsSupportedLanguage(codes[i])
  {
    if codes == [] || IsSupportedLanguage(codes[0]) then 0
    else
      assert forall j :: 1 <= j < |codes| ==> codes[j] == codes[1..][j - 1];
      1 + FirstSupportedIndex(codes[1..])
  }

  /** The first supported code of the list, if any. */
  function FirstSupported(codes: seq<string>): Option<string>
  {
    var i := FirstSupportedIndex(codes);
    if i < |codes| then Some(codes[i]) else None
  }

  /** The result is supported and no earlier code is; there is none exactly
      when no code is supported. */
  lemma FirstSupportedIsFirst(codes: seq<string>)
    ensures var r := FirstSupported(codes);
      && (r.Some? ==> (IsSupportedLanguage(r.value) &&
            exists i :: 0 <= i < |codes| && codes[i] == r.value &&
              forall j :: 0 <= j < i ==> !IsSupportedLanguage(codes[j])))
      && (r.None? <==> forall i :: 0 <= i < |codes| ==> !IsSupportedLanguage(codes[i]))
  {
  }

  lemma {:induction false} FirstSupportedIndexAppend(a: seq<string>, b: seq<string>)
    ensures FirstSupportedIndex(a + b) ==
      if FirstSupportedIndex(a) < |a| then FirstSupportedIndex(a) else |a| + FirstSupportedIndex(b)
  {
    if a == [] {
      assert a + b == b;
    } else {
      assert (a + b)[1..] == a[1..] + b;
      assert (a + b)[0] == a[0];
      FirstSupportedIndexAppend(a[1..], b);
    }
  }

  lemma FirstSupportedAppend(a: seq<string>, b: seq<string>)
    ensures FirstSupported(a + b) == if FirstSupported(a).Some? then FirstSupported(a) else FirstSupported(b)
  {
    FirstSupportedIndexAppend(a, b);
  }

  lemma FirstSupportedCons(code: string, rest: seq<string>)
    ensures FirstSupported([code] + rest) ==
      if IsSupportedLanguage(code) then Some(code) else FirstSupported(rest)
  {
    FirstSupportedAppend([code], rest);
  }

  /** One step of the scan from index `i`. */
  lemma FirstSupportedAt(codes: seq<string>, i: nat)
    requires i < |codes|
    ensures FirstSupported(codes[i..]) ==
      if IsSupportedLanguage(codes[i]) then Some(codes[i]) else FirstSupported(codes[i + 1..])
  {
    assert codes[i..] == [codes[i]] + codes[i + 1..];
    FirstSupportedCons(codes[i], codes[i + 1..]);
  }

  /** `code` when it is supported, otherwise what the later methods find. */
  function Pick(code: string, later: Option<string>): Option<string>
  {
    if IsSupportedLanguage(code) then Some(code) else later
  }

  /** The search over the candidate list, method by method. */
  lemma {:induction false} CandidatesInOrder(env: Environment)
    ensures FirstSupported(Candidates(env)) ==
      Pick(LocaleCode(env.systemLocale), Pick(LocaleCode(env.defaultLocale), Pick(LangCode(env.lang),
        var v := FirstSupported(EnvCodes([env.lcAll, env.lcMessages, env.language]));
        if v.Some? || !env.darwin then v else Pick(LocaleCode(env.appleLocale), None))))
  {
    var variables := EnvCodes([env.lcAll, env.lcMessages, env.language]);
    var apple := if env.darwin then [LocaleCode(env.appleLocale)] else [];
    var c0, c1, c2 := LocaleCode(env.systemLocale), LocaleCode(env.defaultLocale), LangCode(env.lang);
    assert Candidates(env) == [c0] + ([c1] + ([c2] + (variables + apple)));
    FirstSupportedCons(c0, [c1] + ([c2] + (variables + apple)));
    FirstSupportedCons(c1, [c2] + (variables + apple));
    FirstSupportedCons(c2, variables + apple);
    FirstSupportedAppend(variables, apple);
    if env.darwin {
      FirstSupportedCons(LocaleCode(env.appleLocale), []);
      assert apple == [LocaleCode(env.appleLocale)] + [];
    }
  }

  /** The language after detection, starting from `initial`. */
  function Detect(env: Environment, initial: string): string
  {
    match FirstSupported(Candidates(env))
    case Some(code) => code
    case None => initial
  }

  /** The detection keeps the initial language or picks a supported one; from
      the initial "en" it always ends on a supported language. */
  lemma DetectedIsSupportedOrInitial(env: Environment, initial: string)
    ensures Detect(env, initial) == initial || IsSupportedLanguage(Detect(env, initial))
    ensures IsSupportedLanguage(Detect(env, DefaultLanguage))
  {
    FirstSupportedIsFirst(Candidates(env));
  }

  /** An earlier method that yields a supported code wins over every later
      one: a French system locale decides, whatever LANG and the other
      variables say. */
  lemma EarlierMethodWins(env: Environment, region: string, initial: string)
    requires env.systemLocale == "fr_" + region
    ensures Detect(env, initial) == "fr"
  {
    assert env.systemLocale == "fr" + ['_'] + region;
    CodesBeforeSeparator("fr", '_', region);
    assert Lower("fr") == "fr";
    assert IsSupportedLanguage("fr");
    CandidatesInOrder(env);
  }

  // ---------------------------------------------------------------------------
  // Loading tables (load_translation, load_all_translations)
  // ---------------------------------------------------------------------------

  type Table = map<string, string>

  /** `load_translation`: the file's table, or {} when the file is missing or
      unreadable. */
  function LoadTranslation(files: map<string, Table>, code: string): Table
  {
    if code in files then files[code] else map[]
  }

  /** The tables kept after trying `codes` in order: only non-empty ones. */
  function LoadedFrom(files: map<string, Table>, codes: seq<string>): map<string, Table>
  {
    if codes == [] then map[]
    else
      var rest := LoadedFrom(files, codes[..|codes| - 1]);
      var t := LoadTranslation(files, codes[|codes| - 1]);
      if t != map[] then rest[codes[|codes| - 1] := t] else rest
  }

  /** The number of entries over the kept tables. */
  function EntriesFrom(files: map<string, Table>, codes: seq<string>): nat
  {
    if codes == [] then 0
    else
      var t := LoadTranslation(files, codes[|codes| - 1]);
      EntriesFrom(files, codes[..|codes| - 1]) + |t|
  }

  /** A table is kept exactly when its code was tried and its file gave a
      non-empty table, which is kept as read. */
  lemma {:induction false} LoadedFromEntries(files: map<string, Table>, codes: seq<string>)
    ensures forall c :: c in LoadedFrom(files, codes) <==>
      c in codes && c in files && files[c] != map[]
    ensures forall c :: c in LoadedFrom(files, codes) ==> LoadedFrom(files, codes)[c] == files[c]
  {
    if codes != [] {
      LoadedFromEntries(files, codes[..|codes| - 1]);
      assert forall c :: c in codes <==> c in codes[..|codes| - 1] || c == codes[|codes| - 1];
    }
  }

  /** One more code tried: when its table is non-empty it is added under a
      code not yet present. */
  lemma LoadStep(files: map<string, Table>, codes: seq<string>, i: nat)
    requires i < |codes| && forall j :: 0 <= j < i ==> codes[j] != codes[i]
    ensures var before := LoadedFrom(files, codes[..i]);
      var t := LoadTranslation(files, codes[i]);
      && LoadedFrom(files, codes[..i + 1]) == (if t != map[] then before[codes[i] := t] else before)
      && |LoadedFrom(files, codes[..i + 1])| == |before| + (if t != map[] then 1 else 0)
      && EntriesFrom(files, codes[..i + 1]) == EntriesFrom(files, codes[..i]) + |t|
  {
    assert codes[..i + 1][..i] == codes[..i];
    LoadedFromEntries(files, codes[..i]);
    assert codes[i] !in codes[..i];
  }

  /** One step of the load over the supported languages, which are distinct. */
  lemma LoadSupportedStep(files: map<string, Table>, i: nat)
    requires i < |Supported|
    ensures var before := LoadedFrom(files, Supported[..i]);
      var t := LoadTranslation(files, Supported[i]);
      && LoadedFrom(files, Supported[..i + 1]) == (if t != map[] then before[Supported[i] := t] else before)
      && |LoadedFrom(files, Supported[..i + 1])| == |before| + (if t != map[] then 1 else 0)
      && EntriesFrom(files, Supported[..i + 1]) == EntriesFrom(files, Supported[..i]) + |t|
  {
    SupportedDistinct();
    LoadStep(files, Supported, i);
  }

  /** `load_all_translations` keeps only supported languages with a non-empty
      table. */
  lemma LoadedAreSupported(files: map<string, Table>)
    ensures forall c :: c in LoadedFrom(files, Supported) <==>
      IsSupportedLanguage(c) && c in files && files[c] != map[]
    ensures forall c :: c in LoadedFrom(files, Supported) ==> LoadedFrom(files, Supported)[c] == files[c]
  {
    LoadedFromEntries(files, Supported);
  }

  // ---------------------------------------------------------------------------
  // Default tables (create_default_translations, save_translation)
  // ---------------------------------------------------------------------------

  /** A default table for one language. */
  datatype DefaultTable = DefaultTable(code: string, table: Table)

  /** What `save_translation` returns as written: it has no return statement,
      so the caller receives None whether or not the file was written. */
  function SaveTranslationAsWritten(code: string, unwritable: set<string>): Option<bool>
  {
    None
  }

  /** Corrected: `save_translation` reports whether the file was written. */
  function SaveTranslation(code: string, unwritable: set<string>): Option<bool>
  {
    Some(code !in unwritable)
  }

  /** Python truthiness of the returned value. */
  predicate Truthy(r: Option<bool>)
  {
    r.Some? && r.value
  }

  /** The tables after the defaults loop as written: a table is installed only
      when the save's result is truthy. */
  function InstallAsWritten(current: map<string, Table>, defaults: seq<DefaultTable>, unwritable: set<string>): map<string, Table>
  {
    if defaults == [] then current
    else
      var rest := InstallAsWritten(current, defaults[..|defaults| - 1], unwritable);
      var d := defaults[|defaults| - 1];
      if Truthy(SaveTranslationAsWritten(d.code, unwritable)) then rest[d.code := d.table] else rest
  }

  /** The tables after the corrected defaults loop. */
  function Install(current: map<string, Table>, defaults: seq<DefaultTable>, unwritable: set<string>): map<string, Table>
  {
    if defaults == [] then current
    else
      var rest := Install(current, defaults[..|defaults| - 1], unwritable);
      var d := defaults[|defaults| - 1];
      if Truthy(SaveTranslation(d.code, unwritable)) then rest[d.code := d.table] else rest
  }

  /** As written, the defaults loop installs nothing, even when every file is
      written. */
  lemma {:induction false} InstallAsWrittenAddsNothing(current: map<string, Table>, defaults: seq<DefaultTable>, unwritable: set<string>)
    ensures InstallAsWritten(current, defaults, unwritable) == current
  {
    if defaults != [] {
      InstallAsWrittenAddsNothing(current, defaults[..|defaults| - 1], unwritable);
    }
  }

  /** Corrected, every written default table is installed, the last one of a
      code winning, and nothing else changes. */
  lemma {:induction false} InstallAddsWritten(current: map<string, Table>, defaults: seq<DefaultTable>, unwritable: set<string>)
    ensures forall c :: c in Install(current, defaults, unwritable) <==>
      c in current || exists i :: 0 <= i < |defaults| && defaults[i].code == c && c !in unwritable
    ensures forall c :: c in current && (forall i :: 0 <= i < |defaults| ==> defaults[i].code != c || c in unwritable) ==>
      Install(current, defaults, unwritable)[c] == current[c]
  {
    if defaults != [] {
      var init := defaults[..|defaults| - 1];
      InstallAddsWritten(current, init, unwritable);
      forall c ensures c in Install(current, defaults, unwritable) <==>
        c in current || exists i :: 0 <= i < |defaults| && defaults[i].code == c && c !in unwritable
      {
        if exists i :: 0 <= i < |init| && init[i].code == c && c !in unwritable {
          var i :| 0 <= i < |init| && init[i].code == c && c !in unwritable;
          assert defaults[i] == init[i];
        }
        if exists i :: 0 <= i < |defaults| && defaults[i].code == c && c !in unwritable {
          var i :| 0 <= i < |defaults| && defaults[i].code == c && c !in unwritable;
          if i < |init| { assert init[i] == defaults[i]; }
        }
      }
      forall c | c in current && (forall i :: 0 <= i < |defaults| ==> defaults[i].code != c || c in unwritable)
        ensures Install(current, defaults, unwritable)[c] == current[c]
      {
        assert forall i :: 0 <= i < |init| ==> init[i] == defaults[i];
      }
    }
  }

  /** A written default table is found under its code afterwards. */
  lemma {:induction false} InstalledTableIsLast(current: map<string, Table>, defaults: seq<DefaultTable>, unwritable: set<string>, i: nat)
    requires i < |defaults| && defaults[i].code !in unwritable
    requires forall j :: i < j < |defaults| ==> defaults[j].code != defaults[i].code
    ensures defaults[i].code in Install(current, defaults, unwritable)
    ensures Install(current, defaults, unwritable)[defaults[i].code] == defaults[i].table
  {
    if i < |defaults| - 1 {
      InstalledTableIsLast(current, defaults[..|defaults| - 1], unwritable, i);
    }
  }

  // ---------------------------------------------------------------------------
  // Lookup (translate, t)
  // ---------------------------------------------------------------------------

  /** `translations[code].get(key)` when it is truthy (present and non-empty). */
  function Entry(tables: map<string, Table>, code: string, key: string): Option<string>
  {
    if code in tables && key in tables[code] && tables[code][key] != "" then Some(tables[code][key]) else None
  }

  /** `translate`: the current language's entry, else the fallback language's,
      else the key itself. */
  function TranslateIn(tables: map<string, Table>, current: string, fallback: string, key: string): (r: string)
    ensures Entry(tables, current, key).Some? ==> r == tables[current][key]
    ensures Entry(tables, current, key).None? && Entry(tables, fallback, key).Some? ==> r == tables[fallback][key]
    ensures Entry(tables, current, key).None? && Entry(tables, fallback, key).None? ==> r == key
  {
    match Entry(tables, current, key)
    case Some(s) => s
    case None =>
      match Entry(tables, fallback, key)
      case Some(s) => s
      case None => key
  }

  /** The text shown is a non-empty entry of the current or the fallback
      table, or the key; it is empty only for the empty key. */
  lemma TranslateIsEntryOrKey(tables: map<string, Table>, current: string, fallback: string, key: string)
    ensures var r := TranslateIn(tables, current, fallback, key);
      r == key || (r != "" && exists code :: code in {current, fallback} && code in tables &&
                                              key in tables[code] && tables[code][key] == r)
    ensures TranslateIn(tables, current, fallback, key) == "" ==> key == ""
  {
  }

  /** With no table at all, as the defaults loop as written leaves a fresh
      install, every lookup shows its key; the corrected loop shows the
      default text. */
  lemma FreshInstallShowsKeys(unwritable: set<string>)
    requires "fr" !in unwritable
    ensures var defaults := [DefaultTable("fr", map["upload" := "Envoyer"])];
      && TranslateIn(InstallAsWritten(map[], defaults, unwritable), DefaultLanguage, FallbackLanguage, "upload") == "upload"
      && TranslateIn(Install(map[], defaults, unwritable), DefaultLanguage, FallbackLanguage, "upload") == "Envoyer"
  {
    var defaults := [DefaultTable("fr", map["upload" := "Envoyer"])];
    InstallAsWrittenAddsNothing(map[], defaults, unwritable);
    assert defaults[..0] == [];
    assert Install(map[], defaults, unwritable) == map["fr" := map["upload" := "Envoyer"]];
  }

  // ---------------------------------------------------------------------------
  // TranslationManager
  // ---------------------------------------------------------------------------

  class TranslationManager {
    var currentLanguage: string
    var translations: map<string, Table>
    const fallbackLanguage: string

    /** `TranslationManager()`: start on "en", detect the system language,
        then load the tables. `files` holds the tables the translation files
        give, `defaults` the built-in tables and `unwritable` the codes whose
        file cannot be written. */
    constructor (env: Environment, files: map<string, Table>, defaults: seq<DefaultTable>, unwritable: set<string>)
      ensures fallbackLanguage == FallbackLanguage
      ensures currentLanguage == Detect(env, DefaultLanguage)
      ensures IsSupportedLanguage(currentLanguage)
      ensures LoadedFrom(files, Supported) != map[] ==> translations == LoadedFrom(files, Supported)
      ensures LoadedFrom(files, Supported) == map[] ==> translations == map[]
    {
      currentLanguage := DefaultLanguage;
      translations := map[];
      fallbackLanguage := FallbackLanguage;
      new;
      DetectSystemLanguage(env);
      DetectedIsSupportedOrInitial(env, DefaultLanguage);
      var _, _ := LoadAllTranslations(files, defaults, unwritable);
    }

    /** `translate(key)` on the current state. */
    function Translate(key: string): string
      reads this
    {
      TranslateIn(translations, currentLanguage, fallbackLanguage, key)
    }

    /** `t`, the shorthand for `translate`. */
    function T(key: string): string
      reads this
    {
      Translate(key)
    }

    /** `set_language`: switch only to a language whose table is loaded. */
    method SetLanguage(code: string)
      modifies this
      ensures code in old(translations) ==> currentLanguage == code
      ensures code !in old(translations) ==> currentLanguage == old(currentLanguage)
      ensures translations == old(translations)
      ensures code in translations ==> forall key :: Entry(translations, code, key).Some? ==>
        Translate(key) == translations[code][key]
    {
      if code in translations {
        currentLanguage := code;
      }
    }

    /** `detect_system_language`: the methods are tried in order and the
        first that yields a supported code decides; otherwise the language is
        left as it was. */
    method DetectSystemLanguage(env: Environment)
      modifies this
      ensures currentLanguage == Detect(env, old(currentLanguage))
      ensures translations == old(translations)
    {
      var detected: Option<string> := None;
      var code := LocaleCode(env.systemLocale);
      if IsSupportedLanguage(code) {
        detected := Some(code);
      }
      if detected.None? {
        code := LocaleCode(env.defaultLocale);
        if IsSupportedLanguage(code) {
          detected := Some(code);
        }
      }
      if detected.None? {
        code := LangCode(env.lang);
        if IsSupportedLanguage(code) {
          detected := Some(code);
        }
      }
      if detected.None? {
        detected := DetectFromVariables([env.lcAll, env.lcMessages, env.language]);
      }
      if detected.None? && env.darwin {
        code := LocaleCode(env.appleLocale);
        if IsSupportedLanguage(code) {
          detected := Some(code);
        }
      }
      CandidatesInOrder(env);
      if detected.Some? {
        currentLanguage := detected.value;
      }
    }

    /** The loop over LC_ALL, LC_MESSAGES and LANGUAGE, stopping at the first
        supported code. */
    static method DetectFromVariables(values: seq<string>) returns (detected: Option<string>)
      ensures detected == FirstSupported(EnvCodes(values))
    {
      ghost var codes := EnvCodes(values);
      detected := None;
      var i := 0;
      while i < |values|
        invariant 0 <= i <= |values|
        invariant detected.None? ==> FirstSupported(codes) == FirstSupported(codes[i..])
        invariant detected.Some? ==> detected == FirstSupported(codes)
      {
        var code := EnvCode(values[i]);
        FirstSupportedAt(codes, i);
        if IsSupportedLanguage(code) {
          detected := Some(code);
          break;
        }
        i := i + 1;
      }
    }

    /** `load_all_translations`: try every supported language in order and
        keep the non-empty tables, counting them and their entries; when none
        is kept, run the defaults loop as written, which installs nothing. */
    method LoadAllTranslations(files: map<string, Table>, defaults: seq<DefaultTable>, unwritable: set<string>)
      returns (loadedCount: nat, totalEntries: nat)
      modifies this
      ensures currentLanguage == old(currentLanguage)
      ensures loadedCount == |LoadedFrom(files, Supported)|
      ensures totalEntries == EntriesFrom(files, Supported)
      ensures LoadedFrom(files, Supported) != map[] ==> translations == LoadedFrom(files, Supported)
      ensures LoadedFrom(files, Supported) == map[] ==> translations == map[]
    {
      translations := map[];
      loadedCount, totalEntries := 0, 0;
      for i := 0 to |Supported|
        invariant translations == LoadedFrom(files, Supported[..i])
        invariant currentLanguage == old(currentLanguage)
        invariant loadedCount == |translations|
        invariant totalEntries == EntriesFrom(files, Supported[..i])
      {
        var code := Supported[i];
        LoadSupportedStep(files, i);
        var t := LoadTranslation(files, code);
        if t != map[] {
          translations := translations[code := t];
          loadedCount := loadedCount + 1;
          totalEntries := totalEntries + |t|;
        }
      }
      assert Supported[..|Supported|] == Supported;
      if translations == map[] {
        var _ := CreateDefaultTranslationsAsWritten(defaults, unwritable);
      }
    }

    /** `create_default_translations` as written: `save_translation` returns
        None, so no table is installed and nothing is counted, whichever files
        were written. */
    method CreateDefaultTranslationsAsWritten(defaults: seq<DefaultTable>, unwritable: set<string>)
      returns (created: nat)
      modifies this
      ensures translations == old(translations)
      ensures created == 0
      ensures currentLanguage == old(currentLanguage)
    {
      created := 0;
      for i := 0 to |defaults|
        invariant translations == InstallAsWritten(old(translations), defaults[..i], unwritable)
        invariant currentLanguage == old(currentLanguage)
        invariant created == 0
      {
        assert defaults[..i + 1][..i] == defaults[..i];
        var d := defaults[i];
        var success := SaveTranslationAsWritten(d.code, unwritable);
        // `if success:` on the None the save returns
        translations := if Truthy(success) then translations[d.code := d.table] else translations;
        created := created + if Truthy(success) then 1 else 0;
      }
      assert defaults[..|defaults|] == defaults;
      InstallAsWrittenAddsNothing(old(translations), defaults, unwritable);
    }

    /** Corrected `create_default_translations`: every table whose file was
        written is installed. */
    method CreateDefaultTranslations(defaults: seq<DefaultTable>, unwritable: set<string>)
      returns (created: nat)
      modifies this
      ensures translations == Install(old(translations), defaults, unwritable)
      ensures created <= |defaults|
      ensures currentLanguage == old(currentLanguage)
    {
      created := 0;
      for i := 0 to |defaults|
        invariant translations == Install(old(translations), defaults[..i], unwritable)
        invariant currentLanguage == old(currentLanguage)
        invariant created <= i
      {
        assert defaults[..i + 1][..i] == defaults[..i];
        var success := SaveTranslation(defaults[i].code, unwritable);
        if Truthy(success) {
          translations := translations[defaults[i].code := defaults[i].table];
          created := created + 1;
        }
      }
      assert defaults[..|defaults|] == defaults;
    }
  }
}
