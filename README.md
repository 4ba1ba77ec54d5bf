# FitUploader in Dafny

A model of the bookkeeping and decision logic of FitUploader. FitUploader copies
MyWhoosh and TrainingPeaks Virtual activity files (FIT files) into a backup
folder, cleans them, and uploads them to Garmin Connect. The model covers two
programs: the current application (`fituploader.py` with `translations.py`) and
the older script `FitUploader.py`.

What the model covers:

- **Settings store** (`Settings`, `settings.dfy`):
  - `ConfigManager` as a class. It holds the configuration, the `_dirty` flag, a
    pending debounced save and the settings file.
  - Validation against the typed default schema.
  - `get`, `set`, `save` and `load`.
  - `processed_files` is a separate heap object (`Ledger`). This is because `get`
    hands out the live dictionary, which callers then mutate.
- **Processed-files ledger** (`FileManager`, `file_manager.dfy`):
  - the lookup by hash first, then by `<name>_<size>` key;
  - marking a file as processed;
  - "mark as new";
  - the full clear.
- **FIT clean-up** (`FitCleanup`, `fit_cleanup.dfy`):
  - The record loop works over an abstract message datatype.
  - Laps are dropped and temperatures stripped.
  - Cadence, power and heart rate go into running lists, which refill missing
    session averages and are reset at each session.
  - Both averaging rules are covered: the current one and the older script's.
- **Upload engine** (`Upload`, `upload.dfy`):
  - Error messages are classified by substring.
  - The retry loop runs over a scripted sequence of attempt outcomes, with its
    backoff waits.
  - Batch statistics, the results dictionary, and the ledger entries written for
    uploaded files.
- **Listing and naming** (`Catalog`, `catalog.dfy`):
  - the FIT file filter and the newest-first order;
  - the activity number taken from `MyNewActivity-<n>.fit`;
  - the backup name with its collision counter;
  - the labels of the MyWhoosh directories found.
- **Older script** (`LegacyScript`, `legacy.dfy`):
  - backup names with a source prefix;
  - source detection by path;
  - the "already backed up" skip rule;
  - the clean-and-save pass;
  - the upload loop with its 409 rule;
  - the available sources.
- **Translations** (`Translations`, `translations.dfy`):
  - the supported languages;
  - the language code read from locale strings and environment variables, and
    the order in which the detection methods are tried;
  - loading the tables;
  - the default tables;
  - the lookup with its fallback language;
  - the guarded language switch.
- `Common` (`common.dfy`) holds the shared vocabulary: `Option`, JSON values,
  and the string helpers for `in`, `lower()`, `split()` and decimal digits.

Inputs instead of effects:

- Directory listings, file existence and readability, hashes, timestamps,
  environment variables, and the outcome of each network call are parameters.
- The settings file is a field of the store, written only by `Save`.
- A hash is an opaque string. The empty string means "no hash".

## Model

| member | source | states |
|---|---|---|
| Catalog.InsertByMtime | FitUploader.py:253-254 | Inserting one entry into a newest-first list keeps it newest first and adds exactly that entry (multiset) |
| Catalog.SortNewestFirst | fituploader.py:517 | The sort by modification time, newest first, returns a permutation of its input that is ordered newest first |
| Catalog.SameMultisetSameMembers | fituploader.py:517 | Two lists with the same multiset have the same members, so sorting neither adds nor loses a file |
| Catalog.MatchesFitGlob | fituploader.py:467-468 | The glob `MyNewActivity-*.fit` on a name; ScanFitFiles states that the listing holds exactly the regular non-empty files it accepts |
| Catalog.Keep | fituploader.py:467-469 | The filter keeps exactly the entries satisfying the predicate and never grows the list |
| Catalog.ScanFitFiles | fituploader.py:461-472 | The listing is newest first and holds an entry iff the source is a directory, the entry is a regular non-empty file, and its name matches `MyNewActivity-*.fit` |
| Catalog.LegacyFitFiles | FitUploader.py:249-254 | The older listing is `[]` for a missing directory; otherwise it holds every glob match, newest first |
| Catalog.MostRecentFitTime | FitUploader.py:303-311 | The modification time of the first listed file, or 0; MostRecentIsMaximum proves it is the largest listed time |
| Catalog.MostRecentIsMaximum | FitUploader.py:303-311 | The most recent time is 0 when no FIT file is listed; otherwise it is a listed file's time, and no listed file is newer |
| Catalog.LeadingDigits | fituploader.py:559 | `\d+` is greedy: the result is the longest run of digits at the start of the string |
| Catalog.MatchAtIsPattern | fituploader.py:559 | The matcher at index i succeeds with `digits` iff `MyNewActivity-<digits>.fit` occurs at i with non-empty digits |
| Catalog.MatchAtGivesPattern | fituploader.py:559 | A match at i is an occurrence of the pattern at i |
| Catalog.PatternGivesMatchAt | fituploader.py:559 | An occurrence of the pattern at i is found by the matcher at i, with the same digits |
| Catalog.PatternStartsWithPrefix | fituploader.py:559 | An occurrence starts with `MyNewActivity-` |
| Catalog.PatternRestIsDigitsThenSuffix | fituploader.py:559 | After the prefix, an occurrence is its digits followed by `.fit` |
| Catalog.LeadingDigitsOfDigitsThenDot | fituploader.py:559 | A digit run followed by `.` is exactly the greedy run |
| Catalog.SearchFromIsLeftmost | fituploader.py:559 | `re.search` returns the leftmost occurrence's digits, and finds nothing iff no occurrence exists from that index on |
| Catalog.NoPatternWithoutMatch | fituploader.py:559 | Where the matcher fails, no occurrence starts |
| Catalog.ActivityNumberOfTypicalName | fituploader.py:559-560 | `MyNewActivity-3.fit` yields the activity number "3" |
| Catalog.ActivityNumber | fituploader.py:559-560 | `match.group(1)` of the search; SearchFromIsLeftmost proves it is the digits of the leftmost occurrence of the pattern, and None iff the pattern occurs nowhere |
| Catalog.CandidateInjective | fituploader.py:567 | Distinct collision counters give distinct candidate names |
| Catalog.Candidate | fituploader.py:567 | The name tried for a collision counter, with no suffix for 0; CandidateInjective proves distinct counters give distinct names |
| Catalog.GenerateNewFilename | fituploader.py:556-572 | The name is `MW_<timestamp>[_<activity>][_<counter>].fit`, where the counter is the first one whose name is free. With a backup folder the returned name is not taken. Without one, no counter is added |
| Catalog.TriedSize | fituploader.py:565-568 | The first n candidate names are n distinct names |
| Catalog.TriedBound | fituploader.py:565-568 | If the first n candidates are all taken, there are at least n existing names, so the counter loop terminates |
| Catalog.SubsetCardinality | fituploader.py:565-568 | A subset of the existing names is no larger than they are |
| Catalog.SourceNamesDistinct | fituploader.py:454 | The labels `MyWhoosh`, `MyWhoosh_2`, … are pairwise distinct |
| Catalog.SourcesOf | fituploader.py:452-455 | The dictionary of labels built over the directories found; SourcesOfKeys, SourcesOfSize and SourcesOfLookup prove it has one entry per directory, the i-th under its own label |
| Catalog.SourcesOfKeys | fituploader.py:452-455 | Only labels of the directories found appear |
| Catalog.SourcesOfFresh | fituploader.py:453-455 | The label of a later directory is not yet taken |
| Catalog.SourcesOfSize | fituploader.py:452-455 | There is exactly one label per directory found |
| Catalog.SourcesOfLookup | fituploader.py:453-455 | The label of the i-th directory maps to that directory |
| Catalog.AvailableSources | fituploader.py:452-455 | The loop builds one entry per directory, the i-th under its label, and nothing else |
| Common.ContainsIffOccurs | fituploader.py:1254 | Python `t in s` holds iff t occurs at some index of s |
| Common.ContainsWitness | fituploader.py:1254 | A substring test that holds yields an index where the substring occurs |
| Common.OccursContains | fituploader.py:2665-2666 | An occurrence at some index makes the substring test hold |
| Common.Lower | fituploader.py:1251 | `lower()` keeps the length and lower-cases each character |
| Common.BeforeFirst | translations.py:61 | `split(c)[0]` is the prefix before the first c, free of c |
| Common.AfterLast | FitUploader.py:358 | `split(c)[-1]` is the suffix after the last c, free of c |
| Common.NatToString | fituploader.py:567 | `str(n)` is a non-empty string of decimal digits |
| Common.ParseNatToString | fituploader.py:567 | Reading `str(n)` back as a number gives n |
| Common.NatToStringInjective | fituploader.py:567 | Distinct counters render as distinct strings |
| FileManager.FileKey | fituploader.py:485 | The key `<name>_<size>`; MarkedAsNewIsNotProcessed relies on it containing the file name, so that "mark as new" removes it |
| FileManager.IsFileProcessed | fituploader.py:474-486 | A match on a non-empty hash of any dictionary entry, else the key; MarkedIsProcessed, RenamedFileIsProcessed, EmptyHashMatchesByKeyOnly and NoHashMatchMeansKeyLookup state its cases |
| FileManager.ProcessedEntry | fituploader.py:493-498 | The entry written for a file carries the file's hash |
| FileManager.MarkedIsProcessed | fituploader.py:474-500 | After a file is marked, the lookup finds it |
| FileManager.RenamedFileIsProcessed | fituploader.py:478-482 | A file with the same non-empty hash as a marked file is found, whatever its name and size |
| FileManager.EmptyHashMatchesByKeyOnly | fituploader.py:479-486 | With an empty hash, the lookup holds iff the key `<name>_<size>` is present |
| FileManager.NoHashMatchMeansKeyLookup | fituploader.py:479-486 | With no entry holding the file's hash, the lookup holds iff the key is present |
| FileManager.MarkIdempotent | fituploader.py:488-498 | Marking the same file twice with the same time leaves the ledger as marking it once |
| FileManager.MarkFileProcessedInPlace | fituploader.py:488-500 | As written: only key `<name>_<size>` is written, into the live ledger. The store's dirty flag and pending save are unchanged, and so is the settings file |
| FileManager.LedgerUpdateNotPersisted | fituploader.py:488-500 | As written: in a fresh session the marked file is found in memory, yet the automatic save and a plain save leave the settings file missing |
| FileManager.MarkFileProcessed | fituploader.py:488-500 | Corrected: only key `<name>_<size>` is written, the lookup then holds, and any change makes the store dirty and schedules a save |
| FileManager.MarkThenAutoSave | fituploader.py:270-287 | Corrected: a new entry reaches the settings file at the next automatic save |
| FileManager.LedgerUpdatePersisted | fituploader.py:488-500 | Corrected: the same session as LedgerUpdateNotPersisted ends with the entry in the settings file |
| FileManager.FirstNamed | fituploader.py:2648 | The `next(...)` search returns a scanned file of that name, or none when no scanned file has it |
| FileManager.RemovedByMarkAsNew | fituploader.py:2664-2669 | The selection test of `mark_as_new`; KeysToRemove collects exactly the keys it selects, and MarkedAsNewIsNotProcessed proves the file is no longer found once they are removed |
| FileManager.KeysToRemove | fituploader.py:2659-2669 | The collected keys are exactly the entries selected: a dictionary entry whose hash equals the non-empty file hash, or any entry whose key contains the file name |
| FileManager.PopKeys | fituploader.py:2671-2672 | Popping the collected keys removes exactly them |
| FileManager.MarkAsNewInPlace | fituploader.py:2640-2674 | As written: nothing changes without a scanned file of that name. Otherwise exactly the selected entries go from the live ledger, every other entry keeps its value, and the store's dirty flag and pending save are unchanged |
| FileManager.MarkAsNew | fituploader.py:2640-2674 | Corrected: exactly the selected entries are removed, every other entry keeps its value, and a removal makes the store dirty and schedules a save |
| FileManager.MarkedAsNewIsNotProcessed | fituploader.py:2662-2672 | After "mark as new" the file is no longer found by the lookup |
| FileManager.CleanupProcessedFiles | fituploader.py:2801-2805 | The ledger becomes empty. The store turns dirty and schedules a save unless the ledger was already empty, in which case the dirty flag and pending save are unchanged |
| FitCleanup.AppendValue | fituploader.py:975-981 | Exactly one value is appended per call: the field's value, or 0 when it is missing |
| FitCleanup.Positives | fituploader.py:971 | The values kept for averaging are exactly the strictly positive ones |
| FitCleanup.Min | fituploader.py:971 | The minimum of a non-empty list is one of its values and no larger than any |
| FitCleanup.Max | fituploader.py:971 | The maximum of a non-empty list is one of its values and no smaller than any |
| FitCleanup.SumBetween | fituploader.py:972 | A sum of n values between lo and hi lies between lo·n and hi·n |
| FitCleanup.DivBetween | fituploader.py:972 | A truncated quotient of such a sum by n lies between lo and hi |
| FitCleanup.DivAtLeast | fituploader.py:972 | Lower half of DivBetween |
| FitCleanup.DivAtMost | fituploader.py:972 | Upper half of DivBetween |
| FitCleanup.MulSucc | fituploader.py:972 | (a+1)·n = a·n + n |
| FitCleanup.MulMonotone | fituploader.py:972 | Multiplication by n is monotone |
| FitCleanup.CalculateAvg | fituploader.py:968-972 | The truncated mean of the positive values, or 0; CalculateAvgBounds and CalculateAvgIgnoresZeros state its range and that zeros do not count |
| FitCleanup.LegacyAvg | FitUploader.py:206-207 | The older mean over all values, zeros included, or 0 for an empty list; AverageOfRideWithDropout contrasts it with CalculateAvg |
| FitCleanup.CalculateAvgBounds | fituploader.py:968-972 | The average is 0 when no value is positive. Otherwise it lies between the smallest and the largest positive value, so it is positive iff some value is |
| FitCleanup.CalculateAvgIgnoresZeros | fituploader.py:971 | A zero (missing) reading does not change the average |
| FitCleanup.AverageOfRideWithDropout | fituploader.py:968-972 | [100,150,200,0] averages to 150 under the current rule and to 112 under the older whole-list rule |
| FitCleanup.SumSnoc | fituploader.py:972 | The sum grows by the value appended |
| FitCleanup.PositivesSnoc | fituploader.py:971 | Appending a value adds it to the positive values iff it is positive |
| FitCleanup.FillAverage | fituploader.py:937-942 | A truthy average is kept. Under the current rule a falsy one is replaced by the list's average only when the list is non-empty. Under the older rule (FitUploader.py:234-239) a falsy one is always replaced |
| FitCleanup.NonLaps | fituploader.py:921-922 | The input without laps holds exactly its non-lap messages |
| FitCleanup.Clean | fituploader.py:921-946 | What one message becomes: a lap nothing, a record the same without temperature, a session with its falsy averages filled from the readings since the last session |
| FitCleanup.Reference | fituploader.py:918-946 | The stream handed to the builder; ReferenceEmitsNonLapsInOrder, NoLapNoTemperature and ReferenceIdempotent state its properties, and CleanupRecords proves the loop computes it |
| FitCleanup.ReferenceEmitsNonLapsInOrder | fituploader.py:918-946 | Every non-lap message is emitted exactly once, in input order, and the i-th output is the i-th non-lap input with at most its temperature removed or its falsy averages filled |
| FitCleanup.NoLapNoTemperature | fituploader.py:921-927 | No lap message and no temperature reading survive |
| FitCleanup.PendingResetsAtSession | fituploader.py:944 | The running lists after a session message hold only the readings after it |
| FitCleanup.PendingOfReference | fituploader.py:918-946 | Cleaning does not change the running lists a later pass computes |
| FitCleanup.FillAverageIdempotent | fituploader.py:937-942 | Filling an average twice from the same readings is the same as filling it once |
| FitCleanup.ReferenceIdempotent | fituploader.py:918-946 | Cleaning an already cleaned stream changes nothing |
| FitCleanup.CleanupRecords | fituploader.py:916-946 | The loop with its three running lists emits exactly the reference stream |
| FitCleanup.CleanupFitFile | fituploader.py:887-966 | A file is written iff the source can be read and the write succeeds, and what is written is the cleaned stream |
| LegacyScript.LegacyNameMarksSource | FitUploader.py:313-322 | The name is `<prefix><timestamp>[_<activity>].fit`, with prefix "MW_" iff the source is "MyWhoosh" and "TPV_" otherwise |
| LegacyScript.LegacyNewFilename | FitUploader.py:313-322 | The backup name with its source prefix; LegacyNameMarksSource and BackupEndsWithNumber state its shape |
| LegacyScript.ActivityNumberOfActivityName | FitUploader.py:319-320 | `MyNewActivity-<digits>.fit` yields its digits as the activity number |
| LegacyScript.InDirectoryHasPrefix | FitUploader.py:267-270 | A file inside a directory, component-wise, has the directory as a string prefix |
| LegacyScript.DetectSourceByPrefix | FitUploader.py:256-270 | As written: "" for a missing file, else MyWhoosh then TrainingPeaks Virtual by string prefix, else the content test; PrefixDetectionCrossesDirectories shows the mislabel |
| LegacyScript.DetectSourceByDirectory | FitUploader.py:256-270 | Corrected: the same decision by component-wise containment; DirectoryDetectionRefinesPrefix relates it to the string test |
| LegacyScript.PrefixDetectionCrossesDirectories | FitUploader.py:256-270 | As written: a file in `/x/Data2` is labelled MyWhoosh when the MyWhoosh directory is `/x/Data`. The corrected test labels it TrainingPeaks Virtual |
| LegacyScript.DirectoryDetectionRefinesPrefix | FitUploader.py:256-270 | Corrected: wherever the component-wise test detects a source, the string test detects one too. Both label a file inside the MyWhoosh directory MyWhoosh, and both answer "" iff the file is missing |
| LegacyScript.AlreadyBackedUpGrows | FitUploader.py:356-361 | A file once counted as backed up stays so when the backup folder grows |
| LegacyScript.AlreadyBackedUp | FitUploader.py:356-361 | Some backup name ends in `_<text after the last '-'>`; AlreadyBackedUpGrows, BackupIsRecognized and SkipRuleIgnoresSource state its behaviour |
| LegacyScript.AfterLastOfTail | FitUploader.py:358 | `split('-')[-1]` is the tail after a '-' when the tail has none |
| LegacyScript.BackupIsRecognized | FitUploader.py:355-364 | After the backup of `MyNewActivity-<digits>.fit` is written, under any timestamp and source, the file counts as backed up |
| LegacyScript.TextAfterDash | FitUploader.py:358 | The text after the last '-' of `MyNewActivity-<digits>.fit` is `<digits>.fit` |
| LegacyScript.BackupEndsWithNumber | FitUploader.py:313-322 | The backup name of `MyNewActivity-<digits>.fit` ends in `_<digits>.fit` |
| LegacyScript.SkipRuleIgnoresSource | FitUploader.py:355-364 | The skip test looks only at the activity number: once one source's `MyNewActivity-3.fit` is backed up, the other source's file of that name is skipped, although its backup name would differ |
| LegacyScript.Tagged | FitUploader.py:355 | One item per file of a source |
| LegacyScript.Visit | FitUploader.py:355-376 | One file of the pass: skipped when backed up or when cleaning fails, else its backup name is recorded; CleanedFileIsNotRedone proves a second visit changes nothing |
| LegacyScript.Pass | FitUploader.py:343-376 | The pass over a run of files; PassOnlyAdds and PassSplit state that it only appends the saved names, in order, and splits over concatenation |
| LegacyScript.PassOnlyAdds | FitUploader.py:340-378 | The pass only appends: the names grow by exactly the files saved, in order, and each saved name is the backup name of a visited file whose cleaning succeeded |
| LegacyScript.CleanedFileIsNotRedone | FitUploader.py:355-376 | A successfully cleaned file counts as backed up for the rest of the pass, so visiting it again changes nothing |
| LegacyScript.PassSplit | FitUploader.py:343-376 | The pass over two runs of files is the pass over the first, then over the second |
| LegacyScript.PassStep | FitUploader.py:355-376 | The pass over one more file is one more visit |
| LegacyScript.CleanupAndSave | FitUploader.py:331-378 | `[]` without a backup folder. Otherwise, the saved files of the pass over every listed file of every source, in order |
| LegacyScript.SaveSource | FitUploader.py:343-376 | The inner loop over one source's files performs the pass over that source's items |
| LegacyScript.PassTaggedStep | FitUploader.py:355-376 | One more file of a source is one more visit |
| LegacyScript.SaveFile | FitUploader.py:356-376 | One file is skipped when already backed up or when its cleaning fails; otherwise its backup name is added and saved |
| LegacyScript.SendResultsEntries | FitUploader.py:388-414 | A path's entry is True iff the file exists and was accepted or refused with "409 Client Error"; a repeated path keeps its last verdict |
| LegacyScript.SendResultsKeys | FitUploader.py:388-414 | There is an entry for every input path and for no other |
| LegacyScript.MissingFileFails | FitUploader.py:403-405 | A missing file always records False |
| LegacyScript.ConflictIsDuplicate | FitUploader.py:407-409 | A message containing "409 Client Error" is classified as a duplicate by the newer program's rule (fituploader.py:1254) |
| LegacyScript.ConflictKeepsCode | FitUploader.py:407-409 | Lower-casing keeps "409" in such a message |
| LegacyScript.UploadFitFilesToGarmin | FitUploader.py:388-414 | The loop's dictionary is the results of the files in order, with an entry for exactly the input paths |
| LegacyScript.AvailableSources | FitUploader.py:416-430 | Only "MyWhoosh" and "TrainingPeaks Virtual" can be keys. Each is present iff its directory exists and holds a FIT file, and it maps to that directory |
| LegacyScript.OfferedHasNewest | FitUploader.py:416-430 | An offered source has a newest FIT file, and its time is the source's most recent time |
| Settings.Ledger.constructor | fituploader.py:493 | A new ledger holds exactly the given entries |
| Settings.IsInstance | fituploader.py:222-223 | `isinstance(value, type(default))`, with a bool passing for an int; ValidateKeepsExactlyMatching and BoolPassesForIntSetting state how validation uses it |
| Settings.ValidateAgainst | fituploader.py:214-228 | The result conforms to the schema, and each value is either the schema's default or the loaded value |
| Settings.DefaultConfigConforms | fituploader.py:230-241 | Each default value has its own type, and `processed_files` defaults to `{}` |
| Settings.ValidateConfig | fituploader.py:214-241 | Validation against the default configuration conforms to it and always holds a `processed_files` dictionary |
| Settings.ValidateKeepsExactlyMatching | fituploader.py:214-228 | The result has exactly the schema's keys. A loaded value is kept iff `isinstance` accepts it, otherwise the default is used, and unknown keys are dropped |
| Settings.ValidateRoundTrip | fituploader.py:214-228 | A configuration that conforms to the schema validates to itself |
| Settings.ValidateIdempotent | fituploader.py:214-228 | Validating twice is validating once |
| Settings.BoolPassesForIntSetting | fituploader.py:222-224 | A bool is accepted for an int setting (Python's bool is an int), and a float is replaced by the default |
| Settings.LoadedConfig | fituploader.py:199-212 | What `load` produces always conforms to the schema |
| Settings.ConfigStore.Config | fituploader.py:265-268 | The configuration always holds `processed_files`, whose content is the live ledger's |
| Settings.ConfigStore.constructor | fituploader.py:191-197 | A new store has loaded the settings file and is clean, with no save pending |
| Settings.ConfigStore.Load | fituploader.py:199-212 | The configuration becomes the validated file content, or the defaults when the file is missing or unreadable |
| Settings.ConfigStore.Get | fituploader.py:265-268 | The stored value when the key is present, otherwise the default given |
| Settings.ConfigStore.Set | fituploader.py:270-279 | Nothing changes when the value equals the current one under Python equality. Otherwise the value is stored and the store turns dirty, and a change to `username` or `backup_path` schedules a save |
| Settings.ConfigStore.SetLedger | fituploader.py:270-279 | Nothing changes when the dictionary has the current content. Otherwise it replaces the ledger, the store turns dirty, and a save is scheduled |
| Settings.ConfigStore.Save | fituploader.py:243-263 | Writes the whole configuration and clears the dirty flag when dirty or forced and the write succeeds; otherwise the file and the flag are unchanged |
| Settings.ConfigStore.AutoSaveFires | fituploader.py:281-287 | The pending save fires as a plain save |
| Settings.SaveLoadRoundTrip | fituploader.py:199-263 | A conforming configuration that is saved and loaded again comes back unchanged |
| Settings.PreferencesSchema | fituploader.py:230-241 | Corrected schema: the default keys plus `email` and `language` |
| Settings.DefaultSchemaDropsLanguage | fituploader.py:214-241 | As written: a `language` entry in the settings file never survives loading |
| Settings.RestartForgetsLanguage | fituploader.py:1486 | As written: a language set in one session (`set` at line 2251) and force-saved reads back as "en" after a restart |
| Settings.PreferencesSurviveRestart | fituploader.py:214-241 | Corrected: with the extended schema, a saved configuration with any language and e-mail loads back unchanged |
| Settings.SetSaveRestart | fituploader.py:243-279 | A string setting the schema lists that is set and force-saved is read back by the next session |
| Settings.RestartKeepsLanguage | fituploader.py:1486 | Corrected: the same session as RestartForgetsLanguage, with the extended schema, reads back "nl" |
| Translations.SupportedExactly | translations.py:181-191 | A code is supported iff it is one of en, fr, es, de, it, nl, pt |
| Translations.SupportedDistinct | translations.py:183 | The supported codes are pairwise distinct |
| Translations.AvailableLanguagesAreSupported | translations.py:660-670 | The languages offered by name are exactly the supported ones |
| Translations.CodesCutAtSeparators | translations.py:61 | Each code is the value, lower-cased, up to its first separator: `_` for locales (lines 61, 83, 159), `_` or `.` for LANG (line 106), and `_`, `.` or `:` for the other variables (line 134) |
| Translations.CutBeforeIsLowerPrefix | translations.py:106 | The cut is unique: a separator-free prefix followed by a separator, or by the end, is the code |
| Translations.CodesOfLocaleName | translations.py:134 | `fr_FR`, `fr.UTF-8`, `fr:en` and `fr` all give "fr" under the rules that cut at that separator |
| Translations.CodesBeforeSeparator | translations.py:134 | A code followed by a separator it is cut at gives the code, lower-cased |
| Translations.EnvCodes | translations.py:128-134 | One code per variable, in order |
| Translations.FirstSupportedIndex | translations.py:136-140 | The index of the first supported code, or the length when there is none |
| Translations.FirstSupportedIsFirst | translations.py:136-140 | The result is a supported code with no supported code before it, and there is none iff no code is supported |
| Translations.FirstSupportedIndexAppend | translations.py:127-140 | The first supported code of a concatenation comes from the first part when it has one |
| Translations.FirstSupportedAppend | translations.py:127-140 | The search over two parts is the search over the first, else over the second |
| Translations.FirstSupportedCons | translations.py:127-140 | A supported head wins; otherwise the search goes on in the tail |
| Translations.FirstSupportedAt | translations.py:127-140 | One step of the scan from index i |
| Translations.Detect | translations.py:48-178 | The first supported code of the methods in order, else the initial language; CandidatesInOrder, DetectedIsSupportedOrInitial and EarlierMethodWins state its behaviour |
| Translations.CandidatesInOrder | translations.py:48-178 | The detection tries getlocale, getdefaultlocale, LANG, LC_ALL, LC_MESSAGES, LANGUAGE, then AppleLocale only on macOS, and the first supported code wins |
| Translations.DetectedIsSupportedOrInitial | translations.py:174-177 | The language stays at its initial value or becomes a supported code, and from "en" it is always supported |
| Translations.EarlierMethodWins | translations.py:54-67 | A French system locale decides, whatever the later sources say |
| Translations.LoadedFromEntries | translations.py:228-233 | A table is kept iff its code was tried and its file gave a non-empty table, which is kept as read |
| Translations.LoadStep | translations.py:228-233 | A new code with a non-empty table adds one table and its entry count |
| Translations.LoadSupportedStep | translations.py:228-233 | One step of the load over the supported languages |
| Translations.LoadedAreSupported | translations.py:216-233 | Only supported languages with a non-empty table are loaded, each with the file's table |
| Translations.InstallAsWrittenAddsNothing | translations.py:257-269 | As written: since `save_translation` returns None, the defaults loop installs nothing |
| Translations.InstallAddsWritten | translations.py:257-269 | Corrected: exactly the default tables whose file was written are added, and other tables keep their value |
| Translations.InstalledTableIsLast | translations.py:264-268 | Corrected: a written default table is found under its code when no later default has that code |
| Translations.TranslateIn | translations.py:680-703 | The current language's non-empty entry, else the fallback's non-empty entry, else the key |
| Translations.TranslateIsEntryOrKey | translations.py:680-703 | The text shown is a non-empty entry of the current or the fallback table, or the key itself |
| Translations.FreshInstallShowsKeys | translations.py:257-269 | As written, with no table on disk, "upload" shows as "upload"; corrected, it shows the default text |
| Translations.TranslationManager.constructor | translations.py:24-46 | The manager starts on the detected language, always a supported one, and its fallback is "fr". It holds the loaded tables; when none loaded it holds no table at all, because the defaults loop as written installs nothing |
| Translations.TranslationManager.SetLanguage | translations.py:672-678 | The language changes iff the code has a loaded table; the tables are unchanged |
| Translations.TranslationManager.DetectSystemLanguage | translations.py:48-178 | The language becomes the first supported detected code, or is left as it was |
| Translations.TranslationManager.DetectFromVariables | translations.py:126-143 | The loop over LC_ALL, LC_MESSAGES and LANGUAGE stops at, and returns, the first supported code |
| Translations.TranslationManager.LoadAllTranslations | translations.py:216-255 | The tables become the loaded ones, with their count and total entries. When none loads, the defaults loop as written runs and the tables stay empty |
| Translations.TranslationManager.CreateDefaultTranslationsAsWritten | translations.py:257-269 | As written: the tables and the language are unchanged and nothing is counted, whichever default files were written |
| Translations.TranslationManager.CreateDefaultTranslations | translations.py:257-269 | Corrected: every default table whose file was written is installed, and no more tables are counted than the defaults |
| Upload.ClassifyMarkers | fituploader.py:1251-1275 | Each error kind is chosen iff one of its markers occurs in the lower-cased message and no earlier kind's marker does |
| Upload.LowerIdempotent | fituploader.py:1251 | Lower-casing twice is lower-casing once |
| Upload.ClassifyIgnoresCase | fituploader.py:1251 | Classification does not depend on letter case |
| Upload.Classify | fituploader.py:1250-1275 | The error kind of a message by its lower-cased markers, in the source's order; ClassifyMarkers states each kind's exact condition |
| Upload.Backoff | fituploader.py:1262-1282 | The wait after a failed attempt: min(2^k·2, 60) for a rate limit, min(2^k, 30) for a network error and 2^k otherwise, the last two only before the last attempt; BackoffAtMostAMinute, RateLimitedWaits and NetworkWaits state its values |
| Upload.Pow2 | fituploader.py:1264 | Powers of two are at least 1 |
| Upload.Capped | fituploader.py:1264 | `min(x, cap)` is at most both and equal to one |
| Upload.PrefixedAfter | fituploader.py:1264-1266 | A wait slept before the rest of the loop is the next wait in order |
| Upload.RetryFromShape | fituploader.py:1217-1284 | At most `max_retries` attempts, with one wait at most per attempt. A duplicate is a success, a 401 a failure, and nothing succeeds without the connection. An early stop is a success, a 401 or a failed session refresh |
| Upload.RetryFrom | fituploader.py:1217-1284 | The retry loop from attempt k; RetryFromShape, FailingFrom and RetryFromWaitsAtMostAMinute state its bounds and outcomes |
| Upload.Retry | fituploader.py:1205-1284 | One file's upload with retries, failing before any attempt for a missing or unreadable file; RetryBounds states its bounds |
| Upload.RetryBounds | fituploader.py:1205-1284 | The same bounds for a whole file; a missing or unreadable file fails with no attempt |
| Upload.Pow2Monotone | fituploader.py:1264 | Powers of two grow with the exponent |
| Upload.BackoffAtMostAMinute | fituploader.py:1263-1280 | With at most 7 attempts, every wait is at most 60 seconds |
| Upload.RetryFromWaitsAtMostAMinute | fituploader.py:1217-1284 | The same bound for every wait of the loop |
| Upload.WaitsAtMostAMinute | fituploader.py:1205-1284 | With at most 7 attempts, which includes the default of 3, no upload sleeps more than a minute at a time |
| Upload.RetryFailedStep | fituploader.py:1263-1280 | A failure that is neither a duplicate nor a 401 waits its backoff and moves on to the next attempt |
| Upload.FailingFrom | fituploader.py:1217-1284 | Such failures use up every attempt and end in (False, False), with the backoff waits in order |
| Upload.RateLimitedWaits | fituploader.py:1263-1267 | Under rate limiting the i-th wait from attempt k is min(2^(k+i)·2, 60), one per attempt, the last included |
| Upload.AlwaysRateLimited | fituploader.py:1263-1284 | A file that is always rate-limited uses every attempt, fails, and waits after each attempt |
| Upload.NetworkWaits | fituploader.py:1270-1275 | Under network errors the i-th wait is min(2^(k+i), 30), with none after the last attempt |
| Upload.AlwaysNetworkFailing | fituploader.py:1270-1284 | A file whose every attempt hits a network error uses every attempt, fails, and waits after each attempt but the last |
| Upload.DefaultBackoff | fituploader.py:1205-1284 | With the default of 3 attempts the waits are 2, 4, 8 under rate limiting and 1, 2 under network errors |
| Upload.RunAll | fituploader.py:1160-1166 | One result per file of the batch |
| Upload.NothingSucceedsAfterUnauthorized | fituploader.py:1258-1261 | After a 401 the connection flag is cleared and no later file of the batch succeeds |
| Upload.Count | fituploader.py:1177-1191 | Each result increments exactly one of success, duplicates and failed |
| Upload.TallyOf | fituploader.py:1154-1191 | The total is the batch size, and the three counters add up to the number of results |
| Upload.NoFailureIffAllUploaded | fituploader.py:1177-1191 | No failure is counted iff every file succeeded |
| Upload.ResultsMapKeys | fituploader.py:1175 | The results hold an entry for every path of the batch and no other |
| Upload.ResultsMapLastOccurrence | fituploader.py:1175 | A path's entry is the result of its last occurrence |
| Upload.FirstWithPath | fituploader.py:1186-1187 | The `next(...)` search returns a scanned file with that path, or none when no scanned file has it |
| Upload.LedgerRecordsUploads | fituploader.py:1185-1189 | After a batch, every uploaded file the scan lists is found processed, no entry is lost, and a batch with no success leaves the ledger alone |
| Upload.BatchStep | fituploader.py:1166-1191 | One more file adds one result, one count, one results entry and at most one ledger entry |
| Upload.GarminUploader.constructor | fituploader.py:1138-1147 | The counters start at zero |
| Upload.GarminUploader.UploadFileWithRetry | fituploader.py:1205-1284 | The loop with its early returns computes the retry result, and clears the connection flag exactly on a 401 |
| Upload.GarminUploader.UploadFiles | fituploader.py:1149-1203 | An empty list returns `{}` and changes nothing. Otherwise the counters restart at the batch size with success + duplicates + failed = total, the results hold every file, and the live ledger records the uploaded files in place. As written, the store's dirty flag, pending save and settings file stay as they were |
| Upload.GarminUploader.UploadOne | fituploader.py:1166-1191 | One file's retry result, the counter it increments, and its ledger entry, written in place into the live ledger, when it succeeded and the scan lists it. The store's dirty flag and pending save are unchanged |
| Upload.GarminUploader.UploadBatch | fituploader.py:1154-1191 | The loop over the files computes the batch's counters, connection flag, results and in-place ledger entries, leaving the store's dirty flag and pending save as they were |

## Left out

- The Tkinter interface is not modelled: both application classes, `TextHandler`, tooltips, styles and widget updates. That includes `register_translatable_widget` and `update_translations` (translations.py:738-767), which only keep and refresh widget references.
- Concurrency is not modelled: the `ThreadPoolExecutor`, the debounced `threading.Timer`, session monitoring, auto-scan and the locks. Uploads run one after another in list order. The auto-save timer is a flag that `AutoSaveFires` consumes.
- Network and authentication are scripted inputs: `garth` calls, token handling and `refresh_session`. Each attempt states whether the refresh succeeded and what the upload did. Past the end of its script, an attempt's refresh fails.
- Filesystem and OS are inputs: globbing, `stat`, existence and read access, directory probing, and the temporary-file write with rename (replaced by a success flag). JSON reading and writing are not modelled. Locale calls, environment variables and the `defaults` subprocess are given as strings.
- An empty string stands for a missing locale or environment value. Python treats both the same way.
- A JSON settings file that does not hold an object makes `load` raise; that case is not modelled.
- The hash of a file's content is an opaque string. FIT parsing and building are replaced by a message datatype holding only the fields the clean-up reads.
- Floating point is not modelled: `_format_size`, the progress percentage, and the delays of `retry_on_exception`. `retry_on_exception` itself, around the clean-up, is not modelled.
- FitCleanup.LegacyAvg: the older `calculate_avg` uses true division and can store a fractional average. The model truncates to a whole number.
- FitCleanup.CalculateAvg: `int(sum / len)` goes through a float. The model uses exact integer division, which agrees with it until the sum exceeds 2^53.
- Modification times are whole numbers. The sort's stability among equal times is not stated.
- The 30-second scan cache and the 60-second sources cache (and their `timedelta.seconds` wrap) are not modelled. Timestamps are parameters.
- In `CleanupAndSave`, one timestamp serves the whole pass.
- The content and modification-time fallback of `detect_source_for_file` (FitUploader.py:271-301) is not modelled. Neither is the Windows path separator.
- The skip rule treats the backup glob `*_<tail>` as a suffix test. Glob metacharacters in the tail are read literally, and matching is case-sensitive.
- Output that a failed clean-up leaves partly written is not modelled.
- `\d` is read as the ASCII digits, and `lower()` as ASCII lower-casing.
- `translate` with format arguments (`**kwargs`) is not modelled; only the plain lookup is.
- `FitFileManagerPatched` (fituploader.py:582-776) is not modelled: its OS-specific probing of MyWhoosh directories is filesystem work. The labels given to the directories found are modelled.
- `get_tp_directory` and `get_backup_path` of the older script are not modelled: they probe the disk and update the module-level configuration.
- `PackageManager`, logging setup, and the text of the default translation tables are not modelled.
- The exception handler of `upload_files` (fituploader.py:1194-1197) is not modelled, because the retry function returns normally on every path of the model.
- `SetLedger` compares ledgers by exact content. Python compares nested numbers by value.
- The application's `_upload_thread` passes backup paths to `upload_files`, while `FirstWithPath` looks up scanned source paths. That caller is interface code and is not modelled.

## Findings

| source | as written | input that shows it | evidently intended | confidence | as-written member | corrected member |
|---|---|---|---|---|---|---|
| fituploader.py:488-500, 2659-2674 | `mark_file_processed` and `mark_as_new` mutate the dictionary that `get` returns, which is the store's own. The following `set` compares it with itself, sees no change, and neither marks the store dirty nor schedules a save. The change reaches the settings file only when some later save runs for another reason: another `set` that dirties the store (for example `last_auth` at line 1047, `email` at 2416, `backup_path` at 2432), or the forced save at shutdown (line 2866) | a fresh session that uploads `MyNewActivity-7.fit`: afterwards the automatic save and `save()` both leave the settings file without the entry | the ledger change makes the store dirty and schedules the automatic save | high — not executed | FileManager.MarkFileProcessedInPlace, FileManager.LedgerUpdateNotPersisted, FileManager.MarkAsNewInPlace, Upload.GarminUploader.UploadOne | FileManager.MarkFileProcessed, FileManager.MarkThenAutoSave, FileManager.LedgerUpdatePersisted, FileManager.MarkAsNew |
| fituploader.py:214-241 | `_validate_config` drops every key missing from the default configuration. That includes `language` and `email`, which the application sets (lines 1520, 2251, 2416) and reads back at start-up (lines 1486, 2309) | set `language` to "nl", force-save, restart: `get('language', 'en')` answers "en" | the saved language and e-mail survive a restart | high — not executed | Settings.DefaultSchemaDropsLanguage, Settings.RestartForgetsLanguage | Settings.PreferencesSchema, Settings.PreferencesSurviveRestart, Settings.RestartKeepsLanguage |
| translations.py:257-269, 649-658 | `save_translation` has no return statement, so `create_default_translations` tests None and installs none of the default tables it writes | no translation file present: every key, e.g. "upload", is shown as the key itself | each default table that was written is installed | high — not executed | Translations.InstallAsWrittenAddsNothing, Translations.FreshInstallShowsKeys, Translations.TranslationManager.CreateDefaultTranslationsAsWritten, Translations.TranslationManager.LoadAllTranslations | Translations.InstallAddsWritten, Translations.TranslationManager.CreateDefaultTranslations |
| FitUploader.py:267-270 | source detection tests whether the file path string starts with the directory string, which ignores path components | MyWhoosh directory `/x/Data`, TrainingPeaks directory `/x/Data2`, file `/x/Data2/MyNewActivity-1.fit`: labelled "MyWhoosh" | a file is labelled by the directory it lies in | medium — not executed | LegacyScript.PrefixDetectionCrossesDirectories | LegacyScript.DirectoryDetectionRefinesPrefix |

Where the two averaging rules differ, the model follows the code. `_calculate_avg` ignores zeros and missing values, so a ride whose power readings are [100, 150, 200, 0] gets an average of 150. The older script averages over all readings, which gives 112 in whole numbers.
