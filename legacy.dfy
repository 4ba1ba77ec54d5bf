// The older single-file script FitUploader.py: backup names with a source
// prefix, source detection by path prefix, the "already backed up" skip rule
// of the clean-and-save pass, the upload pass that counts a 409 conflict as a
// success, and the list of available sources.

module LegacyScript {
  import opened Common
  import opened Catalog
  import Upload

  const TpvPrefix: string := "TPV_"
  const MyWhooshLabel: string := "MyWhoosh"
  const TpvLabel: string := "TrainingPeaks Virtual"

  // ---------------------------------------------------------------------------
  // generate_new_filename
  // ---------------------------------------------------------------------------

  /** `<prefix><timestamp>[_<activity>].fit`, the prefix naming the source. */
  function LegacyNewFilename(timestamp: string, fitName: string, source: string): string
  {
    (if source == MyWhooshLabel then MwPrefix else TpvPrefix) + timestamp + ActivitySuffix(fitName) + FitSuffix
  }

  /** The prefix is "MW_" exactly for MyWhoosh and "TPV_" for every other
      source; the name ends in `.fit` after the optional activity number, and
      for MyWhoosh it is the collision-free candidate of the newer program. */
  lemma LegacyNameMarksSource(timestamp: string, fitName: string, source: string)
    ensures var r := LegacyNewFilename(timestamp, fitName, source);
      && (MwPrefix <= r <==> source == MyWhooshLabel)
      && (TpvPrefix <= r <==> source != MyWhooshLabel)
      && EndsWith(r, ActivitySuffix(fitName) + FitSuffix)
      && (source == MyWhooshLabel ==> r == Candidate(MwPrefix + timestamp + ActivitySuffix(fitName), 0))
  {
    var r := LegacyNewFilename(timestamp, fitName, source);
    var p := if source == MyWhooshLabel then MwPrefix else TpvPrefix;
    var tail := ActivitySuffix(fitName) + FitSuffix;
    assert r == p + timestamp + tail;
    assert r[|r| - |tail|..] == tail;
    assert r[0] == p[0];
  }

  /** A name of the usual form `MyNewActivity-<digits>.fit` carries its
      digits as the activity number. */
  lemma {:induction false} ActivityNumberOfActivityName(digits: string)
    requires |digits| > 0 && forall k :: 0 <= k < |digits| ==> IsDigit(digits[k])
    ensures ActivityNumber(ActivityPrefix + digits + FitSuffix) == Some(digits)
  {
    var name := ActivityPrefix + digits + FitSuffix;
    assert name[0..|name|] == name;
    assert PatternAt(name, 0, digits);
    PatternGivesMatchAt(name, 0, digits);
  }

  // ---------------------------------------------------------------------------
  // detect_source_for_file, path branch
  // ---------------------------------------------------------------------------

  /** The answer of the path comparison: a source label ("" for a missing
      file), or the need to look at the file's content. */
  datatype Detection = Detected(source: string) | ByContent

  const Sep: char := '/'

  /** As written: the resolved file path starts with the resolved directory,
      as strings; MyWhoosh is tried first. `None` stands for a directory that
      is unset or does not exist. */
  function DetectSourceByPrefix(fileExists: bool, file: string, myw: Option<string>, tp: Option<string>): Detection
  {
    if !fileExists then Detected("")
    else if myw.Some? && myw.value <= file then Detected(MyWhooshLabel)
    else if tp.Some? && tp.value <= file then Detected(TpvLabel)
    else ByContent
  }

  /** The file lies inside the directory, component-wise. */
  predicate InDirectory(file: string, dir: string)
  {
    var d := if EndsWith(dir, [Sep]) then dir else dir + [Sep];
    d <= file
  }

  /** Corrected: the same decision, asking whether the file is inside each
      directory rather than whether the path strings share a prefix. */
  function DetectSourceByDirectory(fileExists: bool, file: string, myw: Option<string>, tp: Option<string>): Detection
  {
    if !fileExists then Detected("")
    else if myw.Some? && InDirectory(file, myw.value) then Detected(MyWhooshLabel)
    else if tp.Some? && InDirectory(file, tp.value) then Detected(TpvLabel)
    else ByContent
  }

  lemma InDirectoryHasPrefix(file: string, dir: string)
    requires InDirectory(file, dir)
    ensures dir <= file
  {
    var d := if EndsWith(dir, [Sep]) then dir else dir + [Sep];
    assert dir <= d;
  }

  /** As written, a file in a sibling directory whose name extends the
      MyWhoosh directory's name is labelled MyWhoosh, even when it sits in the
      TrainingPeaks directory; the corrected test labels it TrainingPeaks. */
  lemma PrefixDetectionCrossesDirectories()
    ensures var file, myw, tp := "/x/Data2/MyNewActivity-1.fit", "/x/Data", "/x/Data2";
      && DetectSourceByPrefix(true, file, Some(myw), Some(tp)) == Detected(MyWhooshLabel)
      && !InDirectory(file, myw) && InDirectory(file, tp)
      && DetectSourceByDirectory(true, file, Some(myw), Some(tp)) == Detected(TpvLabel)
  {
    var file, myw, tp := "/x/Data2/MyNewActivity-1.fit", "/x/Data", "/x/Data2";
    assert myw <= file;
    assert file[7] == '2';
    assert !((myw + [Sep]) <= file);
    assert (tp + [Sep]) <= file;
  }

  /** Where the corrected test finds a directory, the string test finds one
      too; and a file inside the MyWhoosh directory is labelled MyWhoosh by
      both, whatever the TrainingPeaks directory is. */
  lemma DirectoryDetectionRefinesPrefix(fileExists: bool, file: string, myw: Option<string>, tp: Option<string>)
    ensures DetectSourceByDirectory(fileExists, file, myw, tp).Detected? ==>
      DetectSourceByPrefix(fileExists, file, myw, tp).Detected?
    ensures fileExists && myw.Some? && InDirectory(file, myw.value) ==>
      DetectSourceByPrefix(fileExists, file, myw, tp) == Detected(MyWhooshLabel) &&
      DetectSourceByDirectory(fileExists, file, myw, tp) == Detected(MyWhooshLabel)
    ensures DetectSourceByDirectory(fileExists, file, myw, tp) == Detected("") <==> !fileExists
    ensures DetectSourceByPrefix(fileExists, file, myw, tp) == Detected("") <==> !fileExists
  {
    if myw.Some? && InDirectory(file, myw.value) {
      InDirectoryHasPrefix(file, myw.value);
    }
    if tp.Some? && InDirectory(file, tp.value) {
      InDirectoryHasPrefix(file, tp.value);
    }
  }

  // ---------------------------------------------------------------------------
  // cleanup_and_save_fit_files
  // ---------------------------------------------------------------------------

  /** A FIT file counts as already backed up when some name in the backup
      directory matches `*_<text after the last '-' of its name>`. */
  predicate AlreadyBackedUp(fitName: string, backups: set<string>)
  {
    exists b :: b in backups && EndsWith(b, "_" + AfterLast(fitName, '-'))
  }

  lemma AlreadyBackedUpGrows(fitName: string, small: set<string>, large: set<string>)
    requires AlreadyBackedUp(fitName, small) && small <= large
    ensures AlreadyBackedUp(fitName, large)
  {
    var b :| b in small && EndsWith(b, "_" + AfterLast(fitName, '-'));
    assert b in large;
  }

  /** `s.split(c)[-1]` is the tail after a `c` when the tail holds no `c`. */
  lemma {:induction false} AfterLastOfTail(pre: string, tail: string, c: char)
    requires |pre| > 0 && pre[|pre| - 1] == c && c !in tail
    ensures AfterLast(pre + tail, c) == tail
    decreases |tail|
  {
    var s := pre + tail;
    if tail != [] {
      var init := tail[..|tail| - 1];
      assert s[..|s| - 1] == pre + init;
      assert tail[|tail| - 1] in tail;
      AfterLastOfTail(pre, init, c);
      assert tail == init + [tail[|tail| - 1]];
    }
  }

  /** Once the backup of `MyNewActivity-<digits>.fit` exists, under any
      timestamp and source, the file counts as already backed up. */
  lemma {:induction false} BackupIsRecognized(timestamp: string, digits: string, source: string, backups: set<string>)
    requires |digits| > 0 && forall k :: 0 <= k < |digits| ==> IsDigit(digits[k])
    ensures var name := ActivityPrefix + digits + FitSuffix;
      AlreadyBackedUp(name, backups + {LegacyNewFilename(timestamp, name, source)})
  {
    var name := ActivityPrefix + digits + FitSuffix;
    var b := LegacyNewFilename(timestamp, name, source);
    TextAfterDash(digits);
    BackupEndsWithNumber(timestamp, digits, source);
    assert b in backups + {b} && EndsWith(b, "_" + AfterLast(name, '-'));
  }

  /** The text after the last '-' of `MyNewActivity-<digits>.fit`. */
  lemma {:induction false} TextAfterDash(digits: string)
    requires forall k :: 0 <= k < |digits| ==> IsDigit(digits[k])
    ensures AfterLast(ActivityPrefix + digits + FitSuffix, '-') == digits + FitSuffix
  {
    var tail := digits + FitSuffix;
    assert ActivityPrefix + digits + FitSuffix == ActivityPrefix + tail;
    assert '-' !in tail by {
      forall k | 0 <= k < |tail| ensures tail[k] != '-' {
        if k < |digits| { assert IsDigit(digits[k]); }
      }
    }
    AfterLastOfTail(ActivityPrefix, tail, '-');
  }

  /** The backup name of `MyNewActivity-<digits>.fit` ends in `_<digits>.fit`. */
  lemma {:induction false} BackupEndsWithNumber(timestamp: string, digits: string, source: string)
    requires |digits| > 0 && forall k :: 0 <= k < |digits| ==> IsDigit(digits[k])
    ensures EndsWith(LegacyNewFilename(timestamp, ActivityPrefix + digits + FitSuffix, source), "_" + (digits + FitSuffix))
  {
    var name := ActivityPrefix + digits + FitSuffix;
    ActivityNumberOfActivityName(digits);
    var b := LegacyNewFilename(timestamp, name, source);
    var p := if source == MyWhooshLabel then MwPrefix else TpvPrefix;
    var t := "_" + (digits + FitSuffix);
    assert b == p + timestamp + t;
    assert b[|b| - |t|..] == t;
  }

  /** The skip test looks at the activity number only: once one source's
      `MyNewActivity-3.fit` is backed up, the other source's file of that name
      is skipped as well. */
  lemma SkipRuleIgnoresSource(timestamp: string, backups: set<string>)
    ensures AlreadyBackedUp("MyNewActivity-3.fit",
      backups + {LegacyNewFilename(timestamp, "MyNewActivity-3.fit", MyWhooshLabel)})
    ensures LegacyNewFilename(timestamp, "MyNewActivity-3.fit", TpvLabel) !=
      LegacyNewFilename(timestamp, "MyNewActivity-3.fit", MyWhooshLabel)
  {
    assert ActivityPrefix + "3" + FitSuffix == "MyNewActivity-3.fit";
    assert IsDigit("3"[0]);
    BackupIsRecognized(timestamp, "3", MyWhooshLabel, backups);
    assert TpvLabel != MyWhooshLabel;
    LegacyNameMarksSource(timestamp, "MyNewActivity-3.fit", TpvLabel);
    LegacyNameMarksSource(timestamp, "MyNewActivity-3.fit", MyWhooshLabel);
  }

  /** A configured source: its dictionary key and its directory listing (a
      listing that is not a directory stands for an unset path too). */
  datatype Source = Source(name: string, dir: Directory)

  /** One FIT file of one source, in the order the pass visits them. */
  datatype Item = Item(source: string, file: FileEntry)

  /** The names in the backup directory, and the new files written so far. */
  datatype BackupState = BackupState(names: set<string>, saved: seq<string>)

  /** The files of one source, tagged with the source's name. */
  function Tagged(source: string, files: seq<FileEntry>): (r: seq<Item>)
    ensures |r| == |files|
  {
    if files == [] then []
    else Tagged(source, files[..|files| - 1]) + [Item(source, files[|files| - 1])]
  }

  function ItemsOf(s: Source): seq<Item>
  {
    Tagged(s.name, LegacyFitFiles(s.dir))
  }

  /** Every file the pass visits, source by source. */
  function Items(sources: seq<Source>): seq<Item>
  {
    if sources == [] then [] else Items(sources[..|sources| - 1]) + ItemsOf(sources[|sources| - 1])
  }

  /** One file: skipped when already backed up; otherwise cleaned into a new
      backup name, which is kept only when the cleaning succeeds. */
  function Visit(st: BackupState, it: Item, timestamp: string, cleanFails: set<Item>): BackupState
  {
    if AlreadyBackedUp(it.file.name, st.names) || it in cleanFails then st
    else
      var n := LegacyNewFilename(timestamp, it.file.name, it.source);
      BackupState(st.names + {n}, st.saved + [n])
  }

  /** The whole pass, from the first file to the last. */
  function Pass(st: BackupState, items: seq<Item>, timestamp: string, cleanFails: set<Item>): BackupState
  {
    if items == [] then st
    else Visit(Pass(st, items[..|items| - 1], timestamp, cleanFails), items[|items| - 1], timestamp, cleanFails)
  }

  /** The pass only adds: the names grow by exactly the files it saves, which
      extend the list in order, and each saved file is the backup name of a
      visited file whose cleaning succeeded. */
  lemma {:induction false} PassOnlyAdds(st: BackupState, items: seq<Item>, timestamp: string, cleanFails: set<Item>)
    ensures var r := Pass(st, items, timestamp, cleanFails);
      && st.saved <= r.saved
      && |r.saved| - |st.saved| <= |items|
      && (forall n :: n in r.names <==> n in st.names || n in r.saved[|st.saved|..])
      && (forall k :: |st.saved| <= k < |r.saved| ==> SavedFrom(r.saved[k], items, timestamp, cleanFails))
  {
    if items != [] {
      var init := items[..|items| - 1];
      var last := items[|items| - 1];
      var p := Pass(st, init, timestamp, cleanFails);
      PassOnlyAdds(st, init, timestamp, cleanFails);
      var r := Pass(st, items, timestamp, cleanFails);
      assert r == Visit(p, last, timestamp, cleanFails);
      forall k | |st.saved| <= k < |p.saved| ensures SavedFrom(p.saved[k], items, timestamp, cleanFails) {
        assert SavedFrom(p.saved[k], init, timestamp, cleanFails);
        var i :| 0 <= i < |init| && init[i] !in cleanFails &&
          p.saved[k] == LegacyNewFilename(timestamp, init[i].file.name, init[i].source);
        assert items[i] == init[i];
      }
      if r != p {
        var n := LegacyNewFilename(timestamp, last.file.name, last.source);
        assert r.saved == p.saved + [n];
        assert r.saved[|st.saved|..] == p.saved[|st.saved|..] + [n];
        assert SavedFrom(n, items, timestamp, cleanFails) by {
          assert items[|items| - 1] == last;
        }
      }
    }
  }

  /** `n` is the backup name of one of `items` whose cleaning succeeds. */
  ghost predicate SavedFrom(n: string, items: seq<Item>, timestamp: string, cleanFails: set<Item>)
  {
    exists i :: 0 <= i < |items| && items[i] !in cleanFails &&
      n == LegacyNewFilename(timestamp, items[i].file.name, items[i].source)
  }

  /** A file of the usual name that the pass cleans successfully counts as
      backed up for the rest of the pass and after it: visiting it again
      changes nothing. */
  lemma {:induction false} CleanedFileIsNotRedone(st: BackupState, before: seq<Item>, it: Item, after: seq<Item>,
                                                  timestamp: string, cleanFails: set<Item>, digits: string)
    requires |digits| > 0 && forall k :: 0 <= k < |digits| ==> IsDigit(digits[k])
    requires it.file.name == ActivityPrefix + digits + FitSuffix && it !in cleanFails
    ensures var r := Pass(st, before + [it] + after, timestamp, cleanFails);
      AlreadyBackedUp(it.file.name, r.names) && Visit(r, it, timestamp, cleanFails) == r
  {
    var mid := Pass(st, before + [it], timestamp, cleanFails);
    var p := Pass(st, before, timestamp, cleanFails);
    assert (before + [it])[..|before|] == before;
    assert mid == Visit(p, it, timestamp, cleanFails);
    if AlreadyBackedUp(it.file.name, p.names) {
      assert mid == p;
    } else {
      BackupIsRecognized(timestamp, digits, it.source, p.names);
    }
    PassSplit(st, before + [it], after, timestamp, cleanFails);
    PassOnlyAdds(mid, after, timestamp, cleanFails);
    var r := Pass(st, before + [it] + after, timestamp, cleanFails);
    assert mid.names <= r.names;
    AlreadyBackedUpGrows(it.file.name, mid.names, r.names);
  }

  lemma {:induction false} PassSplit(st: BackupState, xs: seq<Item>, ys: seq<Item>, timestamp: string, cleanFails: set<Item>)
    ensures Pass(st, xs + ys, timestamp, cleanFails) == Pass(Pass(st, xs, timestamp, cleanFails), ys, timestamp, cleanFails)
  {
    if ys == [] {
      assert xs + ys == xs;
    } else {
      var yi := ys[..|ys| - 1];
      assert (xs + ys)[..|xs + ys| - 1] == xs + yi;
      PassSplit(st, xs, yi, timestamp, cleanFails);
    }
  }

  lemma PassStep(st: BackupState, items: seq<Item>, it: Item, timestamp: string, cleanFails: set<Item>)
    ensures Pass(st, items + [it], timestamp, cleanFails) ==
      Visit(Pass(st, items, timestamp, cleanFails), it, timestamp, cleanFails)
  {
    assert (items + [it])[..|items|] == items;
  }

  /** `cleanup_and_save_fit_files`: [] without a backup directory; otherwise
      every file of every usable source is visited in order, with the backup
      directory's names re-read before each one. `cleanFails` names the files
      whose cleaning raises. */
  method CleanupAndSave(sources: seq<Source>, backupExists: bool, backups: set<string>,
                        timestamp: string, cleanFails: set<Item>)
    returns (processed: seq<string>)
    ensures !backupExists ==> processed == []
    ensures backupExists ==> processed == Pass(BackupState(backups, []), Items(sources), timestamp, cleanFails).saved
  {
    if !backupExists {
      return [];
    }
    ghost var start := BackupState(backups, []);
    var names := backups;
    processed := [];
    for i := 0 to |sources|
      invariant BackupState(names, processed) == Pass(start, Items(sources[..i]), timestamp, cleanFails)
    {
      assert sources[..i + 1][..i] == sources[..i];
      assert Items(sources[..i + 1]) == Items(sources[..i]) + ItemsOf(sources[i]);
      names, processed := SaveSource(sources[i], names, processed, timestamp, cleanFails,
                                     start, Items(sources[..i]));
    }
    assert sources[..|sources|] == sources;
  }

  /** The inner loop over one source's files; a source that is not a
      directory, or has no FIT file, is passed over. */
  method SaveSource(src: Source, names: set<string>, processed: seq<string>, timestamp: string,
                    cleanFails: set<Item>, ghost start: BackupState, ghost visited: seq<Item>)
    returns (names': set<string>, processed': seq<string>)
    requires BackupState(names, processed) == Pass(start, visited, timestamp, cleanFails)
    ensures BackupState(names', processed') == Pass(start, visited + ItemsOf(src), timestamp, cleanFails)
  {
    names', processed' := names, processed;
    if !src.dir.isDir {
      assert visited + ItemsOf(src) == visited;
      return;
    }
    var files := LegacyFitFiles(src.dir);
    if files == [] {
      assert visited + ItemsOf(src) == visited;
      return;
    }
    assert visited + Tagged(src.name, files[..0]) == visited;
    for j := 0 to |files|
      invariant BackupState(names', processed') == Pass(start, visited + Tagged(src.name, files[..j]), timestamp, cleanFails)
    {
      PassTaggedStep(start, visited, src.name, files, j, timestamp, cleanFails);
      names', processed' := SaveFile(src.name, files[j], names', processed', timestamp, cleanFails);
    }
    assert files[..|files|] == files;
  }

  lemma PassTaggedStep(st: BackupState, visited: seq<Item>, source: string, files: seq<FileEntry>, j: nat,
                       timestamp: string, cleanFails: set<Item>)
    requires j < |files|
    ensures Pass(st, visited + Tagged(source, files[..j + 1]), timestamp, cleanFails) ==
      Visit(Pass(st, visited + Tagged(source, files[..j]), timestamp, cleanFails), Item(source, files[j]), timestamp, cleanFails)
  {
    assert files[..j + 1][..j] == files[..j];
    assert visited + Tagged(source, files[..j + 1]) ==
      (visited + Tagged(source, files[..j])) + [Item(source, files[j])];
    PassStep(st, visited + Tagged(source, files[..j]), Item(source, files[j]), timestamp, cleanFails);
  }

  /** The body of the inner loop: the skip test against the backup names,
      then the cleaning, which adds the new name when it succeeds. */
  method SaveFile(source: string, f: FileEntry, names: set<string>, processed: seq<string>,
                  timestamp: string, cleanFails: set<Item>)
    returns (names': set<string>, processed': seq<string>)
    ensures BackupState(names', processed') ==
      Visit(BackupState(names, processed), Item(source, f), timestamp, cleanFails)
  {
    names', processed' := names, processed;
    if AlreadyBackedUp(f.name, names) {
      return;
    }
    var newName := LegacyNewFilename(timestamp, f.name, source);
    var success := Item(source, f) !in cleanFails;
    if success {
      processed' := processed + [newName];
      names' := names + {newName};
    }
  }

  // ---------------------------------------------------------------------------
  // upload_fit_files_to_garmin
  // ---------------------------------------------------------------------------

  /** What sending one file did: accepted, an HTTP error with its text, or
      any other exception. */
  datatype SendOutcome = Sent | HttpError(message: string) | Failed

  datatype SendJob = SendJob(path: string, present: bool, outcome: SendOutcome)

  const ConflictText: string := "409 Client Error"

  /** The value recorded for a file: it exists, and it was accepted or
      refused with a 409 conflict (already on the server). */
  predicate Delivered(job: SendJob)
  {
    job.present && (job.outcome.Sent? || (job.outcome.HttpError? && Contains(job.outcome.message, ConflictText)))
  }

  /** The results dictionary after the files in order; a later entry for the
      same path overwrites an earlier one. */
  function SendResults(jobs: seq<SendJob>): map<string, bool>
  {
    if jobs == [] then map[]
    else SendResults(jobs[..|jobs| - 1])[jobs[|jobs| - 1].path := Delivered(jobs[|jobs| - 1])]
  }

  /** Every input path, and no other, has an entry, holding the verdict of its
      last occurrence. */
  lemma {:induction false} SendResultsEntries(jobs: seq<SendJob>, i: nat)
    requires i < |jobs|
    requires forall j :: i < j < |jobs| ==> jobs[j].path != jobs[i].path
    ensures jobs[i].path in SendResults(jobs) && SendResults(jobs)[jobs[i].path] == Delivered(jobs[i])
  {
    if i < |jobs| - 1 {
      SendResultsEntries(jobs[..|jobs| - 1], i);
    }
  }

  lemma {:induction false} SendResultsKeys(jobs: seq<SendJob>)
    ensures forall p :: p in SendResults(jobs) <==> exists i :: 0 <= i < |jobs| && jobs[i].path == p
  {
    if jobs != [] {
      var init := jobs[..|jobs| - 1];
      SendResultsKeys(init);
      forall p ensures p in SendResults(jobs) <==> exists i :: 0 <= i < |jobs| && jobs[i].path == p {
        if exists i :: 0 <= i < |init| && init[i].path == p {
          var i :| 0 <= i < |init| && init[i].path == p;
          assert jobs[i].path == p;
        }
        if exists i :: 0 <= i < |jobs| && jobs[i].path == p {
          var i :| 0 <= i < |jobs| && jobs[i].path == p;
          if i < |init| { assert init[i].path == p; }
        }
      }
    }
  }

  /** A missing file always records False. */
  lemma MissingFileFails(job: SendJob)
    requires !job.present
    ensures !Delivered(job)
  {
  }

  /** The older script's 409 test is a special case of the newer program's
      classification: a message holding "409 Client Error" is a duplicate. */
  lemma {:induction false} ConflictIsDuplicate(message: string)
    requires Contains(message, ConflictText)
    ensures Upload.Classify(message) == Upload.Duplicate
  {
    ConflictKeepsCode(message);
  }

  /** Lower-casing leaves the digits of "409 Client Error" in place. */
  lemma {:induction false} ConflictKeepsCode(message: string)
    requires Contains(message, ConflictText)
    ensures Contains(Lower(message), "409")
  {
    var i := ContainsWitness(message, ConflictText);
    var m := Lower(message);
    forall k | 0 <= k < 3 ensures m[i + k] == "409"[k] {
      assert message[i..i + |ConflictText|][k] == ConflictText[k];
    }
    assert m[i..i + 3] == "409";
    OccursContains(m, "409", i);
  }

  /** `upload_fit_files_to_garmin`: one entry per path, True exactly for the
      files that were accepted or already present. */
  method UploadFitFilesToGarmin(jobs: seq<SendJob>) returns (results: map<string, bool>)
    ensures results == SendResults(jobs)
    ensures forall p :: p in results <==> exists i :: 0 <= i < |jobs| && jobs[i].path == p
  {
    results := map[];
    for i := 0 to |jobs|
      invariant results == SendResults(jobs[..i])
    {
      var job := jobs[i];
      assert jobs[..i + 1][..i] == jobs[..i];
      var ok: bool;
      if job.present {
        match job.outcome
        case Sent => ok := true;
        case HttpError(message) => ok := Contains(message, ConflictText);
        case Failed => ok := false;
      } else {
        ok := false;
      }
      results := results[job.path := ok];
    }
    assert jobs[..|jobs|] == jobs;
    SendResultsKeys(jobs);
  }

  // ---------------------------------------------------------------------------
  // get_available_sources
  // ---------------------------------------------------------------------------

  /** A probed source directory: its path and its listing. */
  datatype Located = Located(path: string, dir: Directory)

  /** A source is offered exactly when its directory exists and holds at
      least one FIT file. */
  predicate Offered(loc: Option<Located>)
  {
    loc.Some? && loc.value.dir.isDir && LegacyFitFiles(loc.value.dir) != []
  }

  /** `get_available_sources`, given what the directory probes found. */
  function AvailableSources(myw: Option<Located>, tp: Option<Located>): (r: map<string, string>)
    ensures forall k :: k in r ==> k == MyWhooshLabel || k == TpvLabel
    ensures MyWhooshLabel in r <==> Offered(myw)
    ensures TpvLabel in r <==> Offered(tp)
    ensures MyWhooshLabel in r ==> r[MyWhooshLabel] == myw.value.path
    ensures TpvLabel in r ==> r[TpvLabel] == tp.value.path
  {
    var m: map<string, string> := if Offered(myw) then map[MyWhooshLabel := myw.value.path] else map[];
    if Offered(tp) then m[TpvLabel := tp.value.path] else m
  }

  /** Each offered source has a newest FIT file, whose time is the one the
      script reports for the source. */
  lemma OfferedHasNewest(loc: Option<Located>)
    requires Offered(loc)
    ensures exists e :: (e in loc.value.dir.entries && MatchesFitGlob(e.name) &&
                         e.mtime == MostRecentFitTime(loc.value.dir))
  {
    var files := LegacyFitFiles(loc.value.dir);
    MostRecentIsMaximum(loc.value.dir);
    assert files[0] in files;
  }
}
