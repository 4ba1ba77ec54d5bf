/** Listing and naming of FIT files: which directory entries are activity
    files, their order (newest first), the activity number embedded in a
    MyWhoosh file name, the backup name a file gets, and the labels given to
    the MyWhoosh directories found. Directory listings are inputs; nothing here
    touches a file system. */
module Catalog {
  import opened Common

  /** One directory entry: its name, whether it is a regular file, its size in
      bytes and its modification time in whole seconds. */
  datatype FileEntry = FileEntry(name: string, isFile: bool, size: nat, mtime: nat)

  /** A directory as the scanner sees it: whether the path is a directory, and
      its entries. */
  datatype Directory = Directory(isDir: bool, entries: seq<FileEntry>)

  const ActivityPrefix: string := "MyNewActivity-"
  const FitSuffix: string := ".fit"

  /** The glob `MyNewActivity-*.fit` on one file name. */
  predicate MatchesFitGlob(name: string)
  {
    ActivityPrefix <= name && EndsWith(name, FitSuffix) && |name| >= |ActivityPrefix| + |FitSuffix|
  }

  // ---------------------------------------------------------------------------
  // Newest first
  // ---------------------------------------------------------------------------

  ghost predicate NewestFirst(s: seq<FileEntry>)
  {
    forall i, j :: 0 <= i < j < |s| ==> s[i].mtime >= s[j].mtime
  }

  function InsertByMtime(e: FileEntry, s: seq<FileEntry>): (r: seq<FileEntry>)
    requires NewestFirst(s)
    ensures NewestFirst(r)
    ensures multiset(r) == multiset(s) + multiset{e}
    ensures |r| == |s| + 1
    ensures r[0] == e || (s != [] && r[0] == s[0])
  {
    if s == [] || e.mtime >= s[0].mtime then [e] + s
    else
      assert s == [s[0]] + s[1..];
      [s[0]] + InsertByMtime(e, s[1..])
  }

  /** `sorted(..., key=mtime, reverse=True)`: the same entries, newest first. */
  function SortNewestFirst(s: seq<FileEntry>): (r: seq<FileEntry>)
    ensures NewestFirst(r)
    ensures multiset(r) == multiset(s)
    ensures |r| == |s|
  {
    if s == [] then []
    else
      assert s == [s[0]] + s[1..];
      InsertByMtime(s[0], SortNewestFirst(s[1..]))
  }

  lemma SameMultisetSameMembers(a: seq<FileEntry>, b: seq<FileEntry>)
    requires multiset(a) == multiset(b)
    ensures forall e :: e in a <==> e in b
  {
    forall e ensures e in a <==> e in b {
      assert e in a <==> e in multiset(a);
      assert e in b <==> e in multiset(b);
    }
  }

  /** The entries a filter keeps, in listing order. */
  function Keep(s: seq<FileEntry>, p: FileEntry -> bool): (r: seq<FileEntry>)
    ensures forall e :: e in r <==> e in s && p(e)
    ensures |r| <= |s|
  {
    if s == [] then [] else (if p(s[0]) then [s[0]] else []) + Keep(s[1..], p)
  }

  /** `FitFileManager.get_fit_files` followed by the sort of `scan_files_async`:
      regular, non-empty files matching the glob, newest first; nothing for a
      path that is not a directory. */
  function ScanFitFiles(dir: Directory): (r: seq<FileEntry>)
    ensures NewestFirst(r)
    ensures forall e :: e in r <==> dir.isDir && e in dir.entries && e.isFile && e.size > 0 && MatchesFitGlob(e.name)
  {
    if !dir.isDir then []
    else
      var kept := Keep(dir.entries, (e: FileEntry) => e.isFile && e.size > 0 && MatchesFitGlob(e.name));
      SameMultisetSameMembers(SortNewestFirst(kept), kept);
      SortNewestFirst(kept)
  }

  /** The older script's `get_fit_files`: every entry matching the glob, newest
      first, with no check on the entry's kind or size. */
  function LegacyFitFiles(dir: Directory): (r: seq<FileEntry>)
    ensures NewestFirst(r)
    ensures forall e :: e in r <==> dir.isDir && e in dir.entries && MatchesFitGlob(e.name)
  {
    if !dir.isDir then []
    else
      var kept := Keep(dir.entries, (e: FileEntry) => MatchesFitGlob(e.name));
      SameMultisetSameMembers(SortNewestFirst(kept), kept);
      SortNewestFirst(kept)
  }

  /** `get_most_recent_fit_time`: the modification time of the first listed file. */
  function MostRecentFitTime(dir: Directory): nat
  {
    var files := LegacyFitFiles(dir);
    if files == [] then 0 else files[0].mtime
  }

  /** The most recent time is the largest modification time among the
      directory's FIT files, and 0 when it has none. */
  lemma {:induction false} MostRecentIsMaximum(dir: Directory)
    ensures LegacyFitFiles(dir) == [] ==> MostRecentFitTime(dir) == 0
    ensures LegacyFitFiles(dir) != [] ==>
      (exists e :: e in LegacyFitFiles(dir) && e.mtime == MostRecentFitTime(dir)) &&
      (forall e :: e in LegacyFitFiles(dir) ==> e.mtime <= MostRecentFitTime(dir))
  {
    var files := LegacyFitFiles(dir);
    if files != [] {
      assert files[0] in files;
      forall e | e in files ensures e.mtime <= files[0].mtime {
        var j :| 0 <= j < |files| && files[j] == e;
        if j > 0 {
          assert files[0].mtime >= files[j].mtime;
        }
      }
    }
  }

  // ---------------------------------------------------------------------------
  // The activity number: re.search(r'MyNewActivity-(\d+)\.fit', name)
  // ---------------------------------------------------------------------------

  /** `MyNewActivity-<digits>.fit` occurs at index `i`, with `digits` non-empty. */
  ghost predicate PatternAt(name: string, i: nat, digits: string)
  {
    var m := ActivityPrefix + digits + FitSuffix;
    |digits| > 0 && (forall k :: 0 <= k < |digits| ==> IsDigit(digits[k])) &&
    i + |m| <= |name| && name[i..i + |m|] == m
  }

  /** The longest run of digits at the start of `s`. */
  function LeadingDigits(s: string): (r: string)
    ensures r <= s
    ensures forall k :: 0 <= k < |r| ==> IsDigit(r[k])
    ensures |r| < |s| ==> !IsDigit(s[|r|])
  {
    if s != [] && IsDigit(s[0]) then [s[0]] + LeadingDigits(s[1..]) else []
  }

  /** The match attempt of the regular expression at index `i`: the greedy
      digit run must be followed by `.fit`. */
  function MatchAt(name: string, i: nat): Option<string>
  {
    if i <= |name| && ActivityPrefix <= name[i..] then
      var rest := name[i + |ActivityPrefix|..];
      var digits := LeadingDigits(rest);
      if |digits| > 0 && FitSuffix <= rest[|digits|..] then Some(digits) else None
    else None
  }

  lemma MatchAtIsPattern(name: string, i: nat, digits: string)
    ensures MatchAt(name, i) == Some(digits) <==> PatternAt(name, i, digits)
  {
    if MatchAt(name, i) == Some(digits) {
      MatchAtGivesPattern(name, i, digits);
    }
    if PatternAt(name, i, digits) {
      PatternGivesMatchAt(name, i, digits);
    }
  }

  lemma MatchAtGivesPattern(name: string, i: nat, digits: string)
    requires MatchAt(name, i) == Some(digits)
    ensures PatternAt(name, i, digits)
  {
    var m := ActivityPrefix + digits + FitSuffix;
    var rest := name[i + |ActivityPrefix|..];
    assert name[i..i + |m|] == name[i..][..|ActivityPrefix|] + rest[..|digits|] + rest[|digits|..][..|FitSuffix|];
  }

  lemma PatternGivesMatchAt(name: string, i: nat, digits: string)
    requires PatternAt(name, i, digits)
    ensures MatchAt(name, i) == Some(digits)
  {
    PatternStartsWithPrefix(name, i, digits);
    PatternRestIsDigitsThenSuffix(name, i, digits);
  }

  lemma PatternStartsWithPrefix(name: string, i: nat, digits: string)
    requires PatternAt(name, i, digits)
    ensures i <= |name| && ActivityPrefix <= name[i..]
  {
    var m := ActivityPrefix + digits + FitSuffix;
    var p := |ActivityPrefix|;
    assert name[i..][..p] == name[i..i + |m|][..p];
    assert m[..p] == ActivityPrefix;
  }

  lemma PatternRestIsDigitsThenSuffix(name: string, i: nat, digits: string)
    requires PatternAt(name, i, digits)
    ensures var rest := name[i + |ActivityPrefix|..];
      LeadingDigits(rest) == digits && FitSuffix <= rest[|digits|..]
  {
    var m := ActivityPrefix + digits + FitSuffix;
    var p := |ActivityPrefix|;
    var rest := name[i + p..];
    assert rest[..|digits| + |FitSuffix|] == digits + FitSuffix by {
      assert rest[..|digits| + |FitSuffix|] == name[i..i + |m|][p..];
      assert m[p..] == digits + FitSuffix;
    }
    LeadingDigitsOfDigitsThenDot(rest, digits);
    var d, f := |digits|, |FitSuffix|;
    assert rest[d..][..f] == FitSuffix by {
      assert rest[d..][..f] == rest[..d + f][d..];
      assert (digits + FitSuffix)[d..] == FitSuffix;
    }
  }

  /** A non-empty digit run followed by `.` is exactly the greedy run. */
  lemma {:induction false} LeadingDigitsOfDigitsThenDot(s: string, digits: string)
    requires |digits| < |s| && s[..|digits|] == digits && s[|digits|] == '.'
    requires forall k :: 0 <= k < |digits| ==> IsDigit(digits[k])
    ensures LeadingDigits(s) == digits
    decreases |digits|
  {
    if digits != [] {
      assert s[1..][..|digits| - 1] == digits[1..];
      LeadingDigitsOfDigitsThenDot(s[1..], digits[1..]);
    }
  }

  function SearchFrom(name: string, i: nat): Option<string>
    decreases |name| + 1 - i
  {
    if i > |name| then None
    else if MatchAt(name, i).Some? then MatchAt(name, i)
    else SearchFrom(name, i + 1)
  }

  /** `match.group(1)` of the search, or `None`. */
  function ActivityNumber(name: string): Option<string>
  {
    SearchFrom(name, 0)
  }

  /** The search finds the leftmost occurrence of the pattern, and finds
      nothing exactly when the pattern occurs nowhere. */
  lemma {:induction false} SearchFromIsLeftmost(name: string, i: nat)
    ensures SearchFrom(name, i).Some? ==>
      exists j :: i <= j && PatternAt(name, j, SearchFrom(name, i).value) &&
        forall j', d :: i <= j' < j ==> !PatternAt(name, j', d)
    ensures SearchFrom(name, i).None? ==> forall j, d :: i <= j ==> !PatternAt(name, j, d)
    decreases |name| + 1 - i
  {
    if i > |name| {
      forall j, d | i <= j ensures !PatternAt(name, j, d) {
      }
    } else if MatchAt(name, i).Some? {
      MatchAtIsPattern(name, i, MatchAt(name, i).value);
      assert PatternAt(name, i, SearchFrom(name, i).value);
    } else {
      SearchFromIsLeftmost(name, i + 1);
      NoPatternWithoutMatch(name, i);
      if SearchFrom(name, i).Some? {
        var j :| i + 1 <= j && PatternAt(name, j, SearchFrom(name, i).value) &&
          forall j', d :: i + 1 <= j' < j ==> !PatternAt(name, j', d);
        assert forall j', d :: i <= j' < j ==> !PatternAt(name, j', d);
      }
    }
  }

  /** No pattern starts where the matcher finds none. */
  lemma NoPatternWithoutMatch(name: string, i: nat)
    requires MatchAt(name, i).None?
    ensures forall d :: !PatternAt(name, i, d)
  {
    forall d ensures !PatternAt(name, i, d) {
      MatchAtIsPattern(name, i, d);
    }
  }

  /** `f"_{number}"` or "" when the name holds no activity number. */
  function ActivitySuffix(name: string): string
  {
    match ActivityNumber(name)
    case Some(d) => "_" + d
    case None => ""
  }

  /** The usual MyWhoosh name yields its number. */
  lemma ActivityNumberOfTypicalName()
    ensures ActivityNumber("MyNewActivity-3.fit") == Some("3")
  {
    assert PatternAt("MyNewActivity-3.fit", 0, "3");
    MatchAtIsPattern("MyNewActivity-3.fit", 0, "3");
  }

  // ---------------------------------------------------------------------------
  // FitFileManager.generate_new_filename
  // ---------------------------------------------------------------------------

  const MwPrefix: string := "MW_"

  /** The name tried for a given collision counter: no suffix for 0. */
  function Candidate(base: string, counter: nat): string
  {
    base + (if counter == 0 then "" else "_" + NatToString(counter)) + FitSuffix
  }

  lemma {:induction false} CandidateInjective(base: string, m: nat, n: nat)
    requires Candidate(base, m) == Candidate(base, n)
    ensures m == n
  {
    var cm := Candidate(base, m);
    var sm := if m == 0 then "" else "_" + NatToString(m);
    var sn := if n == 0 then "" else "_" + NatToString(n);
    assert cm[|base|..|cm| - |FitSuffix|] == sm;
    assert Candidate(base, n)[|base|..|cm| - |FitSuffix|] == sn;
    if m != 0 && n != 0 {
      assert sm[1..] == NatToString(m);
      assert sn[1..] == NatToString(n);
      NatToStringInjective(m, n);
    }
  }

  /** `generate_new_filename`: `MW_<timestamp>[_<activity>]`, and when the
      backup directory is usable, the first of `<base>.fit`, `<base>_1.fit`,
      `<base>_2.fit`, ... that is not among the names already there. */
  method GenerateNewFilename(timestamp: string, fitName: string, backupUsable: bool, existing: set<string>)
    returns (name: string)
    ensures var base := MwPrefix + timestamp + ActivitySuffix(fitName);
      exists counter: nat ::
        name == Candidate(base, counter) &&
        (backupUsable ==> forall c :: 0 <= c < counter ==> Candidate(base, c) in existing) &&
        (!backupUsable ==> counter == 0)
    ensures backupUsable ==> name !in existing
  {
    var base := MwPrefix + timestamp + ActivitySuffix(fitName);
    var counter: nat := 0;
    if backupUsable {
      while Candidate(base, counter) in existing
        invariant forall c :: 0 <= c < counter ==> Candidate(base, c) in existing
        invariant counter <= |existing|
        decreases |existing| - counter
      {
        counter := counter + 1;
        TriedBound(base, counter, existing);
      }
    }
    name := Candidate(base, counter);
  }

  /** The candidates with counter below `n`. */
  ghost function Tried(base: string, n: nat): set<string>
  {
    if n == 0 then {} else Tried(base, n - 1) + {Candidate(base, n - 1)}
  }

  /** The first `n` candidates are `n` distinct names. */
  lemma {:induction false} TriedSize(base: string, n: nat)
    ensures |Tried(base, n)| == n
    ensures forall t :: t in Tried(base, n) ==> exists c :: 0 <= c < n && t == Candidate(base, c)
  {
    if n > 0 {
      TriedSize(base, n - 1);
      if Candidate(base, n - 1) in Tried(base, n - 1) {
        var c :| 0 <= c < n - 1 && Candidate(base, n - 1) == Candidate(base, c);
        CandidateInjective(base, n - 1, c);
      }
    }
  }

  /** If the first `n` candidates are all taken, there are at least `n`
      names, so the search for a free one stops. */
  lemma TriedBound(base: string, n: nat, existing: set<string>)
    requires forall c :: 0 <= c < n ==> Candidate(base, c) in existing
    ensures n <= |existing|
  {
    TriedSize(base, n);
    SubsetCardinality(Tried(base, n), existing);
  }

  lemma SubsetCardinality(a: set<string>, b: set<string>)
    requires a <= b
    ensures |a| <= |b|
  {
    assert b == a + (b - a);
  }

  // ---------------------------------------------------------------------------
  // Source labels of FitFileManager.get_available_sources
  // ---------------------------------------------------------------------------

  /** `"MyWhoosh" if i == 0 else f"MyWhoosh_{i+1}"`. */
  function SourceName(i: nat): string
  {
    if i == 0 then "MyWhoosh" else "MyWhoosh_" + NatToString(i + 1)
  }

  lemma {:induction false} SourceNamesDistinct(i: nat, j: nat)
    requires i != j
    ensures SourceName(i) != SourceName(j)
  {
    if SourceName(i) == SourceName(j) {
      if i != 0 && j != 0 {
        assert SourceName(i)[9..] == NatToString(i + 1);
        assert SourceName(j)[9..] == NatToString(j + 1);
        NatToStringInjective(i + 1, j + 1);
      }
    }
  }

  /** The labels given to the MyWhoosh directories found, in order. */
  function SourcesOf(paths: seq<string>): map<string, string>
  {
    if paths == [] then map[]
    else SourcesOf(paths[..|paths| - 1])[SourceName(|paths| - 1) := paths[|paths| - 1]]
  }

  /** Only the labels of the directories given appear. */
  lemma {:induction false} SourcesOfKeys(paths: seq<string>)
    ensures forall k :: k in SourcesOf(paths) ==> exists i :: 0 <= i < |paths| && k == SourceName(i)
  {
    if paths != [] {
      var init := paths[..|paths| - 1];
      SourcesOfKeys(init);
    }
  }

  /** The label of a later directory is not taken yet. */
  lemma SourcesOfFresh(paths: seq<string>, n: nat)
    requires |paths| <= n
    ensures SourceName(n) !in SourcesOf(paths)
  {
    SourcesOfKeys(paths);
    if SourceName(n) in SourcesOf(paths) {
      var j :| 0 <= j < |paths| && SourceName(n) == SourceName(j);
      SourceNamesDistinct(n, j);
      assert false;
    }
  }

  /** One label per directory. */
  lemma {:induction false} SourcesOfSize(paths: seq<string>)
    ensures |SourcesOf(paths)| == |paths|
  {
    if paths != [] {
      var init := paths[..|paths| - 1];
      SourcesOfSize(init);
      SourcesOfFresh(init, |paths| - 1);
    }
  }

  /** Each directory's label names that directory. */
  lemma {:induction false} SourcesOfLookup(paths: seq<string>, i: nat)
    requires i < |paths|
    ensures SourceName(i) in SourcesOf(paths) && SourcesOf(paths)[SourceName(i)] == paths[i]
  {
    var n := |paths| - 1;
    var init := paths[..n];
    assert SourcesOf(paths) == SourcesOf(init)[SourceName(n) := paths[n]];
    if i < n {
      SourcesOfLookup(init, i);
      SourceNamesDistinct(i, n);
      assert init[i] == paths[i];
    }
  }

  /** The loop of `get_available_sources` over the MyWhoosh directories found:
      one label per directory, the first being plain "MyWhoosh". */
  method AvailableSources(paths: seq<string>) returns (sources: map<string, string>)
    ensures sources == SourcesOf(paths)
    ensures |sources| == |paths|
    ensures forall i :: 0 <= i < |paths| ==> SourceName(i) in sources && sources[SourceName(i)] == paths[i]
  {
    sources := map[];
    for i := 0 to |paths|
      invariant sources == SourcesOf(paths[..i])
    {
      assert paths[..i + 1][..i] == paths[..i];
      sources := sources[SourceName(i) := paths[i]];
    }
    assert paths[..|paths|] == paths;
    SourcesOfSize(paths);
    forall i | 0 <= i < |paths| ensures SourceName(i) in sources && sources[SourceName(i)] == paths[i] {
      SourcesOfLookup(paths, i);
    }
  }
}
