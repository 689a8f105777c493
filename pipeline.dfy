/** The whole program: check the arguments, scan the input directory, order
    the entries by the default sort of their creation times, and write the
    pages. */
module Glob {
  import opened Wrappers
  import opened Decimal
  import opened Args
  import opened Files
  import opened Scanner
  import opened Sorter
  import opened Renderer

  /** How a run ends: refused with an error message and exit status 1, or
      completed with the warnings it printed and what it did to the output
      directory. */
  datatype Outcome =
    | Refused(error: ArgError)
    | Completed(warnings: seq<string>, actions: seq<Action>)

  /** `sortedEntries`: for each time of the sorted `times`, the record
      stored under its string form. */
  function SortedEntries(fs: FileSystem, inDir: string, listing: seq<string>): (r: seq<Entry>)
    ensures |r| == |WithContent(fs, inDir, listing)|
    ensures ContentReadable(r, fs)
  {
    var times := SortTimes(ContentTimes(fs, inDir, listing));
    var entryMap := KeyedEntries(fs, inDir, listing);
    SortedTimesStored(fs, inDir, listing);
    StoredReadable(fs, inDir, listing);
    seq(|times|, k requires 0 <= k < |times| => entryMap[Key(times[k])])
  }

  /** Every sorted time has a record stored under its string form. */
  lemma SortedTimesStored(fs: FileSystem, inDir: string, listing: seq<string>)
    ensures forall t :: t in SortTimes(ContentTimes(fs, inDir, listing)) ==> Key(t) in KeyedEntries(fs, inDir, listing)
  {
    var ts := ContentTimes(fs, inDir, listing);
    KeyedEntriesWellFormed(fs, inDir, listing);
    forall t | t in SortTimes(ts) ensures Key(t) in KeyedEntries(fs, inDir, listing) {
      assert t in multiset(SortTimes(ts));
    }
  }

  /** Every stored record names a content file that exists. */
  lemma StoredReadable(fs: FileSystem, inDir: string, listing: seq<string>)
    ensures forall key :: key in KeyedEntries(fs, inDir, listing) ==>
              KeyedEntries(fs, inDir, listing)[key].contentPath in fs.files
  {
  }

  /** The program, given its arguments, the filesystem, `fs.readdir` as a
      function of the directory, `os.EOL` and `toUTCString`. */
  method Run(args: seq<string>, fs: FileSystem, readdir: string -> seq<string>, eol: string, utc: nat -> string)
    returns (outcome: Outcome)
    requires ValidEol(eol)
    ensures CheckArgs(args).Failure? ==> outcome == Refused(CheckArgs(args).error)
    ensures CheckArgs(args).Success? ==>
              var inDir, outDir := CheckArgs(args).value.inDir, CheckArgs(args).value.outDir;
              var listing := readdir(inDir);
              outcome == Completed(ScanWarnings(fs, inDir, listing),
                                   OutputActions(SortedEntries(fs, inDir, listing), outDir, fs, eol, utc))
  {
    var checked := CheckArgs(args);
    if checked.Failure? {
      return Refused(checked.error);
    }
    var inDir, outDir := checked.value.inDir, checked.value.outDir;
    var listing := readdir(inDir);
    var times, entryMap, warnings := Scan(fs, inDir, listing);
    var sortedTimes := SortTimes(times);
    SortedTimesStored(fs, inDir, listing);
    var sortedEntries := BuildSorted(sortedTimes, entryMap);
    assert sortedEntries == SortedEntries(fs, inDir, listing);
    var actions := WriteOutput(sortedEntries, outDir, fs, eol, utc);
    outcome := Completed(warnings, actions);
  }

  // ---------------------------------------------------------------------
  // What the pages hold

  /** The `k`-th page holds the record of a listed name with content, and
      the creation times of the pages are the sorted `times`. */
  lemma SortedEntriesFacts(fs: FileSystem, inDir: string, listing: seq<string>)
    ensures var r := SortedEntries(fs, inDir, listing);
            forall k :: 0 <= k < |r| ==>
              && r[k].name in listing
              && HasContent(fs, inDir, r[k].name)
              && r[k] == EntryRecord(fs, inDir, r[k].name)
              && r[k].birthtime == SortTimes(ContentTimes(fs, inDir, listing))[k]
  {
    var r := SortedEntries(fs, inDir, listing);
    var times := SortTimes(ContentTimes(fs, inDir, listing));
    var entryMap := KeyedEntries(fs, inDir, listing);
    KeyedEntriesWellFormed(fs, inDir, listing);
    SortedTimesStored(fs, inDir, listing);
    forall k | 0 <= k < |r|
      ensures r[k].birthtime == times[k]
    {
      assert times[k] in times;
      assert r[k] == entryMap[Key(times[k])];
      ShowInjective(r[k].birthtime, times[k]);
    }
  }

  /** Pages with the same creation time show the same record. */
  lemma SameTimeSameRecord(fs: FileSystem, inDir: string, listing: seq<string>, a: nat, b: nat)
    requires a < b < |SortedEntries(fs, inDir, listing)|
    ensures var r := SortedEntries(fs, inDir, listing);
            r[a].birthtime == r[b].birthtime <==> r[a] == r[b]
  {
    SortedEntriesFacts(fs, inDir, listing);
  }

  /** Timestamp collision: when two listed names with content were created
      in the same millisecond, the earlier one gets no page. */
  lemma CollisionDropsEarlier(fs: FileSystem, inDir: string, listing: seq<string>, i: nat, j: nat)
    requires Distinct(listing)
    requires i < j < |listing|
    requires HasContent(fs, inDir, listing[i]) && HasContent(fs, inDir, listing[j])
    requires BirthTime(fs, inDir, listing[i]) == BirthTime(fs, inDir, listing[j])
    ensures var r := SortedEntries(fs, inDir, listing);
            forall k :: 0 <= k < |r| ==> r[k] != EntryRecord(fs, inDir, listing[i])
  {
    KeyedEntriesDropEarlier(fs, inDir, listing, i, j);
    SortedTimesStored(fs, inDir, listing);
  }

  /** Timestamp collision: the last listed name with the shared creation
      time fills the page of the dropped one as well as its own. */
  lemma CollisionRepeatsLast(fs: FileSystem, inDir: string, listing: seq<string>, i: nat, j: nat)
    requires i < j < |listing|
    requires HasContent(fs, inDir, listing[i]) && HasContent(fs, inDir, listing[j])
    requires BirthTime(fs, inDir, listing[i]) == BirthTime(fs, inDir, listing[j])
    requires forall j' :: j < j' < |listing| && HasContent(fs, inDir, listing[j']) ==>
               BirthTime(fs, inDir, listing[j']) != BirthTime(fs, inDir, listing[j])
    ensures var r := SortedEntries(fs, inDir, listing);
            exists a, b :: 0 <= a < b < |r| && r[a] == EntryRecord(fs, inDir, listing[j]) && r[b] == r[a]
  {
    var t := BirthTime(fs, inDir, listing[j]);
    var times := SortTimes(ContentTimes(fs, inDir, listing));
    TimePushedTwice(fs, inDir, listing, i, j);
    TwoOccurrences(times, t);
    var a, b :| 0 <= a < b < |times| && times[a] == t && times[b] == t;
    KeyedEntriesHoldLast(fs, inDir, listing, j);
    SortedTimesStored(fs, inDir, listing);
    var r := SortedEntries(fs, inDir, listing);
    assert r[a] == KeyedEntries(fs, inDir, listing)[Key(t)];
    assert r[b] == KeyedEntries(fs, inDir, listing)[Key(t)];
  }

  /** Completeness: a listed name with content whose creation time no later
      listed name with content shares gets a page. */
  lemma LastWithTimeHasPage(fs: FileSystem, inDir: string, listing: seq<string>, j: nat)
    requires j < |listing| && HasContent(fs, inDir, listing[j])
    requires forall j' :: j < j' < |listing| && HasContent(fs, inDir, listing[j']) ==>
               BirthTime(fs, inDir, listing[j']) != BirthTime(fs, inDir, listing[j])
    ensures var r := SortedEntries(fs, inDir, listing);
            exists k :: 0 <= k < |r| && r[k] == EntryRecord(fs, inDir, listing[j])
  {
    var t := BirthTime(fs, inDir, listing[j]);
    var times := SortTimes(ContentTimes(fs, inDir, listing));
    TimePushed(fs, inDir, listing, j);
    assert t in multiset(times);
    var k :| 0 <= k < |times| && times[k] == t;
    KeyedEntriesHoldLast(fs, inDir, listing, j);
    SortedTimesStored(fs, inDir, listing);
    assert SortedEntries(fs, inDir, listing)[k] == KeyedEntries(fs, inDir, listing)[Key(t)];
  }

  /** A listed name with content whose creation time no other listed name
      with content shares gets exactly one page. */
  lemma UniqueTimeHasOnePage(fs: FileSystem, inDir: string, listing: seq<string>, j: nat)
    requires j < |listing| && HasContent(fs, inDir, listing[j])
    requires forall i :: 0 <= i < |listing| && i != j && HasContent(fs, inDir, listing[i]) ==>
               BirthTime(fs, inDir, listing[i]) != BirthTime(fs, inDir, listing[j])
    ensures var r := SortedEntries(fs, inDir, listing);
            exists k :: 0 <= k < |r| && r[k] == EntryRecord(fs, inDir, listing[j]) &&
              forall k' :: 0 <= k' < |r| && r[k'] == EntryRecord(fs, inDir, listing[j]) ==> k' == k
  {
    var r := SortedEntries(fs, inDir, listing);
    var rec := EntryRecord(fs, inDir, listing[j]);
    var times := SortTimes(ContentTimes(fs, inDir, listing));
    LastWithTimeHasPage(fs, inDir, listing, j);
    var k :| 0 <= k < |r| && r[k] == rec;
    TimePushedOnce(fs, inDir, listing, j);
    SortedEntriesFacts(fs, inDir, listing);
    forall k' | 0 <= k' < |r| && r[k'] == rec ensures k' == k {
      if k' != k {
        var a, b := if k < k' then k else k', if k < k' then k' else k;
        TwoPositions(times, a, b);
      }
    }
  }

  /** When every creation time has the same number of digits, the pages
      follow creation order: later pages were created no earlier, and
      strictly later when no two notes share a time. */
  lemma PagesInCreationOrder(fs: FileSystem, inDir: string, listing: seq<string>)
    requires var ts := ContentTimes(fs, inDir, listing);
             forall a, b :: a in ts && b in ts ==> |Key(a)| == |Key(b)|
    ensures var r := SortedEntries(fs, inDir, listing);
            forall a, b :: 0 <= a < b < |r| ==> r[a].birthtime <= r[b].birthtime
    ensures var r := SortedEntries(fs, inDir, listing);
            (forall t :: multiset(ContentTimes(fs, inDir, listing))[t] <= 1) ==>
              forall a, b :: 0 <= a < b < |r| ==> r[a].birthtime < r[b].birthtime
  {
    SortedEntriesFacts(fs, inDir, listing);
    SortedChronologically(ContentTimes(fs, inDir, listing));
  }

  /** A completed run writes `1.html` to `N.html` and then `index.html`,
      one page per listed name with content; with no such name it writes
      nothing. */
  lemma CompletedRunFiles(fs: FileSystem, inDir: string, outDir: string, listing: seq<string>, eol: string, utc: nat -> string)
    requires ValidEol(eol)
    ensures var n := |WithContent(fs, inDir, listing)|;
            WrittenPaths(OutputActions(SortedEntries(fs, inDir, listing), outDir, fs, eol, utc)) ==
            PagePaths(outDir, n) + (if n > 0 then [IndexPath(outDir)] else [])
  {
    OutputFiles(SortedEntries(fs, inDir, listing), outDir, fs, eol, utc);
  }
}
