/** The scan of the input directory (the `readdir` callback up to the
    sort): for every listed name, probe `content.txt` and the three image
    files, record the content file's timestamps, pick at most one image,
    push the creation time onto `times` and store the entry in `entryMap`
    under the string form of that time. */
module Scanner {
  import opened Wrappers
  import opened Text
  import opened Decimal
  import opened Files

  /** The record the scan stores per entry: `{entry, info, imagePath,
      contentPath}`, with `info` reduced to its two timestamps. */
  datatype Entry = Entry(name: string, birthtime: nat, mtime: nat, imagePath: Option<string>, contentPath: string)

  function ContentPath(inDir: string, name: string): string
  {
    PathJoin(inDir, PathJoin(name, "content.txt"))
  }

  function ImageBase(inDir: string, name: string): string
  {
    PathJoin(inDir, PathJoin(name, "image"))
  }

  /** `'' + time`: the key `entryMap` files an entry under. */
  function Key(t: nat): string
  {
    Show(t)
  }

  function MissingContentWarning(contentPath: string): string
  {
    "Unable to find content at " + contentPath
  }

  function IgnoredImageWarning(name: string, ext: string): string
  {
    "Multiple images found for " + name + ". Ignoring " + ext
  }

  // ---------------------------------------------------------------------
  // Image choice

  /** The image an entry is shown with: JPEG before PNG before SVG, none
      when there is no image file. */
  function PreferredImage(base: string, hasJpg: bool, hasPng: bool, hasSvg: bool): (r: Option<string>)
    ensures r == None <==> !hasJpg && !hasPng && !hasSvg
    ensures r == Some(base + ".jpg") <==> hasJpg
    ensures r == Some(base + ".png") <==> !hasJpg && hasPng
    ensures r == Some(base + ".svg") <==> !hasJpg && !hasPng && hasSvg
  {
    ImagePathsDiffer(base);
    if hasJpg then Some(base + ".jpg")
    else if hasPng then Some(base + ".png")
    else if hasSvg then Some(base + ".svg")
    else None
  }

  /** The warnings for images that lose to a higher-priority one: the PNG
      when there is a JPEG, the SVG when there is a JPEG or a PNG. */
  function ImageWarnings(name: string, hasJpg: bool, hasPng: bool, hasSvg: bool): (w: seq<string>)
    ensures IgnoredImageWarning(name, "png") in w <==> hasJpg && hasPng
    ensures IgnoredImageWarning(name, "svg") in w <==> hasSvg && (hasJpg || hasPng)
    ensures |w| == (if hasJpg && hasPng then 1 else 0) + (if hasSvg && (hasJpg || hasPng) then 1 else 0)
  {
    IgnoredWarningsDiffer(name);
    (if hasJpg && hasPng then [IgnoredImageWarning(name, "png")] else []) +
    (if hasSvg && (hasJpg || hasPng) then [IgnoredImageWarning(name, "svg")] else [])
  }

  lemma ImagePathsDiffer(base: string)
    ensures base + ".jpg" != base + ".png" && base + ".jpg" != base + ".svg" && base + ".png" != base + ".svg"
  {
    var jpg, png, svg := base + ".jpg", base + ".png", base + ".svg";
    assert jpg[|base| + 1] == 'j' && png[|base| + 1] == 'p' && svg[|base| + 1] == 's';
  }

  lemma IgnoredWarningsDiffer(name: string)
    ensures IgnoredImageWarning(name, "png") != IgnoredImageWarning(name, "svg")
  {
    var png, svg := IgnoredImageWarning(name, "png"), IgnoredImageWarning(name, "svg");
    assert png[|png| - 3] == 'p' && svg[|svg| - 3] == 's';
  }

  /** The three sequential `if`s that assign `imagePath`. */
  method ChooseImage(name: string, base: string, hasJpg: bool, hasPng: bool, hasSvg: bool)
    returns (imagePath: Option<string>, warnings: seq<string>)
    ensures imagePath == PreferredImage(base, hasJpg, hasPng, hasSvg)
    ensures warnings == ImageWarnings(name, hasJpg, hasPng, hasSvg)
  {
    imagePath, warnings := None, [];
    if hasJpg {
      imagePath := Some(base + ".jpg");
    }
    if hasPng {
      if hasJpg {
        warnings := warnings + [IgnoredImageWarning(name, "png")];
      } else {
        imagePath := Some(base + ".png");
      }
    }
    if hasSvg {
      if hasJpg || hasPng {
        warnings := warnings + [IgnoredImageWarning(name, "svg")];
      } else {
        imagePath := Some(base + ".svg");
      }
    }
  }

  /** With all three images present the JPEG is chosen and both others are
      reported. */
  lemma AllThreeImages(name: string, base: string)
    ensures PreferredImage(base, true, true, true) == Some(base + ".jpg")
    ensures ImageWarnings(name, true, true, true) ==
            [IgnoredImageWarning(name, "png"), IgnoredImageWarning(name, "svg")]
  {
  }

  // ---------------------------------------------------------------------
  // One listed name

  predicate HasContent(fs: FileSystem, inDir: string, name: string)
  {
    ContentPath(inDir, name) in fs.files
  }

  function BirthTime(fs: FileSystem, inDir: string, name: string): nat
    requires HasContent(fs, inDir, name)
  {
    fs.files[ContentPath(inDir, name)].birthtime
  }

  function ImageChoice(fs: FileSystem, inDir: string, name: string): Option<string>
  {
    var base := ImageBase(inDir, name);
    PreferredImage(base, Exists(fs, base + ".jpg"), Exists(fs, base + ".png"), Exists(fs, base + ".svg"))
  }

  /** The record stored for a name whose content file exists. */
  function EntryRecord(fs: FileSystem, inDir: string, name: string): (e: Entry)
    requires HasContent(fs, inDir, name)
  {
    var info := fs.files[ContentPath(inDir, name)];
    Entry(name, info.birthtime, info.mtime, ImageChoice(fs, inDir, name), ContentPath(inDir, name))
  }

  /** The warnings the scan prints for one name. */
  function EntryWarnings(fs: FileSystem, inDir: string, name: string): seq<string>
  {
    if HasContent(fs, inDir, name) then
      var base := ImageBase(inDir, name);
      ImageWarnings(name, Exists(fs, base + ".jpg"), Exists(fs, base + ".png"), Exists(fs, base + ".svg"))
    else
      [MissingContentWarning(ContentPath(inDir, name))]
  }

  // ---------------------------------------------------------------------
  // The whole listing

  /** The listed names whose content file exists, in listing order. */
  function WithContent(fs: FileSystem, inDir: string, names: seq<string>): (r: seq<string>)
    ensures forall k :: 0 <= k < |r| ==> HasContent(fs, inDir, r[k])
  {
    if names == [] then []
    else
      var last := names[|names| - 1];
      WithContent(fs, inDir, names[..|names| - 1]) + (if HasContent(fs, inDir, last) then [last] else [])
  }

  /** The names kept are exactly the listed names with content. */
  lemma {:induction false} WithContentMembers(fs: FileSystem, inDir: string, names: seq<string>)
    ensures forall n :: n in WithContent(fs, inDir, names) <==> n in names && HasContent(fs, inDir, n)
  {
    if names != [] {
      var last := names[|names| - 1];
      WithContentMembers(fs, inDir, names[..|names| - 1]);
      assert names == names[..|names| - 1] + [last];
    }
  }

  /** `times` after the scan: one creation time per name with content, in
      listing order. */
  function ContentTimes(fs: FileSystem, inDir: string, names: seq<string>): (r: seq<nat>)
    ensures |r| == |WithContent(fs, inDir, names)|
    ensures forall k :: 0 <= k < |r| ==> r[k] == BirthTime(fs, inDir, WithContent(fs, inDir, names)[k])
  {
    if names == [] then []
    else
      var last := names[|names| - 1];
      ContentTimes(fs, inDir, names[..|names| - 1]) +
      (if HasContent(fs, inDir, last) then [BirthTime(fs, inDir, last)] else [])
  }

  /** `entryMap` after the scan: each name with content overwrites the key
      of its creation time. */
  function KeyedEntries(fs: FileSystem, inDir: string, names: seq<string>): map<string, Entry>
  {
    if names == [] then map[]
    else
      var last := names[|names| - 1];
      var m := KeyedEntries(fs, inDir, names[..|names| - 1]);
      if HasContent(fs, inDir, last) then m[Key(BirthTime(fs, inDir, last)) := EntryRecord(fs, inDir, last)]
      else m
  }

  /** All warnings of the scan, in listing order. */
  function ScanWarnings(fs: FileSystem, inDir: string, names: seq<string>): seq<string>
  {
    if names == [] then []
    else ScanWarnings(fs, inDir, names[..|names| - 1]) + EntryWarnings(fs, inDir, names[|names| - 1])
  }

  /** The `entries.forEach` loop. */
  method Scan(fs: FileSystem, inDir: string, listing: seq<string>)
    returns (times: seq<nat>, entryMap: map<string, Entry>, warnings: seq<string>)
    ensures times == ContentTimes(fs, inDir, listing)
    ensures entryMap == KeyedEntries(fs, inDir, listing)
    ensures warnings == ScanWarnings(fs, inDir, listing)
  {
    times, entryMap, warnings := [], map[], [];
    var i := 0;
    while i < |listing|
      invariant 0 <= i <= |listing|
      invariant times == ContentTimes(fs, inDir, listing[..i])
      invariant entryMap == KeyedEntries(fs, inDir, listing[..i])
      invariant warnings == ScanWarnings(fs, inDir, listing[..i])
    {
      var entry := listing[i];
      var contentPath := PathJoin(inDir, PathJoin(entry, "content.txt"));
      var imageBasePath := PathJoin(inDir, PathJoin(entry, "image"));
      var hasJpg := Exists(fs, imageBasePath + ".jpg");
      var hasPng := Exists(fs, imageBasePath + ".png");
      var hasSvg := Exists(fs, imageBasePath + ".svg");
      var hasContent := contentPath in fs.files;
      if hasContent {
        var info := fs.files[contentPath];
        times := times + [info.birthtime];
        var imagePath, imageWarnings := ChooseImage(entry, imageBasePath, hasJpg, hasPng, hasSvg);
        warnings := warnings + imageWarnings;
        entryMap := entryMap[Key(info.birthtime) := Entry(entry, info.birthtime, info.mtime, imagePath, contentPath)];
      } else {
        warnings := warnings + [MissingContentWarning(contentPath)];
      }
      assert listing[..i + 1][..i] == listing[..i];
      i := i + 1;
    }
    assert listing[..i] == listing;
  }

  // ---------------------------------------------------------------------
  // What the scan's state means

  predicate Distinct(names: seq<string>)
  {
    forall a, b :: 0 <= a < b < |names| ==> names[a] != names[b]
  }

  /** Every stored entry is the record of a listed name with content, filed
      under its own creation time, and the keys are exactly the string forms
      of the pushed times. */
  lemma {:induction false} KeyedEntriesWellFormed(fs: FileSystem, inDir: string, names: seq<string>)
    ensures forall key :: key in KeyedEntries(fs, inDir, names) ==>
              var e := KeyedEntries(fs, inDir, names)[key];
              && e.name in names
              && HasContent(fs, inDir, e.name)
              && e == EntryRecord(fs, inDir, e.name)
              && key == Key(e.birthtime)
    ensures forall t: nat :: Key(t) in KeyedEntries(fs, inDir, names) <==> t in ContentTimes(fs, inDir, names)
  {
    if names != [] {
      var prefix := names[..|names| - 1];
      KeyedEntriesWellFormed(fs, inDir, prefix);
      forall t: nat
        ensures Key(t) in KeyedEntries(fs, inDir, names) <==> t in ContentTimes(fs, inDir, names)
      {
        var last := names[|names| - 1];
        if HasContent(fs, inDir, last) {
          ShowInjective(t, BirthTime(fs, inDir, last));
        }
      }
    }
  }

  /** The record filed under a time is that of the last name in the listing
      with that creation time. */
  lemma {:induction false} KeyedEntriesHoldLast(fs: FileSystem, inDir: string, names: seq<string>, j: nat)
    requires j < |names| && HasContent(fs, inDir, names[j])
    requires forall j' :: j < j' < |names| && HasContent(fs, inDir, names[j']) ==>
               BirthTime(fs, inDir, names[j']) != BirthTime(fs, inDir, names[j])
    ensures Key(BirthTime(fs, inDir, names[j])) in KeyedEntries(fs, inDir, names)
    ensures KeyedEntries(fs, inDir, names)[Key(BirthTime(fs, inDir, names[j]))] == EntryRecord(fs, inDir, names[j])
  {
    var n := |names|;
    var prefix := names[..n - 1];
    var last := names[n - 1];
    if j < n - 1 {
      KeyedEntriesHoldLast(fs, inDir, prefix, j);
      if HasContent(fs, inDir, last) {
        ShowInjective(BirthTime(fs, inDir, last), BirthTime(fs, inDir, names[j]));
      }
    }
  }

  /** Timestamp collision: a name with content whose creation time a later
      name with content shares is not stored at all. */
  lemma {:induction false} KeyedEntriesDropEarlier(fs: FileSystem, inDir: string, names: seq<string>, i: nat, j: nat)
    requires Distinct(names)
    requires i < j < |names|
    requires HasContent(fs, inDir, names[i]) && HasContent(fs, inDir, names[j])
    requires BirthTime(fs, inDir, names[i]) == BirthTime(fs, inDir, names[j])
    ensures forall key :: key in KeyedEntries(fs, inDir, names) ==>
              KeyedEntries(fs, inDir, names)[key] != EntryRecord(fs, inDir, names[i])
  {
    var n := |names|;
    var prefix := names[..n - 1];
    var rec := EntryRecord(fs, inDir, names[i]);
    if j == n - 1 {
      KeyedEntriesWellFormed(fs, inDir, prefix);
    } else {
      KeyedEntriesDropEarlier(fs, inDir, prefix, i, j);
    }
  }

  // ---------------------------------------------------------------------
  // Listing splits

  lemma {:induction false} ContentTimesAppend(fs: FileSystem, inDir: string, a: seq<string>, b: seq<string>)
    ensures ContentTimes(fs, inDir, a + b) == ContentTimes(fs, inDir, a) + ContentTimes(fs, inDir, b)
    decreases |b|
  {
    if b == [] {
      assert a + b == a;
    } else {
      assert (a + b)[..|a + b| - 1] == a + b[..|b| - 1];
      ContentTimesAppend(fs, inDir, a, b[..|b| - 1]);
    }
  }

  lemma {:induction false} ScanWarningsAppend(fs: FileSystem, inDir: string, a: seq<string>, b: seq<string>)
    ensures ScanWarnings(fs, inDir, a + b) == ScanWarnings(fs, inDir, a) + ScanWarnings(fs, inDir, b)
    decreases |b|
  {
    if b == [] {
      assert a + b == a;
    } else {
      assert (a + b)[..|a + b| - 1] == a + b[..|b| - 1];
      ScanWarningsAppend(fs, inDir, a, b[..|b| - 1]);
    }
  }

  lemma {:induction false} KeyedEntriesSkip(fs: FileSystem, inDir: string, p: seq<string>, x: string, q: seq<string>)
    requires !HasContent(fs, inDir, x)
    ensures KeyedEntries(fs, inDir, p + [x] + q) == KeyedEntries(fs, inDir, p + q)
    decreases |q|
  {
    if q == [] {
      assert (p + [x] + q)[..|p| ] == p && p + q == p;
    } else {
      assert (p + [x] + q)[..|p + [x] + q| - 1] == p + [x] + q[..|q| - 1];
      assert (p + q)[..|p + q| - 1] == p + q[..|q| - 1];
      KeyedEntriesSkip(fs, inDir, p, x, q[..|q| - 1]);
    }
  }

  /** A listed name without `content.txt` adds no time and no key, and adds
      exactly one warning, naming the missing path. */
  lemma MissingContentExcluded(fs: FileSystem, inDir: string, p: seq<string>, x: string, q: seq<string>)
    requires !HasContent(fs, inDir, x)
    ensures ContentTimes(fs, inDir, p + [x] + q) == ContentTimes(fs, inDir, p + q)
    ensures KeyedEntries(fs, inDir, p + [x] + q) == KeyedEntries(fs, inDir, p + q)
    ensures ScanWarnings(fs, inDir, p + [x] + q) ==
            ScanWarnings(fs, inDir, p) + [MissingContentWarning(ContentPath(inDir, x))] + ScanWarnings(fs, inDir, q)
  {
    var px := p + [x];
    assert p + [x] + q == px + q;
    assert ContentTimes(fs, inDir, [x]) == [] by {
      assert [x][..0] == [];
    }
    assert ScanWarnings(fs, inDir, [x]) == [MissingContentWarning(ContentPath(inDir, x))] by {
      assert [x][..0] == [];
    }
    ContentTimesAppend(fs, inDir, p, [x]);
    assert ContentTimes(fs, inDir, px) == ContentTimes(fs, inDir, p);
    ContentTimesAppend(fs, inDir, px, q);
    ContentTimesAppend(fs, inDir, p, q);
    ScanWarningsAppend(fs, inDir, p, [x]);
    ScanWarningsAppend(fs, inDir, px, q);
    KeyedEntriesSkip(fs, inDir, p, x, q);
  }

  /** Two listed names with content created in the same millisecond push
      that time twice. */
  lemma TimePushedTwice(fs: FileSystem, inDir: string, names: seq<string>, i: nat, j: nat)
    requires i < j < |names|
    requires HasContent(fs, inDir, names[i]) && HasContent(fs, inDir, names[j])
    requires BirthTime(fs, inDir, names[i]) == BirthTime(fs, inDir, names[j])
    ensures multiset(ContentTimes(fs, inDir, names))[BirthTime(fs, inDir, names[i])] >= 2
  {
    var t := BirthTime(fs, inDir, names[i]);
    var a, x, b, y, c := names[..i], names[i], names[i + 1..j], names[j], names[j + 1..];
    assert names == a + [x] + b + [y] + c;
    assert ContentTimes(fs, inDir, [x]) == [t] by {
      assert [x][..0] == [];
    }
    assert ContentTimes(fs, inDir, [y]) == [t] by {
      assert [y][..0] == [];
    }
    ContentTimesAppend(fs, inDir, a, [x]);
    ContentTimesAppend(fs, inDir, a + [x], b);
    ContentTimesAppend(fs, inDir, a + [x] + b, [y]);
    ContentTimesAppend(fs, inDir, a + [x] + b + [y], c);
    assert multiset(ContentTimes(fs, inDir, names)) ==
           multiset(ContentTimes(fs, inDir, a)) + multiset{t} + multiset(ContentTimes(fs, inDir, b)) +
           multiset{t} + multiset(ContentTimes(fs, inDir, c));
  }

  /** Every listed name with content pushes its creation time. */
  lemma TimePushed(fs: FileSystem, inDir: string, names: seq<string>, j: nat)
    requires j < |names| && HasContent(fs, inDir, names[j])
    ensures BirthTime(fs, inDir, names[j]) in ContentTimes(fs, inDir, names)
  {
    var w := WithContent(fs, inDir, names);
    WithContentMembers(fs, inDir, names);
    assert names[j] in w;
    var k :| 0 <= k < |w| && w[k] == names[j];
    assert ContentTimes(fs, inDir, names)[k] == BirthTime(fs, inDir, names[j]);
  }

  /** A creation time that no other listed name with content shares is
      pushed exactly once. */
  lemma TimePushedOnce(fs: FileSystem, inDir: string, names: seq<string>, j: nat)
    requires j < |names| && HasContent(fs, inDir, names[j])
    requires forall i :: 0 <= i < |names| && i != j && HasContent(fs, inDir, names[i]) ==>
               BirthTime(fs, inDir, names[i]) != BirthTime(fs, inDir, names[j])
    ensures multiset(ContentTimes(fs, inDir, names))[BirthTime(fs, inDir, names[j])] == 1
  {
    var t := BirthTime(fs, inDir, names[j]);
    var a, x, c := names[..j], names[j], names[j + 1..];
    assert names == a + [x] + c;
    assert ContentTimes(fs, inDir, [x]) == [t] by {
      assert [x][..0] == [];
    }
    ContentTimesAppend(fs, inDir, a, [x]);
    ContentTimesAppend(fs, inDir, a + [x], c);
    forall i | 0 <= i < |a| && HasContent(fs, inDir, a[i]) ensures BirthTime(fs, inDir, a[i]) != t {
      assert a[i] == names[i];
    }
    forall i | 0 <= i < |c| && HasContent(fs, inDir, c[i]) ensures BirthTime(fs, inDir, c[i]) != t {
      assert c[i] == names[j + 1 + i];
    }
    NotPushedBy(fs, inDir, a, t);
    NotPushedBy(fs, inDir, c, t);
    var ta, tc := ContentTimes(fs, inDir, a), ContentTimes(fs, inDir, c);
    assert ContentTimes(fs, inDir, names) == ta + [t] + tc;
    assert multiset(ta)[t] == 0 && multiset(tc)[t] == 0;
  }

  /** A time no listed name with content was created at is not pushed. */
  lemma NotPushedBy(fs: FileSystem, inDir: string, names: seq<string>, t: nat)
    requires forall i :: 0 <= i < |names| && HasContent(fs, inDir, names[i]) ==> BirthTime(fs, inDir, names[i]) != t
    ensures t !in ContentTimes(fs, inDir, names)
  {
    var w := WithContent(fs, inDir, names);
    var ts := ContentTimes(fs, inDir, names);
    WithContentMembers(fs, inDir, names);
    forall k | 0 <= k < |ts| ensures ts[k] != t {
      assert w[k] in names;
      var i :| 0 <= i < |names| && names[i] == w[k];
    }
  }
}
