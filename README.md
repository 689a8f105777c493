# glob, modelled in Dafny

glob is a one-file static site generator (`index.js`). It is run as
`node index.js <inDir> <outDir>`. It expects every name listed in `inDir`
to be a note folder holding `content.txt` and, optionally, one image:
`image.jpg`, `image.png` or `image.svg`. It tolerates two departures from
that. A listed name without `content.txt` gets no page; the program only
warns that the content is missing. A note with several images is shown with
the first of JPEG, PNG and SVG that exists, and the program warns about each
image it ignores. The notes are ordered by the default (string) sort of
the creation times of their `content.txt`. Each note becomes a page `1.html` … `N.html` in `outDir`, with
links to the previous and next pages, its image copied next to it as
`<page>.<ext>`, its lines turned into paragraphs, and its creation and
update times. The last page is written a second time as `index.html`.

This project models that program and proves what it does:

- `Args` (args.dfy): the command-line check, as written and as intended.
- `Scanner` (scanner.dfy): the `entries.forEach` loop. For each listed name
  it probes the content file and the three images, pushes the creation time
  onto `times`, files the record in `entryMap` under the time's string
  form, and collects the warnings.
- `Sorter` (sorter.dfy): `times.sort()`, which compares the times as
  strings, and the loop that looks every sorted time up in `entryMap`.
- `Renderer` (renderer.dfy): `writeOutput`. It covers the links, the
  paragraphs, the image extension, the page template and the files written.
- `Glob` (pipeline.dfy): the whole run, from arguments to written files.
- `Text`, `Decimal`, `Files` and `Wrappers` hold the string functions, the
  decimal form of a number, the filesystem as a value and `Option`/`Result`.

The filesystem is a value. It maps each path to a file's text, `birthtimeMs`
and `mtimeMs`, and holds a set of directory paths. `fs.readdir` is a
function from a directory to its listing. What the run does to the output
directory is a list of actions: make the directory, copy a file, write a
file. The loops of the source are methods with loop invariants. Each is
proved equal to a function of its inputs, and the lemmas prove what the
program promises about those functions.

Three consequences of the code are easy to miss, and the model states them
as the code has them:

- The pages are ordered by the string form of the creation time, not by
  the number. `times.sort()` is called without a comparator, and that sort
  compares decimal strings. So `10` sorts before `9`
  (`Sorter.StringOrderIsNotNumeric`). The two orders agree when all times
  have the same number of digits (`Glob.PagesInCreationOrder`). That holds
  for every millisecond time between September 2001 and November 2286.
- Notes created in the same millisecond collide. `entryMap` is keyed by the
  time, so the later note in the listing overwrites the earlier one. The
  earlier note gets no page, and the later one fills both pages
  (`Glob.CollisionDropsEarlier`, `Glob.CollisionRepeatsLast`). A note whose
  time no other note shares gets exactly one page
  (`Glob.UniqueTimeHasOnePage`).
- Every listed name is processed alike, whether it is a folder or a plain
  file. A plain file in `inDir` has no `<name>/content.txt`, so it only
  produces the missing-content warning (`Scanner.MissingContentExcluded`).

## Model

| member | source | states |
|---|---|---|
| Args.FindIndex | index.js:10 | the index of the first argument ending in `index.js`, or -1 exactly when no argument does |
| Args.CheckArgsAsWritten | index.js:10-24 | the check as written: fails with the "don't know" error iff no argument ends in `index.js`; fails with "Invalid params" iff `length < idx + 2`; otherwise the input directory is `args[idx + 1]`, and the output directory is present only when `idx + 3 <= length` |
| Args.AsWrittenAcceptsMissingOutDir | index.js:18-24 | the script path followed by only the input directory passes the check as written, with no output directory |
| Args.CheckArgs | index.js:12-24 | the intended check: fails with "don't know" iff no argument ends in `index.js`; succeeds iff two arguments follow it, and then returns exactly those two |
| Args.CheckArgsRefinesAsWritten | index.js:18-24 | the intended check accepts exactly the argument lists that the written check accepts with an output directory, and then returns the same directories |
| Text.LessEq | index.js:72 | the string comparison of the default sort: a prefix comes first, and strings whose first characters differ are ordered by those characters |
| Text.ReplaceAll | index.js:91 | `replaceAll` leaves a string shorter than the pattern as it is, starts with the replacement when the string starts with the pattern, and keeps the length when pattern and replacement have the same length |
| Decimal.Show | index.js:65 | `'' + t` is a non-empty string of decimal digits, one digit exactly for `t < 10`, with no leading zero |
| Decimal.ValueShow | index.js:65 | reading the decimal string back gives the number |
| Decimal.ShowInjective | index.js:65 | different times have different keys |
| Decimal.SameLengthOrder | index.js:72 | for times with the same number of digits, the string order of their keys is the numeric order |
| Text.LessEqTotal | index.js:72 | the string comparison used by the default sort is total |
| Text.LessEqTransitive | index.js:72 | the string comparison is transitive |
| Text.LessEqAntisymmetric | index.js:72 | the string comparison is antisymmetric |
| Text.ReplaceAllRemovesPatternAt | index.js:91 | `replaceAll` with a replacement that shares no character with the pattern leaves no occurrence of the pattern |
| Text.ReplaceAllWithoutPattern | index.js:91 | `replaceAll` leaves a string without the pattern unchanged |
| Text.ReplaceAllFirst | index.js:91 | `replaceAll` keeps the text before the first occurrence, puts the replacement in place of that occurrence, and goes on replacing after it |
| Text.WrappedAvoidsPattern | index.js:92 | wrapping a string free of the pattern in `<p>` … `</p>` creates no occurrence |
| Text.Split | index.js:96 | `split('.')` gives at least one piece, and no piece contains the separator |
| Text.JoinSplit | index.js:96 | joining the pieces of `split` with the separator gives back the string |
| Text.SplitAround | index.js:96 | splitting `a.b` gives the pieces of `a` followed by the pieces of `b` |
| Scanner.PreferredImage | index.js:43-63 | no image is chosen iff none of the three exists; the JPEG is chosen iff it exists; the PNG iff it exists and the JPEG does not; the SVG iff it is the only one of the three |
| Scanner.ImageWarnings | index.js:49-62 | "Ignoring png" is warned iff the JPEG and the PNG both exist; "Ignoring svg" iff the SVG and a JPEG or PNG exist; the number of warnings is exactly the number of these two cases that hold |
| Scanner.ChooseImage | index.js:44-63 | the three sequential `if`s assign the preferred image and print exactly the warnings for the ignored images |
| Scanner.AllThreeImages | index.js:43-63 | with all three images present, the JPEG is chosen and both others are reported, PNG first |
| Scanner.WithContent | index.js:37-39 | only names whose `content.txt` exists are kept |
| Scanner.WithContentMembers | index.js:37-39 | the kept names are exactly the listed names whose `content.txt` exists |
| Scanner.ContentTimes | index.js:39-41 | `times` holds one creation time per kept name, in listing order |
| Scanner.Scan | index.js:30-69 | the scan loop leaves `times`, `entryMap` and the warnings equal to their definitions over the whole listing |
| Scanner.KeyedEntriesWellFormed | index.js:39-65 | every stored record is that of a listed name with content, filed under its own creation time; a time's key is stored iff the time was pushed |
| Scanner.KeyedEntriesHoldLast | index.js:65 | the record under a time is that of the last listed name with that time |
| Scanner.KeyedEntriesDropEarlier | index.js:65 | a name whose creation time a later name shares is not stored at all |
| Scanner.TimePushedTwice | index.js:41 | two names created in the same millisecond push that time twice |
| Scanner.TimePushed | index.js:39-41 | every listed name with content pushes its creation time |
| Scanner.TimePushedOnce | index.js:39-41 | a creation time that no other listed name with content shares is pushed exactly once |
| Scanner.NotPushedBy | index.js:39-41 | a time at which no listed name with content was created is not pushed |
| Scanner.MissingContentExcluded | index.js:37-68 | a name without `content.txt` adds no time and no key, and adds exactly one warning, "Unable to find content at" its path |
| Sorter.Insert | index.js:72 | inserting into a sorted list keeps it sorted by key and adds exactly that time |
| Sorter.SortTimes | index.js:72 | `times.sort()` returns a permutation of the times ordered by their string forms |
| Sorter.SortedFirstLeast | index.js:72 | the first of the sorted times comes, by string order, before every other |
| Sorter.SortedPermutationsEqual | index.js:72 | two arrangements of the same times that are both in string order are equal |
| Sorter.SortTimesUnique | index.js:72 | the result of `times.sort()` is the only permutation of the times in string order |
| Sorter.StringOrderIsNotNumeric | index.js:72 | the default sort puts 10 before 9 |
| Sorter.SortedChronologically | index.js:72 | when all times have the same number of digits, the sorted times ascend, strictly when no time repeats |
| Sorter.BuildSorted | index.js:71-75 | the lookup loop gives, at each position, the record stored under that position's sorted time |
| Renderer.PrevLink | index.js:101 | there is no previous link iff the page is the first; otherwise it links `/<i>.html`, labelled with `<i> - ` and the previous entry's name |
| Renderer.NextLink | index.js:102 | there is no next link iff the page is the last; otherwise it links `/<i + 2>.html`, labelled with the next entry's name |
| Renderer.ParagraphsHaveNoEol | index.js:91-92 | the paragraph markup contains no line separator |
| Renderer.Paragraphs | index.js:91-92 | the paragraph markup starts with `<p>` and ends with `</p>` |
| Renderer.SingleParagraph | index.js:91-92 | a note without line separators becomes `<p>` + note + `</p>` |
| Renderer.TwoParagraphs | index.js:91-92 | two lines without separators, joined by the separator, become `<p>` + first line + `</p><p>` + second line + `</p>` |
| Renderer.NoEolInFirstLine | index.js:91 | with `\n` or `\r\n` as the separator, no separator starts inside a line that has none, even with the separator right after the line |
| Renderer.Extension | index.js:96 | the extension contains no dot |
| Renderer.ExtensionAfterLastDot | index.js:96 | the extension of `base.ext` is `ext` when `ext` has no dot |
| Renderer.ImageDiv | index.js:93-99 | the image block is empty iff the entry has no image |
| Renderer.ImageShown | index.js:96-98 | the image block of `base.ext` shows `/<i + 1>.ext` |
| Renderer.Meta | index.js:104-107 | the timestamps block holds the creation time, in bold after "Created", then the update time, in bold after "Last updated" |
| Renderer.PageLayout | index.js:88-111 | a page is its head, whose title is the entry's name, then the links, then the heading with the entry's name, the image block, the timestamps and the paragraphs, in that order |
| Files.WrittenIffLastWrite | index.js:112-115 | a path is among the written files iff some write left text there |
| Renderer.EmitPage | index.js:87-116 | one iteration copies the image, if any, writes the page, and writes `index.html` when the page is the last |
| Renderer.WriteOutput | index.js:81-117 | creating the output directory when it is missing, then the loop, gives exactly the output actions |
| Renderer.PagePathsDistinct | index.js:112-115 | the page files of different numbers differ, and none is `index.html` |
| Renderer.StepWritten | index.js:112-116 | iteration `i` writes page `i + 1`, then `index.html` if it is the last |
| Renderer.PagesWritten | index.js:86-116 | the first `k` iterations write pages 1 to `k` in order, and `index.html` once after the last page |
| Renderer.PageContents | index.js:111-112 | after `k` iterations, page `p` holds the `p`-th document when `p <= k` and is unwritten otherwise |
| Renderer.IndexContents | index.js:114-116 | `index.html` is written only by the last iteration, with the last document |
| Renderer.LoopFiles | index.js:82-116 | the whole loop writes `1.html` … `N.html`, then `index.html` when `N > 0`; page `p` holds document `p`; `index.html` holds document `N` |
| Renderer.WrittenOnce | index.js:112-115 | no file among the pages and `index.html` is written twice |
| Renderer.OutputFiles | index.js:81-117 | `writeOutput` writes exactly `1.html` … `N.html` and then `index.html`, or nothing when `N = 0`; each page holds its entry's document; `index.html` holds the same text as `N.html` |
| Renderer.LinkTargets | index.js:101-102 | the previous link of page `i + 1` targets page `i`, written with the previous entry's document; the next link targets page `i + 2`, written with the next entry's document |
| Renderer.CopiesIffImage | index.js:94-97 | an iteration copies a file iff its entry has an image |
| Renderer.ImageCopied | index.js:96-97 | the image `base.ext` of the `i + 1`-th entry is copied to `<i + 1>.ext` in the output directory |
| Glob.SortedEntries | index.js:71-75 | `sortedEntries` has one element per name with content, and every element's content file exists |
| Glob.SortedTimesStored | index.js:73 | every sorted time finds a record in `entryMap` |
| Glob.Run | index.js:8-78 | a run is refused with the argument error, or completes with the scan's warnings and the output actions of the sorted entries |
| Glob.SortedEntriesFacts | index.js:71-75 | page `k` shows the record of a listed name with content, and its creation time is the `k`-th sorted time |
| Glob.SameTimeSameRecord | index.js:72-74 | two pages have the same creation time iff they show the same record |
| Glob.CollisionDropsEarlier | index.js:65 | of two names created in the same millisecond, the earlier one gets no page |
| Glob.CollisionRepeatsLast | index.js:65-74 | the last name with a shared creation time is shown on at least two pages |
| Glob.LastWithTimeHasPage | index.js:39-75 | a listed name with content whose creation time no later listed name with content shares is shown on some page |
| Glob.UniqueTimeHasOnePage | index.js:39-75 | a listed name with content whose creation time no other listed name with content shares is shown on exactly one page |
| Glob.PagesInCreationOrder | index.js:72 | when all creation times have the same number of digits, pages follow creation order, strictly when no time repeats |
| Glob.CompletedRunFiles | index.js:77 | a completed run writes `1.html` … `N.html` and `index.html`, with `N` the number of names with content, and writes nothing when there is none |

## Left out

- Filesystem calls are not performed. The model reads a filesystem value and returns the actions a run performs: `mkdirSync`, `copyFileSync` and `writeFileSync`.
- The stylesheet copy from the script's own directory (index.js:119) is not modelled. It does not depend on the notes.
- The asynchronous `fs.readdir` callback and its ignored `err` are not modelled. The listing is `readdir(inDir)`. A missing input directory, where `entries` is undefined and the callback throws, is not modelled.
- `console.error`, `console.warn` and `process.exit` are modelled as values. A refused run returns its `ArgError`, and `Args.Message` gives its text. The second `console.error(args)` line is not modelled. Warnings are a list in printing order.
- `Date.prototype.toUTCString` is the parameter `utc`.
- `os.EOL` is a parameter. It is limited to `"\n"` and `"\r\n"`, the values Node.js uses.
- `path.join` is `dir + "/" + name`. Normalisation of `.`, `..` and repeated separators is not modelled.
- Scanner.Key: `birthtimeMs` is a whole number of milliseconds. Fractional milliseconds, which Node.js can report and which make `'' + t` contain a dot, are not modelled.
- Scanner.HasContent: a directory named `content.txt` is not counted as content. `existsSync` would accept it and the later read would throw.
- Renderer.WriteOutput: requires every sorted entry's content file to still exist. A file removed between the scan and the page loop would make `readFileSync` throw. That case is not modelled.
- Glob.Run: uses the intended argument check `Args.CheckArgs`. The run the written check lets through without an output directory throws in `mkdirSync(undefined)`. That run is shown by `Args.AsWrittenAcceptsMissingOutDir` and is not carried further.
- HTML escaping of names and note text is not applied, as in the source.

## Findings

| source | as written | input that shows it | evidently intended | confidence | as-written member | corrected member |
|---|---|---|---|---|---|---|
| index.js:18 | `args.length < filenameIndex + 2` only requires the input directory to follow the script path | `node /usr/lib/glob/index.js notes`: the check passes and `outDir` is undefined (`Args.AsWrittenAcceptsMissingOutDir`) | `args.length < filenameIndex + 3`, so that both directories are required, as the message "Input and output directory required" says | not executed | Args.CheckArgsAsWritten | Args.CheckArgs |
