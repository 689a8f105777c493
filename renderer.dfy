/** `writeOutput`: one HTML page per sorted entry, numbered from 1, with
    links to the neighbouring pages, the entry's image copied under the page
    number, the note's lines turned into paragraphs, and the last page
    written a second time as `index.html`. */
module Renderer {
  import opened Wrappers
  import opened Text
  import opened Decimal
  import opened Files
  import opened Scanner

  /** `os.EOL`: a line feed, or carriage return and line feed on Windows. */
  predicate ValidEol(eol: string)
  {
    eol == "\n" || eol == "\r\n"
  }

  const ParagraphBreak := "</p><p>"

  const IndexName := "index.html"

  /** The file name of page `p`: `'' + p + '.html'`. */
  function PageName(p: nat): string
  {
    Show(p) + ".html"
  }

  function PagePath(outDir: string, p: nat): string
  {
    PathJoin(outDir, PageName(p))
  }

  function IndexPath(outDir: string): string
  {
    PathJoin(outDir, IndexName)
  }

  // ---------------------------------------------------------------------
  // Navigation

  /** A link of class `cls` to page `p`, labelled with the page number and
      an entry name. */
  function Anchor(cls: string, p: nat, caption: string): string
  {
    "<a class='" + cls + "' href=\"/" + PageName(p) + "\">" + Show(p) + " - " + caption + "</a>"
  }

  /** The link from page `i + 1` back to page `i`. */
  function PrevLink(entries: seq<Entry>, i: nat): (r: string)
    requires i < |entries|
    ensures r == "" <==> i == 0
    ensures i > 0 ==> r == Anchor("prev", i, entries[i - 1].name)
  {
    if i == 0 then "" else Anchor("prev", i, entries[i - 1].name)
  }

  /** The link from page `i + 1` on to page `i + 2`. */
  function NextLink(entries: seq<Entry>, i: nat): (r: string)
    requires i < |entries|
    ensures r == "" <==> i == |entries| - 1
    ensures i < |entries| - 1 ==> r == Anchor("next", i + 2, entries[i + 1].name)
  {
    if i == |entries| - 1 then "" else Anchor("next", i + 2, entries[i + 1].name)
  }

  // ---------------------------------------------------------------------
  // Body text

  /** The note as paragraphs: every line separator becomes a paragraph
      break, and the whole is wrapped in one paragraph. A note without line
      separators is one paragraph holding the note as it is. */
  function Paragraphs(text: string, eol: string): (r: string)
    requires ValidEol(eol)
    ensures StartsWith(r, "<p>") && EndsWith(r, "</p>")
  {
    "<p>" + ReplaceAll(text, eol, ParagraphBreak) + "</p>"
  }

  /** A note without line separators is a single paragraph. */
  lemma SingleParagraph(text: string, eol: string)
    requires ValidEol(eol)
    requires forall k: nat :: !ContainsAt(text, eol, k)
    ensures Paragraphs(text, eol) == "<p>" + text + "</p>"
  {
    ReplaceAllWithoutPattern(text, eol, ParagraphBreak);
  }

  /** Two lines joined by the separator become two paragraphs. */
  lemma TwoParagraphs(a: string, b: string, eol: string)
    requires ValidEol(eol)
    requires forall k: nat :: !ContainsAt(a, eol, k)
    requires forall k: nat :: !ContainsAt(b, eol, k)
    ensures Paragraphs(a + eol + b, eol) == "<p>" + a + "</p><p>" + b + "</p>"
  {
    FirstLineHasNoEol(a, b, eol);
    ReplaceAllFirst(a, b, eol, ParagraphBreak);
    ReplaceAllWithoutPattern(b, eol, ParagraphBreak);
    WrapTwo("<p>", a, ParagraphBreak, b, "</p>");
  }

  /** No separator starts before the one that ends the first line. */
  lemma FirstLineHasNoEol(a: string, b: string, eol: string)
    requires ValidEol(eol)
    requires forall k: nat :: !ContainsAt(a, eol, k)
    ensures forall k :: 0 <= k < |a| ==> !ContainsAt(a + eol + b, eol, k)
  {
    forall k | 0 <= k < |a| ensures !ContainsAt(a + eol + b, eol, k) {
      NoEolInFirstLine(a, b, eol, k);
    }
  }

  /** Regrouping of the wrapped two-paragraph markup. */
  lemma WrapTwo(open: string, a: string, mid: string, b: string, close: string)
    ensures open + (a + mid + b) + close == open + a + mid + b + close
  {
  }

  /** No separator starts inside a line that has none, even when the
      separator follows the line. */
  lemma NoEolInFirstLine(a: string, b: string, eol: string, k: nat)
    requires ValidEol(eol) && k < |a|
    requires forall j: nat :: !ContainsAt(a, eol, j)
    ensures !ContainsAt(a + eol + b, eol, k)
  {
    var s := a + eol + b;
    if k + |eol| <= |a| {
      assert s[k..k + |eol|] == a[k..k + |eol|];
      assert !ContainsAt(a, eol, k);
    } else if k + |eol| <= |s| {
      assert eol == "\r\n" && k + 1 == |a|;
      assert s[k + 1] == '\r';
    }
  }

  lemma ParagraphsHaveNoEol(text: string, eol: string, k: nat)
    requires ValidEol(eol)
    ensures !ContainsAt(Paragraphs(text, eol), eol, k)
  {
    var r := ReplaceAll(text, eol, ParagraphBreak);
    forall j: nat ensures !ContainsAt(r, eol, j) {
      ReplaceAllRemovesPatternAt(text, eol, ParagraphBreak, j);
    }
    WrappedAvoidsPattern("<p>", r, "</p>", eol, k);
  }

  // ---------------------------------------------------------------------
  // Image

  /** `path.split('.')[length - 1]`: what follows the last dot, or the whole
      path when there is no dot. */
  function Extension(path: string): (r: string)
    ensures '.' !in r
  {
    var parts := Split(path, '.');
    parts[|parts| - 1]
  }

  /** The extension of a path is the part after its last dot. */
  lemma ExtensionAfterLastDot(base: string, ext: string)
    requires '.' !in ext
    ensures Extension(base + "." + ext) == ext
  {
    assert base + "." + ext == base + ['.'] + ext;
    SplitAround(base, ext, '.');
    SplitWithoutSeparator(ext, '.');
  }

  /** The name the image of page `i + 1` is copied to. */
  function ImageFile(i: nat, imagePath: string): string
  {
    Show(i + 1) + "." + Extension(imagePath)
  }

  function ImageDiv(i: nat, imagePath: Option<string>): (r: string)
    ensures r == "" <==> imagePath.None?
  {
    match imagePath
    case None => ""
    case Some(p) => "<div id=\"image\"><img src=\"/" + ImageFile(i, p) + "\"></img></div>"
  }

  // ---------------------------------------------------------------------
  // Page

  /** The two timestamps, creation first, each in its own bold line. */
  function Meta(created: string, updated: string): (r: string)
    ensures StartsWith(r, "<div><div><strong>Created " + created + "</strong></div>")
    ensures EndsWith(r, "<div><strong>Last updated " + updated + "</strong></div></div>")
  {
    var createdLine := "<div><div><strong>Created " + created + "</strong></div>";
    var updatedLine := "<div><strong>Last updated " + updated + "</strong></div></div>";
    createdLine + updatedLine
  }

  /** The document of page `i + 1`, in its fixed order: stylesheet and
      title, links, heading, image, timestamps, paragraphs. `utc` stands for
      `Date.prototype.toUTCString`. */
  function PageHtml(entries: seq<Entry>, i: nat, text: string, eol: string, utc: nat -> string): string
    requires i < |entries| && ValidEol(eol)
  {
    var entry := entries[i];
    var links := "<div>" + PrevLink(entries, i) + NextLink(entries, i) + "</div>";
    Concat([
      "<!DOCTYPE HTML><html><head><link rel=\"stylesheet\" href=\"style.css\"><title>", entry.name,
      "</title></head><body>", links, "<h1>", entry.name, "</h1>", ImageDiv(i, entry.imagePath),
      Meta(utc(entry.birthtime), utc(entry.mtime)), Paragraphs(text, eol), "</body></html>"])
  }

  /** The layout of a page: the title and the heading both carry the
      entry's name; the links come between them; the heading is followed by
      the image block, the timestamps and the paragraphs, in that order. */
  lemma PageLayout(entries: seq<Entry>, i: nat, text: string, eol: string, utc: nat -> string)
    requires i < |entries| && ValidEol(eol)
    ensures var e := entries[i];
            var h := PageHtml(entries, i, text, eol, utc);
            var head := "<!DOCTYPE HTML><html><head><link rel=\"stylesheet\" href=\"style.css\"><title>" + e.name + "</title></head><body>";
            var links := "<div>" + PrevLink(entries, i) + NextLink(entries, i) + "</div>";
            var tail := "<h1>" + e.name + "</h1>" + ImageDiv(i, e.imagePath) + Meta(utc(e.birthtime), utc(e.mtime)) +
                        Paragraphs(text, eol) + "</body></html>";
            h == head + links + tail
  {
    var e := entries[i];
    var links := "<div>" + PrevLink(entries, i) + NextLink(entries, i) + "</div>";
    var parts := [
      "<!DOCTYPE HTML><html><head><link rel=\"stylesheet\" href=\"style.css\"><title>", e.name,
      "</title></head><body>", links, "<h1>", e.name, "</h1>", ImageDiv(i, e.imagePath),
      Meta(utc(e.birthtime), utc(e.mtime)), Paragraphs(text, eol), "</body></html>"];
    LayoutParts(parts);
  }

  /** Eleven pieces one after another, grouped as the page's head, links
      and tail. */
  lemma LayoutParts(p: seq<string>)
    requires |p| == 11
    ensures Concat(p) == (p[0] + p[1] + p[2]) + p[3] + (p[4] + p[5] + p[6] + p[7] + p[8] + p[9] + p[10])
  {
    var x := p[0] + p[1] + p[2] + p[3];
    ElevenInOrder(p);
    assert x + (p[4] + p[5]) == x + p[4] + p[5];
    assert x + (p[4] + p[5] + p[6]) == x + p[4] + p[5] + p[6];
    assert x + (p[4] + p[5] + p[6] + p[7]) == x + p[4] + p[5] + p[6] + p[7];
    assert x + (p[4] + p[5] + p[6] + p[7] + p[8]) == x + p[4] + p[5] + p[6] + p[7] + p[8];
    assert x + (p[4] + p[5] + p[6] + p[7] + p[8] + p[9]) == x + p[4] + p[5] + p[6] + p[7] + p[8] + p[9];
  }

  lemma ElevenInOrder(p: seq<string>)
    requires |p| == 11
    ensures Concat(p) == p[0] + p[1] + p[2] + p[3] + p[4] + p[5] + p[6] + p[7] + p[8] + p[9] + p[10]
  {
    assert p[..0] == [];
    ConcatSnoc(p, 0);
    assert Concat(p[..1]) == p[0];
    ConcatSnoc(p, 1);
    assert Concat(p[..2]) == p[0] + p[1];
    ConcatSnoc(p, 2);
    assert Concat(p[..3]) == p[0] + p[1] + p[2];
    ConcatSnoc(p, 3);
    assert Concat(p[..4]) == p[0] + p[1] + p[2] + p[3];
    ConcatSnoc(p, 4);
    assert Concat(p[..5]) == p[0] + p[1] + p[2] + p[3] + p[4];
    ConcatSnoc(p, 5);
    assert Concat(p[..6]) == p[0] + p[1] + p[2] + p[3] + p[4] + p[5];
    ConcatSnoc(p, 6);
    assert Concat(p[..7]) == p[0] + p[1] + p[2] + p[3] + p[4] + p[5] + p[6];
    ConcatSnoc(p, 7);
    assert Concat(p[..8]) == p[0] + p[1] + p[2] + p[3] + p[4] + p[5] + p[6] + p[7];
    ConcatSnoc(p, 8);
    assert Concat(p[..9]) == p[0] + p[1] + p[2] + p[3] + p[4] + p[5] + p[6] + p[7] + p[8];
    ConcatSnoc(p, 9);
    assert Concat(p[..10]) == p[0] + p[1] + p[2] + p[3] + p[4] + p[5] + p[6] + p[7] + p[8] + p[9];
    ConcatSnoc(p, 10);
    assert Concat(p[..11]) == p[0] + p[1] + p[2] + p[3] + p[4] + p[5] + p[6] + p[7] + p[8] + p[9] + p[10];
    assert p[..11] == p;
  }

  predicate ContentReadable(entries: seq<Entry>, fs: FileSystem)
  {
    forall k :: 0 <= k < |entries| ==> entries[k].contentPath in fs.files
  }

  function Html(entries: seq<Entry>, i: nat, fs: FileSystem, eol: string, utc: nat -> string): string
    requires i < |entries| && ValidEol(eol) && ContentReadable(entries, fs)
  {
    PageHtml(entries, i, fs.files[entries[i].contentPath].text, eol, utc)
  }

  /** The document of every page, in page order. */
  function Documents(entries: seq<Entry>, fs: FileSystem, eol: string, utc: nat -> string): (docs: seq<string>)
    requires ValidEol(eol) && ContentReadable(entries, fs)
    ensures |docs| == |entries|
  {
    seq(|entries|, i requires 0 <= i < |entries| => Html(entries, i, fs, eol, utc))
  }

  /** What one iteration of the loop does for page `i + 1`, whose document
      is `docs[i]`. */
  function PageActions(entries: seq<Entry>, docs: seq<string>, i: nat, outDir: string): seq<Action>
    requires i < |entries| == |docs|
  {
    (match entries[i].imagePath
     case None => []
     case Some(p) => [CopyFile(p, PathJoin(outDir, ImageFile(i, p)))]) +
    [WriteFile(PagePath(outDir, i + 1), docs[i])] +
    (if i == |entries| - 1 then [WriteFile(IndexPath(outDir), docs[i])] else [])
  }

  /** The first `k` iterations. */
  function PagesUpTo(entries: seq<Entry>, docs: seq<string>, k: nat, outDir: string): seq<Action>
    requires k <= |entries| == |docs|
  {
    if k == 0 then []
    else PagesUpTo(entries, docs, k - 1, outDir) + PageActions(entries, docs, k - 1, outDir)
  }

  /** Everything `writeOutput` does before the stylesheet copy. */
  function OutputActions(entries: seq<Entry>, outDir: string, fs: FileSystem, eol: string, utc: nat -> string): seq<Action>
    requires ValidEol(eol) && ContentReadable(entries, fs)
  {
    (if Exists(fs, outDir) then [] else [MakeDir(outDir)]) +
    PagesUpTo(entries, Documents(entries, fs, eol, utc), |entries|, outDir)
  }

  /** The body of the `writeOutput` loop for page `i + 1`: copy the image
      under the page number, write the page, and write it once more as
      `index.html` when it is the last. */
  method EmitPage(entries: seq<Entry>, i: nat, outDir: string, fs: FileSystem, eol: string, utc: nat -> string)
    returns (step: seq<Action>)
    requires i < |entries| && ValidEol(eol) && ContentReadable(entries, fs)
    ensures step == PageActions(entries, Documents(entries, fs, eol, utc), i, outDir)
  {
    var entry := entries[i];
    var outputHtml := PageHtml(entries, i, fs.files[entry.contentPath].text, eol, utc);
    ghost var docs := Documents(entries, fs, eol, utc);
    assert outputHtml == docs[i];
    step := [];
    if entry.imagePath.Some? {
      var fileExtension := Extension(entry.imagePath.value);
      step := step + [CopyFile(entry.imagePath.value, PathJoin(outDir, Show(i + 1) + "." + fileExtension))];
    }
    ghost var copies := step;
    assert copies == (match entry.imagePath
                      case None => []
                      case Some(p) => [CopyFile(p, PathJoin(outDir, ImageFile(i, p)))]);
    step := step + [WriteFile(PathJoin(outDir, Show(i + 1) + ".html"), outputHtml)];
    assert step == copies + [WriteFile(PagePath(outDir, i + 1), docs[i])];
    if i == |entries| - 1 {
      step := step + [WriteFile(PathJoin(outDir, "index.html"), outputHtml)];
      assert step == copies + [WriteFile(PagePath(outDir, i + 1), docs[i])] + [WriteFile(IndexPath(outDir), docs[i])];
    } else {
      assert step == copies + [WriteFile(PagePath(outDir, i + 1), docs[i])] + [];
    }
  }

  /** The `writeOutput` loop, after creating the output directory when it
      is missing. */
  method WriteOutput(entries: seq<Entry>, outDir: string, fs: FileSystem, eol: string, utc: nat -> string)
    returns (actions: seq<Action>)
    requires ValidEol(eol) && ContentReadable(entries, fs)
    ensures actions == OutputActions(entries, outDir, fs, eol, utc)
  {
    var made := [];
    if !Exists(fs, outDir) {
      made := [MakeDir(outDir)];
    }
    ghost var docs := Documents(entries, fs, eol, utc);
    var pages := [];
    var i := 0;
    while i < |entries|
      invariant 0 <= i <= |entries|
      invariant pages == PagesUpTo(entries, docs, i, outDir)
    {
      var step := EmitPage(entries, i, outDir, fs, eol, utc);
      pages := pages + step;
      i := i + 1;
    }
    actions := made + pages;
  }

  // ---------------------------------------------------------------------
  // What the loop writes

  /** The paths of pages 1 to `k`. */
  function PagePaths(outDir: string, k: nat): (r: seq<string>)
    ensures |r| == k
  {
    if k == 0 then [] else PagePaths(outDir, k - 1) + [PagePath(outDir, k)]
  }

  lemma {:induction false} PagePathsAt(outDir: string, k: nat, j: nat)
    requires j < k
    ensures PagePaths(outDir, k)[j] == PagePath(outDir, j + 1)
  {
    if j < k - 1 {
      PagePathsAt(outDir, k - 1, j);
    }
  }

  /** Page files have distinct names, none of them `index.html`. */
  lemma PagePathsDistinct(outDir: string, p: nat, q: nat)
    ensures PagePath(outDir, p) == PagePath(outDir, q) <==> p == q
    ensures PagePath(outDir, p) != IndexPath(outDir)
  {
    var prefix := outDir + "/";
    assert PagePath(outDir, p) == prefix + (Show(p) + ".html");
    assert PagePath(outDir, q) == prefix + (Show(q) + ".html");
    assert IndexPath(outDir) == prefix + IndexName;
    if PagePath(outDir, p) == PagePath(outDir, q) {
      assert Show(p) + ".html" == PagePath(outDir, p)[|prefix|..] == Show(q) + ".html";
      assert Show(p) == (Show(p) + ".html")[..|Show(p)|];
      assert Show(q) == (Show(q) + ".html")[..|Show(q)|];
      ShowInjective(p, q);
    }
    assert PagePath(outDir, p)[|prefix|] == Show(p)[0];
    assert IndexPath(outDir)[|prefix|] == 'i';
  }

  lemma WrittenPathsSingle(a: Action)
    ensures WrittenPaths([a]) == if a.WriteFile? then [a.path] else []
  {
  }

  lemma LastWriteSingle(a: Action, path: string)
    ensures LastWrite([a], path) == if a.WriteFile? && a.path == path then Some(a.contents) else None
  {
  }

  /** One iteration's actions: at most one copy, the page, and
      `index.html` after the last page. */
  lemma PageActionsParts(entries: seq<Entry>, docs: seq<string>, i: nat, outDir: string)
    returns (copies: seq<Action>, page: Action, index: seq<Action>)
    requires i < |entries| == |docs|
    ensures PageActions(entries, docs, i, outDir) == copies + [page] + index
    ensures |copies| <= 1 && (copies != [] ==> copies[0].CopyFile?)
    ensures page == WriteFile(PagePath(outDir, i + 1), docs[i])
    ensures index == if i == |entries| - 1 then [WriteFile(IndexPath(outDir), docs[i])] else []
  {
    copies := match entries[i].imagePath
      case None => []
      case Some(p) => [CopyFile(p, PathJoin(outDir, ImageFile(i, p)))];
    page := WriteFile(PagePath(outDir, i + 1), docs[i]);
    index := if i == |entries| - 1 then [WriteFile(IndexPath(outDir), docs[i])] else [];
  }

  lemma WrittenPathsExtend(prev: seq<Action>, step: seq<Action>, paths: seq<string>, page: string, tail: seq<string>)
    requires WrittenPaths(prev) == paths && WrittenPaths(step) == [page] + tail
    ensures WrittenPaths(prev + step) == paths + [page] + tail
  {
    WrittenPathsAppend(prev, step);
  }

  /** Iteration `i` writes page `i + 1`, then `index.html` if it is the
      last. */
  lemma StepWritten(entries: seq<Entry>, docs: seq<string>, i: nat, outDir: string)
    requires i < |entries| == |docs|
    ensures WrittenPaths(PageActions(entries, docs, i, outDir)) ==
            [PagePath(outDir, i + 1)] + (if i == |entries| - 1 then [IndexPath(outDir)] else [])
  {
    var copies, page, index := PageActionsParts(entries, docs, i, outDir);
    WrittenPathsAppend(copies + [page], index);
    WrittenPathsAppend(copies, [page]);
    if copies != [] {
      assert copies == [copies[0]];
      WrittenPathsSingle(copies[0]);
    }
    WrittenPathsSingle(page);
    if index != [] {
      WrittenPathsSingle(index[0]);
    }
  }

  /** The first `k` iterations write pages 1 to `k` in order, and
      `index.html` once, after the last page. */
  lemma {:induction false} PagesWritten(entries: seq<Entry>, docs: seq<string>, k: nat, outDir: string)
    requires k <= |entries| == |docs|
    ensures WrittenPaths(PagesUpTo(entries, docs, k, outDir)) ==
            PagePaths(outDir, k) + (if k == |entries| && k > 0 then [IndexPath(outDir)] else [])
  {
    if k > 0 {
      PagesWritten(entries, docs, k - 1, outDir);
      var prev := PagesUpTo(entries, docs, k - 1, outDir);
      var step := PageActions(entries, docs, k - 1, outDir);
      StepWritten(entries, docs, k - 1, outDir);
      WrittenPathsExtend(prev, step, PagePaths(outDir, k - 1), PagePath(outDir, k),
                         if k == |entries| then [IndexPath(outDir)] else []);
    }
  }

  /** After the first `k` iterations, page `p` holds the document of the
      `p`-th entry when `p <= k`, and has not been written otherwise. */
  lemma {:induction false} PageContents(entries: seq<Entry>, docs: seq<string>, k: nat, outDir: string, p: nat)
    requires k <= |entries| == |docs|
    requires p >= 1
    ensures LastWrite(PagesUpTo(entries, docs, k, outDir), PagePath(outDir, p)) ==
            if p <= k then Some(docs[p - 1]) else None
  {
    if k > 0 {
      PageContents(entries, docs, k - 1, outDir, p);
      var path := PagePath(outDir, p);
      var copies, page, index := PageActionsParts(entries, docs, k - 1, outDir);
      LastWriteAppend(PagesUpTo(entries, docs, k - 1, outDir), copies + [page] + index, path);
      LastWriteAppend(copies + [page], index, path);
      LastWriteAppend(copies, [page], path);
      if copies != [] {
        assert copies == [copies[0]];
        LastWriteSingle(copies[0], path);
      }
      LastWriteSingle(page, path);
      PagePathsDistinct(outDir, p, k);
      if index != [] {
        LastWriteSingle(index[0], path);
      }
    }
  }

  /** `index.html` is written only by the last iteration, with the last
      page's document. */
  lemma {:induction false} IndexContents(entries: seq<Entry>, docs: seq<string>, k: nat, outDir: string)
    requires k <= |entries| == |docs|
    ensures LastWrite(PagesUpTo(entries, docs, k, outDir), IndexPath(outDir)) ==
            if k == |entries| && k > 0 then Some(docs[k - 1]) else None
  {
    if k > 0 {
      IndexContents(entries, docs, k - 1, outDir);
      var path := IndexPath(outDir);
      var copies, page, index := PageActionsParts(entries, docs, k - 1, outDir);
      LastWriteAppend(PagesUpTo(entries, docs, k - 1, outDir), copies + [page] + index, path);
      LastWriteAppend(copies + [page], index, path);
      LastWriteAppend(copies, [page], path);
      if copies != [] {
        assert copies == [copies[0]];
        LastWriteSingle(copies[0], path);
      }
      LastWriteSingle(page, path);
      PagePathsDistinct(outDir, k, k);
      if index != [] {
        LastWriteSingle(index[0], path);
      }
    }
  }

  /** The writes of the whole loop, after an optional `mkdirSync`: pages
      `1.html` to `N.html` in order, then `index.html` when there is at
      least one page, each page holding its own document and `index.html`
      the last one. */
  lemma LoopFiles(entries: seq<Entry>, docs: seq<string>, outDir: string, made: seq<Action>)
    requires |entries| == |docs|
    requires made == [] || made == [MakeDir(outDir)]
    ensures var n := |entries|;
            WrittenPaths(made + PagesUpTo(entries, docs, n, outDir)) ==
            PagePaths(outDir, n) + (if n > 0 then [IndexPath(outDir)] else [])
    ensures forall p :: 1 <= p <= |entries| ==>
              LastWrite(made + PagesUpTo(entries, docs, |entries|, outDir), PagePath(outDir, p)) == Some(docs[p - 1])
    ensures LastWrite(made + PagesUpTo(entries, docs, |entries|, outDir), IndexPath(outDir)) ==
            if |entries| > 0 then Some(docs[|entries| - 1]) else None
  {
    var n := |entries|;
    var pages := PagesUpTo(entries, docs, n, outDir);
    WrittenPathsAppend(made, pages);
    if made != [] {
      WrittenPathsSingle(made[0]);
    }
    PagesWritten(entries, docs, n, outDir);
    forall p | 1 <= p <= n
      ensures LastWrite(made + pages, PagePath(outDir, p)) == Some(docs[p - 1])
    {
      LastWriteAppend(made, pages, PagePath(outDir, p));
      PageContents(entries, docs, n, outDir, p);
    }
    LastWriteAppend(made, pages, IndexPath(outDir));
    IndexContents(entries, docs, n, outDir);
    if made != [] {
      LastWriteSingle(made[0], IndexPath(outDir));
    }
  }

  /** No file is written twice. */
  lemma WrittenOnce(outDir: string, n: nat)
    ensures var w := PagePaths(outDir, n) + (if n > 0 then [IndexPath(outDir)] else []);
            forall a, b :: 0 <= a < b < |w| ==> w[a] != w[b]
  {
    var w := PagePaths(outDir, n) + (if n > 0 then [IndexPath(outDir)] else []);
    forall a, b | 0 <= a < b < |w| ensures w[a] != w[b] {
      PagePathsAt(outDir, n, a);
      if b < n {
        PagePathsAt(outDir, n, b);
        PagePathsDistinct(outDir, a + 1, b + 1);
      } else {
        PagePathsDistinct(outDir, a + 1, a + 1);
      }
    }
  }

  /** The files `writeOutput` writes are exactly `1.html` to `N.html`, in
      order, then `index.html` when there is at least one page (no two of
      them alike, by `WrittenOnce`); page `p` holds the document of the `p`-th entry and
      `index.html` the same document as `N.html`. */
  lemma OutputFiles(entries: seq<Entry>, outDir: string, fs: FileSystem, eol: string, utc: nat -> string)
    requires ValidEol(eol) && ContentReadable(entries, fs)
    ensures var n := |entries|;
            WrittenPaths(OutputActions(entries, outDir, fs, eol, utc)) ==
            PagePaths(outDir, n) + (if n > 0 then [IndexPath(outDir)] else [])
    ensures forall p :: 1 <= p <= |entries| ==>
              LastWrite(OutputActions(entries, outDir, fs, eol, utc), PagePath(outDir, p)) ==
              Some(Documents(entries, fs, eol, utc)[p - 1])
    ensures LastWrite(OutputActions(entries, outDir, fs, eol, utc), IndexPath(outDir)) ==
            if |entries| > 0 then LastWrite(OutputActions(entries, outDir, fs, eol, utc), PagePath(outDir, |entries|))
            else None
  {
    var docs := Documents(entries, fs, eol, utc);
    if Exists(fs, outDir) {
      LoopFiles(entries, docs, outDir, []);
    } else {
      LoopFiles(entries, docs, outDir, [MakeDir(outDir)]);
    }
  }

  // ---------------------------------------------------------------------
  // Links and images in the written pages

  /** An action of iteration `i` is still among the actions after any
      later iteration. */
  lemma {:induction false} PageActionsKept(entries: seq<Entry>, docs: seq<string>, i: nat, k: nat, outDir: string, a: Action)
    requires i < k <= |entries| == |docs|
    requires a in PageActions(entries, docs, i, outDir)
    ensures a in PagesUpTo(entries, docs, k, outDir)
  {
    if i < k - 1 {
      PageActionsKept(entries, docs, i, k - 1, outDir, a);
    }
  }

  /** The links of page `i + 1` point at the pages that hold the
      neighbouring entries' documents: the previous link at page `i`, the
      next link at page `i + 2`. */
  lemma LinkTargets(entries: seq<Entry>, outDir: string, fs: FileSystem, eol: string, utc: nat -> string, i: nat)
    requires ValidEol(eol) && ContentReadable(entries, fs) && i < |entries|
    ensures i > 0 ==>
              PrevLink(entries, i) == Anchor("prev", i, entries[i - 1].name) &&
              LastWrite(OutputActions(entries, outDir, fs, eol, utc), PagePath(outDir, i)) ==
              Some(Documents(entries, fs, eol, utc)[i - 1])
    ensures i + 1 < |entries| ==>
              NextLink(entries, i) == Anchor("next", i + 2, entries[i + 1].name) &&
              LastWrite(OutputActions(entries, outDir, fs, eol, utc), PagePath(outDir, i + 2)) ==
              Some(Documents(entries, fs, eol, utc)[i + 1])
  {
    OutputFiles(entries, outDir, fs, eol, utc);
  }

  /** An iteration copies a file exactly when its entry has an image. */
  lemma CopiesIffImage(entries: seq<Entry>, docs: seq<string>, i: nat, outDir: string)
    requires i < |entries| == |docs|
    ensures (exists a :: a in PageActions(entries, docs, i, outDir) && a.CopyFile?) <==> entries[i].imagePath.Some?
  {
    var copies, page, index := PageActionsParts(entries, docs, i, outDir);
    if entries[i].imagePath.Some? {
      assert copies[0] in PageActions(entries, docs, i, outDir);
    }
  }

  /** The image `base.ext` of the `i + 1`-th entry is copied to
      `<i + 1>.ext` in the output directory. */
  lemma ImageCopied(entries: seq<Entry>, outDir: string, fs: FileSystem, eol: string, utc: nat -> string,
                    i: nat, base: string, ext: string)
    requires ValidEol(eol) && ContentReadable(entries, fs) && i < |entries|
    requires entries[i].imagePath == Some(base + "." + ext) && '.' !in ext
    ensures CopyFile(base + "." + ext, PathJoin(outDir, Show(i + 1) + "." + ext)) in
            OutputActions(entries, outDir, fs, eol, utc)
  {
    ExtensionAfterLastDot(base, ext);
    var docs := Documents(entries, fs, eol, utc);
    var copy := CopyFile(base + "." + ext, PathJoin(outDir, Show(i + 1) + "." + ext));
    assert ImageFile(i, base + "." + ext) == Show(i + 1) + "." + ext;
    assert PageActions(entries, docs, i, outDir)[0] == copy;
    PageActionsKept(entries, docs, i, |entries|, outDir, copy);
    var made: seq<Action> := if Exists(fs, outDir) then [] else [MakeDir(outDir)];
    assert OutputActions(entries, outDir, fs, eol, utc) == made + PagesUpTo(entries, docs, |entries|, outDir);
  }

  /** The page of an entry with image `base.ext` shows the copy
      `<i + 1>.ext`, by an absolute path from the site root. */
  lemma ImageShown(i: nat, base: string, ext: string)
    requires '.' !in ext
    ensures ImageDiv(i, Some(base + "." + ext)) ==
            "<div id=\"image\"><img src=\"/" + Show(i + 1) + "." + ext + "\"></img></div>"
  {
    ExtensionAfterLastDot(base, ext);
  }
}
