/**
  The walk over the input directory that fills the page arena. The file
  system itself is a value here: a directory is the list of its entries, and
  an entry or a file that cannot be read says so instead of holding its
  contents. What the program does with each entry (skip it, descend into it,
  parse it as a document, or add it as a media file) is modelled exactly;
  the reading and the logging are not.
*/
module FileSystem {
  import opened Strings
  import opened Documents
  import opened Naming
  import opened Wiki
  import opened MarkdownScan
  import opened Markdown

  /** The extension of markdown input files. */
  const INPUT_EXT: string := "md"
  /** The extensions of image files copied as media. */
  const IMAGE_EXTS: seq<string> := ["jpg", "jpeg", "png"]

  /** `is_hidden`: the file name starts with a dot. */
  predicate IsHidden(name: string) {
    StartsWith(name, ".")
  }

  /** `title_from_filename`: the capitalised text before the first '.'. */
  function TitleFromFilename(filename: string): (r: string)
    ensures exists stem :: (StartsWith(filename, stem) && '.' !in stem
      && (stem == filename || filename[|stem|] == '.') && r == Capitalise(stem))
  {
    var c := Consume(filename, Char('.'));
    assert filename[..|c.taken|] == c.taken;
    Capitalise(c.taken)
  }

  /** A file name read up to its first dot: the title is the capitalised
      stem, whatever comes after the dot. */
  lemma TitleFromStem(stem: string, rest: string)
    requires '.' !in stem
    ensures TitleFromFilename(stem + "." + rest) == Capitalise(stem)
    ensures TitleFromFilename(stem) == Capitalise(stem)
  {
    var s := stem + "." + rest;
    assert s == stem + ("." + rest);
    ConsumeUnique(s, Char('.'), stem, "." + rest);
    ConsumeUnique(stem, Char('.'), stem, []);
    assert stem + [] == stem;
  }

  /** The output name of a markdown file: every ".md" becomes ".html". */
  function OutputFilename(name: string): (r: string)
    ensures (forall j :: 0 <= j <= |name| ==> !StartsWith(name[j..], ".md")) ==> r == name
  {
    assert "." + INPUT_EXT == ".md";
    if forall j :: 0 <= j <= |name| ==> !StartsWith(name[j..], ".md") then
      ReplaceAbsent(name, "." + INPUT_EXT, "." + OUTPUT_EXT);
      Replace(name, "." + INPUT_EXT, "." + OUTPUT_EXT)
    else
      Replace(name, "." + INPUT_EXT, "." + OUTPUT_EXT)
  }

  /** A name ending in ".md", with no other ".md" in it, ends in ".html"
      instead. */
  lemma {:induction false} OutputFilenameOfMarkdown(stem: string)
    requires forall j :: 0 <= j < |stem| ==> !StartsWith((stem + ".md")[j..], ".md")
    ensures OutputFilename(stem + ".md") == stem + ".html"
    decreases |stem|
  {
    var s := stem + ".md";
    if stem == [] {
      assert s == ".md" && s[3..] == [];
    } else {
      assert !StartsWith(s[0..], ".md");
      assert s[1..] == stem[1..] + ".md";
      forall j | 0 <= j < |stem[1..]|
        ensures !StartsWith((stem[1..] + ".md")[j..], ".md")
      {
        assert (stem[1..] + ".md")[j..] == s[j + 1..];
      }
      OutputFilenameOfMarkdown(stem[1..]);
      assert [stem[0]] + (stem[1..] + ".html") == stem + ".html";
    }
  }

  /** A page's title: the document's heading title, or else the title made
      from the output file name. */
  function PageTitle(d: Doc, filename: string): (r: string)
    ensures TitleFromHeading(d).Some? ==> r == TitleFromHeading(d).value
    ensures TitleFromHeading(d).None? ==> r == TitleFromFilename(filename)
  {
    match TitleFromHeading(d)
    case Some(t) => t
    case None => TitleFromFilename(filename)
  }

  /** `Path::extension`: the text after the last dot of the file name; none
      when there is no dot, when the only dot starts the name, or for "..". */
  function Extension(name: string): (r: Option<string>)
    ensures r.Some? ==> '.' !in r.value && EndsWith(name, "." + r.value) && |r.value| + 1 < |name|
    ensures r.None? && name != ".." ==> '.' !in name || (name[0] == '.' && '.' !in name[1..])
  {
    if name == ".." then None
    else match LastIndexOf(name, '.')
      case None => None
      case Some(i) =>
        if i == 0 then
          assert forall j :: 0 <= j < |name[1..]| ==> name[1..][j] == name[j + 1];
          None
        else
          var ext := name[i + 1..];
          assert name[|name| - |"." + ext|..] == "." + ext;
          assert forall j :: 0 <= j < |ext| ==> ext[j] == name[i + 1 + j];
          Some(ext)
  }

  /** What the walk does with one directory entry. */
  datatype Action = Skip | Descend | ReadDocument | AddImage

  /** The choice made for each entry of a directory: hidden entries are
      skipped, directories descended into, and files kept only for the
      markdown extension (documents) and the image extensions (media). */
  function Classify(name: string, isDir: bool, isFile: bool): (a: Action)
    ensures IsHidden(name) ==> a == Skip
    ensures a == Descend <==> !IsHidden(name) && isDir
    ensures a == ReadDocument <==> !IsHidden(name) && !isDir && isFile && Extension(name) == Some(INPUT_EXT)
    ensures a == AddImage <==> (!IsHidden(name) && !isDir && isFile
      && Extension(name).Some? && Extension(name).value in IMAGE_EXTS)
  {
    if IsHidden(name) then Skip
    else if isDir then Descend
    else if isFile then
      match Extension(name)
      case Some(ext) =>
        if ext == INPUT_EXT then ReadDocument
        else if ext in IMAGE_EXTS then AddImage
        else Skip
      case None => Skip
    else Skip
  }

  /** A visible "name.md" file is read as a document, and "name.png" (or jpg,
      jpeg) is added as media. */
  lemma ClassifyByExtension(stem: string)
    requires stem != [] && '.' !in stem
    ensures Classify(stem + ".md", false, true) == ReadDocument
    ensures Classify(stem + ".png", false, true) == AddImage
  {
    assert !IsHidden(stem + ".md") by { assert (stem + ".md")[0] == stem[0]; }
    assert !IsHidden(stem + ".png") by { assert (stem + ".png")[0] == stem[0]; }
    LastIndexOfJoin(stem, '.', "md");
    assert stem + ".md" == stem + ['.'] + "md";
    LastIndexOfJoin(stem, '.', "png");
    assert stem + ".png" == stem + ['.'] + "png";
    assert (stem + ".md")[|stem| + 1..] == "md";
    assert (stem + ".png")[|stem| + 1..] == "png";
  }

  // ---------------------------------------------------------------------
  // The walk

  /** A directory entry. A file that cannot be read holds None and a
      directory that cannot be listed is not `readable`; `Other` stands for
      anything that is neither a file nor a directory. */
  datatype Entry =
    | File(name: string, contents: Option<string>)
    | Dir(name: string, readable: bool, entries: seq<Entry>)
    | Other(name: string)

  function ActionOf(e: Entry): Action {
    Classify(e.name, e.Dir?, e.File?)
  }

  /** `process_document`: parse the file, name the page after the output
      file name, take the title from the heading or the file name, and add
      an index page for "index.html" and a document page otherwise. A file
      that cannot be read adds nothing. */
  function ProcessDocument(t: WikiTree, parent: Id, name: string, contents: Option<string>): (r: WikiTree)
    requires Valid(t)
    ensures Valid(r)
    ensures contents.None? ==> r == t
    ensures contents.Some? ==> |r.pages| == |t.pages| + 1 && r.pages[..|t.pages|] == t.pages
    ensures contents.Some? ==>
      var p := r.pages[|t.pages|];
      var d := ParseDocument(contents.value);
      var filename := OutputFilename(name);
      && (p.kind == Index(d) <==> filename == INDEX_FILE)
      && (p.kind == Document(d) <==> filename != INDEX_FILE)
      && p.title == PageTitle(d, filename)
      && p.url == t.pages[AttachPoint(t, parent)].url + "/" + filename
  {
    match contents
    case None => t
    case Some(markdown) =>
      var filename := OutputFilename(name);
      var d := ParseDocument(markdown);
      var title := PageTitle(d, filename);
      if filename == INDEX_FILE then
        AddValid(t, Index(d), parent, filename, title);
        AddIndex(t, parent, filename, title, d).0
      else
        AddValid(t, Document(d), parent, filename, title);
        AddDoc(t, parent, filename, title, d).0
  }

  /** `process_directory`: add the directory (the top one is excluded and
      stands for the root), then handle its entries in order. A directory
      that cannot be listed adds nothing. */
  function ProcessDirectory(t: WikiTree, exclude: bool, parent: Id, d: Entry, path: string): (r: WikiTree)
    requires Valid(t) && d.Dir?
    ensures Valid(r)
    ensures |r.pages| >= |t.pages| && r.pages[..|t.pages|] == t.pages
    ensures !d.readable ==> r == t
    decreases d, 1
  {
    if !d.readable then t
    else if exclude then ProcessEntries(t, ROOT, d.entries, path)
    else
      AddValid(t, Directory, parent, d.name, Capitalise(Replace(d.name, "-", " ")));
      var (t', node) := AddDir(t, parent, d.name);
      var r := ProcessEntries(t', node, d.entries, path);
      assert r.pages[..|t.pages|] == r.pages[..|t'.pages|][..|t.pages|];
      r
  }

  /** One entry of the loop, in the directory with page `node`. */
  function ProcessEntry(t: WikiTree, node: Id, e: Entry, path: string): (r: WikiTree)
    requires Valid(t)
    ensures Valid(r)
    ensures |r.pages| >= |t.pages| && r.pages[..|t.pages|] == t.pages
    ensures ActionOf(e) == Skip ==> r == t
    decreases e, 2
  {
    var filePath := path + "/" + e.name;
    match ActionOf(e)
    case Skip => t
    case Descend => ProcessDirectory(t, false, node, e, filePath)
    case ReadDocument => ProcessDocument(t, node, e.name, e.contents)
    case AddImage =>
      var title := TitleFromFilename(e.name);
      AddValid(t, Media(filePath), node, e.name, title);
      AddMedia(t, node, e.name, title, filePath).0
  }

  /** The loop over a directory's entries. */
  function ProcessEntries(t: WikiTree, node: Id, entries: seq<Entry>, path: string): (r: WikiTree)
    requires Valid(t)
    ensures Valid(r)
    ensures |r.pages| >= |t.pages| && r.pages[..|t.pages|] == t.pages
    decreases entries, 0
  {
    if entries == [] then t
    else
      var t' := ProcessEntry(t, node, entries[0], path);
      var r := ProcessEntries(t', node, entries[1..], path);
      assert r.pages[..|t.pages|] == r.pages[..|t'.pages|][..|t.pages|];
      r
  }

  /** The number of pages an entry contributes, counted from the entries
      alone: one per visible readable markdown file and per image, and for a
      visible readable subdirectory one for itself and what it holds. */
  function PagesOf(e: Entry): nat
    decreases e
  {
    match ActionOf(e)
    case Skip => 0
    case Descend => if e.readable then 1 + PagesOfAll(e.entries) else 0
    case ReadDocument => if e.contents.Some? then 1 else 0
    case AddImage => 1
  }

  function PagesOfAll(entries: seq<Entry>): nat
    decreases entries
  {
    if entries == [] then 0 else PagesOf(entries[0]) + PagesOfAll(entries[1..])
  }

  /** The walk adds exactly the pages its listing accounts for. */
  lemma {:induction false} ProcessEntriesCount(t: WikiTree, node: Id, entries: seq<Entry>, path: string)
    requires Valid(t)
    ensures |ProcessEntries(t, node, entries, path).pages| == |t.pages| + PagesOfAll(entries)
    decreases entries, 0
  {
    if entries != [] {
      var t' := ProcessEntry(t, node, entries[0], path);
      ProcessEntryCount(t, node, entries[0], path);
      ProcessEntriesCount(t', node, entries[1..], path);
    }
  }

  /** One entry adds the pages it accounts for. */
  lemma {:induction false} ProcessEntryCount(t: WikiTree, node: Id, e: Entry, path: string)
    requires Valid(t)
    ensures |ProcessEntry(t, node, e, path).pages| == |t.pages| + PagesOf(e)
    decreases e, 2
  {
    if ActionOf(e) == Descend {
      ProcessDirectoryCount(t, node, e, path + "/" + e.name);
    }
  }

  /** A subdirectory adds its own page and the pages of its entries. */
  lemma {:induction false} ProcessDirectoryCount(t: WikiTree, parent: Id, d: Entry, path: string)
    requires Valid(t) && d.Dir?
    ensures |ProcessDirectory(t, false, parent, d, path).pages|
      == |t.pages| + (if d.readable then 1 + PagesOfAll(d.entries) else 0)
    decreases d, 1
  {
    if d.readable {
      AddValid(t, Directory, parent, d.name, Capitalise(Replace(d.name, "-", " ")));
      var (t', node) := AddDir(t, parent, d.name);
      ProcessEntriesCount(t', node, d.entries, path);
    }
  }
}
