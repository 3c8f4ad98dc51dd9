# mdwiki core, modelled in Dafny

mdwiki turns a directory of Markdown files into a static HTML wiki. It has
five parts, each modelled as pure functions over immutable values:

1. **Reading.** It walks the input directory. Each `.md` file becomes a
   document page, `index.md` the index page of its directory, and each
   image a media page.
2. **Parsing.** It parses each document with a small recursive-descent
   Markdown parser into a tree of nodes.
3. **Indexing.** It gives every directory that lacks an index page a
   generated one.
4. **Rendering.** It renders every document page to HTML. A page has:
   - a navigation tree of the whole wiki;
   - a breadcrumb trail;
   - link targets resolved by a fuzzy, breadth-first search of the page
     arena;
   - sections whose tags carry passwords replaced by encrypted spans.
5. **Key derivation.** It derives the AES key from a password.

The modules follow the program:

| module | file | program part |
|---|---|---|
| `Strings` | strings.dfy | the standard-library string operations the program uses (trim, split, join, replace, find, ASCII case) |
| `Model` | model.dfy | nodes, their elements and attributes, emptiness and `add_text` (src/model.rs) |
| `Documents` | doc.dfy | `Doc` and its title (src/model/doc.rs) |
| `Wiki` | wiki.dfy | the page arena and the link-target search (src/model/wiki.rs) |
| `MarkdownScan` | markdown_scan.dfy | the cursor helpers of the parser (src/parse/md/mod.rs) |
| `Markdown` | markdown.dfy | the parser itself (src/parse/md/mod.rs) |
| `MarkdownExamples` | markdown_examples.dfy | the parser's documented behaviour on concrete inputs (src/parse/md/test.rs) |
| `Naming` | naming.dfy | title capitalisation and tag/password selection (src/render/mod.rs) |
| `Css` | css.dfy | class and id attributes (src/render/css.rs) |
| `FileSystem` | fs.dfy | the decisions of the directory walk (src/parse/fs/mod.rs) |
| `Nav` | nav.dfy | navigation tree, breadcrumb, generated index documents (src/render/nav.rs) |
| `NavExamples` | nav_examples.dfy | the navigation tests (src/render/nav.rs) |
| `Indexes` | indexes.dfy | the auto-indexing pass `add_indexes` (src/main.rs) |
| `HtmlWriter` | html_writer.dfy | the `Html` writer: output buffer, open-tag stack, last closed tag (src/render/html.rs) |
| `Sections` | sections.dfy | which nodes a password-protected heading takes with it (src/render/html.rs) |
| `Secrets` | secrets.dfy | `encrypt_text` over an abstract cipher (src/render/html.rs) |
| `Render` | render.dfy | `render`, `render_nodes`, `render_root_range`, `render_document` (src/render/html.rs) |
| `Aes` | aes.dfy | the 32-byte key of `cipher` (src/render/html/aes.rs) |

Pages live in an append-only sequence; a page's id is its index. Each
page's `path` lists the ids from the root down to itself. The invariant
`Wiki.Valid` holds that arena together:

- every path ends at the page's own id;
- every path extends the path of the page's parent;
- a parent's id is smaller than its child's.

Every arena-building operation is proved to keep `Wiki.Valid`. The
recursive walks (breadcrumbs, link search, navigation) use it as their
termination measure.

## Model

| member | source | states |
|---|---|---|
| Model.TextNode | src/model.rs:38-40 | a text node holds its string with the surrounding whitespace removed, and has no attributes or tags |
| Model.ListNode | src/parse/md/test.rs:80-94 | every child of a list is an item; an item child is kept as it is, and any other node is wrapped in an item of its own |
| Model.WithAttr | src/render/html.rs:309-311 | setting an attribute makes it read back as the new value and leaves every other attribute, the element and the tags alone |
| Model.GetAttr | src/render/css.rs:6 | a lookup finds nothing exactly when no pair has the key; anything found is a pair of the list |
| Model.SetAttr | src/render/nav.rs:53 | after setting, the key reads as the new value and every other key reads as before; a key not yet present is appended |
| Model.AllEmptyIff | src/model.rs:64-68 | the recursive "all children empty" test means every child is empty |
| Model.ContainerEmptyIff | src/model.rs:64-68 | a container (style, heading, item, list, block, inline) is empty exactly when every child is empty, so a container without children is empty |
| Model.ContainerEmptyIsAllEmpty | src/model.rs:64-68 | a container's emptiness is the emptiness of its child list |
| Model.AllEmptyAppend | src/model.rs:68 | appending a child keeps a list all-empty exactly when the new child is empty |
| Model.TextKindsEmptyIff | src/model.rs:69-71 | a text, code or code block is empty exactly when its string is blank |
| Model.TextNodeEmptyIff | src/model.rs:69-71 | a text node built from a string is empty exactly when the string is blank |
| Model.CodeNodeEmptyIff | src/model.rs:69-71 | a code node built from a string is empty exactly when the string is blank |
| Model.LinkImageEmptiness | src/model.rs:62-63 | a link is empty exactly when its text is empty; an image exactly when its url is empty |
| Model.LinkNodeEmptyIff | src/model.rs:63 | a link built from text and url is empty exactly when the text is blank, whatever the url |
| Model.ImageNodeEmptyIff | src/model.rs:62 | an image built from alt text and url is empty exactly when the url is blank, whatever the alt text |
| Model.AppendFragment | src/model.rs:50-55 | the trimmed fragment is appended, separated by one space only when the string already holds text |
| Model.AddText | src/model.rs:42-57 | text, code and code blocks grow by the trimmed fragment; containers gain a new trimmed text child; empty, image, link, details and table nodes are unchanged; attributes and tags never change |
| Model.AppendFragmentBlank | src/model.rs:50-55 | the grown string is blank exactly when both the old string and the fragment are blank |
| Model.AddTextEmptinessText | src/model.rs:50-55 | adding text to a text, code or code block leaves it empty exactly when it was empty and the fragment is blank |
| Model.AddTextEmptinessContainer | src/model.rs:45-49 | adding text to a container leaves it empty exactly when it was empty and the fragment is blank |
| Documents.FromNodes | src/model/doc.rs:39-43 | a document built from nodes holds exactly those nodes |
| Documents.Tags | src/model/doc.rs:11-17 | a document's tags are those of its first node, and none for an empty document |
| Documents.FirstText | src/model/doc.rs:22-26 | the text of the first text child, and none exactly when no child is text |
| Documents.TitleFrom | src/model/doc.rs:19-31 | no title exactly when no node is a level-1 heading with a text child; otherwise the first text child of the first such heading |
| Documents.TitleFromHeading | src/model/doc.rs:19-31 | the same for a document: the title is the text of the first text child of the first level-1 heading that has one |
| Documents.TitleSkipsOtherNodes | src/model/doc.rs:20-21 | a leading node that is not a level-1 heading with text does not change the title |
| Wiki.Filename | src/model/wiki.rs:43-49 | the file name is what follows the last '/' of the url, and empty when the url has no '/' |
| Wiki.PageDocument | src/model/wiki.rs:63-69 | document and index pages have a document, and it is theirs; directories and media have none |
| Wiki.New | src/model/wiki.rs:101-112 | a new wiki is one valid arena holding only the root directory "Index", with path [0] and empty url |
| Wiki.Get | src/model/wiki.rs:175-177 | a page is found exactly for an id inside the arena, and it is the page at that index |
| Wiki.Add | src/model/wiki.rs:114-138 | the new page gets the next id and is appended, leaving earlier pages alone; its path is its parent's plus its id, its url its parent's plus "/" and the file name; an unknown parent means the root |
| Wiki.AddValid | src/model/wiki.rs:114-138 | adding a page keeps the arena invariant |
| Wiki.AddParent | src/model/wiki.rs:121-135 | the new page's id is its own, its parent is the given parent (or the root when that is unknown), and it descends from every ancestor of its parent |
| Wiki.AddFilename | src/model/wiki.rs:43-49 | a page added under a file name without '/' reports that file name back |
| Wiki.FilenameExample | src/model/wiki.rs:241-251 | a document added as "title.html" in a directory reports "title.html" |
| Wiki.DescendsFromSelfAndRoot | src/model/wiki.rs:71-73 | every page descends from itself and from the root |
| Wiki.RootPath | src/model/wiki.rs:75-77 | a page is the root exactly when its path has one entry, and that entry is the root |
| Wiki.PathLengthBound | src/model/wiki.rs:121-128 | a path is no longer than the page's id plus one, since every ancestor has a smaller id |
| Wiki.PathPrefix | src/model/wiki.rs:127-128 | every prefix of a path is the path of the page it ends at |
| Wiki.ChildPath | src/model/wiki.rs:121-128 | a child's id exceeds its parent's and its path is the parent's path plus its own id |
| Wiki.ChildrenBelow | src/model/wiki.rs:183-188 | the children among the first n pages: exactly the pages whose parent is the given id, in increasing id order |
| Wiki.Children | src/model/wiki.rs:183-188 | the children of a page are exactly the pages whose parent it is, in arena order |
| Wiki.GetParent | src/model/wiki.rs:179-181 | a page's parent is found exactly when its path has a parent entry naming a page of the arena, and it is that entry |
| Wiki.LinkTargetFilename | src/model/wiki.rs:198-203 | the expected file name of a link: the title lower-cased with spaces as '-', then '.', then the extension |
| Wiki.FirstMatch | src/model/wiki.rs:209-213 | the page found answers to the link by file name or case-insensitive title, and no page before it in the level does; none exactly when no page of the level answers |
| Wiki.NextLevel | src/model/wiki.rs:215 | the next generation holds exactly the children of the pages of the current one |
| Wiki.SearchLevels | src/model/wiki.rs:208-217 | the breadth-first scan of a generation and its descendants returns only a page that answers to the link |
| Wiki.StrictlyBelowIsDescendent | src/model/wiki.rs:71-73 | reaching a page by repeated child steps means being a different page with the start on its path |
| Wiki.SearchLevelsSound | src/model/wiki.rs:208-217 | whatever the breadth-first scan returns answers to the link and lies below the starting generation |
| Wiki.SearchLevelsComplete | src/model/wiki.rs:208-217 | the scan returns nothing only when no page below the starting generation answers to the link |
| Wiki.SearchLevelsNearest | src/model/wiki.rs:208-217 | if some page below answers to the link, the scan returns one at the same depth or shallower |
| Wiki.UnderChildren | src/model/wiki.rs:208-215 | the pages below a page are exactly those below the generation of its children |
| Wiki.FindLinkTarget | src/model/wiki.rs:205-221 | the search from a page, retried from each ancestor, returns only a page that answers to the link |
| Wiki.FindLinkTargetSound | src/model/wiki.rs:205-221 | a resolved link target answers to the link and is never the root |
| Wiki.FindLinkTargetNearest | src/model/wiki.rs:205-217 | if a page below the start answers to the link, the target is found below the start and is no deeper than it |
| Wiki.FindLinkTargetComplete | src/model/wiki.rs:205-221 | no target is found only when no page other than the root answers to the link |
| Wiki.ExampleMatches | src/model/wiki.rs:253-291 | in the test wiki, exactly the two pages titled "File" answer to the link "File" |
| Wiki.LinkExampleBeforeChildDoc | src/model/wiki.rs:253-276 | before the nested file exists, the link resolves to the top file from both directories |
| Wiki.LinkExampleAfterFromRootdir | src/model/wiki.rs:278-282 | after the nested file is added, the top directory still resolves to its own file |
| Wiki.LinkExampleAfterFromChilddir | src/model/wiki.rs:284-290 | after the nested file is added, the child directory resolves to the nested file |
| Wiki.LinkExampleTest | src/model/wiki.rs:253-291 | the four resolutions of the link-target test, with the test's directory names |
| MarkdownScan.ControlChars | src/parse/md/mod.rs:10 | the control characters are exactly `*`, `#`, `[`, `!`, `~` and the backtick |
| Strings.Consume | src/parse/md/mod.rs:79-88 | the input splits into a taken part holding no character the condition matches and a rest that is empty or starts with a match |
| Strings.ConsumeStr | src/parse/md/mod.rs:79-88 | the input splits into a taken part in which the pattern starts nowhere and a rest that is empty or starts with the pattern |
| MarkdownScan.DropN | src/parse/md/mod.rs:22-28 | dropping n characters leaves a suffix n shorter, or nothing when the input is shorter |
| MarkdownScan.DropFirst | src/parse/md/mod.rs:30-32 | dropping the first character leaves a suffix one shorter |
| MarkdownScan.FirstChar | src/parse/md/mod.rs:34-36 | the first character, none exactly for empty input |
| MarkdownScan.FirstSolid | src/parse/md/mod.rs:52-54 | the first non-whitespace character, preceded only by whitespace; none exactly when the input is blank |
| MarkdownScan.NthSolid | src/parse/md/mod.rs:38-50 | whatever is found is a non-whitespace character of the input |
| MarkdownScan.NthSolidFirst | src/parse/md/mod.rs:38-54 | the first solid character is the 1st counted by the n-th solid scan |
| MarkdownScan.NthSolidTrim | src/parse/md/mod.rs:38-50 | leading whitespace does not change the n-th solid character |
| MarkdownScan.StartsWithNewLine | src/parse/md/mod.rs:286-296 | only input holding a newline can start with one |
| MarkdownScan.StartsWithNewLineIff | src/parse/md/mod.rs:286-296 | input starts with a new line exactly when a newline comes before any non-whitespace |
| MarkdownScan.EmptyLineFromIff | src/parse/md/mod.rs:64-77 | the empty-line scan succeeds exactly when a second newline (or a first, once one has passed) comes before any non-whitespace |
| MarkdownScan.StartsWithEmptyLineIff | src/parse/md/mod.rs:64-77 | input starts with an empty line exactly when two newlines come before any non-whitespace |
| MarkdownScan.AtLineStartIff | src/parse/md/mod.rs:329-339 | the parser is at a line start exactly when everything before the next newline is whitespace |
| MarkdownScan.ConsumeStep | src/parse/md/mod.rs:79-88 | consuming from a non-matching first character takes that character and then whatever the rest gives |
| MarkdownScan.ConsumeUnique | src/parse/md/mod.rs:79-88 | any split whose first part avoids the pattern and whose second part is empty or starts with a match is the one consumed |
| MarkdownScan.ListPrefixSize | src/parse/md/mod.rs:172-183 | a list prefix exists exactly when the first solid character is '*' |
| MarkdownScan.ListPrefixIndent | src/parse/md/mod.rs:172-183 | the list prefix size is the indentation before the '*' |
| MarkdownScan.ListPrefixNewline | src/parse/md/mod.rs:176-178 | a newline before the '*' restarts the count, so only the last line's indentation counts |
| Markdown.AddNode | src/parse/md/mod.rs:12-16 | an empty node is dropped and any other is appended, so a list without empty nodes keeps none |
| Markdown.ConsumeWhitespace | src/parse/md/mod.rs:90-92 | skipping whitespace leaves the input with its leading whitespace removed |
| Markdown.DropNewlines | src/parse/md/mod.rs:329-331 | dropping leading new lines leaves a suffix with the same first solid character that no longer starts with a new line |
| Markdown.NewLineCut | src/parse/md/mod.rs:286-296 | when input starts with a new line, everything before the first newline is whitespace |
| Markdown.TextRound | src/parse/md/mod.rs:140-166 | one round of the text loop never grows the input, and shrinks it whenever it does not stop or the input starts with text |
| Markdown.TextLoop | src/parse/md/mod.rs:136-170 | the text loop yields a plain text node and consumes input whenever the input starts with text |
| Markdown.ParseText | src/parse/md/mod.rs:136-170 | a text node, with progress whenever the input starts with text |
| Markdown.LinkFallback | src/parse/md/mod.rs:248-255 | a malformed link falls back to a text node |
| Markdown.ParseLink | src/parse/md/mod.rs:227-256 | a link or, for a malformed one, text; progress on any non-blank input |
| Markdown.ParseImage | src/parse/md/mod.rs:258-265 | an image or text; progress on any non-blank input |
| Markdown.FencedBlock | src/parse/md/mod.rs:269-278 | a fenced block becomes a code block with a language exactly when its trimmed code spans several lines; the language is the leading run of letters and digits (possibly empty) and the code is the trimmed remainder after it; single-line code has no language and is kept trimmed |
| Markdown.ParseCode | src/parse/md/mod.rs:266-284 | corrected: the node the program reads is a code block or inline code, and the parse makes progress on non-empty input; it is the program's parse with only a closing mark consumed, which exists only when the input opens with a backtick, so on input led by white space it leaves the opening backtick in place as the program does |
| Markdown.ParseCodeAsWritten | src/parse/md/mod.rs:266-284 | code as the program parses it: the closing "```" of a block and the closing backtick of inline code are left in the input; progress on any non-empty input |
| Markdown.HashRun | src/parse/md/mod.rs:102-107 | the run of leading '#' is at least one long and stops at the first other character |
| Markdown.ParseHeading | src/parse/md/mod.rs:102-107 | a heading whose level counts the leading '#' (at most the maximum level), with progress |
| Markdown.ParseStyle | src/parse/md/mod.rs:109-134 | bold for "**", italic for a single '*', strikethrough otherwise, with progress |
| Markdown.ParseList | src/parse/md/mod.rs:212-225 | a list, with progress |
| Markdown.ListLoop | src/parse/md/mod.rs:214-223 | the list loop never grows the input and consumes some while items continue at the list's indentation |
| Markdown.ParseListItem | src/parse/md/mod.rs:185-210 | a list item, with progress on non-empty input |
| Markdown.ItemLines | src/parse/md/mod.rs:190-208 | the item's continuation lines never grow the input |
| Markdown.ItemLine | src/parse/md/mod.rs:192-206 | one continuation line never grows the input |
| Markdown.ParseTable | src/parse/md/mod.rs:314-325 | a table with at least one row, with progress on non-empty input |
| Markdown.TableLoop | src/parse/md/mod.rs:316-323 | every round adds a row and consumes input |
| Markdown.ParseRow | src/parse/md/mod.rs:298-312 | a row consumes input unless there is none |
| Markdown.RowCells | src/parse/md/mod.rs:300-310 | the cell loop keeps the cells gathered so far and never grows the input |
| Markdown.KindOf | src/parse/md/mod.rs:333-343 | blank input is recognised as blank; '#' starts a heading, '*' a list or style |
| Markdown.KindOfIff | src/parse/md/mod.rs:333-343 | the dispatch on the first solid character, both ways: backtick code, '#' heading, '*' list at a line start and style elsewhere, '~' style, '[' link, "![" image, '\|' table at a line start |
| Markdown.ParseNodeAt | src/parse/md/mod.rs:327-344 | blank input yields the empty node and nothing left; any other input makes progress |
| Markdown.ParseNode | src/parse/md/mod.rs:350-364 | one node, with progress on non-blank input |
| Markdown.Parse | src/parse/md/mod.rs:366-382 | the parsed nodes are never empty |
| Markdown.ParseLoop | src/parse/md/mod.rs:370-380 | the loop only appends, and appends no empty node |
| Markdown.ParseDocument | src/parse/md/mod.rs:384-386 | a parsed document holds no empty node |
| MarkdownExamples.PlainParse | src/parse/md/test.rs:14-31 | a line without markup parses as one trimmed text node |
| MarkdownExamples.PlainDocument | src/parse/md/test.rs:14-31 | a document of one plain line is that text node |
| MarkdownExamples.TextBefore | src/parse/md/test.rs:33-43 | plain text stops at the next control character |
| MarkdownExamples.BoldStyle | src/parse/md/test.rs:33-43 | "**b**" parses as a bold node around the text b |
| MarkdownExamples.BoldNode | src/parse/md/test.rs:33-43 | the node parser dispatches "**" mid-line to bold |
| MarkdownExamples.BoldDocument | src/parse/md/test.rs:33-43 | "a **b** c" parses as text a, bold b, text c |
| MarkdownExamples.StrikeStyle | src/parse/md/test.rs:174-180 | "~v~" parses as a strikethrough node around the text v |
| MarkdownExamples.StrikeNode | src/parse/md/test.rs:174-180 | the node parser dispatches '~' to strikethrough |
| MarkdownExamples.HeadingParse | src/parse/md/test.rs:3-12 | "# v" parses as a level-1 heading around the text v |
| MarkdownExamples.HeadingDocument | src/parse/md/test.rs:3-12 | a document "# v" is that heading |
| MarkdownExamples.LinkParse | src/parse/md/test.rs:142-148 | "[t](u)" parses as a link with text t and url u |
| MarkdownExamples.LinkNodeAt | src/parse/md/test.rs:142-148 | the node parser dispatches '[' to the link parser |
| MarkdownExamples.LinkDocument | src/parse/md/test.rs:142-148 | a document "[t](u)" is that link |
| MarkdownExamples.ImageParse | src/parse/md/test.rs:158-164 | "![t](u)" parses as an image with alt t and url u |
| MarkdownExamples.ImageNodeAt | src/parse/md/test.rs:158-172 | the node parser dispatches "![" to the image parser, an empty url included |
| MarkdownExamples.NotLinkParse | src/parse/md/test.rs:150-156 | "[t] v", with no url, falls back to the whole line as text |
| MarkdownExamples.NotLinkNodeAt | src/parse/md/test.rs:150-156 | the node parser yields that text |
| MarkdownExamples.CodeAsWrittenKeepsMark | src/parse/md/mod.rs:280-283 | as written, inline code leaves its closing backtick at the front of the rest |
| MarkdownExamples.CodeAsWrittenReopens | src/parse/md/mod.rs:280-283 | as written, a leftover backtick opens a new inline code running to the end |
| MarkdownExamples.CodeDropsMark | src/parse/md/mod.rs:280-283 | corrected, inline code consumes its closing backtick |
| MarkdownExamples.CodeThenText | src/parse/md/mod.rs:280-283 | corrected, "`w` v" parses as code w then text v |
| MarkdownExamples.CodeExampleAsWritten | src/parse/md/mod.rs:280-283 | as written, "`a` b" yields code a and then, from the leftover backtick, code b |
| MarkdownExamples.CodeExampleCorrected | src/parse/md/mod.rs:280-283 | corrected, "`a` b" yields code a and text b |
| MarkdownExamples.CodeAfterSpace | src/parse/md/mod.rs:280-283 | on input of a space and then a backtick, the program and the corrected parse alike read an empty span up to that backtick and leave it, the opening mark, at the head of the rest |
| MarkdownExamples.CodeLoop | src/parse/md/mod.rs:280-283 | corrected, an inline span met by the loop of parse adds one code node and the loop goes on after its closing backtick |
| MarkdownExamples.SpacedCodeLoop | src/parse/md/mod.rs:327-344 | corrected, a span with a space before it, as the node parser passes it on after a style, a link or a list bullet, is still read as code |
| MarkdownExamples.SpacedFenceLoop | src/parse/md/mod.rs:327-344 | corrected, a one-line fenced block indented by a space is still read as a code block |
| MarkdownExamples.TwoSpansExample | src/parse/md/mod.rs:280-283 | corrected, "`a` `b`" yields code a and code b |
| MarkdownExamples.FencedAsWrittenKeepsMark | src/parse/md/mod.rs:268 | as written, a fenced block leaves its closing "```" at the front of the rest |
| MarkdownExamples.FencedAsWrittenReopens | src/parse/md/mod.rs:267-268 | as written, a leftover "```" opens a new block running to the end of the input |
| MarkdownExamples.FencedDropsMark | src/parse/md/mod.rs:268-279 | corrected, a fenced block consumes its closing "```" and holds the trimmed code between the marks |
| MarkdownExamples.FencedLanguage | src/parse/md/test.rs:182-194 | "```lang\nbody```" is a code block in language lang holding the body, for any non-empty name of letters and digits and any body that holds no "```" and ends in a character that is neither white space nor a backtick |
| MarkdownExamples.FencedOneLine | src/parse/md/mod.rs:269-278 | fenced code on one line has no language and is kept whole |
| MarkdownExamples.FenceThenText | src/parse/md/mod.rs:268-279 | corrected, a one-line fenced block followed by a line of text is a code block and then a text node |
| MarkdownExamples.FenceExampleAsWritten | src/parse/md/mod.rs:268-279 | as written, "```\na\n```\nb" yields block a, leaves "```\nb", and that leftover is parsed as a second block b |
| MarkdownExamples.FenceExampleCorrected | src/parse/md/mod.rs:268-279 | corrected, "```\na\n```\nb" yields block a and text b |
| MarkdownExamples.TwoLines | src/parse/md/mod.rs:140-166 | two lines of plain text make one text node, the line break read as a space |
| MarkdownExamples.LineBreakText | src/parse/md/mod.rs:140-166 | the text loop joins lines until a blank line and leaves the blank line in the input |
| MarkdownExamples.LineBreakDocument | src/parse/md/test.rs:62-68 | "a\nb\n  \nc" parses as the text "a b" and then the text c, for any plain lines a, b and c |
| MarkdownExamples.TextBeforeBreak | src/parse/md/mod.rs:140-166 | a text line followed by a line that starts with a control character other than '!' ends the text node at the line break |
| MarkdownExamples.HeadingTwoParse | src/parse/md/mod.rs:102-107 | "## h" up to the line break is a level-2 heading around the text h, the line break left in the input |
| MarkdownExamples.HeadingAfterText | src/parse/md/test.rs:14-31 | a text line, a "## " heading line and two further lines parse as the text, the level-2 heading, and one text node joining the two lines with a space |
| Naming.CapitaliseWord | src/render/mod.rs:38-48 | the minor words a, and, at, is, of, to and the empty word are kept; any other word has its first letter upper-cased and the rest kept |
| Naming.MapCapitalise | src/render/mod.rs:74 | each word is capitalised in place |
| Naming.CapitaliseJoined | src/render/mod.rs:71-77 | capitalising words joined by spaces joins the capitalised words |
| Naming.CapitaliseExampleResource | src/render/nav.rs:227-233 | "magic is a resource" becomes "Magic is a Resource" |
| Naming.CapitaliseExampleHill | src/render/nav.rs:227-233 | "tree at hill" becomes "Tree at Hill" |
| Naming.CapitaliseExampleTown | src/render/nav.rs:227-233 | "the big town" becomes "The Big Town" |
| Naming.Capitalise | src/render/mod.rs:71-77 | capitalising keeps the length: each separator becomes one space and each word keeps its length |
| Naming.CapitaliseWords | src/render/mod.rs:71-77 | separator-free words joined by spaces capitalise to the joined capitalised words |
| Naming.KeysForTags | src/render/mod.rs:57-62 | the configured pairs whose tag is among the node's tags, and no others |
| Naming.EncryptionPairs | src/render/mod.rs:50-69 | none for a node without tags or without a configured tag; otherwise the non-empty list of configured pairs whose tag the node has |
| Css.WithClass | src/render/css.rs:3-11 | the class becomes the new class, or the existing class, a space and the new class; nothing else changes |
| Css.WithId | src/render/css.rs:13-17 | the id becomes the given id; nothing else changes |
| Css.FloatingMenu | src/render/css.rs:19-23 | the class "floating-menu" is added; nothing else changes |
| Css.Title | src/render/css.rs:25-29 | the class "title" is added; nothing else changes |
| Css.WithClassTwice | src/render/css.rs:6-9 | adding two classes to a node without one gives both, space-separated, in order |
| FileSystem.TitleFromFilename | src/parse/fs/mod.rs:19-25 | the capitalised part of the file name before its first '.' |
| FileSystem.TitleFromStem | src/parse/fs/mod.rs:19-25 | "stem.rest" and "stem" both give the capitalised stem |
| FileSystem.OutputFilename | src/parse/fs/mod.rs:41 | a name without ".md" is kept |
| FileSystem.OutputFilenameOfMarkdown | src/parse/fs/mod.rs:41 | "stem.md" becomes "stem.html" when the stem holds no ".md" |
| FileSystem.PageTitle | src/parse/fs/mod.rs:43-45 | the document's heading title when it has one, otherwise the title from the file name |
| FileSystem.Extension | src/parse/fs/mod.rs:85 | the part after the last '.', which is not the whole name; none when the name has no '.' past its first character |
| FileSystem.Classify | src/parse/fs/mod.rs:77-101 | hidden entries are skipped; other directories are descended into; other files are read as documents exactly for extension "md", added as images exactly for jpg, jpeg or png |
| FileSystem.ClassifyByExtension | src/parse/fs/mod.rs:85-88 | "x.md" is read as a document and "x.png" added as an image |
| FileSystem.ProcessDocument | src/parse/fs/mod.rs:27-52 | an unreadable file adds nothing; a readable one adds one page: an index exactly when the renamed file is "index.html", otherwise a document, titled from its heading or file name, under its directory's url |
| FileSystem.ProcessDirectory | src/parse/fs/mod.rs:54-102 | the arena stays valid and only grows; an unreadable directory adds nothing |
| FileSystem.ProcessEntry | src/parse/fs/mod.rs:77-101 | the arena stays valid and only grows; a skipped entry adds nothing |
| FileSystem.ProcessEntries | src/parse/fs/mod.rs:77-101 | the arena stays valid and only grows |
| FileSystem.ProcessEntriesCount | src/parse/fs/mod.rs:77-101 | the entries add exactly one page per readable document, image and directory in them |
| FileSystem.ProcessEntryCount | src/parse/fs/mod.rs:80-99 | one entry adds exactly the pages it accounts for |
| FileSystem.ProcessDirectoryCount | src/parse/fs/mod.rs:61-77 | a readable directory adds itself plus its entries' pages; an unreadable one adds nothing |
| Nav.ChildrenAbove | src/model/wiki.rs:183-188 | every child has a larger id than its parent |
| Nav.ShownPage | src/render/nav.rs:39-43 | the page a directory shows is itself or one of its index children |
| Nav.ShownPageLast | src/render/nav.rs:39-43 | with index children, the last one is shown |
| Nav.ShownPageNoIndex | src/render/nav.rs:39-43 | without index children, the directory itself is shown |
| Nav.ShownPageCons | src/render/nav.rs:40-43 | the children are scanned front to back, an index replacing the shown page |
| Nav.SelectedLink | src/render/nav.rs:51-54 | the link to the shown page, marked as selected exactly when it is the page being viewed |
| Nav.Assemble | src/render/nav.rs:56-76 | with visible children: a details node of link and list, open exactly when the viewed page is inside; without them: a bulleted item for a page, nothing for a directory |
| Nav.NavSubtree | src/render/nav.rs:34-37 | media pages show nothing |
| Nav.Gather | src/render/nav.rs:39-49 | the child walk settles on the page the last Index child names, or the page itself |
| Nav.GatherNodes | src/render/nav.rs:39-49 | the child walk keeps no empty subtree and at most one per child |
| Nav.NavLoop | src/render/nav.rs:40-48 | the loop's shown page is the last Index child seen, or the one it started with |
| Nav.NavLoopNodes | src/render/nav.rs:40-48 | the loop only appends, appends only non-empty subtrees, at most one per child |
| Nav.Visit | src/render/nav.rs:41-47 | an index child replaces the shown page; any other child adds its subtree when non-empty |
| Nav.NavSubtreeAssembles | src/render/nav.rs:34-77 | a subtree is the assembly of what its child loop gathers |
| Nav.EmptyDirectoryPruned | src/render/nav.rs:39-76 | a directory shows nothing when no child is an index page and every child's subtree is empty (media, or directories pruned in turn), and so when it has no children at all |
| Nav.LeafItem | src/render/nav.rs:69-73 | a page without children shows as a bulleted item |
| Nav.IndexOnlyChild | src/render/nav.rs:39-73 | a directory whose only child is an index shows as a bulleted item linking to that index |
| Nav.LeafItemNonEmpty | src/render/nav.rs:69-73 | a bulleted item is kept exactly when the capitalised title is not blank |
| Nav.NavTree | src/render/nav.rs:79-88 | a list of the non-empty subtrees of the root's children, with id "nav-tree" |
| Nav.Subtrees | src/render/nav.rs:81-82 | one subtree per child of the root, in order |
| Nav.NonEmpty | src/render/nav.rs:83-85 | only non-empty nodes are kept |
| Nav.NonEmptyKeeps | src/render/nav.rs:83-85 | a node is kept exactly when it was present and is not empty |
| Nav.NextBreadcrumb | src/render/nav.rs:90-97 | the next crumb is an ancestor on the page's path with a smaller id; for a page other than an index it is the parent, for an index page the grandparent (none when the index sits directly under the root) |
| Nav.Trail | src/render/nav.rs:102-108 | the crumbs climb strictly towards the root, start at the first crumb and never include the root |
| Nav.Reverse | src/render/nav.rs:109 | the reversal holds the same items back to front |
| Nav.Links | src/render/nav.rs:106 | one page link per crumb, in order |
| Nav.LinksReversed | src/render/nav.rs:106-109 | reversing the links is linking the reversed crumbs |
| Nav.CrumbsReversed | src/render/nav.rs:105-109 | reversing the interleaved separators and links gives each link followed by its separator, root side first |
| Nav.Breadcrumb | src/render/nav.rs:99-116 | nothing exactly when there are no crumbs; otherwise a level-3 heading with id "nav-breadcrumb" of the crumbs from the root side, each followed by "/" |
| Nav.TrailClimbsPath | src/render/nav.rs:90-108 | on a path without index pages the crumbs are the page's path below the root, reversed |
| Nav.BreadcrumbFollowsPath | src/render/nav.rs:90-108 | when no ancestor is an index page (true of every tree the program builds, since index pages are leaves), a page's crumbs are its ancestors strictly between the root and the page, nearest first; an index page skips its own directory |
| Nav.CreateIndex | src/render/nav.rs:118-123 | an index document is a level-1 heading of the capitalised directory title and a list with one item linking to each child, in order |
| Nav.CreateIndexTitle | src/render/nav.rs:118-123 | a generated index takes the capitalised directory title as its title |
| NavExamples.EmptyDirExcluded | src/render/nav.rs:196-204 | a directory with no pages is left out of the navigation tree |
| NavExamples.IndexTreeChildren | src/render/nav.rs:206-225 | in the test wiki, the directory is the root's only child and the index the directory's |
| NavExamples.IndexReplacesDir | src/render/nav.rs:206-225 | a directory with an index child shows as a selected item linking to the index |
| Indexes.Directories | src/main.rs:77-82 | the directory ids of the arena, all of them, in increasing order |
| Indexes.DirectoriesBelowAre | src/main.rs:77-82 | the directories among the first n pages, in increasing order |
| Indexes.ChildPagesAre | src/main.rs:85 | a directory's child pages are the pages of its children |
| Indexes.ChildPagesKept | src/main.rs:84-92 | appending pages under other directories does not change a directory's children |
| Indexes.PlannedMember | src/main.rs:84-86 | a directory gets an index exactly when it has children and none of them is an index |
| Indexes.PlannedIncreasing | src/main.rs:84-86 | the directories needing an index are visited in increasing order |
| Indexes.IndexStep | src/main.rs:84-91 | one turn appends at most one page and leaves every existing page alone |
| Indexes.StepKept | src/main.rs:85-91 | one step appends the index page exactly when the directory needs one, judged as in the original arena |
| Indexes.LoopAppends | src/main.rs:84-92 | the loop appends one index page per planned directory, in order |
| Indexes.AddIndexesWith | src/main.rs:76-93 | the pass keeps the arena valid |
| Indexes.AddIndexes | src/main.rs:76-93 | the pass keeps the arena valid |
| Indexes.AddIndexesPages | src/main.rs:76-93 | the result is the original pages followed by the index pages of the planned directories |
| Indexes.AddedPage | src/main.rs:84-91 | every added page hangs under a directory that needed an index, and is that directory's index page |
| Indexes.AddedOncePerDirectory | src/main.rs:84-91 | no directory gets two indexes |
| Indexes.AddedIff | src/main.rs:84-91 | a directory gets a new page exactly when it needed an index |
| Indexes.NoneNeeded | src/main.rs:84-91 | after the pass no directory needs an index |
| Indexes.IdempotentWith | src/main.rs:76-93 | running the pass twice is running it once |
| Indexes.AddedPages | src/main.rs:84-91 | each added page is the index "index.html" of a directory that needed one, titled as it, with the generated list of its children |
| Indexes.AddIndexesIdempotent | src/main.rs:76-93 | running the pass twice is running it once |
| HtmlWriter.WritingKeepsTags | src/render/html.rs:120-128 | writing text changes neither the open tags nor the indentation, and forgets the last closed tag |
| HtmlWriter.Attr | src/render/html.rs:130-137 | an attribute is written as space, key, '=', and the value in double quotes |
| HtmlWriter.Finish | src/render/html.rs:47-50 | finishing a tag appends exactly its attributes, each as ` key="value"` in list order, then '>' |
| HtmlWriter.AttrsLoop | src/render/html.rs:47-49 | the attribute loop appends exactly the attributes' texts in list order, and with no attributes changes nothing |
| HtmlWriter.Start | src/render/html.rs:37-40 | starting a tag writes '<' and the tag and pushes it on the open tags |
| HtmlWriter.Open | src/render/html.rs:42-45 | opening a tag writes exactly '<', the tag, its attributes in list order and '>', and pushes it |
| HtmlWriter.TrimTrailingSpaces | src/render/html.rs:98-104 | only trailing spaces are removed, and all of them |
| HtmlWriter.TrimSpaces | src/render/html.rs:98-104 | trailing spaces are removed unless they indent a fresh line, which is kept |
| HtmlWriter.TrimSpacesKeepsIndent | src/render/html.rs:98-104 | the indentation after a newline survives the trim |
| HtmlWriter.Close | src/render/html.rs:66-74 | closing pops the innermost tag, writes its end tag after trimming spaces, and remembers it as just closed; with nothing open it does nothing |
| HtmlWriter.Indent | src/render/html.rs:115-118 | a new line indented two spaces per level, counting the writer's own adjustment, after trimming the output's end |
| HtmlWriter.LOpen | src/render/html.rs:52-55 | opening on a new line pushes the tag |
| HtmlWriter.LOpenL | src/render/html.rs:57-60 | opening on a new line and breaking after pushes the tag |
| HtmlWriter.LClose | src/render/html.rs:76-82 | closing on a new line pops the tag and remembers it as just closed |
| HtmlWriter.LCloseL | src/render/html.rs:84-89 | closing on a new line and breaking after pops the tag |
| HtmlWriter.CloseL | src/render/html.rs:91-96 | closing and breaking after pops the tag |
| HtmlWriter.OpenThenClose | src/render/html.rs:42-74 | opening and closing a bare tag writes `<tag></tag>` and leaves the open tags as they were |
| HtmlWriter.SpaceIfNeeded | src/render/html.rs:143-154 | a space is added exactly when the output ends in a word or just after an inline element (a, b, i, s, code, span) |
| HtmlWriter.SpaceIfNeededIdempotent | src/render/html.rs:143-154 | a second call adds nothing |
| HtmlWriter.SpaceIfNeededEnds | src/render/html.rs:143-154 | afterwards the output ends in whitespace and needs no space |
| HtmlWriter.Escape | src/render/html.rs:157-159 | the result holds no double quote, and text without one is unchanged |
| HtmlWriter.EscapeAppend | src/render/html.rs:157-159 | escaping works piece by piece |
| HtmlWriter.EscapeIsReplace | src/render/html.rs:157-159 | escaping is replacing each double quote with `&quot;` |
| HtmlWriter.EscapeExample | src/render/html/test.rs:94-100 | a quoted word comes out between two `&quot;` |
| HtmlWriter.PadLinesIsReplace | src/render/html.rs:161-164 | padding lines is replacing each newline by a newline and the pad |
| HtmlWriter.IndentText | src/render/html.rs:161-165 | text without a newline is only trimmed |
| HtmlWriter.IndentPadsEveryBreak | src/render/html.rs:161-165 | in indented text every newline is followed by two spaces per level |
| HtmlWriter.PadLinesPads | src/render/html.rs:161-164 | after padding every newline is followed by the pad |
| Sections.NextHeading | src/render/html.rs:408-410 | the first heading of the given level, none exactly when there is none |
| Sections.SkipCount | src/render/html.rs:407-419 | the number of nodes the loop skips is less than the number present |
| Sections.SectionAsWritten | src/render/html.rs:407-419 | as written: a heading takes the nodes before the index of the next same-level heading counted from the node after it, and skips that many; any other node goes alone |
| Sections.SectionAsWrittenDropsOne | src/render/html.rs:407-419 | as written, the section holds as many nodes as are skipped, so with the heading itself it leaves one node neither encrypted nor drawn |
| Sections.SectionAsWrittenExample | src/render/html.rs:407-419 | heading, paragraph, next heading: as written the section is only the heading and the paragraph is skipped; corrected it is heading and paragraph |
| Sections.SectionOf | src/render/html.rs:407-419 | corrected: the section is a prefix holding the node and every node skipped after it; a non-heading goes alone |
| Sections.SectionOfHeading | src/render/html.rs:407-419 | corrected: a heading's section holds no other heading of its level and ends just before the next one |
| Sections.SectionOfCovers | src/render/html.rs:407-419 | corrected: every node the loop skips lies inside the section, so nothing is skipped without being encrypted |
| Secrets.Succeeding | src/render/html.rs:301-306 | the pairs whose encryption succeeds, drawn from the given pairs |
| Secrets.SealAll | src/render/html.rs:297-307 | one tag and one nonce per successful encryption, tags in order |
| Secrets.SealAllLast | src/render/html.rs:300-306 | the ciphertext kept is the last success's; each nonce is its encryption's; with no success everything is empty |
| Secrets.EncryptText | src/render/html.rs:293-312 | a span of class "secret" around the ciphertext, with the tags and nonces joined by ';' |
| Secrets.AllSucceed | src/render/html.rs:301-306 | when every encryption succeeds, every pair contributes, in order |
| Render.HandleEmptyUrl | src/render/html.rs:167-175 | a non-empty url, or any url with empty links off, is kept; a replacement is the url of a non-root page answering to the link |
| Render.EmptyUrlResolved | src/render/html.rs:167-175 | with empty links on, whenever some non-root page answers to the link, an empty url becomes the url of the page the link search finds |
| Render.ImageUrl | src/render/html.rs:219-228 | an image url is kept unless it is empty and empty links are on; then it is the url of a page answering to one of the image extensions |
| Render.Decimal | src/render/html.rs:215 | a heading level is written as a non-empty string of decimal digits |
| Render.DecimalValue | src/render/html.rs:215 | the digits read back as the level |
| Render.RenderText | src/render/html.rs:284-289 | text is appended, after a space when it starts with a letter, a digit or '/' and the output needs one |
| Render.RenderCode | src/render/html.rs:195-199 | inline code leaves the open tags alone and ends with "code" just closed |
| Render.RenderLink | src/render/html.rs:247-263 | a link leaves the open tags alone and ends with "a" just closed |
| Render.RenderSecret | src/render/html.rs:189-194 | a secret span leaves the open tags alone and ends with its tag just closed |
| Render.RenderCodeblock | src/render/html.rs:200-205 | a code block leaves the open tags and the indentation as it found them |
| Render.RenderImage | src/render/html.rs:219-241 | an image leaves the open tags and the indentation as it found them |
| Render.RenderEl | src/render/html.rs:182-290 | drawing any element leaves the open tags and the indentation as it found them |
| Render.UntaggedText | src/render/html.rs:177-181 | a text node without tags is drawn by the text rule |
| Render.UntaggedSpan | src/render/html.rs:189-194 | a span without tags around one untagged text is drawn as a secret span is |
| Render.SecretRendersAsSpan | src/render/html.rs:390-398 | an encrypted span is drawn as a span and never encrypted again |
| Render.RenderElIgnoresSkip | src/render/html.rs:182-290 | drawing an element does not depend on the skip flag, since children are always drawn with encryption on |
| Render.UnprotectedNodes | src/render/html.rs:329-345 | siblings without passwords are drawn the same with encryption on or skipped |
| Render.NoKeysNoPairs | src/render/mod.rs:57-67 | without configured passwords no node has encryption pairs |
| Render.NoKeysRootLoop | src/render/html.rs:458-513 | without passwords the top-level loop draws the same with encryption on or skipped |
| Render.NoKeysRootRange | src/render/html.rs:444-520 | without passwords, skipping encryption, as the page does then, changes nothing |
| Render.ParagraphStep | src/render/html.rs:471-504 | text after text closes the paragraph and text needs one; code, links and styles need one; block-level nodes close it; items and empty nodes leave it |
| Render.ParagraphStepOpen | src/render/html.rs:471-509 | after the move a paragraph is open exactly for inline content, or for items and empty nodes inside an open paragraph |
| Render.Paragraph | src/render/html.rs:497-509 | the writer has a paragraph open exactly when the move leaves one open |
| Render.RootLoop | src/render/html.rs:458-517 | the top-level loop closes every paragraph it opens |
| Render.Render | src/render/html.rs:177-291 | drawing a node leaves the open tags as it found them |
| Render.RenderNodes | src/render/html.rs:329-345 | drawing siblings leaves the open tags as it found them |
| Render.TagKeyMenu | src/render/html.rs:522-548 | the key menu is one block with id "tag-keys-menu" |
| Render.PageTop | src/render/html.rs:569-581 | after the head, navigation tree and key menu, exactly html and body are open |
| Render.PageMain | src/render/html.rs:583-597 | the content div and main are opened and stay open around the drawn document |
| Render.Page | src/render/html.rs:559-602 | the page closes every tag it opens |
| Render.RenderDocument | src/render/html.rs:550-605 | an error exactly for a page without a document; otherwise the trimmed page |
| Aes.KeyOf | src/render/html/aes.rs:25-32 | the key is 32 bytes: the password's bytes from the front, zeros after, and the password cut at 32 |
| Aes.DeriveKey | src/render/html/aes.rs:26-29 | the copying loop produces that key |
| Aes.SamePrefixSameKey | src/render/html/aes.rs:26-29 | passwords agreeing on their first 32 bytes share a key |
| Aes.TrailingZerosSameKey | src/render/html/aes.rs:26-29 | zero bytes appended to a short password do not change the key |
| Aes.ShortKeysDistinct | src/render/html/aes.rs:26-29 | short passwords without zero bytes share a key only when equal |

## Left out

- Reading the disk: file reads, directory listings, logging, copying media and writing output are left out. A directory listing is an `Entry` value, and whether a file could be read is part of it.
- Encryption: AES-GCM, random nonces and base64 are a `Cipher` function parameter that may fail. Only the key derivation is modelled.
- The embedded style sheet and decryption script are `Context` parameters.
- Text encoding: strings are sequences of characters. Where the program slices bytes (`&word[1..]`, `drop_n`), the model slices characters, which agrees for ASCII text.
- Unicode case mapping: `to_uppercase` and `to_lowercase` work on ASCII letters only, and `is_alphanumeric` recognises ASCII letters and digits only. `char::is_whitespace` is modelled in full.
- Attribute order: attributes are a list with unique keys in insertion order. The program's `HashMap` order is unspecified, so the order of attributes in the output is not modelled faithfully.
- Mixed revisions: src/model.rs shows an older `Node` enum. The element types (Empty, Block, Inline, Code, Codeblock, Details, Heading, Image, Item, Link, List, Style, Table, Text), attributes and tags are reconstructed from their use in src/render/html.rs:182-290. Emptiness and `add_text` follow src/model.rs:42-73, with block and inline elements treated as containers. Details and tables are containers too: a details node is empty exactly when its summary and body are all empty, and a table exactly when all its cells are, so `Markdown.AddNode` drops a table of blank cells.
- `Node::list`: src/model.rs at this revision does not define `Node::list`. The constructor is reconstructed from src/parse/md/test.rs:80-94: every child that is not an item is wrapped in one.
- Configuration: src/config.rs at this revision has no `tag_keys`. The `Config` datatype adds it as a list of (tag, password) pairs, because src/render/html.rs reads it.
- Tables: they are parsed but draw nothing, as src/render/html.rs:283 does.
- Empty images: src/model.rs:62 makes an image with an empty url empty, so `add_node` drops it. The test at src/parse/md/test.rs:210-221 expects such an image to be kept. The model follows the code, and that test's expectation is not stated.
- List and table tests: the concrete tests of src/parse/md/test.rs for nested lists and tables are not restated as lemmas. Only the progress and kind of those parsers are proved.
- Page parts: `add_page_heading` and `add_page_path` (src/render/html.rs:347-357) are inlined in `Render.PageMain`.
- `handle_encryption_node` (src/render/html.rs:390-398) is the encrypting branch of `Render.Render`.
- Index builder: the `Indexes` lemmas take the index builder as a parameter (`AddIndexesWith`). `AddIndexes` instantiates it with `Nav.CreateIndex`.
- Markdown.ParseText, Markdown.TextLoop, Markdown.TextRound: their own contracts state only progress and the node kind. Joining lines with a space, ending at a blank line and ending before a heading line are stated for plain lines without indentation by `MarkdownExamples.LineBreakDocument` and `MarkdownExamples.HeadingAfterText` (the test at src/parse/md/test.rs:14-31 indents its lines); text cut short mid-line by other markup is stated only for the examples in `MarkdownExamples`.
- Markdown.ParseLink, Markdown.ParseImage, Markdown.LinkFallback: only progress and the node kind are stated. Well-formed and malformed links and images are covered in `MarkdownExamples`.
- Markdown.ParseList, Markdown.ListLoop, Markdown.ParseListItem, Markdown.ItemLines, Markdown.ItemLine: only progress and the node kind are stated, not the nesting by indentation.
- Markdown.ParseTable, Markdown.TableLoop, Markdown.ParseRow, Markdown.RowCells: only progress, the node kind and the row count are stated, not the cell contents.
- Markdown.ParseNodeAt, Markdown.ParseNode, Markdown.Parse, Markdown.ParseLoop, Markdown.ParseDocument: only progress and the absence of empty nodes are stated. The dispatch is stated by `Markdown.KindOfIff`.
- Render.Render, Render.RenderNodes, Render.RenderEl, Render.RenderDetails, Render.RenderContainer, Render.RenderCode, Render.RenderCodeblock, Render.RenderImage, Render.RenderLink, Render.RenderSecret: only the balance of the open-tag stack is stated (and the tag just closed where it matters), not the text written.
- Render.PageTop, Render.PageMain, Render.Page: only the number of open tags is stated, not the page text.
- Render.TagKeyMenu: only the menu's id and shape are stated, not each entry.
- FileSystem.ProcessDirectory, FileSystem.ProcessEntry, FileSystem.ProcessEntries: the per-entry choice is stated by `FileSystem.Classify`, and the page counts by the `Count` lemmas. The order and contents of the added pages are not stated.
- Nav.NavSubtree: its own contract only covers media pages. The full shape is stated by `Nav.NavSubtreeAssembles` with `Nav.Assemble`.

## Findings

| source | as written | input that shows it | evidently intended | confidence | as-written member | corrected member |
|---|---|---|---|---|---|---|
| src/parse/md/mod.rs:280-283 | inline code consumes up to the closing backtick but leaves that backtick in the input, so it opens a second code span | "`a` b" parses as code "a" and code "b" | code "a" followed by text "b" | not executed | Markdown.ParseCodeAsWritten (shown by MarkdownExamples.CodeExampleAsWritten) | Markdown.ParseCode (MarkdownExamples.CodeExampleCorrected) |
| src/parse/md/mod.rs:268-279 | a fenced block consumes up to its closing fence of three backticks but leaves that fence in the input, so it opens a second block running to the end of the input | "```\na\n```\nb" parses as code block "a" and code block "b" | code block "a" followed by text "b" | not executed | Markdown.ParseCodeAsWritten (shown by MarkdownExamples.FenceExampleAsWritten, MarkdownExamples.FencedAsWrittenKeepsMark) | Markdown.ParseCode (MarkdownExamples.FenceExampleCorrected, MarkdownExamples.FencedDropsMark) |
| src/render/html.rs:407-419 | for a protected heading, `idx` is a position in `nodes[1..]`, but it is used on `nodes` both to cut the section (`nodes[..idx]`) and as the skip count, so the last node before the next same-level heading (or the last node of the list) is skipped without being encrypted or drawn | a tagged heading h, a paragraph p, then another heading of the same level: section [h] and skip 1, so p vanishes | section [h, p] and skip 1 | not executed | Sections.SectionAsWritten (shown by Sections.SectionAsWrittenExample, Sections.SectionAsWrittenDropsOne) | Sections.SectionOf (Sections.SectionOfHeading) |

The renderer and the parser use the corrected definitions. The correction to `parse_code` consumes only a closing mark. When white space comes before the first backtick, as it does after a style, a link or a list bullet, the backtick that `parse_code` meets is the opening one. The corrected parse then leaves it in the input, as the program does, and the next node reads the code (MarkdownExamples.CodeAfterSpace, MarkdownExamples.SpacedCodeLoop, MarkdownExamples.SpacedFenceLoop).
