# giouiorg page pipeline, modelled in Dafny

This project models the byte- and string-level core of `cmd/giouiorg/page.go`,
the server behind the Gio documentation site. That file renders Markdown
documents with YAML front matter into HTML pages. Documents can splice ranges
of example source files into themselves ("include" directives). The modelled
logic is:

- **`undent`**: drop every line that mentions `OMIT`, then strip from each
  remaining line up to as many leading tabs as the first remaining line has
  (module `Indentation`, `undent.dfy`);
- **`loadPage`**: split a document into front matter and body at the first
  two `---` markers, keeping documents without front matter unchanged. Also
  the default title of `loadMarkdown` (module `Pages`, `pages.dfy`);
- **`regexFor`** and **`includeExample`**: check the `/pattern/` delimiters,
  split the `start,end` address at its first comma, select the range between
  the two matches, trim line breaks, append one LF and undent. Also the
  `ReadIncludeFn` hook that puts an error's text in place of a failed include
  (module `Include`, `include.dfy`);
- **`loadMarkdown`, `servePage`, `pageHandler`, `loadDocs`**: rewrite `…/` to
  `…/index`, look the page up in the prebuilt cache or load it live, and
  choose between writing, the fallback handler and status 500. `loadDocs`
  fills the page cache from the Markdown files of a directory walk. The name
  of a page is derived from its file path (module `Serve`, `serve.dfy`);
- shared helpers: Go's `Index`, `Contains`, `SplitN` and `Join` (module `Base`,
  `base.dfy`).

File contents are `seq<byte>`, and so are include addresses and error texts,
since they reach the page. URL and file paths are `string`. Everything the
program gets from outside is a parameter:

- files already read, or the read error;
- the YAML decoder;
- the regular expression compiler and the matchers it returns (each finds the
  leftmost match as a byte span inside the searched text);
- Markdown rendering plus template execution;
- the client writer;
- the order in which the directory walk visits entries;
- whether `GAE_APPLICATION` is set (`Mode`).

`undent` and `includeExample` change local state step by step. They are
methods, proved equal to the specification functions `UndentText` and
`IncludeSpec`. The lemmas are stated about those functions. The `pages` map
that `loadDocs` fills is the field of class `Serve.PageCache`. Its method
`LoadDocs` is proved equal to the function `Walk`.

The doc comment of `pageHandler` (cmd/giouiorg/page.go:212-213) says it
falls back to a fallback handler if no page was found. The code does this only
in cached mode. In live mode a missing file is a read error, not `errNoPage`,
so the client gets status 500 (`Serve.FallbackIff`). The model follows the
code.

## Model

| member | source | states |
|---|---|---|
| `Indentation.Undent` | cmd/giouiorg/page.go:163-188 | the scanner loop with its two tab loops returns exactly `UndentText(text)`: the kept lines, stripped by the first kept line's tab count, each followed by LF |
| `Indentation.CountTabs` | cmd/giouiorg/page.go:173-176 | the counting loop stops at the first kept line's leading tab count |
| `Indentation.StripTabs` | cmd/giouiorg/page.go:179-183 | the stripping loop removes exactly `min(ntabs, leading tabs)` tabs from the front of the line |
| `Indentation.Lines` | cmd/giouiorg/page.go:167-169 | no scanner line contains an LF |
| `Indentation.LeadingTabs` | cmd/giouiorg/page.go:174-176 | the count is the length of the run of tabs the line starts with: all bytes before it are tabs, the byte at it is not |
| `Indentation.KeptAppend` | cmd/giouiorg/page.go:168-172 | the kept lines of two concatenated line lists are the kept lines of each, in order |
| `Indentation.KeptExactly` | cmd/giouiorg/page.go:170-172 | a line is kept if and only if it is an input line that does not contain `OMIT` |
| `Indentation.KeptAll` | cmd/giouiorg/page.go:170-172 | a list with no `OMIT` line is kept whole |
| `Indentation.StripRemovesTabs` | cmd/giouiorg/page.go:179-183 | a line is `min(ntabs, its leading tabs)` tabs followed by its stripped form, and the stripped form keeps the remaining leading tabs |
| `Indentation.LeadingTabsExact` | cmd/giouiorg/page.go:174-176 | any n with n tabs in front and no tab at n is the leading tab count |
| `Indentation.FirstLineUntabbed` | cmd/giouiorg/page.go:173-183 | the first output line starts with no tab |
| `Indentation.OutputLinesAreSuffixes` | cmd/giouiorg/page.go:179-185 | each output line is a suffix of its kept input line, which contains no LF and no `OMIT` |
| `Indentation.SuffixKeepsAbsence` | cmd/giouiorg/page.go:170 | removing leading bytes cannot create an `OMIT` |
| `Indentation.LinesOfUnlines` | cmd/giouiorg/page.go:184-186 | scanning the LF-terminated output gives back its lines when none ends in CR |
| `Indentation.UnlinesOfLines` | cmd/giouiorg/page.go:167-169 | a CR-free text ending in LF is its scanner lines, each followed by LF |
| `Indentation.LinesWithin` | cmd/giouiorg/page.go:167-169 | a scanner line contains no byte that its text lacks |
| `Indentation.UndentIdempotent` | cmd/giouiorg/page.go:161-188 | on CR-free text, undenting the output again changes nothing |
| `Base.IndexOf` | cmd/giouiorg/page.go:133 | Go's `Index`: a returned index is an occurrence of the pattern with none before it; none is returned only when the pattern occurs nowhere |
| `Base.SplitN` | cmd/giouiorg/page.go:133 | Go's `SplitN` at the first n-1 occurrences of the separator: at most n pieces, and at least one when n > 0; `SplitNJoin` and `SplitNAt` state what the pieces are |
| `Indentation.DropCR` | cmd/giouiorg/page.go:167-168 | the scanner's CR rule: a token is the segment itself or the segment minus one trailing CR, and the CR is removed exactly when the segment ends in one |
| `Indentation.Kept` | cmd/giouiorg/page.go:170-172 | the OMIT filter; no contract of its own, its meaning is carried by `KeptExactly`, `KeptAppend` and `KeptAll` |
| `Indentation.UndentText` | cmd/giouiorg/page.go:163-188 | what `undent` returns; no contract of its own, `Undent` is proved equal to it and `FirstLineUntabbed`, `OutputLinesAreSuffixes` and `UndentIdempotent` state its properties |
| `Base.SplitNJoin` | cmd/giouiorg/page.go:133 | the `SplitN` pieces joined with the separator give back the input |
| `Base.SplitNAt` | cmd/giouiorg/page.go:200 | a split ends its first piece at the first occurrence of the separator |
| `Pages.LoadPage` | cmd/giouiorg/page.go:198-210 | `loadPage`; no contract of its own, its meaning is carried by `FrontMatterIff`, `LoadPagePlain`, `LoadPageSplits` and `LoadPageComposes` |
| `Pages.SplitShape` | cmd/giouiorg/page.go:200 | a document starting with `---` splits into an empty piece, the text up to the next `---` and the rest, or two pieces when there is no second marker |
| `Pages.FrontMatterIff` | cmd/giouiorg/page.go:200-201 | front matter is present if and only if the document starts with `---` and a second `---` follows |
| `Pages.LoadPagePlain` | cmd/giouiorg/page.go:201-204 | without front matter the document comes back unchanged, with empty front matter, and the decoder is not consulted |
| `Pages.LoadPageSplits` | cmd/giouiorg/page.go:200-209 | with front matter, `"---" + header + "---" + body` is the document, the header is plain, and the result is the decoded header with that body |
| `Pages.FirstPieceIsPlain` | cmd/giouiorg/page.go:200-205 | the header contains no `---` and does not end in `-` |
| `Pages.DashAt` | cmd/giouiorg/page.go:200 | every byte of a `---` occurrence is a dash |
| `Pages.LoadPageComposes` | cmd/giouiorg/page.go:198-210 | every document built from a plain header and any body is split back into exactly that header and body |
| `Pages.WithDefaultTitle` | cmd/giouiorg/page.go:103-105 | an untitled page gets the site title "Gio - immediate mode GUI in Go"; every page ends up with a non-empty title; a page that already has one is unchanged; the content is never touched |
| `Include.Pattern` | cmd/giouiorg/page.go:191-194 | succeeds if and only if the text has two or more bytes and starts and ends with `/`; then slash + pattern + slash is the input; else "missing / separators" |
| `Include.PatternRoundTrip` | cmd/giouiorg/page.go:191-194 | enclosing any pattern in slashes and checking gives back that pattern |
| `Include.RegexFor` | cmd/giouiorg/page.go:190-196 | a successful result is a sound matcher |
| `Include.RegexForIff` | cmd/giouiorg/page.go:190-196 | fails with missing separators exactly when the delimiters are wrong; otherwise compiles exactly `r[1:len(r)-1]`, and `//` compiles the empty pattern |
| `Include.Address` | cmd/giouiorg/page.go:133-137 | the `start,end` split at the first comma; no contract of its own, its meaning is carried by `AddressIff` and `AddressComposes` |
| `Include.AddressIff` | cmd/giouiorg/page.go:133-137 | an address splits if and only if it contains a comma; the start is comma-free, and start + `,` + end is the address |
| `Include.AddressComposes` | cmd/giouiorg/page.go:133-137 | any comma-free start and any end, commas included, are split back into themselves |
| `Include.TrimLeft` | cmd/giouiorg/page.go:156 | the result is a suffix; every byte cut is CR or LF; the result does not start with one |
| `Include.TrimRight` | cmd/giouiorg/page.go:156 | the result is a prefix; every byte cut is CR or LF; the result does not end with one |
| `Include.Trim` | cmd/giouiorg/page.go:156 | the result is a contiguous slice with only line breaks around it and neither starts nor ends with one |
| `Include.TrimIdempotent` | cmd/giouiorg/page.go:156 | trimming twice is trimming once |
| `Include.StartOffset` | cmd/giouiorg/page.go:146-149 | the range start lies inside the file |
| `Include.EndOffset` | cmd/giouiorg/page.go:150-153 | the range end lies inside the remainder |
| `Include.Range` | cmd/giouiorg/page.go:126-153 | the read error, the address or pattern error, or the selected bytes; no contract of its own, its meaning is carried by `ReadErrorFirst`, `WholeFile`, `InvalidAddressIff`, `StartCheckedFirst`, `EndCheckedSecond` and `IncludedRange` |
| `Include.IncludeSpec` | cmd/giouiorg/page.go:126-159 | `includeExample`: `Range` followed by trim, one LF and undent; no contract of its own, `IncludeExample` is proved equal to it |
| `Include.IncludeExample` | cmd/giouiorg/page.go:126-159 | the statement sequence, reassigning `content`, returns exactly `IncludeSpec`: the read error, an address or pattern error, or the selected range finished by trim, LF and undent |
| `Include.InvalidAddressIff` | cmd/giouiorg/page.go:132-136 | a non-empty address is an "invalid address" error if and only if it contains no comma |
| `Include.ReadErrorFirst` | cmd/giouiorg/page.go:128-131 | a read error is reported whatever the address is, before any address check |
| `Include.StartCheckedFirst` | cmd/giouiorg/page.go:137-141 | a malformed start is reported, naming the start, whatever the end is |
| `Include.EndCheckedSecond` | cmd/giouiorg/page.go:142-145 | with a good start, a malformed end is reported under the end's name |
| `Include.IncludedRange` | cmd/giouiorg/page.go:146-153 | with two good patterns the selection is `content[a..b]`: a is the start of the first start match or 0; b is the end of the first end match in `content[a..]`, or the file end |
| `Include.WholeFile` | cmd/giouiorg/page.go:132 | an empty address selects the whole file |
| `Include.ErrorText` | cmd/giouiorg/page.go:107-145 | the `err.Error()` text an include error puts on the page: the read error as is, and the `invalid address: %s` and `%s: %v` formats of lines 135, 140 and 144; no contract of its own, `ReadInclude` states where it is used |
| `Include.ReadInclude` | cmd/giouiorg/page.go:107-113 | the include hook yields the example, or the text of its error in its place |
| `Serve.LoadMarkdown` | cmd/giouiorg/page.go:93-124 | `loadMarkdown`: read `url.md`, split the front matter, default the title, render; no contract of its own, its meaning is carried by `LoadMarkdownErrors` and `Pages.WithDefaultTitle` |
| `Serve.ServePage` | cmd/giouiorg/page.go:74-91 | `servePage`: the cached page or `errNoPage`, or the live load, then the write; no contract of its own, its meaning is carried by `FallbackIff` and `HandleOutcomes` |
| `Serve.HandlePage` | cmd/giouiorg/page.go:214-229 | `pageHandler`'s choice between writing, the fallback and status 500; no contract of its own, its meaning is carried by `FallbackIff` and `HandleOutcomes` |
| `Serve.LoadMarkdownErrors` | cmd/giouiorg/page.go:93-102 | loading never yields `errNoPage`; its errors are a read failure or a front-matter failure of `url.md`, or a rendering failure |
| `Serve.RewritePath` | cmd/giouiorg/page.go:217-219 | the result extends the path, never ends in `/`, equals the path unless it ended in `/`, and then adds exactly `index` |
| `Serve.RewriteIdempotent` | cmd/giouiorg/page.go:217-219 | rewriting twice is rewriting once |
| `Serve.FallbackIff` | cmd/giouiorg/page.go:220-226 | the fallback runs if and only if the cache is in use and the rewritten path is not in it |
| `Serve.HandleOutcomes` | cmd/giouiorg/page.go:214-229 | the page is written exactly when it is found (cache) or loaded (live) and the write succeeds; every other outcome is the fallback or status 500 |
| `Serve.Ext` | cmd/giouiorg/page.go:60 | the extension is empty exactly when the final path element has no dot; otherwise it is the suffix of the path from that element's last dot, with no further dot or slash |
| `Serve.ExtIsMd` | cmd/giouiorg/page.go:60 | the extension is `.md` if and only if the path ends in `.md` |
| `Serve.PageName` | cmd/giouiorg/page.go:63-64 | root + name + `.md` is the path, and the name starts with `/` |
| `Serve.VisitEntry` | cmd/giouiorg/page.go:56-70 | the `loadDocs` callback on one entry: stop on an error, skip directories and non-Markdown files, otherwise load and store the page; no contract of its own, its meaning is carried by `WalkStoresLoadedPages` and `WalkComplete` |
| `Serve.Walk` | cmd/giouiorg/page.go:55-72 | the callback applied to the entries in visiting order until one stops the walk; no contract of its own, `PageCache.LoadDocs` is proved equal to it and `WalkGrows`, `WalkStoresLoadedPages`, `WalkComplete` and `RegularRootSkipped` state its properties |
| `Serve.RegularRootSkipped` | cmd/giouiorg/page.go:57-62 | a root that is a regular file not ending in `.md` is skipped: the walk ends without error and stores nothing |
| `Serve.PageCache.constructor` | cmd/giouiorg/page.go:36 | the page map starts empty |
| `Serve.PageCache.LoadDocs` | cmd/giouiorg/page.go:55-72 | the map and the error after the walk are exactly those of `Walk` from the old map, loading each page with `loadMarkdown` |
| `Serve.WalkStoresLoadedPages` | cmd/giouiorg/page.go:63-69 | every page in the map was there before, or it is named after a Markdown file of the walk and holds what the loader produced for that name; `LoadDocs` uses `loadMarkdown` as the loader |
| `Serve.ForallTail` | cmd/giouiorg/page.go:56 | a source file found among the later entries is among all entries |
| `Serve.WalkGrows` | cmd/giouiorg/page.go:69 | the walk only adds pages |
| `Serve.WalkComplete` | cmd/giouiorg/page.go:56-71 | a walk without error has filed every non-directory `.md` file under its page name |

## Left out

- File reading (`ioutil.ReadFile`), `filepath.Join` and path cleaning: readers get paths relative to the content or include root, and examples arrive already read.
- `filepath.Walk` itself: the entries it would visit, with their directory flag and error, are an input in visiting order. `SkipDir` is not used by the source and is not modelled.
- `init`, `log.Fatal` and `log.Printf`: process start-up and logging.
- HTTP: the response writer, `http.Error`'s body text and the fallback handler's behaviour. The model decides only between writing, the fallback and status 500. When a write fails the model reports 500 and does not track the bytes already sent.
- The `GAE_APPLICATION` environment check is the `Mode` parameter.
- Markdown rendering (`markdown.ToHTML` with its extensions) and `root` template execution form the `render` parameter. When the parser calls the include hook is not modelled.
- YAML decoding (`yaml.Unmarshal`) is the `unmarshal` parameter.
- Regular expressions (Go RE2): compilation is a parameter. Each compiled expression is a matcher returning an optional byte span; it is only required to lie inside the searched text.
- `bufio.Scanner`: modelled as splitting on LF, dropping an empty final segment and one trailing CR per line. Its 64 KB token limit is not modelled: on a longer line the real scanner stops and `undent` silently returns the lines before it.
- Error texts: errors are datatype values. Only include errors are turned into text (`ErrorText`), because only they reach the page. The `fmt.Errorf` text of `loadMarkdown`'s front-matter error is not.
- `Serve.PageCache.LoadDocs`: requires every walked path to be the root or lie below it. A root that is a regular `.md` file reached without error is excluded; the source panics there, slicing an empty name by `len(".md")`.
- Paths are Dafny `string`s, sequences of Unicode scalar values, while Go paths are byte strings: a percent-decoded URL path such as `/%ff` or a file name that is not UTF-8 has no representation. Every modelled path operation compares or splits on the ASCII `/`, `.` and `.md` only.
- `Indentation.UndentIdempotent`, `Indentation.LinesOfUnlines`: stated for text without CR, or lines not ending in CR. A line ending in two CRs loses one per scan, so undenting again is not the identity there.
- `Include.Trim` is `bytes.Trim` only for the cutset `"\n\r"` the source uses.
