/** Page loading and request dispatch of cmd/giouiorg/page.go:
    `loadMarkdown`, `servePage`, `pageHandler` and the page cache that
    `loadDocs` fills. File reading, Markdown rendering, template execution
    and writing to the client are parameters. */
module Serve {
  import opened Base
  import opened Pages

  /** Where pages come from: the prebuilt cache when `GAE_APPLICATION` is set,
      the content directory at every request otherwise. */
  datatype Mode = Cached | Live

  datatype ServeError =
    | NoPage
    | ReadFailed(path: string, msg: seq<byte>)
    | FrontMatterFailed(path: string, msg: seq<byte>)
    | TemplateFailed(msg: seq<byte>)
    | WriteFailed(msg: seq<byte>)
    | WalkFailed(path: string, msg: seq<byte>)

  /** What the process can observe: the content files (by path relative to
      the content root), the YAML decoder, and Markdown rendering followed by
      the `root` template (which may fail). */
  datatype Env = Env(
    readContent: string -> Result<seq<byte>, seq<byte>>,
    unmarshal: Unmarshal,
    render: Page -> Result<seq<byte>, seq<byte>>)

  /** What the handler does with a request. */
  datatype Response = Written | FellBack | Failed(status: nat)

  const STATUS_INTERNAL_SERVER_ERROR: nat := 500

  /** `loadMarkdown(url)`: read `url.md`, split off the front matter, default
      the title, render. */
  function LoadMarkdown(url: string, env: Env): Result<seq<byte>, ServeError> {
    var path := url + ".md";
    match env.readContent(path)
    case Err(msg) => Err(ReadFailed(path, msg))
    case Ok(content) =>
      match LoadPage(content, env.unmarshal)
      case Err(msg) => Err(FrontMatterFailed(path, msg))
      case Ok(page) =>
        match env.render(WithDefaultTitle(page))
        case Err(msg) => Err(TemplateFailed(msg))
        case Ok(html) => Ok(html)
  }

  /** `loadMarkdown` never reports a missing page as `errNoPage`: its errors
      are those of reading or parsing the page's own file, or of rendering. */
  lemma LoadMarkdownErrors(url: string, env: Env)
    ensures LoadMarkdown(url, env) != Err(NoPage)
    ensures LoadMarkdown(url, env).Err? ==>
      match LoadMarkdown(url, env).error
      case ReadFailed(path, _) => path == url + ".md" && env.readContent(path).Err?
      case FrontMatterFailed(path, _) => path == url + ".md" && env.readContent(path).Ok?
      case TemplateFailed(_) => true
      case _ => false
  {
  }

  /** `servePage`: find the page and write it; `write` reports the writer's
      error, if any. */
  function ServePage(mode: Mode, pages: map<string, seq<byte>>, path: string, env: Env,
                     write: seq<byte> -> Option<seq<byte>>): Option<ServeError>
  {
    var page := match mode
      case Cached => if path in pages then Ok(pages[path]) else Err(NoPage)
      case Live => LoadMarkdown(path, env);
    match page
    case Err(e) => Some(e)
    case Ok(p) =>
      match write(p)
      case Some(msg) => Some(WriteFailed(msg))
      case None => None
  }

  /** A request path naming a directory serves that directory's `index`. */
  function RewritePath(path: string): (r: string)
    ensures HasPrefix(r, path)
    ensures !HasSuffix(r, "/")
    ensures !HasSuffix(path, "/") ==> r == path
    ensures HasSuffix(path, "/") ==> r[|path|..] == "index"
  {
    if HasSuffix(path, "/") then
      var r := path + "index";
      assert r[|r| - 1..] == "x";
      r
    else path
  }

  /** Rewriting twice is rewriting once. */
  lemma RewriteIdempotent(path: string)
    ensures RewritePath(RewritePath(path)) == RewritePath(path)
  {
  }

  /** The handler `pageHandler` installs. */
  function HandlePage(mode: Mode, pages: map<string, seq<byte>>, path: string, env: Env,
                      write: seq<byte> -> Option<seq<byte>>): Response
  {
    match ServePage(mode, pages, RewritePath(path), env, write)
    case None => Written
    case Some(NoPage) => FellBack
    case Some(_) => Failed(STATUS_INTERNAL_SERVER_ERROR)
  }

  /** The fallback handler runs exactly when the cache is in use and holds no
      page under the rewritten path; in live mode a missing file is a server
      error, never a fallback. */
  lemma FallbackIff(mode: Mode, pages: map<string, seq<byte>>, path: string, env: Env,
                    write: seq<byte> -> Option<seq<byte>>)
    ensures HandlePage(mode, pages, path, env, write) == FellBack <==>
      mode == Cached && RewritePath(path) !in pages
  {
    if mode == Live {
      LoadMarkdownErrors(RewritePath(path), env);
    }
  }

  /** A request is answered with the page exactly when the page is found and
      written; every other outcome is the fallback or status 500. */
  lemma HandleOutcomes(mode: Mode, pages: map<string, seq<byte>>, path: string, env: Env,
                       write: seq<byte> -> Option<seq<byte>>)
    ensures var p := RewritePath(path);
      HandlePage(mode, pages, path, env, write) == Written <==>
        match mode
        case Cached => p in pages && write(pages[p]).None?
        case Live => LoadMarkdown(p, env).Ok? && write(LoadMarkdown(p, env).value).None?
    ensures HandlePage(mode, pages, path, env, write) in {Written, FellBack, Failed(500)}
  {
  }

  /** The final element of the path, after its last `/`, holds a dot. */
  predicate BaseHasDot(path: string) {
    exists j :: 0 <= j < |path| && path[j] == '.' && '/' !in path[j + 1..]
  }

  /** `filepath.Ext`: the suffix from the last dot of the final path element,
      or nothing when that element has no dot. */
  function Ext(path: string): (e: string)
    ensures e == [] || (HasSuffix(path, e) && e[0] == '.')
    ensures forall k :: 1 <= k < |e| ==> e[k] != '.' && e[k] != '/'
    ensures e == [] <==> !BaseHasDot(path)
  {
    var e := ExtBefore(path, |path|);
    assert e != [] ==> path[|path| - |e|] == e[0] && path[|path| - |e| + 1..] == e[1..];
    e
  }

  /** The scan of `filepath.Ext` from index n - 1 down, once the bytes from n
      on are known to hold no dot and no slash. */
  function ExtBefore(path: string, n: nat): (e: string)
    requires n <= |path|
    requires forall j :: n <= j < |path| ==> path[j] != '.' && path[j] != '/'
    ensures e == [] || (HasSuffix(path, e) && e[0] == '.')
    ensures forall k :: 1 <= k < |e| ==> e[k] != '.' && e[k] != '/'
    ensures e == [] ==> !BaseHasDot(path)
  {
    if n == 0 || path[n - 1] == '/' then []
    else if path[n - 1] == '.' then path[n - 1..]
    else ExtBefore(path, n - 1)
  }

  /** `filepath.Ext(path) != ".md"` is exactly "path does not end in .md". */
  lemma ExtIsMd(path: string)
    ensures Ext(path) == ".md" <==> HasSuffix(path, ".md")
  {
    var n := |path|;
    if HasSuffix(path, ".md") {
      assert path[n - 3..] == ".md";
      assert path[n - 1] == 'd' && path[n - 2] == 'm' && path[n - 3] == '.';
      assert ExtBefore(path, n) == ExtBefore(path, n - 1) == ExtBefore(path, n - 2);
    }
  }

  /** The page name `loadDocs` derives from a Markdown file found under
      `root`: the path below the root, without `.md`. */
  function PageName(root: string, path: string): (name: string)
    requires HasPrefix(path, root + "/") && HasSuffix(path, ".md")
    ensures root + name + ".md" == path
    ensures |name| > 0 && name[0] == '/'
  {
    var name := path[|root|..];
    assert name[0] == path[|root|] == (root + "/")[|root|];
    name[..|name| - |".md"|]
  }

  /** A path as `filepath.Walk` hands it to the callback: the root itself
      or a path below it. */
  datatype WalkEntry = WalkEntry(path: string, isDir: bool, err: Option<seq<byte>>)

  /** The root is excluded only as a regular `.md` file read without error:
      there the callback slices an empty name and panics. */
  predicate UnderRoot(root: string, e: WalkEntry) {
    HasPrefix(e.path, root + "/") ||
    (e.path == root && (e.isDir || e.err.Some? || !HasSuffix(root, ".md")))
  }

  /** What the `loadDocs` callback does with one entry. */
  datatype Visit = Skip | Store(name: string, content: seq<byte>) | Stop(err: ServeError)

  /** How `loadDocs` renders a page: `loadMarkdown` under `env`. */
  type Loader = string -> Result<seq<byte>, ServeError>

  function MarkdownLoader(env: Env): Loader {
    name => LoadMarkdown(name, env)
  }

  function VisitEntry(root: string, e: WalkEntry, load: Loader): (v: Visit)
    requires UnderRoot(root, e)
  {
    if e.err.Some? then Stop(WalkFailed(e.path, e.err.value))
    else if e.isDir || Ext(e.path) != ".md" then Skip
    else
      ExtIsMd(e.path);
      var name := PageName(root, e.path);
      match load(name)
      case Err(err) => Stop(err)
      case Ok(content) => Store(name, content)
  }

  /** The pages map after walking `entries` from `pages`, and the error that
      stopped the walk, if any. */
  function Walk(root: string, entries: seq<WalkEntry>, load: Loader, pages: map<string, seq<byte>>):
    (map<string, seq<byte>>, Option<ServeError>)
    requires forall k :: 0 <= k < |entries| ==> UnderRoot(root, entries[k])
  {
    if entries == [] then (pages, None)
    else match VisitEntry(root, entries[0], load)
      case Stop(err) => (pages, Some(err))
      case Skip => Walk(root, entries[1..], load, pages)
      case Store(name, content) => Walk(root, entries[1..], load, pages[name := content])
  }

  /** A root that is a regular file without `.md` is skipped: the walk
      ends without error and stores nothing. */
  lemma RegularRootSkipped(root: string, load: Loader, pages: map<string, seq<byte>>)
    requires !HasSuffix(root, ".md")
    ensures Walk(root, [WalkEntry(root, false, None)], load, pages) == (pages, None)
  {
    ExtIsMd(root);
    assert [WalkEntry(root, false, None)][1..] == [];
  }

  /** The package-level `pages` map that `init` fills through `loadDocs`. */
  class PageCache {
    var pages: map<string, seq<byte>>

    constructor ()
      ensures pages == map[]
    {
      pages := map[];
    }

    /** `loadDocs(root)`, with the walk's visiting order given as `entries`. */
    method LoadDocs(root: string, entries: seq<WalkEntry>, env: Env) returns (err: Option<ServeError>)
      requires forall k :: 0 <= k < |entries| ==> UnderRoot(root, entries[k])
      modifies this
      ensures (pages, err) == Walk(root, entries, MarkdownLoader(env), old(pages))
    {
      var load := MarkdownLoader(env);
      var k := 0;
      while k < |entries|
        invariant k <= |entries|
        invariant Walk(root, entries[k..], load, pages) == Walk(root, entries, load, old(pages))
      {
        assert entries[k..][1..] == entries[k + 1..];
        match VisitEntry(root, entries[k], load) {
          case Stop(e) =>
            return Some(e);
          case Skip =>
          case Store(name, content) =>
            pages := pages[name := content];
        }
        k := k + 1;
      }
      return None;
    }
  }

  /** `e` is the Markdown file that `loadDocs` files under `name`. */
  predicate IsSourceOf(root: string, e: WalkEntry, name: string) {
    e.err.None? && !e.isDir && e.path == root + name + ".md"
  }

  /** Every page in the map after the walk was there before, or is named
      after a Markdown file of the walk and holds what the loader (for
      `loadDocs`, `loadMarkdown`) produced for that name. */
  lemma {:induction false} WalkStoresLoadedPages(root: string, entries: seq<WalkEntry>, load: Loader,
                                                pages: map<string, seq<byte>>, name: string)
    requires forall k :: 0 <= k < |entries| ==> UnderRoot(root, entries[k])
    requires name in Walk(root, entries, load, pages).0
    ensures var result := Walk(root, entries, load, pages).0;
      (name in pages && result[name] == pages[name]) ||
      (load(name) == Ok(result[name]) &&
       exists k :: 0 <= k < |entries| && IsSourceOf(root, entries[k], name))
  {
    if entries != [] {
      match VisitEntry(root, entries[0], load)
      case Stop(_) =>
      case Skip =>
        WalkStoresLoadedPages(root, entries[1..], load, pages, name);
        ForallTail(root, entries, name);
      case Store(n, c) =>
        WalkStoresLoadedPages(root, entries[1..], load, pages[n := c], name);
        ForallTail(root, entries, name);
        ExtIsMd(entries[0].path);
        if name == n {
          assert IsSourceOf(root, entries[0], name);
        }
    }
  }

  /** A source among the later entries is a source among all of them. */
  lemma ForallTail(root: string, entries: seq<WalkEntry>, name: string)
    requires entries != []
    ensures (exists k :: 0 <= k < |entries| - 1 && IsSourceOf(root, entries[1..][k], name)) ==>
      exists k :: 0 <= k < |entries| && IsSourceOf(root, entries[k], name)
  {
    if exists k :: 0 <= k < |entries| - 1 && IsSourceOf(root, entries[1..][k], name) {
      var k :| 0 <= k < |entries| - 1 && IsSourceOf(root, entries[1..][k], name);
      assert entries[1..][k] == entries[k + 1];
    }
  }

  /** The walk only adds to the map. */
  lemma {:induction false} WalkGrows(root: string, entries: seq<WalkEntry>, load: Loader,
                                    pages: map<string, seq<byte>>)
    requires forall k :: 0 <= k < |entries| ==> UnderRoot(root, entries[k])
    ensures pages.Keys <= Walk(root, entries, load, pages).0.Keys
  {
    if entries != [] {
      match VisitEntry(root, entries[0], load)
      case Stop(_) =>
      case Skip =>
        WalkGrows(root, entries[1..], load, pages);
      case Store(n, c) =>
        WalkGrows(root, entries[1..], load, pages[n := c]);
    }
  }

  /** The map after one callback. */
  function AfterVisit(pages: map<string, seq<byte>>, v: Visit): map<string, seq<byte>> {
    if v.Store? then pages[v.name := v.content] else pages
  }

  /** A walk without error continues past its first entry. */
  lemma WalkUnfold(root: string, entries: seq<WalkEntry>, load: Loader, pages: map<string, seq<byte>>)
    requires forall j :: 0 <= j < |entries| ==> UnderRoot(root, entries[j])
    requires entries != [] && Walk(root, entries, load, pages).1 == None
    ensures var v := VisitEntry(root, entries[0], load);
      !v.Stop? && Walk(root, entries, load, pages) == Walk(root, entries[1..], load, AfterVisit(pages, v))
  {
  }

  /** A walk that reports no error has filed every Markdown file it met. */
  lemma {:induction false} WalkComplete(root: string, entries: seq<WalkEntry>, load: Loader,
                                       pages: map<string, seq<byte>>, k: nat)
    requires forall j :: 0 <= j < |entries| ==> UnderRoot(root, entries[j])
    requires Walk(root, entries, load, pages).1 == None
    requires k < |entries| && !entries[k].isDir && HasSuffix(entries[k].path, ".md")
    ensures entries[k].err.None? && HasPrefix(entries[k].path, root + "/")
    ensures PageName(root, entries[k].path) in Walk(root, entries, load, pages).0
  {
    WalkUnfold(root, entries, load, pages);
    var v := VisitEntry(root, entries[0], load);
    var rest := entries[1..];
    var next := AfterVisit(pages, v);
    if k == 0 {
      VisitMarkdown(root, entries[0], load);
      WalkGrows(root, rest, load, next);
    } else {
      assert rest[k - 1] == entries[k];
      WalkComplete(root, rest, load, next, k - 1);
    }
  }

  /** The callback files a Markdown file under its page name, or stops. */
  lemma VisitMarkdown(root: string, e: WalkEntry, load: Loader)
    requires UnderRoot(root, e) && !e.isDir && HasSuffix(e.path, ".md")
    ensures e.err.None? ==> HasPrefix(e.path, root + "/")
    ensures VisitEntry(root, e, load).Stop? ||
      (VisitEntry(root, e, load).Store? && VisitEntry(root, e, load).name == PageName(root, e.path))
  {
    ExtIsMd(e.path);
  }
}
