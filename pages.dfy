/** `loadPage` and the title default of `loadMarkdown` in
    cmd/giouiorg/page.go: a Markdown document may begin with a YAML header
    between two `---` markers. YAML decoding itself is a parameter. */
module Pages {
  import opened Base

  /** The front matter marker `---`. */
  const SEP: seq<byte> := [DASH, DASH, DASH]
  const DEFAULT_TITLE: seq<byte> := Bytes("Gio - immediate mode GUI in Go")

  datatype FrontMatter = FrontMatter(title: seq<byte>)

  datatype Page = Page(front: FrontMatter, content: seq<byte>)

  /** `yaml.Unmarshal` into a zero `frontMatter`: the decoded header or the
      decoder's error message. */
  type Unmarshal = seq<byte> -> Result<FrontMatter, seq<byte>>

  /** The split `loadPage` treats as front matter: three pieces, the first
      one empty. */
  predicate HasFrontMatter(content: seq<byte>) {
    var split := SplitN(content, SEP, 3);
    |split| == 3 && split[0] == []
  }

  function LoadPage(content: seq<byte>, unmarshal: Unmarshal): Result<Page, seq<byte>> {
    var split := SplitN(content, SEP, 3);
    if |split| < 3 || |split[0]| > 0 then Ok(Page(FrontMatter([]), content))
    else match unmarshal(split[1])
      case Err(e) => Err(e)
      case Ok(front) => Ok(Page(front, split[2]))
  }

  /** A header as `loadPage` can extract it: no `---` inside, and no trailing
      dash, which would join the closing marker into an earlier `---`. */
  predicate PlainHeader(header: seq<byte>) {
    !Contains(header, SEP) && (header == [] || header[|header| - 1] != DASH)
  }

  /** What `loadPage` returns for a document whose header is `header`. */
  function Decoded(unmarshal: Unmarshal, header: seq<byte>, body: seq<byte>): Result<Page, seq<byte>> {
    match unmarshal(header)
    case Err(e) => Err(e)
    case Ok(front) => Ok(Page(front, body))
  }

  /** The shape of the three-way split of a document that starts with `---`. */
  lemma SplitShape(content: seq<byte>)
    requires HasPrefix(content, SEP)
    ensures var rest := content[3..];
      SplitN(content, SEP, 3) ==
        match IndexOf(rest, SEP)
        case None => [[], rest]
        case Some(i) => [[], rest[..i], rest[i + 3..]]
  {
    IndexOfAt(content, SEP, 0);
    SplitNAt(content, SEP, 3, 0);
    assert content[..0] == [];
  }

  /** Front matter is present exactly when the document starts with `---`
      and another `---` follows that one. */
  lemma FrontMatterIff(content: seq<byte>)
    ensures HasFrontMatter(content) <==> HasPrefix(content, SEP) && Contains(content[3..], SEP)
  {
    if HasPrefix(content, SEP) {
      SplitShape(content);
    } else {
      match IndexOf(content, SEP)
      case None =>
      case Some(m) =>
        assert SplitN(content, SEP, 3)[0] == content[..m];
    }
  }

  /** Without front matter the document is returned unchanged with an empty
      front matter, and the decoder is never consulted. */
  lemma LoadPagePlain(content: seq<byte>, unmarshal: Unmarshal)
    requires !HasPrefix(content, SEP) || !Contains(content[3..], SEP)
    ensures LoadPage(content, unmarshal) == Ok(Page(FrontMatter([]), content))
  {
    FrontMatterIff(content);
  }

  /** With front matter, the header is the text strictly between the first
      two markers and the body everything after the second one; together
      they rebuild the document. */
  lemma LoadPageSplits(content: seq<byte>, unmarshal: Unmarshal)
    requires HasPrefix(content, SEP) && Contains(content[3..], SEP)
    ensures var rest := content[3..];
      var i := IndexOf(rest, SEP).value;
      var header, body := rest[..i], rest[i + 3..];
      SEP + header + SEP + body == content &&
      PlainHeader(header) &&
      LoadPage(content, unmarshal) == Decoded(unmarshal, header, body)
  {
    SplitShape(content);
    var rest := content[3..];
    var i := IndexOf(rest, SEP).value;
    assert rest == rest[..i] + SEP + rest[i + 3..];
    assert content == content[..3] + rest;
    FirstPieceIsPlain(rest, i);
  }

  /** The text before the first `---` is a plain header. */
  lemma FirstPieceIsPlain(rest: seq<byte>, i: nat)
    requires IndexOf(rest, SEP) == Some(i)
    ensures PlainHeader(rest[..i])
  {
    PieceBeforeFirst(rest, SEP, i);
    if i > 0 && rest[i - 1] == DASH {
      assert OccursAt(rest, SEP, i);
      assert rest[i..i + 3][0] == rest[i] && rest[i..i + 3][1] == rest[i + 1];
      assert rest[i - 1..i + 2] == [rest[i - 1], rest[i], rest[i + 1]];
      assert OccursAt(rest, SEP, i - 1);
      assert false;
    }
  }

  /** Conversely, every document built from a plain header and any body is
      split back into exactly that header and body. */
  lemma LoadPageComposes(header: seq<byte>, body: seq<byte>, unmarshal: Unmarshal)
    requires PlainHeader(header)
    ensures LoadPage(SEP + header + SEP + body, unmarshal) == Decoded(unmarshal, header, body)
  {
    var content := SEP + header + SEP + body;
    var rest := header + SEP + body;
    assert content[..3] == SEP && content[3..] == rest;
    assert OccursAt(rest, SEP, |header|);
    forall j | 0 <= j < |header|
      ensures !OccursAt(rest, SEP, j)
    {
      if OccursAt(rest, SEP, j) {
        if j + 3 <= |header| {
          assert header[j..j + 3] == rest[j..j + 3];
          assert OccursAt(header, SEP, j);
          assert false;
        } else {
          DashAt(rest, j, |header| - 1);
        }
      }
    }
    IndexOfAt(rest, SEP, |header|);
    SplitShape(content);
    assert rest[..|header|] == header && rest[|header| + 3..] == body;
  }

  lemma DashAt(x: seq<byte>, j: nat, p: nat)
    requires OccursAt(x, SEP, j) && j <= p < j + 3
    ensures x[p] == DASH
  {
    assert x[j..j + 3][p - j] == x[p];
  }

  /** `loadMarkdown` gives every page a title: an empty one becomes the site
      title, any other is kept, and the content is untouched. */
  function WithDefaultTitle(p: Page): (r: Page)
    ensures r.front.title != []
    ensures r.content == p.content
    ensures p.front.title != [] ==> r == p
    ensures p.front.title == [] ==> r.front.title == DEFAULT_TITLE
  {
    if p.front.title == [] then Page(FrontMatter(DEFAULT_TITLE), p.content) else p
  }
}
