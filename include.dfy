/** `includeExample` and `regexFor` of cmd/giouiorg/page.go: splice a range
    of an example source file, delimited by two regular expressions, into a
    document. Regular expressions are abstract: a compiler is a parameter
    and a compiled expression is a matcher that finds the leftmost match. */
module Include {
  import opened Base
  import opened Indentation

  /** Byte offsets of a match, as `Regexp.FindIndex` returns them. */
  datatype Span = Span(lo: nat, hi: nat)

  /** A compiled expression: the leftmost match in a text, if any. */
  type Matcher = seq<byte> -> Option<Span>

  /** A matcher reports spans inside the text it searched. */
  ghost predicate SoundMatcher(m: Matcher) {
    forall s: seq<byte> :: m(s).Some? ==> m(s).value.lo <= m(s).value.hi <= |s|
  }

  /** `regexp.Compile`: a matcher or the compiler's error message. */
  type Compiler = seq<byte> -> Result<Matcher, seq<byte>>

  ghost predicate SoundCompiler(compile: Compiler) {
    forall p: seq<byte> :: compile(p).Ok? ==> SoundMatcher(compile(p).value)
  }

  datatype PatternError = MissingSeparators | CompileFailed(msg: seq<byte>)

  datatype IncludeError =
    | ReadFailed(msg: seq<byte>)
    | InvalidAddress(addr: seq<byte>)
    | BadPattern(spec: seq<byte>, cause: PatternError)

  const MISSING_SEPARATORS: seq<byte> := Bytes("missing / separators")
  const INVALID_ADDRESS: seq<byte> := Bytes("invalid address: ")
  const COLON_SPACE: seq<byte> := Bytes(": ")

  /** The delimiter check of `regexFor`: `/pattern/` yields `pattern`. */
  function Pattern(r: seq<byte>): (p: Result<seq<byte>, PatternError>)
    ensures p.Ok? <==> |r| >= 2 && r[0] == SLASH && r[|r| - 1] == SLASH
    ensures p.Ok? ==> [SLASH] + p.value + [SLASH] == r
    ensures p.Err? ==> p.error == MissingSeparators
  {
    if |r| < 2 || r[0] != SLASH || r[|r| - 1] != SLASH then Err(MissingSeparators)
    else Ok(r[1..|r| - 1])
  }

  /** Enclosing any pattern in slashes is undone by the delimiter check. */
  lemma PatternRoundTrip(p: seq<byte>)
    ensures Pattern([SLASH] + p + [SLASH]) == Ok(p)
  {
    var r := [SLASH] + p + [SLASH];
    assert r[1..|r| - 1] == p;
  }

  /** The compiler's verdict on a pattern, as `regexFor` reports it. */
  function Compiled(compile: Compiler, p: seq<byte>): Result<Matcher, PatternError> {
    match compile(p)
    case Err(msg) => Err(CompileFailed(msg))
    case Ok(m) => Ok(m)
  }

  function RegexFor(r: seq<byte>, compile: Compiler): (m: Result<Matcher, PatternError>)
    requires SoundCompiler(compile)
    ensures m.Ok? ==> SoundMatcher(m.value)
  {
    match Pattern(r)
    case Err(e) => Err(e)
    case Ok(p) => Compiled(compile, p)
  }

  /** `regexFor` fails with "missing / separators" unless `r` has at least two
      bytes and starts and ends with a slash; otherwise it compiles exactly
      the bytes between the slashes, so "//" compiles the empty pattern. */
  lemma RegexForIff(r: seq<byte>, compile: Compiler)
    requires SoundCompiler(compile)
    ensures (|r| < 2 || r[0] != SLASH || r[|r| - 1] != SLASH) <==> RegexFor(r, compile) == Err(MissingSeparators)
    ensures |r| >= 2 && r[0] == SLASH && r[|r| - 1] == SLASH ==>
      RegexFor(r, compile) == Compiled(compile, r[1..|r| - 1])
    ensures RegexFor([SLASH, SLASH], compile) == Compiled(compile, [])
  {
    var p := Pattern(r);
    if p.Ok? {
      assert r == [SLASH] + p.value + [SLASH];
    }
    PatternRoundTrip([]);
  }

  /** `strings.SplitN(addr, ",", 2)` of a non-empty address, when it yields
      two pieces. */
  function Address(addr: seq<byte>): Option<(seq<byte>, seq<byte>)> {
    var rng := SplitN(addr, [COMMA], 2);
    if |rng| != 2 then None else Some((rng[0], rng[1]))
  }

  /** An address has a range exactly when it holds a comma; the start is the
      text before the first comma and the end all the rest, commas
      included. */
  lemma AddressIff(addr: seq<byte>)
    ensures Address(addr).None? <==> COMMA !in addr
    ensures Address(addr).Some? ==>
      var (start, end) := Address(addr).value;
      start + [COMMA] + end == addr && COMMA !in start
  {
    SplitNJoin(addr, [COMMA], 2);
    match IndexOf(addr, [COMMA])
    case None =>
      if COMMA in addr {
        var j :| 0 <= j < |addr| && addr[j] == COMMA;
        assert addr[j..j + 1] == [COMMA];
        assert OccursAt(addr, [COMMA], j);
      }
    case Some(m) =>
      assert addr[m..m + 1] == [COMMA];
      var start := addr[..m];
      PieceBeforeFirst(addr, [COMMA], m);
      if COMMA in start {
        var j :| 0 <= j < |start| && start[j] == COMMA;
        assert start[j..j + 1] == [COMMA];
        assert OccursAt(start, [COMMA], j);
      }
  }

  /** Conversely, a comma-free start and any end form an address that is
      split back into them. */
  lemma AddressComposes(start: seq<byte>, end: seq<byte>)
    requires COMMA !in start
    ensures Address(start + [COMMA] + end) == Some((start, end))
  {
    var addr := start + [COMMA] + end;
    assert OccursAt(addr, [COMMA], |start|);
    forall j | 0 <= j < |start|
      ensures !OccursAt(addr, [COMMA], j)
    {
      assert addr[j..j + 1] == [start[j]];
    }
    IndexOfAt(addr, [COMMA], |start|);
    assert addr[..|start|] == start && addr[|start| + 1..] == end;
  }

  /** The cutset "\n\r" of `bytes.Trim`. */
  predicate IsLineBreak(b: byte) {
    b == LF || b == CR
  }

  predicate AllLineBreaks(s: seq<byte>) {
    forall k :: 0 <= k < |s| ==> IsLineBreak(s[k])
  }

  function TrimLeft(s: seq<byte>): (r: seq<byte>)
    ensures HasSuffix(s, r) && AllLineBreaks(s[..|s| - |r|])
    ensures r == [] || !IsLineBreak(r[0])
  {
    if s != [] && IsLineBreak(s[0]) then
      var r := TrimLeft(s[1..]);
      assert s[..|s| - |r|] == [s[0]] + s[1..][..|s| - 1 - |r|];
      r
    else s
  }

  function TrimRight(s: seq<byte>): (r: seq<byte>)
    ensures HasPrefix(s, r) && AllLineBreaks(s[|r|..])
    ensures r == [] || !IsLineBreak(r[|r| - 1])
  {
    if s != [] && IsLineBreak(s[|s| - 1]) then
      var r := TrimRight(s[..|s| - 1]);
      assert s[|r|..] == s[..|s| - 1][|r|..] + [s[|s| - 1]];
      r
    else s
  }

  /** `bytes.Trim(s, "\n\r")`: the slice of `s` left once the leading and the
      trailing line breaks are cut, which neither starts nor ends with one. */
  function Trim(s: seq<byte>): (r: seq<byte>)
    ensures var a := |s| - |TrimLeft(s)|;
      a + |r| <= |s| && r == s[a..a + |r|] &&
      AllLineBreaks(s[..a]) && AllLineBreaks(s[a + |r|..])
    ensures r == [] || (!IsLineBreak(r[0]) && !IsLineBreak(r[|r| - 1]))
  {
    var r := TrimRight(TrimLeft(s));
    TrimSlice(s, TrimLeft(s), r);
    r
  }

  lemma TrimSlice(s: seq<byte>, left: seq<byte>, r: seq<byte>)
    requires HasSuffix(s, left) && AllLineBreaks(s[..|s| - |left|])
    requires HasPrefix(left, r) && AllLineBreaks(left[|r|..])
    ensures var a := |s| - |left|;
      a + |r| <= |s| && r == s[a..a + |r|] && AllLineBreaks(s[a + |r|..])
  {
    var a := |s| - |left|;
    assert left == s[a..];
    assert s[a + |r|..] == left[|r|..];
  }

  /** Trimming a trimmed text changes nothing. */
  lemma TrimIdempotent(s: seq<byte>)
    ensures Trim(Trim(s)) == Trim(s)
  {
    var r := Trim(s);
    assert TrimLeft(r) == r;
    if r != [] {
      assert TrimRight(r) == r;
    }
  }

  /** Where the included range starts: at the first start match, or at the
      beginning of the file when there is none. */
  function StartOffset(content: seq<byte>, sm: Matcher): (a: nat)
    requires SoundMatcher(sm)
    ensures a <= |content|
  {
    match sm(content)
    case None => 0
    case Some(sp) => sp.lo
  }

  /** Where the included range stops, measured from its start: at the end of
      the first end match in the remainder, or at the end of the remainder. */
  function EndOffset(rest: seq<byte>, em: Matcher): (b: nat)
    requires SoundMatcher(em)
    ensures b <= |rest|
  {
    match em(rest)
    case None => |rest|
    case Some(sp) => sp.hi
  }

  /** The steps after the range is chosen: trim leading and trailing line
      breaks, append one LF, undent. */
  function Finish(content: seq<byte>): seq<byte> {
    UndentText(Trim(content) + [LF])
  }

  /** The part of the file `includeExample` selects, before trimming and
      undenting, or the error it reports. */
  function Range(file: Result<seq<byte>, seq<byte>>, addr: seq<byte>, compile: Compiler): Result<seq<byte>, IncludeError>
    requires SoundCompiler(compile)
  {
    match file
    case Err(msg) => Err(ReadFailed(msg))
    case Ok(content) =>
      if addr == [] then Ok(content)
      else match Address(addr)
        case None => Err(InvalidAddress(addr))
        case Some((start, end)) =>
          match RegexFor(start, compile)
          case Err(e) => Err(BadPattern(start, e))
          case Ok(sm) =>
            match RegexFor(end, compile)
            case Err(e) => Err(BadPattern(end, e))
            case Ok(em) =>
              var rest := content[StartOffset(content, sm)..];
              Ok(rest[..EndOffset(rest, em)])
  }

  /** What `includeExample` returns: the selected range, finished. */
  function IncludeSpec(file: Result<seq<byte>, seq<byte>>, addr: seq<byte>, compile: Compiler): Result<seq<byte>, IncludeError>
    requires SoundCompiler(compile)
  {
    match Range(file, addr, compile)
    case Err(e) => Err(e)
    case Ok(range) => Ok(Finish(range))
  }

  /** The statement sequence of `includeExample`, reassigning `content` as it
      narrows the range. The file has already been read (or failed to). */
  method IncludeExample(file: Result<seq<byte>, seq<byte>>, addr: seq<byte>, compile: Compiler)
    returns (r: Result<seq<byte>, IncludeError>)
    requires SoundCompiler(compile)
    ensures r == IncludeSpec(file, addr, compile)
  {
    if file.Err? {
      return Err(ReadFailed(file.error));
    }
    var content := file.value;
    ghost var range := content;
    if addr != [] {
      var rng := SplitN(addr, [COMMA], 2);
      if |rng| != 2 {
        return Err(InvalidAddress(addr));
      }
      var start, end := rng[0], rng[1];
      assert Address(addr) == Some((start, end));
      var startR := RegexFor(start, compile);
      if startR.Err? {
        return Err(BadPattern(start, startR.error));
      }
      var endR := RegexFor(end, compile);
      if endR.Err? {
        return Err(BadPattern(end, endR.error));
      }
      ghost var rest := content[StartOffset(content, startR.value)..];
      var startIdx := startR.value(content);
      if startIdx.Some? {
        content := content[startIdx.value.lo..];
      }
      assert content == rest;
      var endIdx := endR.value(content);
      if endIdx.Some? {
        content := content[..endIdx.value.hi];
      }
      assert content == rest[..EndOffset(rest, endR.value)];
      range := content;
    }
    assert Range(file, addr, compile) == Ok(range);
    content := Trim(content);
    content := content + [LF];
    var out := Undent(content);
    return Ok(out);
  }

  /** An empty address selects the whole file. */
  lemma WholeFile(content: seq<byte>, compile: Compiler)
    requires SoundCompiler(compile)
    ensures Range(Ok(content), [], compile) == Ok(content)
  {
  }

  /** A non-empty address is invalid exactly when it holds no comma. */
  lemma InvalidAddressIff(content: seq<byte>, addr: seq<byte>, compile: Compiler)
    requires SoundCompiler(compile) && addr != []
    ensures Range(Ok(content), addr, compile) == Err(InvalidAddress(addr)) <==> COMMA !in addr
  {
    AddressIff(addr);
  }

  /** A malformed start is reported before the end is looked at. */
  lemma StartCheckedFirst(content: seq<byte>, start: seq<byte>, end: seq<byte>, compile: Compiler)
    requires SoundCompiler(compile) && COMMA !in start
    requires RegexFor(start, compile).Err?
    ensures Range(Ok(content), start + [COMMA] + end, compile) ==
      Err(BadPattern(start, RegexFor(start, compile).error))
  {
    AddressComposes(start, end);
  }

  /** The file is read before the address is looked at: a read error wins. */
  lemma ReadErrorFirst(msg: seq<byte>, addr: seq<byte>, compile: Compiler)
    requires SoundCompiler(compile)
    ensures Range(Err(msg), addr, compile) == Err(ReadFailed(msg))
  {
  }

  /** With a good start, a malformed end is reported under the end's name. */
  lemma EndCheckedSecond(content: seq<byte>, start: seq<byte>, end: seq<byte>, compile: Compiler)
    requires SoundCompiler(compile) && COMMA !in start
    requires RegexFor(start, compile).Ok? && RegexFor(end, compile).Err?
    ensures Range(Ok(content), start + [COMMA] + end, compile) ==
      Err(BadPattern(end, RegexFor(end, compile).error))
  {
    AddressComposes(start, end);
  }

  /** With two good patterns the selection is one contiguous range of the
      file: from the start of the first start match (or the file start) to
      the end of the first end match found in the remainder from there (or
      the file end). */
  lemma IncludedRange(content: seq<byte>, start: seq<byte>, end: seq<byte>, compile: Compiler,
                      sm: Matcher, em: Matcher)
    requires SoundCompiler(compile) && COMMA !in start
    requires RegexFor(start, compile) == Ok(sm) && RegexFor(end, compile) == Ok(em)
    ensures StartOffset(content, sm) + EndOffset(content[StartOffset(content, sm)..], em) <= |content|
    ensures var a := StartOffset(content, sm);
      Range(Ok(content), start + [COMMA] + end, compile) ==
        Ok(content[a..a + EndOffset(content[a..], em)])
  {
    AddressComposes(start, end);
    var a := StartOffset(content, sm);
    var rest := content[a..];
    var b := EndOffset(rest, em);
    assert rest[..b] == content[a..a + b];
  }

  /** The text of an error as `loadMarkdown` splices it into the page. */
  function ErrorText(e: IncludeError): seq<byte> {
    match e
    case ReadFailed(msg) => msg
    case InvalidAddress(addr) => INVALID_ADDRESS + addr
    case BadPattern(spec, MissingSeparators) => spec + COLON_SPACE + MISSING_SEPARATORS
    case BadPattern(spec, CompileFailed(msg)) => spec + COLON_SPACE + msg
  }

  /** The `ReadIncludeFn` hook of `loadMarkdown`: the example, or the text of
      the error in its place. */
  method ReadInclude(file: Result<seq<byte>, seq<byte>>, addr: seq<byte>, compile: Compiler)
    returns (content: seq<byte>)
    requires SoundCompiler(compile)
    ensures IncludeSpec(file, addr, compile).Ok? ==> content == IncludeSpec(file, addr, compile).value
    ensures IncludeSpec(file, addr, compile).Err? ==> content == ErrorText(IncludeSpec(file, addr, compile).error)
  {
    var r := IncludeExample(file, addr, compile);
    if r.Err? {
      content := ErrorText(r.error);
    } else {
      content := r.value;
    }
  }
}
