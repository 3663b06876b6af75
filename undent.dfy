/** `undent` of cmd/giouiorg/page.go: drop the lines that mention OMIT and
    remove, from every remaining line, as many leading tabs as the first
    remaining line starts with. */
module Indentation {
  import opened Base

  const OMIT: seq<byte> := Bytes("OMIT")

  /** A token of `bufio.ScanLines` loses one trailing carriage return. */
  function DropCR(line: seq<byte>): (r: seq<byte>)
    ensures r == line || line == r + [CR]
    ensures line == r + [CR] <==> (|line| > 0 && line[|line| - 1] == CR)
  {
    if |line| > 0 && line[|line| - 1] == CR then line[..|line| - 1] else line
  }

  /** The tokens a `bufio.Scanner` with `ScanLines` yields for `text`: the
      text is split at each LF, an empty final segment is no token, and each
      token loses one trailing CR. */
  function Lines(text: seq<byte>): (ls: seq<seq<byte>>)
    ensures forall k :: 0 <= k < |ls| ==> LF !in ls[k]
    decreases |text|
  {
    if text == [] then []
    else match IndexOf(text, [LF])
      case None =>
        assert forall j :: 0 <= j < |text| ==> !OccursAt(text, [LF], j);
        assert forall j :: 0 <= j < |text| ==> text[j] != LF by {
          forall j | 0 <= j < |text| ensures text[j] != LF {
            assert !OccursAt(text, [LF], j);
            assert text[j..j + 1] == [text[j]];
          }
        }
        [DropCR(text)]
      case Some(i) =>
        assert forall j :: 0 <= j < i ==> text[j] != LF by {
          forall j | 0 <= j < i ensures text[j] != LF {
            assert !OccursAt(text, [LF], j);
            assert text[j..j + 1] == [text[j]];
          }
        }
        [DropCR(text[..i])] + Lines(text[i + 1..])
  }

  /** `strings.Contains(line, "OMIT")`. */
  predicate HasOmit(line: seq<byte>) {
    Contains(line, OMIT)
  }

  /** The lines `undent` keeps, in their original order. */
  function Kept(lines: seq<seq<byte>>): seq<seq<byte>> {
    if lines == [] then []
    else if HasOmit(lines[0]) then Kept(lines[1..])
    else [lines[0]] + Kept(lines[1..])
  }

  /** The number of tabs `line` starts with. */
  function LeadingTabs(line: seq<byte>): (n: nat)
    ensures n <= |line|
    ensures forall j :: 0 <= j < n ==> line[j] == TAB
    ensures n == |line| || line[n] != TAB
  {
    if |line| > 0 && line[0] == TAB then 1 + LeadingTabs(line[1..]) else 0
  }

  function Min(a: nat, b: nat): nat {
    if a <= b then a else b
  }

  /** `line` without up to `ntabs` of its leading tabs. */
  function Strip(line: seq<byte>, ntabs: nat): seq<byte> {
    line[Min(ntabs, LeadingTabs(line))..]
  }

  function StripAll(lines: seq<seq<byte>>, ntabs: nat): (r: seq<seq<byte>>)
    ensures |r| == |lines|
    ensures forall k :: 0 <= k < |r| ==> r[k] == Strip(lines[k], ntabs)
  {
    seq(|lines|, k requires 0 <= k < |lines| => Strip(lines[k], ntabs))
  }

  /** Every line followed by LF. */
  function Unlines(lines: seq<seq<byte>>): seq<byte> {
    if lines == [] then [] else lines[0] + [LF] + Unlines(lines[1..])
  }

  /** The tab count `undent` strips: that of the first kept line. */
  function Indent(kept: seq<seq<byte>>): nat {
    if kept == [] then 0 else LeadingTabs(kept[0])
  }

  /** What `undent` returns for `text`. */
  function UndentText(text: seq<byte>): seq<byte> {
    var kept := Kept(Lines(text));
    Unlines(StripAll(kept, Indent(kept)))
  }

  /** The scanner loop of `undent`, one token at a time. */
  method Undent(text: seq<byte>) returns (out: seq<byte>)
    ensures out == UndentText(text)
  {
    var lines := Lines(text);
    var first := true;
    var ntabs := 0;
    out := [];
    ghost var kept: seq<seq<byte>> := [];
    for k := 0 to |lines|
      invariant kept == Kept(lines[..k])
      invariant first <==> kept == []
      invariant first ==> ntabs == 0
      invariant !first ==> ntabs == LeadingTabs(kept[0])
      invariant out == Unlines(StripAll(kept, ntabs))
    {
      var line := lines[k];
      KeptSnoc(lines[..k], line);
      assert lines[..k + 1] == lines[..k] + [line];
      if HasOmit(line) {
        continue;
      }
      if first {
        ntabs := CountTabs(line);
        first := false;
      }
      var stripped := StripTabs(line, ntabs);
      KeepLine(kept, line, ntabs, stripped);
      kept := kept + [line];
      out := out + stripped + [LF];
    }
    assert lines[..|lines|] == lines;
  }

  /** The tab count of the first kept line: its run of leading tabs. */
  method CountTabs(line: seq<byte>) returns (ntabs: nat)
    ensures ntabs == LeadingTabs(line)
  {
    ntabs := 0;
    while ntabs < |line| && line[ntabs] == TAB
      invariant ntabs <= |line|
      invariant forall j :: 0 <= j < ntabs ==> line[j] == TAB
    {
      ntabs := ntabs + 1;
    }
    LeadingTabsExact(line, ntabs);
  }

  /** Drops leading tabs one at a time, at most ntabs of them. */
  method StripTabs(original: seq<byte>, ntabs: nat) returns (line: seq<byte>)
    ensures line == Strip(original, ntabs)
  {
    line := original;
    var i := 0;
    while i < ntabs && |line| > 0 && line[0] == TAB
      invariant i <= ntabs && i <= |original|
      invariant line == original[i..]
      invariant forall j :: 0 <= j < i ==> original[j] == TAB
    {
      i := i + 1;
      line := line[1..];
    }
    StripStops(original, ntabs, i);
  }

  lemma {:induction false} KeptSnoc(lines: seq<seq<byte>>, line: seq<byte>)
    ensures Kept(lines + [line]) == Kept(lines) + (if HasOmit(line) then [] else [line])
  {
    if lines != [] {
      assert (lines + [line])[1..] == lines[1..] + [line];
      KeptSnoc(lines[1..], line);
    }
  }

  /** Where the tab-stripping loop stops is what Strip removes. */
  lemma StripStops(line: seq<byte>, ntabs: nat, i: nat)
    requires i <= ntabs && i <= |line|
    requires forall j :: 0 <= j < i ==> line[j] == TAB
    requires i == ntabs || i == |line| || line[i] != TAB
    ensures line[i..] == Strip(line, ntabs)
  {
    if i < ntabs {
      LeadingTabsExact(line, i);
    }
  }

  /** Keeping one more line appends its stripped form and a line feed. */
  lemma KeepLine(kept: seq<seq<byte>>, original: seq<byte>, ntabs: nat, line: seq<byte>)
    requires line == Strip(original, ntabs)
    ensures Unlines(StripAll(kept + [original], ntabs)) == Unlines(StripAll(kept, ntabs)) + line + [LF]
  {
    StripAllSnoc(kept, original, ntabs);
    UnlinesSnoc(StripAll(kept, ntabs), line);
  }

  lemma StripAllSnoc(lines: seq<seq<byte>>, line: seq<byte>, ntabs: nat)
    ensures StripAll(lines + [line], ntabs) == StripAll(lines, ntabs) + [Strip(line, ntabs)]
  {
  }

  lemma {:induction false} UnlinesSnoc(lines: seq<seq<byte>>, line: seq<byte>)
    ensures Unlines(lines + [line]) == Unlines(lines) + line + [LF]
  {
    if lines != [] {
      assert (lines + [line])[1..] == lines[1..] + [line];
      UnlinesSnoc(lines[1..], line);
    }
  }

  /** Keeping commutes with concatenation: the kept lines of a text are the
      kept lines of its parts, in order. */
  lemma {:induction false} KeptAppend(a: seq<seq<byte>>, b: seq<seq<byte>>)
    ensures Kept(a + b) == Kept(a) + Kept(b)
  {
    if a == [] {
      assert a + b == b;
    } else {
      assert (a + b)[1..] == a[1..] + b;
      KeptAppend(a[1..], b);
    }
  }

  /** `undent` drops exactly the lines that mention OMIT. */
  lemma {:induction false} KeptExactly(lines: seq<seq<byte>>, line: seq<byte>)
    ensures line in Kept(lines) <==> line in lines && !HasOmit(line)
  {
    if lines != [] {
      KeptExactly(lines[1..], line);
      assert lines == [lines[0]] + lines[1..];
    }
  }

  /** A list with no OMIT line is kept whole. */
  lemma {:induction false} KeptAll(lines: seq<seq<byte>>)
    requires forall k :: 0 <= k < |lines| ==> !HasOmit(lines[k])
    ensures Kept(lines) == lines
  {
    if lines != [] {
      KeptAll(lines[1..]);
    }
  }

  /** Stripping removes min(ntabs, leading tabs) tabs and nothing else: the
      input is that many tabs followed by the output, and the output still
      starts with the tabs that were not removed. */
  lemma StripRemovesTabs(line: seq<byte>, ntabs: nat)
    ensures var t := Min(ntabs, LeadingTabs(line));
      line == line[..t] + Strip(line, ntabs) &&
      (forall j :: 0 <= j < t ==> line[j] == TAB) &&
      LeadingTabs(Strip(line, ntabs)) == LeadingTabs(line) - t
  {
    var t := Min(ntabs, LeadingTabs(line));
    var r := Strip(line, ntabs);
    assert forall j :: 0 <= j < |r| ==> r[j] == line[t + j];
    LeadingTabsExact(r, LeadingTabs(line) - t);
  }

  /** LeadingTabs is the length of the run of tabs the line starts with. */
  lemma LeadingTabsExact(line: seq<byte>, n: nat)
    requires n <= |line|
    requires forall j :: 0 <= j < n ==> line[j] == TAB
    requires n == |line| || line[n] != TAB
    ensures LeadingTabs(line) == n
  {
  }

  /** The first output line of `undent` starts with no tab. */
  lemma FirstLineUntabbed(text: seq<byte>)
    requires Kept(Lines(text)) != []
    ensures var kept := Kept(Lines(text));
      LeadingTabs(StripAll(kept, Indent(kept))[0]) == 0
  {
    var kept := Kept(Lines(text));
    StripRemovesTabs(kept[0], Indent(kept));
  }

  /** Every output line of `undent` is a suffix of the kept line it comes
      from, which holds no LF and no OMIT. */
  lemma OutputLinesAreSuffixes(text: seq<byte>, k: nat)
    requires k < |Kept(Lines(text))|
    ensures var kept := Kept(Lines(text));
      HasSuffix(kept[k], StripAll(kept, Indent(kept))[k]) &&
      !HasOmit(kept[k]) && LF !in kept[k]
  {
    var kept := Kept(Lines(text));
    KeptExactly(Lines(text), kept[k]);
    StripRemovesTabs(kept[k], Indent(kept));
  }

  /** A suffix of a text without a byte or a pattern lacks it too. */
  lemma SuffixKeepsAbsence(line: seq<byte>, i: nat, pat: seq<byte>)
    requires i <= |line| && |pat| > 0 && !Contains(line, pat)
    ensures !Contains(line[i..], pat)
  {
    var r := line[i..];
    if IndexOf(r, pat).Some? {
      var j := IndexOf(r, pat).value;
      assert r[j..j + |pat|] == line[i + j..i + j + |pat|];
      assert OccursAt(line, pat, i + j);
      assert false;
    }
  }

  /** Scanning the lines `undent` writes gives them back, provided no line
      holds an LF or ends in a CR. */
  lemma {:induction false} LinesOfUnlines(lines: seq<seq<byte>>)
    requires forall k :: 0 <= k < |lines| ==> LF !in lines[k]
    requires forall k :: 0 <= k < |lines| ==> lines[k] == [] || lines[k][|lines[k]| - 1] != CR
    ensures Lines(Unlines(lines)) == lines
  {
    if lines != [] {
      var l, rest := lines[0], Unlines(lines[1..]);
      var text := l + [LF] + rest;
      assert Unlines(lines) == text;
      assert OccursAt(text, [LF], |l|);
      forall j | 0 <= j < |l| ensures !OccursAt(text, [LF], j) {
        assert text[j] == l[j];
      }
      IndexOfAt(text, [LF], |l|);
      assert text[..|l|] == l;
      assert text[|l| + 1..] == rest;
      LinesOfUnlines(lines[1..]);
    }
  }

  /** Scanner tokens contain no byte the text does not contain. */
  lemma {:induction false} LinesWithin(text: seq<byte>, b: byte)
    requires b !in text
    ensures forall k :: 0 <= k < |Lines(text)| ==> b !in Lines(text)[k]
    decreases |text|
  {
    if text != [] {
      match IndexOf(text, [LF])
      case None =>
      case Some(i) =>
        LinesWithin(text[i + 1..], b);
        assert b !in text[..i];
    }
  }

  /** For a text without carriage returns, `undent` is idempotent: its output
      has no OMIT line and starts untabbed, so a second pass keeps it. */
  lemma UndentIdempotent(text: seq<byte>)
    requires CR !in text
    ensures UndentText(UndentText(text)) == UndentText(text)
  {
    var kept := Kept(Lines(text));
    var n := Indent(kept);
    var out := StripAll(kept, n);
    LinesWithin(text, CR);
    forall k | 0 <= k < |out|
      ensures LF !in out[k] && CR !in out[k] && !HasOmit(out[k])
    {
      KeptExactly(Lines(text), kept[k]);
      StripRemovesTabs(kept[k], n);
      var t := Min(n, LeadingTabs(kept[k]));
      assert out[k] == kept[k][t..];
      SuffixKeepsAbsence(kept[k], t, OMIT);
    }
    LinesOfUnlines(out);
    KeptAll(out);
    if kept != [] {
      FirstLineUntabbed(text);
    }
    assert StripAll(out, Indent(out)) == out;
  }

  /** Conversely, a text without CR that is empty or ends in LF is just its
      scanner lines, each followed by LF. */
  lemma {:induction false} UnlinesOfLines(text: seq<byte>)
    requires CR !in text
    requires text == [] || text[|text| - 1] == LF
    ensures Unlines(Lines(text)) == text
    decreases |text|
  {
    if text != [] {
      var i := FirstLF(text);
      var line, rest := text[..i], text[i + 1..];
      LinesStep(text, i);
      assert DropCR(line) == line;
      UnlinesOfLines(rest);
      assert text == line + [LF] + rest;
    }
  }

  /** A non-empty text ending in LF has a first LF, with nothing after it
      but a text that again ends in LF. */
  lemma FirstLF(text: seq<byte>) returns (i: nat)
    requires text != [] && text[|text| - 1] == LF
    ensures IndexOf(text, [LF]) == Some(i) && i < |text|
  {
    assert OccursAt(text, [LF], |text| - 1);
    i := IndexOf(text, [LF]).value;
  }

  /** One step of the scanner: the line before the first LF, then the rest. */
  lemma LinesStep(text: seq<byte>, i: nat)
    requires IndexOf(text, [LF]) == Some(i)
    ensures i < |text|
    ensures Lines(text) == [DropCR(text[..i])] + Lines(text[i + 1..])
  {
  }

}
