/** Shared vocabulary: bytes, optional values, results, and the Go
    `bytes`/`strings` helpers that page.go relies on (prefix and suffix
    tests, first-occurrence search and SplitN). */
module Base {

  /** A Go `byte`. */
  newtype byte = x: int | 0 <= x < 256

  datatype Option<+T> = None | Some(value: T)

  /** A value or the error a Go function returns beside it. */
  datatype Result<+T, +E> = Ok(value: T) | Err(error: E)

  const TAB: byte := 9
  const LF: byte := 10
  const CR: byte := 13
  const COMMA: byte := 44
  const DASH: byte := 45
  const SLASH: byte := 47

  /** The bytes of an ASCII text; Go string literals of the source are ASCII. */
  function Bytes(s: string): (r: seq<byte>)
    requires forall i :: 0 <= i < |s| ==> s[i] as int < 128
    ensures |r| == |s|
    ensures forall i :: 0 <= i < |s| ==> r[i] as int == s[i] as int
  {
    seq(|s|, i requires 0 <= i < |s| => s[i] as int as byte)
  }

  predicate HasPrefix<T(==)>(s: seq<T>, p: seq<T>) {
    |p| <= |s| && s[..|p|] == p
  }

  predicate HasSuffix<T(==)>(s: seq<T>, p: seq<T>) {
    |p| <= |s| && s[|s| - |p|..] == p
  }

  /** `pat` occurs in `s` starting at index `i`. */
  predicate OccursAt<T(==)>(s: seq<T>, pat: seq<T>, i: nat) {
    i + |pat| <= |s| && s[i..i + |pat|] == pat
  }

  /** First occurrence of `pat` in `s` at or after `from`. */
  function IndexFrom<T(==)>(s: seq<T>, pat: seq<T>, from: nat): (r: Option<nat>)
    ensures r.Some? ==> from <= r.value && OccursAt(s, pat, r.value)
    ensures r.Some? ==> forall j :: from <= j < r.value ==> !OccursAt(s, pat, j)
    ensures r.None? ==> forall j :: from <= j ==> !OccursAt(s, pat, j)
    decreases |s| - from
  {
    if from + |pat| > |s| then None
    else if s[from..from + |pat|] == pat then Some(from)
    else IndexFrom(s, pat, from + 1)
  }

  /** Go's `bytes.Index` / `strings.Index` for a non-empty separator. */
  function IndexOf<T(==)>(s: seq<T>, pat: seq<T>): (r: Option<nat>)
    ensures r.Some? ==> OccursAt(s, pat, r.value)
    ensures r.Some? ==> forall j :: 0 <= j < r.value ==> !OccursAt(s, pat, j)
    ensures r.None? ==> forall j :: 0 <= j ==> !OccursAt(s, pat, j)
  {
    IndexFrom(s, pat, 0)
  }

  /** Go's `bytes.Contains` / `strings.Contains`. */
  predicate Contains<T(==)>(s: seq<T>, pat: seq<T>) {
    IndexOf(s, pat).Some?
  }

  /** Go's `SplitN(s, sep, n)` for a non-empty separator and n >= 0: at most
      n pieces, split at the first n - 1 occurrences of sep; the last piece
      is the unsplit remainder. */
  function SplitN<T(==)>(s: seq<T>, sep: seq<T>, n: nat): (parts: seq<seq<T>>)
    requires |sep| > 0
    ensures |parts| <= n
    ensures n > 0 ==> |parts| > 0
    decreases n
  {
    if n == 0 then []
    else if n == 1 then [s]
    else match IndexOf(s, sep)
      case None => [s]
      case Some(m) => [s[..m]] + SplitN(s[m + |sep|..], sep, n - 1)
  }

  /** `parts` joined with `sep` between consecutive pieces (Go's `Join`). */
  function Join<T>(parts: seq<seq<T>>, sep: seq<T>): seq<T> {
    if parts == [] then []
    else if |parts| == 1 then parts[0]
    else parts[0] + sep + Join(parts[1..], sep)
  }

  /** Splitting loses nothing: the pieces joined with the separator give back
      the input. */
  lemma {:induction false} SplitNJoin<T>(s: seq<T>, sep: seq<T>, n: nat)
    requires |sep| > 0 && n > 0
    ensures Join(SplitN(s, sep, n), sep) == s
    decreases n
  {
    if n > 1 && IndexOf(s, sep).Some? {
      var m := IndexOf(s, sep).value;
      var rest := s[m + |sep|..];
      SplitNStep(s, sep, n);
      SplitNJoin(rest, sep, n - 1);
      JoinCons(s[..m], SplitN(rest, sep, n - 1), sep);
    }
  }

  /** One step of a split: the first piece, the separator, the rest. */
  lemma SplitNStep<T>(s: seq<T>, sep: seq<T>, n: nat)
    requires |sep| > 0 && n > 1 && IndexOf(s, sep).Some?
    ensures var m := IndexOf(s, sep).value;
      SplitN(s, sep, n) == [s[..m]] + SplitN(s[m + |sep|..], sep, n - 1) &&
      s == s[..m] + sep + s[m + |sep|..]
  {
    var m := IndexOf(s, sep).value;
    assert s[m..m + |sep|] == sep;
    assert s == s[..m] + s[m..m + |sep|] + s[m + |sep|..];
  }

  lemma JoinCons<T>(head: seq<T>, tail: seq<seq<T>>, sep: seq<T>)
    requires tail != []
    ensures Join([head] + tail, sep) == head + sep + Join(tail, sep)
  {
    assert ([head] + tail)[1..] == tail;
  }

  /** The text before the first occurrence of a pattern does not contain it. */
  lemma PieceBeforeFirst<T>(s: seq<T>, pat: seq<T>, m: nat)
    requires |pat| > 0 && IndexOf(s, pat) == Some(m)
    ensures !Contains(s[..m], pat)
  {
    var p := s[..m];
    if IndexOf(p, pat).Some? {
      var j := IndexOf(p, pat).value;
      assert p[j..j + |pat|] == s[j..j + |pat|];
      assert OccursAt(s, pat, j) && j < m;
      assert false;
    }
  }

  /** The first piece of a split at n > 1 ends at the first occurrence. */
  lemma SplitNAt<T>(s: seq<T>, sep: seq<T>, n: nat, m: nat)
    requires |sep| > 0 && n > 1
    requires OccursAt(s, sep, m)
    requires forall j :: 0 <= j < m ==> !OccursAt(s, sep, j)
    ensures SplitN(s, sep, n) == [s[..m]] + SplitN(s[m + |sep|..], sep, n - 1)
  {
    IndexOfAt(s, sep, m);
    SplitNStep(s, sep, n);
  }

  /** An occurrence with none before it is what IndexOf finds. */
  lemma IndexOfAt<T>(s: seq<T>, pat: seq<T>, m: nat)
    requires OccursAt(s, pat, m)
    requires forall j :: 0 <= j < m ==> !OccursAt(s, pat, j)
    ensures IndexOf(s, pat) == Some(m)
  {
  }
}
