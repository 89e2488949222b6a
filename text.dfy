/** String operations from Rust's standard library that the search-index code
    relies on (`str::find`, `str::rfind`, `str::contains`), specified by what
    they return, plus splitting and joining on a separator, used to state what
    the docs.rs base URL is made of. Strings are sequences of characters; Rust
    indexes by byte, but every character searched for here is one byte long,
    so character positions and byte positions pick out the same slices. */
module Text {
  import opened Wrappers

  /** `s.find(c)`: the position of the first occurrence of `c`, if any. */
  function Find(s: string, c: char): (r: Option<nat>)
    ensures r.None? <==> c !in s
    ensures r.Some? ==> r.value < |s| && s[r.value] == c && c !in s[..r.value]
  {
    if |s| == 0 then None
    else if s[0] == c then Some(0)
    else
      match Find(s[1..], c)
      case None => None
      case Some(i) =>
        assert s[..i + 1] == [s[0]] + s[1..][..i];
        Some(i + 1)
  }

  /** `s.rfind(c)`: the position of the last occurrence of `c`, if any. */
  function RFind(s: string, c: char): (r: Option<nat>)
    ensures r.None? <==> c !in s
    ensures r.Some? ==> r.value < |s| && s[r.value] == c && c !in s[r.value + 1..]
  {
    if |s| == 0 then None
    else if s[|s| - 1] == c then Some(|s| - 1)
    else
      var init := s[..|s| - 1];
      assert s == init + [s[|s| - 1]];
      match RFind(init, c)
      case None => None
      case Some(i) =>
        assert s[i + 1..] == init[i + 1..] + [s[|s| - 1]];
        Some(i)
  }

  /** An occurrence of `c` with none before it is what `Find` returns. */
  lemma FindAt(s: string, c: char, i: nat)
    requires i < |s| && s[i] == c && c !in s[..i]
    ensures Find(s, c) == Some(i)
  {
  }

  /** An occurrence of `c` with none after it is what `RFind` returns. */
  lemma RFindAt(s: string, c: char, i: nat)
    requires i < |s| && s[i] == c && c !in s[i + 1..]
    ensures RFind(s, c) == Some(i)
  {
  }

  /** `pat` occurs in `s` starting at position `i`. */
  predicate OccursAt(s: string, pat: string, i: int) {
    0 <= i && i + |pat| <= |s| && s[i..i + |pat|] == pat
  }

  /** `s.contains(pat)` for a string pattern. */
  function Contains(s: string, pat: string): (b: bool)
    ensures b <==> exists i :: OccursAt(s, pat, i)
    decreases |s|
  {
    if |pat| > |s| then false
    else if s[..|pat|] == pat then
      assert OccursAt(s, pat, 0);
      true
    else
      ShiftedOccurrences(s, pat);
      Contains(s[1..], pat)
  }

  /** Occurrences in `s[1..]` are the occurrences in `s` past position 0, shifted by one. */
  lemma ShiftedOccurrences(s: string, pat: string)
    requires |s| > 0 && !OccursAt(s, pat, 0)
    ensures (exists i :: OccursAt(s, pat, i)) <==> (exists j :: OccursAt(s[1..], pat, j))
  {
    if i :| OccursAt(s, pat, i) {
      assert i > 0;
      assert s[1..][i - 1..i - 1 + |pat|] == s[i..i + |pat|];
      assert OccursAt(s[1..], pat, i - 1);
    }
    if j :| OccursAt(s[1..], pat, j) {
      assert s[j + 1..j + 1 + |pat|] == s[1..][j..j + |pat|];
      assert OccursAt(s, pat, j + 1);
    }
  }

  /** The parts joined with `sep` between consecutive parts. */
  function Join(parts: seq<string>, sep: char): string {
    if |parts| == 0 then ""
    else if |parts| == 1 then parts[0]
    else parts[0] + [sep] + Join(parts[1..], sep)
  }

  /** The maximal pieces of `s` between occurrences of `sep`, as `s.split(sep)` yields them. */
  function Split(s: string, sep: char): (parts: seq<string>)
    ensures |parts| >= 1
    ensures forall p | p in parts :: sep !in p
    decreases |s|
  {
    match Find(s, sep)
    case None => [s]
    case Some(i) => [s[..i]] + Split(s[i + 1..], sep)
  }

  /** A separator-free piece followed by the separator splits off as the first part. */
  lemma SplitFirstPiece(piece: string, sep: char, rest: string)
    requires sep !in piece
    ensures Split(piece + [sep] + rest, sep) == [piece] + Split(rest, sep)
  {
    var s := piece + [sep] + rest;
    var n := |piece|;
    assert s[..n] == piece && s[n] == sep;
    assert Find(s, sep) == Some(n);
    assert s[n + 1..] == rest;
  }

  /** Splitting undoes joining when no part contains the separator. */
  lemma {:induction false} SplitJoin(parts: seq<string>, sep: char)
    requires |parts| >= 1
    requires forall p | p in parts :: sep !in p
    ensures Split(Join(parts, sep), sep) == parts
  {
    if |parts| > 1 {
      assert sep !in parts[0] by { assert parts[0] in parts; }
      SplitFirstPiece(parts[0], sep, Join(parts[1..], sep));
      assert forall p | p in parts[1..] :: p in parts;
      SplitJoin(parts[1..], sep);
      assert parts == [parts[0]] + parts[1..];
    }
  }
}
