/** The search-index extraction of docs_rs_cli (src/search_index.rs): building the
    docs.rs base URL of a crate, finding the name of the search-index script in the
    crate's landing page, isolating the JSON literal embedded in that script, and
    dropping every backslash in it that is not followed by a double quote. The
    HTTP client, the HTML parser and URL resolution are not modelled: the landing
    page arrives as its list of elements, the script as its text. */
module SearchIndex {
  import opened Wrappers
  import opened Text

  // ---------------------------------------------------------------------------
  // Data model
  // ---------------------------------------------------------------------------

  /** Why an extraction step gave no result. `InvalidFormat` is the error
      `parse_search_index_js` returns when the script has no single quote;
      `SliceIndexPanic` stands for the panic of its slice when the script has
      exactly one; `NotFound` is the error of `extract_search_index_filename`,
      which names the crate and version. */
  datatype Error =
    | InvalidFormat
    | SliceIndexPanic(start: nat, end: nat)
    | NotFound(crateName: string, crateVersion: string)

  datatype Result<T> = Ok(value: T) | Err(error: Error)

  /** The crate whose index is wanted and the page its documentation lives on.
      The HTTP client the source keeps beside these is not modelled. */
  datatype IndexInitializer = IndexInitializer(crateName: string, crateVersion: string, baseUrl: string)

  /** One element of a parsed HTML document: its tag name and its attributes.
      A document is its elements in document order. */
  datatype Element = Element(name: string, attrs: map<string, string>)

  const Quote: char := '\''
  const Backslash: char := '\\'
  const DoubleQuote: char := '"'
  const DataSearchIndexJs: string := "data-search-index-js"
  const Src: string := "src"
  const SearchIndexMarker: string := "search-index"

  // ---------------------------------------------------------------------------
  // IndexInitializer::new: the base URL
  // ---------------------------------------------------------------------------

  /** The '/'-separated pieces of `https://docs.rs/{name}/{version}/{name}/`. */
  function BaseUrlSegments(crateName: string, crateVersion: string): seq<string> {
    ["https:", "", "docs.rs", crateName, crateVersion, crateName, ""]
  }

  /** `IndexInitializer::new`: keeps the crate name and version and builds the
      base URL `https://docs.rs/{name}/{version}/{name}/`. */
  function New(crateName: string, crateVersion: string): (r: IndexInitializer)
    ensures r.crateName == crateName && r.crateVersion == crateVersion
    ensures r.baseUrl == Join(BaseUrlSegments(crateName, crateVersion), '/')
  {
    var baseUrl := "https://docs.rs/" + crateName + "/" + crateVersion + "/" + crateName + "/";
    JoinBaseUrlSegments(crateName, crateVersion);
    IndexInitializer(crateName, crateVersion, baseUrl)
  }

  lemma JoinBaseUrlSegments(crateName: string, crateVersion: string)
    ensures Join(BaseUrlSegments(crateName, crateVersion), '/')
         == "https://docs.rs/" + crateName + "/" + crateVersion + "/" + crateName + "/"
  {
    var segments := BaseUrlSegments(crateName, crateVersion);
    var tail := crateName + "/" + crateVersion + "/" + crateName + "/";
    assert Join(segments[5..], '/') == crateName + "/" by {
      assert segments[5..] == [crateName, ""];
    }
    assert Join(segments[4..], '/') == crateVersion + "/" + crateName + "/" by {
      assert segments[4..][1..] == segments[5..];
    }
    assert Join(segments[3..], '/') == tail by {
      assert segments[3..][1..] == segments[4..];
    }
    assert Join(segments[2..], '/') == "docs.rs" + "/" + tail by {
      assert segments[2..][1..] == segments[3..];
    }
    assert Join(segments[1..], '/') == "" + "/" + "docs.rs" + "/" + tail by {
      assert segments[1..][1..] == segments[2..];
    }
    assert Join(segments, '/') == "https:" + "/" + "" + "/" + "docs.rs" + "/" + tail;
    assert "https:" + "/" + "" + "/" + "docs.rs" + "/" == "https://docs.rs/";
  }

  /** When neither the name nor the version contains '/', the path of the base URL
      is exactly the crate name, the version and the crate name again. */
  lemma BaseUrlSplits(crateName: string, crateVersion: string)
    requires '/' !in crateName && '/' !in crateVersion
    ensures Split(New(crateName, crateVersion).baseUrl, '/') == BaseUrlSegments(crateName, crateVersion)
  {
    var parts := BaseUrlSegments(crateName, crateVersion);
    assert forall p | p in parts :: '/' !in p;
    SplitJoin(parts, '/');
  }

  /** Distinct crates (or versions) of '/'-free names get distinct base URLs. */
  lemma BaseUrlIdentifiesCrate(name1: string, version1: string, name2: string, version2: string)
    requires '/' !in name1 && '/' !in version1 && '/' !in name2 && '/' !in version2
    requires New(name1, version1).baseUrl == New(name2, version2).baseUrl
    ensures name1 == name2 && version1 == version2
  {
    BaseUrlSplits(name1, version1);
    BaseUrlSplits(name2, version2);
    assert BaseUrlSegments(name1, version1)[3] == name1 && BaseUrlSegments(name1, version1)[4] == version1;
  }

  // ---------------------------------------------------------------------------
  // format_json: dropping the backslashes not followed by a double quote
  // ---------------------------------------------------------------------------

  /** The character at `i` is a backslash that is dropped: the next character is
      not a double quote, or there is none. */
  predicate DropsAt(s: string, i: nat)
    requires i < |s|
  {
    s[i] == Backslash && !(i + 1 < |s| && s[i + 1] == DoubleQuote)
  }

  /** The text `format_json` produces: every character of `s` in order, except
      the backslashes that are not followed by a double quote. */
  function Unescaped(s: string): (r: string)
    ensures |r| <= |s|
  {
    if s == [] then []
    else (if DropsAt(s, 0) then [] else [s[0]]) + Unescaped(s[1..])
  }

  /** `format_json`: one left-to-right pass with one character of lookahead that
      drops a backslash unless the next character is a double quote. */
  method FormatJson(index: string) returns (formatted: string)
    ensures formatted == Unescaped(index)
  {
    formatted := "";
    var i := 0;
    assert index[i..] == index;
    while i < |index|
      invariant 0 <= i <= |index|
      invariant formatted + Unescaped(index[i..]) == Unescaped(index)
    {
      var c := index[i];
      FormatStep(index, i, formatted);
      i := i + 1;
      var next := if i < |index| then Some(index[i]) else None;
      assert (c == Backslash && next != Some(DoubleQuote)) == DropsAt(index, i - 1);
      if c == Backslash && next != Some(DoubleQuote) {
        continue;
      }
      formatted := formatted + [c];
    }
  }

  /** Unescaping a suffix takes its first character, or drops it, and goes on. */
  lemma UnescapedStep(s: string, i: nat)
    requires i < |s|
    ensures DropsAt(s, i) ==> Unescaped(s[i..]) == Unescaped(s[i + 1..])
    ensures !DropsAt(s, i) ==> Unescaped(s[i..]) == [s[i]] + Unescaped(s[i + 1..])
  {
  }

  /** One iteration of `FormatJson` keeps its invariant: the character at `i` is
      either dropped or appended to what has been produced so far. */
  lemma FormatStep(index: string, i: nat, formatted: string)
    requires i < |index| && formatted + Unescaped(index[i..]) == Unescaped(index)
    ensures DropsAt(index, i) ==> formatted + Unescaped(index[i + 1..]) == Unescaped(index)
    ensures !DropsAt(index, i) ==> (formatted + [index[i]]) + Unescaped(index[i + 1..]) == Unescaped(index)
  {
    UnescapedStep(index, i);
    if !DropsAt(index, i) {
      Regroup(formatted, [index[i]], Unescaped(index[i + 1..]));
    }
  }

  /** Concatenation regrouped, stated over plain variables so that the solver
      does not have to find it among the unfoldings of `Unescaped`. */
  lemma Regroup(f: string, h: string, u: string)
    ensures (f + h) + u == f + (h + u)
  {
  }

  /** `s` with every backslash removed. */
  function Unbackslashed(s: string): (r: string)
    ensures Backslash !in r
  {
    if s == [] then []
    else (if s[0] == Backslash then [] else [s[0]]) + Unbackslashed(s[1..])
  }

  /** `t` can be obtained from `s` by deleting characters. */
  predicate IsSubsequence(t: string, s: string)
    decreases |s|
  {
    if t == [] then true
    else if s == [] then false
    else if t[0] == s[0] then IsSubsequence(t[1..], s[1..])
    else IsSubsequence(t, s[1..])
  }

  /** Every backslash in `t` is immediately followed by a double quote. */
  predicate OnlyQuoteEscapes(t: string) {
    forall i | 0 <= i < |t| :: !DropsAt(t, i)
  }

  /** Unescaping only deletes characters. */
  lemma {:induction false} UnescapedIsSubsequence(s: string)
    ensures IsSubsequence(Unescaped(s), s)
  {
    if s != [] {
      UnescapedIsSubsequence(s[1..]);
      if DropsAt(s, 0) {
        assert Unescaped(s) == Unescaped(s[1..]);
        SubsequenceOfTail(Unescaped(s[1..]), s);
      } else {
        assert Unescaped(s) == [s[0]] + Unescaped(s[1..]);
        assert Unescaped(s)[1..] == Unescaped(s[1..]);
      }
    }
  }

  /** A subsequence of the tail is a subsequence of the whole. */
  lemma {:induction false} SubsequenceOfTail(t: string, s: string)
    requires s != [] && IsSubsequence(t, s[1..])
    ensures IsSubsequence(t, s)
    decreases |s|, 0
  {
    if t != [] && t[0] == s[0] {
      SubsequenceWithoutHead(t, s[1..]);
    }
  }

  /** Dropping the first character keeps a subsequence a subsequence. */
  lemma {:induction false} SubsequenceWithoutHead(t: string, u: string)
    requires t != [] && IsSubsequence(t, u)
    ensures IsSubsequence(t[1..], u)
    decreases |u|, 1
  {
    if t[0] == u[0] {
      SubsequenceOfTail(t[1..], u);
    } else {
      SubsequenceWithoutHead(t, u[1..]);
      SubsequenceOfTail(t[1..], u);
    }
  }

  /** Every character other than a backslash survives unescaping, in order, and
      no other character appears. */
  lemma {:induction false} UnescapedKeepsOtherCharacters(s: string)
    ensures Unbackslashed(Unescaped(s)) == Unbackslashed(s)
  {
    if s != [] {
      UnescapedKeepsOtherCharacters(s[1..]);
      UnbackslashedAppend(if DropsAt(s, 0) then [] else [s[0]], Unescaped(s[1..]));
    }
  }

  lemma {:induction false} UnbackslashedAppend(a: string, b: string)
    ensures Unbackslashed(a + b) == Unbackslashed(a) + Unbackslashed(b)
  {
    if a != [] {
      assert (a + b)[1..] == a[1..] + b;
      UnbackslashedAppend(a[1..], b);
    } else {
      assert a + b == b;
    }
  }

  /** Unescaping a concatenation unescapes the parts separately, unless the
      first part ends in a backslash and the second begins with a double quote
      (the one place where the lookahead crosses the seam). */
  lemma {:induction false} UnescapedAppend(a: string, b: string)
    requires !(a != [] && a[|a| - 1] == Backslash && b != [] && b[0] == DoubleQuote)
    ensures Unescaped(a + b) == Unescaped(a) + Unescaped(b)
    decreases |a|
  {
    if a == [] {
      assert a + b == b;
    } else {
      var tail := a[1..];
      assert tail != [] ==> tail[|tail| - 1] == a[|a| - 1];
      SeamHead(a, b);
      UnescapedAppend(tail, b);
      assert a[0..] == a;
      UnescapedStep(a, 0);
      if !DropsAt(a, 0) {
        Regroup([a[0]], Unescaped(tail), Unescaped(b));
      }
    }
  }

  /** Away from the seam, `a + b` starts the way `a` does. */
  lemma SeamHead(a: string, b: string)
    requires a != []
    requires !(a[|a| - 1] == Backslash && b != [] && b[0] == DoubleQuote)
    ensures (a + b)[0] == a[0] && (a + b)[1..] == a[1..] + b
    ensures DropsAt(a + b, 0) == DropsAt(a, 0)
    ensures DropsAt(a, 0) ==> Unescaped(a + b) == Unescaped(a[1..] + b)
    ensures !DropsAt(a, 0) ==> Unescaped(a + b) == [a[0]] + Unescaped(a[1..] + b)
  {
  }

  /** A backslash followed by a double quote is kept, together with the quote. */
  lemma EscapedQuoteKept(a: string, b: string)
    ensures Unescaped(a + [Backslash, DoubleQuote] + b) == Unescaped(a) + [Backslash, DoubleQuote] + Unescaped(b)
  {
    var q := [Backslash, DoubleQuote];
    var qb := q + b;
    assert qb[1..] == [DoubleQuote] + b && qb[1..][1..] == b;
    UnescapedAppend(a, qb);
    assert a + q + b == a + qb;
  }

  /** A backslash followed by anything but a double quote, or by nothing, is
      dropped, and the rest is unescaped as if it were not there. */
  lemma BackslashDropped(a: string, b: string)
    requires b == [] || b[0] != DoubleQuote
    ensures Unescaped(a + [Backslash] + b) == Unescaped(a) + Unescaped(b)
  {
    var bb := [Backslash] + b;
    assert bb[1..] == b;
    assert DropsAt(bb, 0);
    assert Unescaped(bb) == Unescaped(b);
    UnescapedAppend(a, bb);
    assert a + [Backslash] + b == a + bb;
  }

  /** Text without a backslash passes through unchanged in front of anything. */
  lemma PlainPrefix(p: string, b: string)
    requires Backslash !in p
    ensures Unescaped(p + b) == p + Unescaped(b)
  {
    UnescapedAppend(p, b);
    NoBackslashUnchanged(p);
  }

  /** Text without a backslash is returned unchanged. */
  lemma {:induction false} NoBackslashUnchanged(s: string)
    requires Backslash !in s
    ensures Unescaped(s) == s
  {
    if s != [] {
      assert Backslash !in s[1..] by { assert forall x | x in s[1..] :: x in s; }
      NoBackslashUnchanged(s[1..]);
    }
  }

  /** Every backslash that survives is followed by a double quote. */
  lemma {:induction false} UnescapedOnlyQuoteEscapes(s: string)
    ensures OnlyQuoteEscapes(Unescaped(s))
  {
    if s != [] {
      var t := Unescaped(s[1..]);
      UnescapedOnlyQuoteEscapes(s[1..]);
      if !DropsAt(s, 0) {
        var r := [s[0]] + t;
        assert Unescaped(s) == r;
        if s[0] == Backslash {
          // s[1] is a double quote, which is kept and so begins t
          assert |s| > 1 && s[1] == DoubleQuote;
          assert !DropsAt(s[1..], 0);
          assert t[0] == DoubleQuote;
        }
        forall i | 0 <= i < |r|
          ensures !DropsAt(r, i)
        {
          if i > 0 {
            assert r[i] == t[i - 1];
            assert !DropsAt(t, i - 1);
          }
        }
      } else {
        assert Unescaped(s) == t;
      }
    }
  }

  /** Unescaping leaves a text unchanged exactly when every backslash in it is
      followed by a double quote. */
  lemma {:induction false} UnescapedFixedPoints(t: string)
    ensures Unescaped(t) == t <==> OnlyQuoteEscapes(t)
  {
    if t != [] {
      UnescapedFixedPoints(t[1..]);
      var r := Unescaped(t[1..]);
      if DropsAt(t, 0) {
        assert |Unescaped(t)| < |t|;
      } else {
        assert Unescaped(t) == [t[0]] + r;
        if OnlyQuoteEscapes(t) {
          assert OnlyQuoteEscapes(t[1..]) by {
            forall i | 0 <= i < |t[1..]| ensures !DropsAt(t[1..], i) {
              assert !DropsAt(t, i + 1);
            }
          }
        } else {
          var i :| 0 <= i < |t| && DropsAt(t, i);
          assert i > 0;
          assert DropsAt(t[1..], i - 1);
          assert !OnlyQuoteEscapes(t[1..]);
          assert r != t[1..];
          assert ([t[0]] + r)[1..] == r;
        }
      }
    }
  }

  /** Applying the unescape twice gives the same text as applying it once. */
  lemma UnescapedIdempotent(s: string)
    ensures Unescaped(Unescaped(s)) == Unescaped(s)
  {
    UnescapedOnlyQuoteEscapes(s);
    UnescapedFixedPoints(Unescaped(s));
  }

  /** `n` backslashes in a row. */
  function Backslashes(n: nat): (r: string)
    ensures |r| == n && forall i | 0 <= i < n :: r[i] == Backslash
  {
    if n == 0 then [] else [Backslash] + Backslashes(n - 1)
  }

  /** A run of backslashes that does not end just before a double quote vanishes
      entirely, so a doubled backslash does not become a single one. */
  lemma {:induction false} BackslashRunVanishes(n: nat, b: string)
    requires b == [] || b[0] != DoubleQuote
    ensures Unescaped(Backslashes(n) + b) == Unescaped(b)
  {
    if n > 0 {
      var rest := Backslashes(n - 1) + b;
      var empty: string := [];
      assert Backslashes(n) + b == empty + [Backslash] + rest;
      assert rest == [] || rest[0] != DoubleQuote by {
        if n - 1 == 0 { assert rest == b; }
      }
      BackslashDropped(empty, rest);
      assert Unescaped(empty) == [];
      BackslashRunVanishes(n - 1, b);
    } else {
      assert Backslashes(n) + b == b;
    }
  }

  /** `format_json` as the comment above it words the rule (src/search_index.rs:56-58),
      read as a rewrite of pairs: `\"` stays as it is, and a backslash together with
      the character after it becomes that character. A final lone backslash is dropped. */
  function PairRewritten(s: string): (r: string)
    ensures |r| <= |s|
    decreases |s|
  {
    if s == [] then []
    else if s[0] != Backslash then [s[0]] + PairRewritten(s[1..])
    else if |s| == 1 then []
    else if s[1] == DoubleQuote then [Backslash, DoubleQuote] + PairRewritten(s[2..])
    else [s[1]] + PairRewritten(s[2..])
  }

  /** The code and the pair reading of its comment agree on every text in which
      no backslash directly follows another. */
  lemma {:induction false} ReadingsAgreeWithoutDoubledBackslash(s: string)
    requires forall i | 0 <= i < |s| - 1 :: !(s[i] == Backslash && s[i + 1] == Backslash)
    ensures Unescaped(s) == PairRewritten(s)
    decreases |s|
  {
    if s != [] {
      if s[0] != Backslash || |s| == 1 {
        ReadingsAgreeWithoutDoubledBackslash(s[1..]);
      } else {
        assert s[1] != Backslash;
        assert s[1..][1..] == s[2..];
        assert !DropsAt(s[1..], 0);
        assert Unescaped(s[1..]) == [s[1]] + Unescaped(s[2..]);
        ReadingsAgreeWithoutDoubledBackslash(s[2..]);
      }
    }
  }

  /** An escaped backslash before an ordinary character: the pair reading keeps one
      backslash, the code keeps none. */
  lemma DoubledBackslashReadings()
    ensures PairRewritten([Backslash, Backslash, 'n']) == [Backslash, 'n']
    ensures Unescaped([Backslash, Backslash, 'n']) == ['n']
  {
    BackslashRunVanishes(2, ['n']);
    assert Backslashes(2) + ['n'] == [Backslash, Backslash, 'n'];
  }

  /** The core of the unit test, `\\\"`: the pair reading gives two backslashes and
      the quote, the code gives the single escaped quote the test expects. */
  lemma UnitTestCoreReadings()
    ensures PairRewritten([Backslash, Backslash, Backslash, DoubleQuote]) == [Backslash, Backslash, DoubleQuote]
    ensures Unescaped([Backslash, Backslash, Backslash, DoubleQuote]) == [Backslash, DoubleQuote]
  {
    TripleEscapedQuote([]);
    assert [Backslash, Backslash, Backslash, DoubleQuote] + [] == [Backslash, Backslash, Backslash, DoubleQuote];
  }

  /** Three backslashes and a double quote become one backslash and the quote. */
  lemma TripleEscapedQuote(b: string)
    ensures Unescaped([Backslash, Backslash, Backslash, DoubleQuote] + b) == [Backslash, DoubleQuote] + Unescaped(b)
  {
    var empty: string := [];
    var q := [Backslash, DoubleQuote];
    EscapedQuoteKept(empty, b);
    assert empty + q + b == q + b;
    BackslashDropped(empty, q + b);
    assert empty + [Backslash] + (q + b) == [Backslash] + (q + b);
    BackslashDropped(empty, [Backslash] + (q + b));
    assert empty + [Backslash] + ([Backslash] + (q + b)) == [Backslash, Backslash, Backslash, DoubleQuote] + b;
    assert Unescaped(empty) == [];
  }

  /** The shape of the source's unit test: plain text, an escaped quote inside a
      doubly escaped backslash, twice, then an escaped apostrophe. */
  lemma UnitTestShape(a: string, b: string, c: string, d: string)
    requires Backslash !in a && Backslash !in b && Backslash !in c && Backslash !in d
    requires d != [] && d[0] != DoubleQuote
    ensures Unescaped(a + ([Backslash, Backslash, Backslash, DoubleQuote] + (b + ([Backslash, Backslash, Backslash, DoubleQuote] + (c + ([Backslash] + d))))))
         == a + ([Backslash, DoubleQuote] + (b + ([Backslash, DoubleQuote] + (c + d))))
  {
    var e, q := [Backslash, Backslash, Backslash, DoubleQuote], [Backslash, DoubleQuote];
    var s3 := c + ([Backslash] + d);
    assert Unescaped(s3) == c + d by {
      NoBackslashUnchanged(c);
      NoBackslashUnchanged(d);
      BackslashDropped(c, d);
      assert c + [Backslash] + d == s3;
    }
    var s2 := b + (e + s3);
    assert Unescaped(s2) == b + (q + (c + d)) by {
      TripleEscapedQuote(s3);
      PlainPrefix(b, e + s3);
    }
    assert Unescaped(a + (e + s2)) == a + (q + Unescaped(s2)) by {
      TripleEscapedQuote(s2);
      PlainPrefix(a, e + s2);
    }
  }

  /** The unit test's input, cut at its backslashes. Kept apart from `UnitTestExample`
      so that the literal is unfolded in a small proof context. */
  lemma UnitTestInput()
    ensures @"{ ""desc"": ""I have a \\\""dream\\\""."", ""hoge"": ""John\'s""}"
         == @"{ ""desc"": ""I have a " + [Backslash, Backslash, Backslash, DoubleQuote] + "dream"
            + [Backslash, Backslash, Backslash, DoubleQuote] + @"."", ""hoge"": ""John" + [Backslash] + @"'s""}"
  {
  }

  /** The unit test's expected output, cut the same way. */
  lemma UnitTestOutput()
    ensures @"{ ""desc"": ""I have a \""dream\""."", ""hoge"": ""John's""}"
         == @"{ ""desc"": ""I have a " + [Backslash, DoubleQuote] + "dream"
            + [Backslash, DoubleQuote] + @"."", ""hoge"": ""John" + @"'s""}"
  {
  }

  /** Concatenation regrouped to the right-nested shape `UnitTestShape` uses. */
  lemma Reassociate7(a: string, b: string, c: string, d: string, e: string, f: string, g: string)
    ensures a + e + b + f + c + g + d == a + (e + (b + (f + (c + (g + d)))))
  {
  }

  /** The same regrouping for the six-part output. */
  lemma Reassociate6(a: string, b: string, c: string, d: string, e: string, f: string)
    ensures a + e + b + f + c + d == a + (e + (b + (f + (c + d))))
  {
  }

  /** The case the source's own unit test checks. */
  lemma UnitTestExample()
    ensures Unescaped(@"{ ""desc"": ""I have a \\\""dream\\\""."", ""hoge"": ""John\'s""}")
         == @"{ ""desc"": ""I have a \""dream\""."", ""hoge"": ""John's""}"
  {
    var a, b, c, d := @"{ ""desc"": ""I have a ", "dream", @"."", ""hoge"": ""John", @"'s""}";
    var e, q := [Backslash, Backslash, Backslash, DoubleQuote], [Backslash, DoubleQuote];
    UnitTestShape(a, b, c, d);
    UnitTestInput();
    UnitTestOutput();
    Reassociate7(a, b, c, d, e, e, [Backslash]);
    Reassociate6(a, b, c, d, q, q);
  }

  // ---------------------------------------------------------------------------
  // parse_search_index_js: the literal between the outermost single quotes
  // ---------------------------------------------------------------------------

  /** `parse_search_index_js`: the text strictly between the first and the last
      single quote, unescaped. With no single quote it fails; with exactly one,
      the slice it takes starts after it ends, which in the source is a panic. */
  function ParseSearchIndexJs(index: string): (r: Result<string>)
    ensures r == Err(InvalidFormat) <==> multiset(index)[Quote] == 0
    ensures r.Err? && r.error.SliceIndexPanic? <==> multiset(index)[Quote] == 1
    ensures r.Ok? <==> multiset(index)[Quote] >= 2
    ensures r.Ok? ==> IsSubsequence(r.value, index)
    ensures r.Err? && r.error.SliceIndexPanic? ==>
              r.error.start == r.error.end + 1 && r.error.end < |index| && index[r.error.end] == Quote
  {
    match Find(index, Quote)
    case None => Err(InvalidFormat)
    case Some(first) =>
      var jsonStart := first + 1;
      match RFind(index, Quote)
      case None => Err(InvalidFormat)
      case Some(jsonEnd) =>
        QuoteCount(index, first, jsonEnd);
        if jsonStart > jsonEnd then Err(SliceIndexPanic(jsonStart, jsonEnd))
        else
          UnescapedIsSubsequence(index[jsonStart..jsonEnd]);
          SliceIsSubsequence(index, jsonStart, jsonEnd);
          SubsequenceTransitive(Unescaped(index[jsonStart..jsonEnd]), index[jsonStart..jsonEnd], index);
          Ok(Unescaped(index[jsonStart..jsonEnd]))
  }

  /** The first and last quote coincide exactly when there is one quote. */
  lemma QuoteCount(s: string, first: nat, last: nat)
    requires first <= last < |s| && s[first] == Quote && s[last] == Quote
    requires Quote !in s[..first] && Quote !in s[last + 1..]
    ensures multiset(s)[Quote] >= 1
    ensures multiset(s)[Quote] == 1 <==> first == last
  {
    assert s == s[..first] + [s[first]] + s[first + 1..];
    if first == last {
      assert multiset(s)[Quote] == multiset(s[..first])[Quote] + 1 + multiset(s[first + 1..])[Quote];
    } else {
      assert s[first + 1..] == s[first + 1..last] + [s[last]] + s[last + 1..];
      assert multiset(s)[Quote] >= 2 by {
        assert multiset(s) == multiset(s[..first]) + multiset([s[first]])
          + multiset(s[first + 1..last]) + multiset([s[last]]) + multiset(s[last + 1..]);
      }
    }
  }

  lemma {:induction false} SliceIsSubsequence(s: string, i: nat, j: nat)
    requires i <= j <= |s|
    ensures IsSubsequence(s[i..j], s)
    decreases |s|
  {
    if i > 0 {
      SliceIsSubsequence(s[1..], i - 1, j - 1);
      assert s[1..][i - 1..j - 1] == s[i..j];
      SubsequenceOfTail(s[i..j], s);
    } else if j > 0 {
      SliceIsSubsequence(s[1..], 0, j - 1);
      assert s[..j][1..] == s[1..][0..j - 1];
    }
  }

  lemma {:induction false} SubsequenceTransitive(a: string, b: string, c: string)
    requires IsSubsequence(a, b) && IsSubsequence(b, c)
    ensures IsSubsequence(a, c)
    decreases |c|
  {
    if a != [] {
      assert b != [] && c != [];
      if b[0] == c[0] {
        if a[0] == b[0] {
          SubsequenceTransitive(a[1..], b[1..], c[1..]);
        } else {
          SubsequenceTransitive(a, b[1..], c[1..]);
          SubsequenceOfTail(a, c);
        }
      } else {
        SubsequenceTransitive(a, b, c[1..]);
        SubsequenceOfTail(a, c);
      }
    }
  }

  /** A script made of quote-free text, a single-quoted literal (which may itself
      contain quotes) and more quote-free text yields the literal's body, unescaped. */
  lemma ParseQuotedLiteral(prefix: string, body: string, suffix: string)
    requires Quote !in prefix && Quote !in suffix
    ensures ParseSearchIndexJs(prefix + [Quote] + body + [Quote] + suffix) == Ok(Unescaped(body))
  {
    var s := prefix + [Quote] + body + [Quote] + suffix;
    var first, last := |prefix|, |prefix| + 1 + |body|;
    assert Find(s, Quote) == Some(first) by {
      assert s[..first] == prefix;
      FindAt(s, Quote, first);
    }
    assert RFind(s, Quote) == Some(last) by {
      assert s[last + 1..] == suffix;
      RFindAt(s, Quote, last);
    }
    assert s[first + 1..last] == body;
  }

  /** With at least two quotes, the result is the unescaped text strictly between
      the first and the last of them. */
  lemma ParseValue(s: string)
    requires multiset(s)[Quote] >= 2
    ensures Find(s, Quote).Some? && RFind(s, Quote).Some?
    ensures Find(s, Quote).value < RFind(s, Quote).value
    ensures ParseSearchIndexJs(s) == Ok(Unescaped(s[Find(s, Quote).value + 1..RFind(s, Quote).value]))
  {
    assert Quote in s;
    var first, last := Find(s, Quote).value, RFind(s, Quote).value;
    QuoteCount(s, first, last);
  }

  // ---------------------------------------------------------------------------
  // extract_search_index_filename: the two-tier lookup
  // ---------------------------------------------------------------------------

  /** The value of attribute `key` of `e`, as `element.value().attr(key)`. */
  function Attr(e: Element, key: string): Option<string> {
    if key in e.attrs then Some(e.attrs[key]) else None
  }

  /** A `div` carrying a `data-search-index-js` attribute, whatever its value. */
  predicate IsIndexDiv(e: Element) {
    e.name == "div" && DataSearchIndexJs in e.attrs
  }

  /** A `script` whose `src` contains `search-index`. */
  predicate IsIndexScript(e: Element) {
    e.name == "script" && Src in e.attrs && Contains(e.attrs[Src], SearchIndexMarker)
  }

  predicate NoIndexDivBefore(html: seq<Element>, n: int)
    requires n <= |html|
  {
    forall j | 0 <= j < n :: !IsIndexDiv(html[j])
  }

  predicate NoIndexScriptBefore(html: seq<Element>, n: int)
    requires n <= |html|
  {
    forall j | 0 <= j < n :: !IsIndexScript(html[j])
  }

  /** `extract_search_index_filename`: the `data-search-index-js` value of the
      first `div` that has one; failing that, the `src` of the first `script`
      whose `src` contains `search-index`; failing that, `NotFound`. */
  method ExtractSearchIndexFilename(init: IndexInitializer, html: seq<Element>) returns (r: Result<string>)
    ensures forall k | 0 <= k < |html| && IsIndexDiv(html[k]) && NoIndexDivBefore(html, k) ::
      r == Ok(html[k].attrs[DataSearchIndexJs])
    ensures NoIndexDivBefore(html, |html|) ==>
      forall k | 0 <= k < |html| && IsIndexScript(html[k]) && NoIndexScriptBefore(html, k) ::
        r == Ok(html[k].attrs[Src])
    ensures r.Err? <==> NoIndexDivBefore(html, |html|) && NoIndexScriptBefore(html, |html|)
    ensures r.Err? ==> r.error == NotFound(init.crateName, init.crateVersion)
  {
    // Newer pages name the file in a dedicated attribute.
    for i := 0 to |html|
      invariant NoIndexDivBefore(html, i)
    {
      var element := html[i];
      if element.name == "div" {
        var indexFilename := Attr(element, DataSearchIndexJs);
        if indexFilename.Some? {
          return Ok(indexFilename.value);
        }
      }
    }

    // Older pages only reference the script.
    for i := 0 to |html|
      invariant NoIndexScriptBefore(html, i)
    {
      var element := html[i];
      if element.name == "script" {
        var maybeIndexFilename := Attr(element, Src);
        if maybeIndexFilename.Some? {
          if Contains(maybeIndexFilename.value, SearchIndexMarker) {
            return Ok(maybeIndexFilename.value);
          }
        }
      }
    }

    return Err(NotFound(init.crateName, init.crateVersion));
  }
}
