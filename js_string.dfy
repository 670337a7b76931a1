/** The JavaScript string operations the screens use: `trim`, `split` and
    `join` on one character, `includes` and `substring(0, n)`.
    Lengths and positions count `char`s: one per code point, where JavaScript
    counts UTF-16 code units. The two agree on text without astral characters. */
module JsString {

  /** The characters `String.prototype.trim` strips: ECMAScript WhiteSpace
      (tab, vertical tab, form feed, space, no-break space, byte order mark and
      the Unicode space separators) and LineTerminator. */
  predicate IsWhitespace(c: char) {
    || c == '\t' || c == '\n' || c == '\U{000B}' || c == '\U{000C}' || c == '\r'
    || c == ' ' || c == '\U{00A0}' || c == '\U{1680}'
    || ('\U{2000}' <= c <= '\U{200A}')
    || c == '\U{2028}' || c == '\U{2029}' || c == '\U{202F}' || c == '\U{205F}'
    || c == '\U{3000}' || c == '\U{FEFF}'
  }

  predicate AllWhitespace(s: string) {
    forall k :: 0 <= k < |s| ==> IsWhitespace(s[k])
  }

  lemma AllWhitespaceConcat(a: string, b: string)
    ensures AllWhitespace(a + b) <==> AllWhitespace(a) && AllWhitespace(b)
  {
    if AllWhitespace(a) && AllWhitespace(b) {
      forall k | 0 <= k < |a + b|
        ensures IsWhitespace((a + b)[k])
      {
        if k >= |a| {
          assert (a + b)[k] == b[k - |a|];
        }
      }
    }
    if AllWhitespace(a + b) {
      assert forall k :: 0 <= k < |a| ==> a[k] == (a + b)[k];
      assert forall k :: 0 <= k < |b| ==> b[k] == (a + b)[|a| + k];
    }
  }

  /** Drops leading whitespace: the result is the suffix that starts at the
      first non-whitespace character. */
  function TrimStart(s: string): (r: string)
    ensures |r| <= |s| && r == s[|s| - |r|..]
    ensures r == [] || !IsWhitespace(r[0])
    ensures AllWhitespace(s[..|s| - |r|])
  {
    if |s| > 0 && IsWhitespace(s[0]) then
      var r := TrimStart(s[1..]);
      assert s[..|s| - |r|] == [s[0]] + s[1..][..|s| - 1 - |r|];
      AllWhitespaceConcat([s[0]], s[1..][..|s| - 1 - |r|]);
      r
    else
      s
  }

  /** Drops trailing whitespace: the result is the prefix that ends at the
      last non-whitespace character. */
  function TrimEnd(s: string): (r: string)
    ensures |r| <= |s| && r == s[..|r|]
    ensures r == [] || !IsWhitespace(r[|r| - 1])
    ensures AllWhitespace(s[|r|..])
  {
    if |s| > 0 && IsWhitespace(s[|s| - 1]) then
      var r := TrimEnd(s[..|s| - 1]);
      assert s[|r|..] == s[..|s| - 1][|r|..] + [s[|s| - 1]];
      AllWhitespaceConcat(s[..|s| - 1][|r|..], [s[|s| - 1]]);
      r
    else
      s
  }

  /** Trimming removes everything exactly when everything is whitespace. */
  lemma TrimsToEmpty(s: string)
    ensures TrimEnd(TrimStart(s)) == [] <==> AllWhitespace(s)
  {
    var t := TrimStart(s);
    var n := |s| - |t|;
    if TrimEnd(t) == [] {
      assert t[0..] == t;
      assert t == [];
      forall k | 0 <= k < |s|
        ensures IsWhitespace(s[k])
      {
        assert s[k] == s[..n][k];
      }
    }
    if AllWhitespace(s) {
      assert AllWhitespace(t);
      assert t == [];
    }
  }

  /** Neither end of the trimmed piece is whitespace. */
  lemma TrimmedEnds(s: string)
    ensures var r := TrimEnd(TrimStart(s));
            r == [] || (!IsWhitespace(r[0]) && !IsWhitespace(r[|r| - 1]))
  {
    var t := TrimStart(s);
    var r := TrimEnd(t);
    assert r != [] ==> r[0] == t[0];
  }

  /** `s.trim()`. */
  function Trim(s: string): (r: string)
    ensures r == [] <==> AllWhitespace(s)
    ensures r == [] || (!IsWhitespace(r[0]) && !IsWhitespace(r[|r| - 1]))
    ensures |r| <= |s|
  {
    TrimsToEmpty(s);
    TrimmedEnds(s);
    TrimEnd(TrimStart(s))
  }

  /** `trim` keeps one contiguous piece of `s` and removes only whitespace
      around it: `s` is whitespace up to position `a`, then the result, then
      whitespace to its end. */
  lemma TrimIsInfix(s: string)
    ensures var r := Trim(s);
            var a := |s| - |TrimStart(s)|;
            && a + |r| <= |s|
            && (forall k :: 0 <= k < |r| ==> r[k] == s[a + k])
            && (forall k :: 0 <= k < a ==> IsWhitespace(s[k]))
            && (forall k :: a + |r| <= k < |s| ==> IsWhitespace(s[k]))
  {
    assert Trim(s) == TrimEnd(TrimStart(s));
    LeadingIsWhitespace(s);
    TrimmedIsSlice(s);
    TrailingIsWhitespace(s);
  }

  lemma LeadingIsWhitespace(s: string)
    ensures forall k :: 0 <= k < |s| - |TrimStart(s)| ==> IsWhitespace(s[k])
  {
    var a := |s| - |TrimStart(s)|;
    assert forall k :: 0 <= k < a ==> s[k] == s[..a][k];
  }

  lemma TrimmedIsSlice(s: string)
    ensures var t := TrimStart(s);
            var r := TrimEnd(t);
            forall k :: 0 <= k < |r| ==> r[k] == s[|s| - |t| + k]
  {
    var t := TrimStart(s);
    assert t == s[|s| - |t|..];
  }

  lemma TrailingIsWhitespace(s: string)
    ensures var t := TrimStart(s);
            var r := TrimEnd(t);
            forall k :: |s| - |t| + |r| <= k < |s| ==> IsWhitespace(s[k])
  {
    var t := TrimStart(s);
    var r := TrimEnd(t);
    assert t == s[|s| - |t|..];
    WhitespaceTail(t, |r|);
  }

  lemma WhitespaceTail(t: string, m: nat)
    requires m <= |t| && AllWhitespace(t[m..])
    ensures forall j :: m <= j < |t| ==> IsWhitespace(t[j])
  {
    assert forall j :: m <= j < |t| ==> t[j] == t[m..][j - m];
  }

  /** `!s.trim()`: the string is empty after trimming, that is, it holds
      whitespace only. */
  predicate IsBlank(s: string)
    ensures IsBlank(s) <==> AllWhitespace(s)
  {
    Trim(s) == []
  }

  /** A string with no whitespace at either end is its own trim. */
  lemma TrimKeeps(r: string)
    requires r == [] || (!IsWhitespace(r[0]) && !IsWhitespace(r[|r| - 1]))
    ensures Trim(r) == r
  {
    assert TrimStart(r) == r;
    assert TrimEnd(r) == r;
  }

  /** Trimming twice is trimming once. */
  lemma TrimIdempotent(s: string)
    ensures Trim(Trim(s)) == Trim(s)
  {
    TrimKeeps(Trim(s));
  }

  /** `s.split(sep)` for a one-character separator: the maximal pieces between
      separators, so there is always at least one piece. */
  function Split(s: string, sep: char): (parts: seq<string>)
    ensures |parts| >= 1
    ensures forall k :: 0 <= k < |parts| ==> sep !in parts[k]
  {
    if s == [] then [""]
    else
      var rest := Split(s[1..], sep);
      if s[0] == sep then [""] + rest
      else [[s[0]] + rest[0]] + rest[1..]
  }

  /** `parts.join(sep)`: the parts in order, one separator between each two. */
  function Join(parts: seq<string>, sep: char): (r: string)
    ensures |parts| >= 1 ==> parts[0] <= r
    ensures |parts| >= 2 ==> |r| > |parts[0]| && r[|parts[0]|] == sep
  {
    if |parts| == 0 then ""
    else if |parts| == 1 then parts[0]
    else parts[0] + [sep] + Join(parts[1..], sep)
  }

  /** Joining the pieces of a split gives back the original string. */
  lemma {:induction false} JoinSplit(s: string, sep: char)
    ensures Join(Split(s, sep), sep) == s
  {
    if s != [] {
      var rest := Split(s[1..], sep);
      JoinSplit(s[1..], sep);
      if s[0] == sep {
        assert Split(s, sep) == [""] + rest;
        assert (([""] + rest)[1..]) == rest;
      } else {
        var parts := Split(s, sep);
        assert parts == [[s[0]] + rest[0]] + rest[1..];
        if |rest| == 1 {
          assert parts == [[s[0]] + rest[0]];
        } else {
          assert parts[1..] == rest[1..];
          assert Join(rest, sep) == rest[0] + [sep] + Join(rest[1..], sep);
        }
      }
    }
  }

  /** Splitting a string without a separator yields that string alone. */
  lemma {:induction false} SplitWithoutSeparator(s: string, sep: char)
    requires sep !in s
    ensures Split(s, sep) == [s]
  {
    if s != [] {
      assert sep !in s[1..];
      SplitWithoutSeparator(s[1..], sep);
      assert [s[0]] + s[1..] == s;
    }
  }

  /** `hay.includes(needle)`. The empty needle is found in every string, and
      a needle longer than the haystack in none. */
  function Includes(hay: string, needle: string): (r: bool)
    ensures needle <= hay ==> r
    ensures |needle| > |hay| ==> !r
  {
    if needle <= hay then true
    else if hay == [] then false
    else Includes(hay[1..], needle)
  }

  /** `needle` occurs in `hay` starting at position `i`. */
  predicate OccursAt(hay: string, needle: string, i: int) {
    0 <= i <= |hay| - |needle| && hay[i..i + |needle|] == needle
  }

  /** An occurrence makes `includes` hold. */
  lemma {:induction false} OccurrenceIsIncluded(hay: string, needle: string, i: int)
    requires OccursAt(hay, needle, i)
    ensures Includes(hay, needle)
    decreases i
  {
    if i == 0 {
      assert needle <= hay;
    } else if !(needle <= hay) {
      assert OccursAt(hay[1..], needle, i - 1) by {
        assert hay[1..][i - 1..i - 1 + |needle|] == hay[i..i + |needle|];
      }
      OccurrenceIsIncluded(hay[1..], needle, i - 1);
    }
  }

  /** When `includes` holds, the needle occurs at some position. */
  lemma {:induction false} IncludedOccurs(hay: string, needle: string) returns (i: int)
    requires Includes(hay, needle)
    ensures OccursAt(hay, needle, i)
    decreases |hay|
  {
    if needle <= hay {
      i := 0;
      assert hay[0..|needle|] == needle;
    } else {
      var j := IncludedOccurs(hay[1..], needle);
      i := j + 1;
      assert hay[1..][j..j + |needle|] == hay[i..i + |needle|];
    }
  }

  /** `includes` holds exactly when the needle occurs at some position. */
  lemma IncludesIff(hay: string, needle: string)
    ensures Includes(hay, needle) <==> exists i :: OccursAt(hay, needle, i)
  {
    if Includes(hay, needle) {
      var i := IncludedOccurs(hay, needle);
    }
    forall i | OccursAt(hay, needle, i)
      ensures Includes(hay, needle)
    {
      OccurrenceIsIncluded(hay, needle, i);
    }
  }

  /** `s.substring(0, n)`: the first `n` characters, or all of `s` if shorter. */
  function Prefix(s: string, n: nat): (r: string)
    ensures |r| == if |s| <= n then |s| else n
    ensures r <= s
  {
    if |s| <= n then s else s[..n]
  }

  /** What `substring(0, n)` cuts off is exactly the rest: the prefix and
      the remainder give back the string. */
  lemma PrefixAndRest(s: string, n: nat)
    ensures Prefix(s, n) + s[|Prefix(s, n)|..] == s
  {
    var p := Prefix(s, n);
    assert p == s[..|p|];
  }
}
