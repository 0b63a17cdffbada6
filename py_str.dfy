/**
 * The Python string operations the glyph-map scripts rely on, on `string`
 * (a sequence of Unicode code points): str.strip, str.split(sep, 1),
 * str.startswith / str.endswith, os.path.splitext on a bare file name, and
 * sorted() on a list of strings.
 */
module PyStr {

  /** str.isspace() for a single code point. */
  predicate IsSpace(c: char)
  {
    var n := c as int;
    (0x09 <= n <= 0x0D) || (0x1C <= n <= 0x20) || n == 0x85 || n == 0xA0 || n == 0x1680
    || (0x2000 <= n <= 0x200A) || n == 0x2028 || n == 0x2029 || n == 0x202F || n == 0x205F
    || n == 0x3000
  }

  predicate AllSpace(s: string)
  {
    forall i :: 0 <= i < |s| ==> IsSpace(s[i])
  }

  /** The number of whitespace characters `s` starts with. */
  function LeadingSpace(s: string): (n: nat)
    ensures n <= |s|
    ensures forall k :: 0 <= k < n ==> IsSpace(s[k])
    ensures n == |s| || !IsSpace(s[n])
  {
    if |s| > 0 && IsSpace(s[0]) then 1 + LeadingSpace(s[1..]) else 0
  }

  /** The number of whitespace characters `s` ends with. */
  function TrailingSpace(s: string): (n: nat)
    ensures n <= |s|
    ensures forall k :: |s| - n <= k < |s| ==> IsSpace(s[k])
    ensures n == |s| || !IsSpace(s[|s| - n - 1])
  {
    if |s| > 0 && IsSpace(s[|s| - 1]) then 1 + TrailingSpace(s[..|s| - 1]) else 0
  }

  /**
   * str.strip(): the part of `s` after its leading whitespace and before its
   * trailing whitespace; it neither starts nor ends with whitespace.
   */
  function Strip(s: string): (r: string)
    ensures LeadingSpace(s) + |r| <= |s| && r == s[LeadingSpace(s)..LeadingSpace(s) + |r|]
    ensures forall k :: LeadingSpace(s) + |r| <= k < |s| ==> IsSpace(s[k])
    ensures r == [] || (!IsSpace(r[0]) && !IsSpace(r[|r| - 1]))
  {
    var t := s[LeadingSpace(s)..];
    t[..|t| - TrailingSpace(t)]
  }

  /** Stripping is idempotent. */
  lemma StripIdempotent(s: string)
    ensures Strip(Strip(s)) == Strip(s)
  {
    var t := Strip(s);
    if t != [] {
      assert LeadingSpace(t) == 0;
      assert TrailingSpace(t) == 0;
    }
  }

  /** A string strips to nothing exactly when it is all whitespace. */
  lemma StripEmpty(s: string)
    ensures Strip(s) == [] <==> AllSpace(s)
  {
    if AllSpace(s) {
      assert LeadingSpace(s) == |s|;
    }
  }

  /**
   * Strip(s) is the one middle part `r` of a split s == p + r + q into a
   * whitespace prefix, a part that neither starts nor ends with whitespace,
   * and a whitespace suffix.
   */
  lemma StripUnique(s: string, p: string, r: string, q: string)
    requires s == p + r + q && AllSpace(p) && AllSpace(q)
    requires r == [] || (!IsSpace(r[0]) && !IsSpace(r[|r| - 1]))
    ensures Strip(s) == r
  {
    if r == [] {
      assert AllSpace(s) by {
        forall k | 0 <= k < |s|
          ensures IsSpace(s[k])
        {
          if k < |p| { assert s[k] == p[k]; } else { assert s[k] == q[k - |p|]; }
        }
      }
      StripEmpty(s);
    } else {
      var lead := LeadingSpace(s);
      assert s[|p|] == r[0];
      assert lead == |p|;
      var t := s[|p|..];
      assert t == r + q;
      var trail := TrailingSpace(t);
      assert t[|t| - |q| - 1] == r[|r| - 1];
      assert trail == |q|;
      assert t[..|t| - trail] == r;
    }
  }

  /** Whitespace appended to a line, such as the newline it is read with, does not change its stripped form. */
  lemma StripIgnoresTrailingSpace(s: string, ws: string)
    requires AllSpace(ws)
    ensures Strip(s + ws) == Strip(s)
  {
    var r := Strip(s);
    var lead := LeadingSpace(s);
    var mid := lead + |r|;
    var p, q := s[..lead], s[mid..];
    assert s == p + r + q by {
      assert s == s[..mid] + q;
      assert s[..mid] == p + r;
    }
    assert AllSpace(q);
    AllSpaceAppend(q, ws);
    assert s + ws == p + r + (q + ws);
    StripUnique(s + ws, p, r, q + ws);
  }

  lemma AllSpaceAppend(a: string, b: string)
    requires AllSpace(a) && AllSpace(b)
    ensures AllSpace(a + b)
  {
    forall k | 0 <= k < |a + b|
      ensures IsSpace((a + b)[k])
    {
      if k < |a| { assert (a + b)[k] == a[k]; } else { assert (a + b)[k] == b[k - |a|]; }
    }
  }

  /** Each line terminator a text file may leave on a line counts as whitespace, so strip removes it. */
  lemma StripDropsLineEnd(s: string)
    ensures Strip(s + "\n") == Strip(s)
    ensures Strip(s + "\r\n") == Strip(s)
    ensures Strip(s + "\r") == Strip(s)
  {
    StripIgnoresTrailingSpace(s, "\n");
    StripIgnoresTrailingSpace(s, "\r\n");
    StripIgnoresTrailingSpace(s, "\r");
  }

  /** str.startswith(prefix). */
  predicate StartsWith(s: string, prefix: string)
  {
    |prefix| <= |s| && s[..|prefix|] == prefix
  }

  /** str.endswith(suffix). */
  predicate EndsWith(s: string, suffix: string)
  {
    |suffix| <= |s| && s[|s| - |suffix|..] == suffix
  }

  /** str.split(sep, 1): the text before the first `sep` and the rest, or the whole string if `sep` is absent. */
  function SplitOnce(s: string, sep: char): (parts: seq<string>)
    ensures |parts| == 1 || |parts| == 2
    ensures |parts| == 2 <==> sep in s
    ensures |parts| == 1 ==> parts[0] == s
    ensures |parts| == 2 ==> sep !in parts[0] && parts[0] + [sep] + parts[1] == s
  {
    if |s| == 0 then [s]
    else if s[0] == sep then [[], s[1..]]
    else
      var rest := SplitOnce(s[1..], sep);
      if |rest| == 1 then [s] else [[s[0]] + rest[0], rest[1]]
  }

  /** The split is the only way to cut `s` at a `sep` with no `sep` before the cut. */
  lemma {:induction false} SplitOnceUnique(s: string, sep: char, a: string, b: string)
    requires sep !in a && s == a + [sep] + b
    ensures SplitOnce(s, sep) == [a, b]
  {
    if |a| == 0 {
      assert s[0] == sep && s[1..] == b;
    } else {
      assert s[0] == a[0] && s[1..] == a[1..] + [sep] + b;
      SplitOnceUnique(s[1..], sep, a[1..], b);
      assert [s[0]] + a[1..] == a;
    }
  }

  /**
   * os.path.splitext(name)[0] for a bare file name ending in ".svg": the name
   * without the extension, except that a name whose part before ".svg" is all
   * dots (".svg", "..svg") counts as having no extension and is kept whole.
   */
  function SvgStem(name: string): (stem: string)
    requires EndsWith(name, ".svg")
    ensures stem == name || stem + ".svg" == name
    ensures stem + ".svg" == name <==> exists k :: 0 <= k < |name| - 4 && name[k] != '.'
  {
    var base := name[..|name| - 4];
    assert base + ".svg" == name;
    if forall k :: 0 <= k < |base| ==> base[k] == '.' then name else base
  }

  // ---------------------------------------------------------------------------
  // sorted() on strings: lexicographic order by code point
  // ---------------------------------------------------------------------------

  /** a <= b in Python's string order. */
  predicate LexLe(a: string, b: string)
  {
    |a| == 0 || (|b| > 0 && (a[0] < b[0] || (a[0] == b[0] && LexLe(a[1..], b[1..]))))
  }

  lemma {:induction false} LexLeReflexive(a: string)
    ensures LexLe(a, a)
  {
    if |a| > 0 {
      LexLeReflexive(a[1..]);
    }
  }

  lemma {:induction false} LexLeTotal(a: string, b: string)
    ensures LexLe(a, b) || LexLe(b, a)
  {
    if |a| > 0 && |b| > 0 && a[0] == b[0] {
      LexLeTotal(a[1..], b[1..]);
    }
  }

  lemma {:induction false} LexLeTransitive(a: string, b: string, c: string)
    requires LexLe(a, b) && LexLe(b, c)
    ensures LexLe(a, c)
  {
    if |a| > 0 && a[0] == b[0] && b[0] == c[0] {
      LexLeTransitive(a[1..], b[1..], c[1..]);
    }
  }

  lemma {:induction false} LexLeAntisymmetric(a: string, b: string)
    requires LexLe(a, b) && LexLe(b, a)
    ensures a == b
  {
    if |a| > 0 {
      LexLeAntisymmetric(a[1..], b[1..]);
      assert a == [a[0]] + a[1..] && b == [b[0]] + b[1..];
    }
  }

  predicate Sorted(xs: seq<string>)
  {
    forall i, j :: 0 <= i < j < |xs| ==> LexLe(xs[i], xs[j])
  }

  function Insert(x: string, xs: seq<string>): (r: seq<string>)
    requires Sorted(xs)
    ensures Sorted(r) && multiset(r) == multiset(xs) + multiset{x}
  {
    if |xs| == 0 then [x]
    else if LexLe(x, xs[0]) then
      assert forall j :: 0 <= j < |xs| ==> LexLe(x, xs[j]) by {
        forall j | 0 <= j < |xs| ensures LexLe(x, xs[j]) {
          if j > 0 { LexLeTransitive(x, xs[0], xs[j]); }
        }
      }
      [x] + xs
    else
      var rest := Insert(x, xs[1..]);
      InsertBehindHead(x, xs, rest);
      assert xs == [xs[0]] + xs[1..];
      [xs[0]] + rest
  }

  /** Inserting behind the head keeps the head first: everything in the rest is at least the head. */
  lemma InsertBehindHead(x: string, xs: seq<string>, rest: seq<string>)
    requires Sorted(xs) && |xs| > 0 && !LexLe(x, xs[0])
    requires multiset(rest) == multiset(xs[1..]) + multiset{x}
    ensures forall k :: 0 <= k < |rest| ==> LexLe(xs[0], rest[k])
  {
    LexLeTotal(x, xs[0]);
    forall k | 0 <= k < |rest| ensures LexLe(xs[0], rest[k]) {
      assert rest[k] in multiset(rest);
      if rest[k] != x {
        assert rest[k] in multiset(xs[1..]);
        var j :| 0 <= j < |xs[1..]| && xs[1..][j] == rest[k];
        assert xs[1..][j] == xs[j + 1];
      }
    }
  }

  /** sorted(xs): the same strings, in ascending order. */
  function SortStrings(xs: seq<string>): (r: seq<string>)
    ensures Sorted(r) && multiset(r) == multiset(xs)
  {
    if |xs| == 0 then []
    else
      assert xs == [xs[0]] + xs[1..];
      Insert(xs[0], SortStrings(xs[1..]))
  }

  lemma SortedSameHead(a: seq<string>, b: seq<string>)
    requires Sorted(a) && Sorted(b) && multiset(a) == multiset(b) && |a| > 0
    ensures |b| > 0 && a[0] == b[0]
  {
    assert a[0] in multiset(b);
    var i :| 0 <= i < |b| && b[i] == a[0];
    assert b[0] in multiset(a);
    var j :| 0 <= j < |a| && a[j] == b[0];
    if j > 0 { assert LexLe(a[0], a[j]); } else { LexLeReflexive(a[0]); }
    if i > 0 { assert LexLe(b[0], b[i]); } else { LexLeReflexive(b[0]); }
    LexLeAntisymmetric(a[0], b[0]);
  }

  /** A sorted arrangement of given strings is unique: sorted() has exactly one possible answer. */
  lemma {:induction false} SortedUnique(a: seq<string>, b: seq<string>)
    requires Sorted(a) && Sorted(b) && multiset(a) == multiset(b)
    ensures a == b
  {
    if |a| > 0 {
      SortedSameHead(a, b);
      DropHead(a);
      DropHead(b);
      SortedUnique(a[1..], b[1..]);
      assert a == [a[0]] + a[1..] && b == [b[0]] + b[1..];
    } else {
      assert |multiset(b)| == 0;
    }
  }

  /** Removing the head of a sorted sequence leaves a sorted sequence without one copy of the head. */
  lemma DropHead(a: seq<string>)
    requires Sorted(a) && |a| > 0
    ensures Sorted(a[1..])
    ensures multiset(a[1..]) == multiset(a) - multiset{a[0]}
  {
    assert a == [a[0]] + a[1..];
    assert multiset(a) == multiset{a[0]} + multiset(a[1..]);
  }
}
