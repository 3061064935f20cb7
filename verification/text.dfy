/** String and byte-string helpers with the meaning the Python standard library gives them:
    `str.strip`, `in` on bytes, `str.join`, `str.format` of a single named field, and the
    last component of a URL path. */
module Text {
  import opened Basics

  /** The characters for which Python's `str.isspace` holds, i.e. those `str.strip()` removes. */
  predicate IsSpace(c: char)
  {
    || c == ' '
    || ('\t' <= c <= '\r')
    || ('\U{1C}' <= c <= '\U{1F}')
    || c == '\U{85}' || c == '\U{A0}' || c == '\U{1680}'
    || ('\U{2000}' <= c <= '\U{200A}')
    || c == '\U{2028}' || c == '\U{2029}' || c == '\U{202F}' || c == '\U{205F}' || c == '\U{3000}'
  }

  predicate AllSpace(s: string)
  {
    forall i :: 0 <= i < |s| ==> IsSpace(s[i])
  }

  /** Every character of `s` outside the index range `[i, j)` is whitespace. */
  predicate SpaceOutside(s: string, i: int, j: int)
  {
    forall k :: 0 <= k < |s| && (k < i || k >= j) ==> IsSpace(s[k])
  }

  /** The slice `s[i..j]` has only whitespace outside it and neither starts nor ends with
      whitespace. */
  predicate StripBounds(s: string, i: int, j: int)
  {
    && 0 <= i <= j <= |s|
    && SpaceOutside(s, i, j)
    && (i < j ==> !IsSpace(s[i]) && !IsSpace(s[j - 1]))
  }

  /** `r` is `s` with all leading and trailing whitespace removed. */
  ghost predicate IsStripOf(s: string, r: string)
  {
    exists i, j :: StripBounds(s, i, j) && r == s[i..j]
  }

  function StripLeft(s: string): (r: string)
    ensures |r| <= |s| && r == s[|s| - |r|..]
    ensures AllSpace(s[..|s| - |r|])
    ensures r == [] || !IsSpace(r[0])
  {
    if |s| > 0 && IsSpace(s[0]) then StripLeft(s[1..]) else s
  }

  function StripRight(s: string): (r: string)
    ensures |r| <= |s| && r == s[..|r|]
    ensures AllSpace(s[|r|..])
    ensures r == [] || !IsSpace(r[|r| - 1])
  {
    if |s| > 0 && IsSpace(s[|s| - 1]) then StripRight(s[..|s| - 1]) else s
  }

  /** Python's `s.strip()`: strips the left end, then the right end. */
  function Strip(s: string): (r: string)
    ensures IsStripOf(s, r)
  {
    var l := StripLeft(s);
    var r := StripRight(l);
    StripSlice(s, l, r);
    r
  }

  lemma StripSlice(s: string, l: string, r: string)
    requires |l| <= |s| && l == s[|s| - |l|..] && AllSpace(s[..|s| - |l|])
    requires l == [] || !IsSpace(l[0])
    requires |r| <= |l| && r == l[..|r|] && AllSpace(l[|r|..])
    requires r == [] || !IsSpace(r[|r| - 1])
    ensures StripBounds(s, |s| - |l|, |s| - |l| + |r|) && r == s[|s| - |l|..|s| - |l| + |r|]
  {
    var i := |s| - |l|;
    var j := i + |r|;
    assert r == s[i..j];
    var front := s[..i];
    var back := l[|r|..];
    assert AllSpace(front) && AllSpace(back);
    forall k | 0 <= k < |s| && (k < i || k >= j)
      ensures IsSpace(s[k])
    {
      if k < i {
        assert front[k] == s[k];
      } else {
        assert back[k - j] == s[k];
      }
    }
    if i < j {
      assert s[i] == l[0] && s[j - 1] == r[|r| - 1];
    }
  }

  /** Two slices that both satisfy `StripBounds` are the same string. */
  lemma StripBoundsUnique(s: string, i: int, j: int, i': int, j': int)
    requires StripBounds(s, i, j) && StripBounds(s, i', j')
    ensures s[i..j] == s[i'..j']
  {
    if i < j && i' < j' {
      assert i == i' && j == j';
    } else if i < j || i' < j' {
      assert false;
    }
  }

  /** The stripped form is unique: any slice of `s` with only whitespace outside it and no
      whitespace at either end is exactly `Strip(s)`. */
  lemma StripUnique(s: string, r: string)
    requires IsStripOf(s, r)
    ensures r == Strip(s)
  {
    var i, j :| StripBounds(s, i, j) && r == s[i..j];
    var t := Strip(s);
    var i', j' :| StripBounds(s, i', j') && t == s[i'..j'];
    StripBoundsUnique(s, i, j, i', j');
  }

  /** Stripping is idempotent. */
  lemma StripIdempotent(s: string)
    ensures Strip(Strip(s)) == Strip(s)
  {
    var r := Strip(s);
    var i, j :| StripBounds(s, i, j) && r == s[i..j];
    assert r[0..|r|] == r;
    if |r| > 0 {
      assert r[0] == s[i] && r[|r| - 1] == s[j - 1];
    }
    assert StripBounds(r, 0, |r|);
    StripUnique(r, r);
  }

  /** Python's `needle in hay` on byte strings (and sequences in general). */
  function Contains<T(==)>(hay: seq<T>, needle: seq<T>): bool
    decreases |hay|
  {
    if |hay| < |needle| then false
    else hay[..|needle|] == needle || Contains(hay[1..], needle)
  }

  /** The needle occurs in the hay at offset `i`. */
  predicate OccursAt<T(==)>(hay: seq<T>, needle: seq<T>, i: int)
  {
    0 <= i <= |hay| - |needle| && hay[i..i + |needle|] == needle
  }

  /** `Contains` holds exactly when the needle occurs at some offset of the hay. */
  lemma {:induction false} ContainsIff<T>(hay: seq<T>, needle: seq<T>)
    ensures Contains(hay, needle) <==> exists i :: OccursAt(hay, needle, i)
    decreases |hay|
  {
    if |hay| < |needle| {
    } else if hay[..|needle|] == needle {
      assert OccursAt(hay, needle, 0);
    } else {
      ContainsIff(hay[1..], needle);
      if Contains(hay[1..], needle) {
        var i :| OccursAt(hay[1..], needle, i);
        assert hay[i + 1..i + 1 + |needle|] == hay[1..][i..i + |needle|];
        assert OccursAt(hay, needle, i + 1);
      }
      if exists i :: OccursAt(hay, needle, i) {
        var i :| OccursAt(hay, needle, i);
        assert i != 0;
        assert hay[1..][i - 1..i - 1 + |needle|] == hay[i..i + |needle|];
        assert OccursAt(hay[1..], needle, i - 1);
      }
    }
  }

  /** Python's `sep.join(parts)`. */
  function Join(parts: seq<string>, sep: string): string
  {
    if |parts| == 0 then ""
    else if |parts| == 1 then parts[0]
    else parts[0] + sep + Join(parts[1..], sep)
  }

  function TotalLength(parts: seq<string>): nat
  {
    if |parts| == 0 then 0 else |parts[0]| + TotalLength(parts[1..])
  }

  /** Joining two non-empty lists is joining each and gluing them with one separator. */
  lemma {:induction false} JoinAppend(a: seq<string>, b: seq<string>, sep: string)
    requires |a| > 0 && |b| > 0
    ensures Join(a + b, sep) == Join(a, sep) + sep + Join(b, sep)
    decreases |a|
  {
    if |a| == 1 {
      assert (a + b)[1..] == b;
    } else {
      assert (a + b)[1..] == a[1..] + b;
      JoinAppend(a[1..], b, sep);
    }
  }

  /** The joined string holds every part and one separator between each two neighbours. */
  lemma {:induction false} JoinLength(parts: seq<string>, sep: string)
    requires |parts| > 0
    ensures |Join(parts, sep)| == TotalLength(parts) + |sep| * (|parts| - 1)
    decreases |parts|
  {
    if |parts| > 1 {
      JoinLength(parts[1..], sep);
    }
  }

  /** Python's `template.format(name=value)` for a template whose only replacement field is
      `pat` (written with its braces): every occurrence of the field is replaced by `value`. */
  function Substitute(template: string, pat: string, value: string): string
    requires |pat| > 0
    decreases |template|
  {
    if |template| < |pat| then template
    else if template[..|pat|] == pat then value + Substitute(template[|pat|..], pat, value)
    else [template[0]] + Substitute(template[1..], pat, value)
  }

  /** Python's `s.count(pat)`: non-overlapping occurrences, scanned from the left. */
  function Occurrences(s: string, pat: string): nat
    requires |pat| > 0
    decreases |s|
  {
    if |s| < |pat| then 0
    else if s[..|pat|] == pat then 1 + Occurrences(s[|pat|..], pat)
    else Occurrences(s[1..], pat)
  }

  /** A prefix that does not contain the first character of the field is copied unchanged
      and contributes no occurrence. */
  lemma {:induction false} PlainPrefix(a: string, t: string, pat: string, value: string)
    requires |pat| > 0 && pat[0] !in a
    ensures Substitute(a + t, pat, value) == a + Substitute(t, pat, value)
    ensures Occurrences(a + t, pat) == Occurrences(t, pat)
    decreases |a|
  {
    if |a| > 0 {
      var s := a + t;
      assert s[0] == a[0] && s[0] != pat[0];
      assert |s| < |pat| || s[..|pat|] != pat by {
        if |s| >= |pat| { assert s[..|pat|][0] == a[0]; }
      }
      assert s[1..] == a[1..] + t;
      PlainPrefix(a[1..], t, pat, value);
    } else {
      assert a + t == t;
    }
  }

  /** A template `a + pat + b` in which neither `a` nor `b` mentions the field's opening
      character holds the field once, and formatting it puts `value` in its place. */
  lemma SubstituteOnce(a: string, b: string, pat: string, value: string)
    requires |pat| > 0 && pat[0] !in a && pat[0] !in b
    ensures Occurrences(a + pat + b, pat) == 1
    ensures Substitute(a + pat + b, pat, value) == a + value + b
  {
    assert a + pat + b == a + (pat + b);
    PlainPrefix(a, pat + b, pat, value);
    var s := pat + b;
    assert s[..|pat|] == pat && s[|pat|..] == b;
    PlainPrefix(b, [], pat, value);
    assert b + [] == b;
    assert Substitute([], pat, value) == [] && Occurrences([], pat) == 0;
  }

  /** The last component of a slash-separated path: what follows the final '/'. */
  function LastSegment(path: string): string
  {
    if |path| == 0 || path[|path| - 1] == '/' then ""
    else LastSegment(path[..|path| - 1]) + [path[|path| - 1]]
  }

  lemma {:induction false} LastSegmentAfterSlash(dir: string, name: string)
    requires '/' !in name
    ensures LastSegment(dir + "/" + name) == name
    decreases |name|
  {
    var p := dir + "/" + name;
    if |name| == 0 {
      assert p[|p| - 1] == '/';
    } else {
      var n' := name[..|name| - 1];
      assert p[..|p| - 1] == dir + "/" + n';
      assert p[|p| - 1] == name[|name| - 1];
      LastSegmentAfterSlash(dir, n');
      assert n' + [name[|name| - 1]] == name;
    }
  }

  /** The bytes of an ISO-8859-1 (here: ASCII) string. */
  function Latin1(s: string): (b: seq<byte>)
    requires forall i :: 0 <= i < |s| ==> s[i] as int < 256
    ensures |b| == |s|
    ensures forall i :: 0 <= i < |s| ==> b[i] as int == s[i] as int
  {
    seq(|s|, i requires 0 <= i < |s| => s[i] as int as byte)
  }
}
