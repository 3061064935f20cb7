/** The `Cookie` header `get_bhavcopy_data` builds from the session's cookie jar
    (bhavcopy_app/mcxdownloader.py:35-36): `session.cookies.get_dict()` collapses the jar
    into a dict, and `"; ".join(f"{key}={value}" ...)` renders it. */
module Cookies {
  import opened Basics
  import opened Text
  import opened Dates

  type Pair = (string, string)

  predicate DistinctNames(d: seq<Pair>)
  {
    forall i, j :: 0 <= i < j < |d| ==> d[i].0 != d[j].0
  }

  /** Position of the first pair named `name`, if any. */
  function Find(d: seq<Pair>, name: string): (k: Option<nat>)
    ensures k.None? <==> forall i :: 0 <= i < |d| ==> d[i].0 != name
    ensures k.Some? ==> k.value < |d| && d[k.value].0 == name
                        && forall i :: 0 <= i < k.value ==> d[i].0 != name
    decreases |d|
  {
    if |d| == 0 then None
    else if d[0].0 == name then Some(0)
    else match Find(d[1..], name) { case None => None case Some(k) => Some(k + 1) }
  }

  /** `dictionary.get(name)`: the value stored under `name`, if any. */
  function Get(d: seq<Pair>, name: string): (r: Option<string>)
    ensures r.None? <==> forall i :: 0 <= i < |d| ==> d[i].0 != name
  {
    match Find(d, name) { case None => None case Some(k) => Some(d[k].1) }
  }

  /** In a dict without repeated names, each pair is found under its own name. */
  lemma GetAt(d: seq<Pair>, k: nat)
    requires DistinctNames(d) && k < |d|
    ensures Get(d, d[k].0) == Some(d[k].1)
  {
  }

  /** A dict that agrees with `d` everywhere except on the pairs named `name` answers every
      other name as `d` does. */
  lemma GetOthers(d: seq<Pair>, r: seq<Pair>, name: string)
    requires DistinctNames(d) && DistinctNames(r) && |d| <= |r|
    requires forall i :: 0 <= i < |d| && d[i].0 != name ==> r[i] == d[i]
    requires forall i :: 0 <= i < |r| && (i >= |d| || d[i].0 == name) ==> r[i].0 == name
    ensures forall other :: other != name ==> Get(r, other) == Get(d, other)
  {
    forall other | other != name
      ensures Get(r, other) == Get(d, other)
    {
      match Find(d, other)
      case None =>
      case Some(j) =>
        GetAt(d, j);
        GetAt(r, j);
    }
  }

  /** `dictionary[name] = value` on an insertion-ordered dict: a new name goes last, a
      known name keeps its place and takes the new value. */
  function Put(d: seq<Pair>, name: string, value: string): (r: seq<Pair>)
    requires DistinctNames(d)
    ensures DistinctNames(r)
    ensures Get(r, name) == Some(value)
    ensures forall other :: other != name ==> Get(r, other) == Get(d, other)
    ensures Get(d, name).None? ==> r == d + [(name, value)]
    ensures Get(d, name).Some? ==> |r| == |d| && forall i :: 0 <= i < |d| ==> r[i].0 == d[i].0
  {
    match Find(d, name)
    case None =>
      var r := d + [(name, value)];
      GetAt(r, |d|);
      GetOthers(d, r, name);
      r
    case Some(k) =>
      var r := d[k := (name, value)];
      GetAt(r, k);
      GetOthers(d, r, name);
      r
  }

  /** `session.cookies.get_dict()`: the jar's cookies put into a dict one by one. */
  function CookieDict(jar: seq<Pair>): (d: seq<Pair>)
    ensures DistinctNames(d)
    decreases |jar|
  {
    if |jar| == 0 then [] else
    var n := |jar| - 1;
    Put(CookieDict(jar[..n]), jar[n].0, jar[n].1)
  }

  /** The value of the last cookie in the jar with that name, if any. */
  function LastValue(jar: seq<Pair>, name: string): Option<string>
    decreases |jar|
  {
    if |jar| == 0 then None
    else if jar[|jar| - 1].0 == name then Some(jar[|jar| - 1].1)
    else LastValue(jar[..|jar| - 1], name)
  }

  /** The dict holds each name of the jar once, with the value of the name's last cookie. */
  lemma {:induction false} CookieDictValues(jar: seq<Pair>, name: string)
    ensures Get(CookieDict(jar), name) == LastValue(jar, name)
    decreases |jar|
  {
    if |jar| > 0 {
      CookieDictValues(jar[..|jar| - 1], name);
    }
  }

  /** `"; ".join(f"{key}={value}" for key, value in cookies.items())`. */
  function CookieString(d: seq<Pair>): string
  {
    Join(Renders(d), "; ")
  }

  /** `f"{key}={value}"`. */
  function Render(p: Pair): string
  {
    p.0 + "=" + p.1
  }

  function Renders(d: seq<Pair>): (r: seq<string>)
    ensures |r| == |d|
    ensures forall i :: 0 <= i < |d| ==> r[i] == Render(d[i])
  {
    seq(|d|, i requires 0 <= i < |d| => Render(d[i]))
  }

  /** The header is the first cookie, then "; " and the rest when there is more. */
  lemma RenderJoinCons(d: seq<Pair>)
    requires |d| > 0
    ensures Join(Renders(d), "; ")
            == if |d| == 1 then Render(d[0]) else Render(d[0]) + "; " + Join(Renders(d[1..]), "; ")
  {
    if |d| > 1 {
      assert Renders(d)[1..] == Renders(d[1..]);
    }
  }

  // ---------------------------------------------------------------------------------------
  // Reading a header back, as the server does.

  /** `name=value`, split at the first '='. */
  function ParsePair(t: string): Option<Pair>
  {
    match IndexOf(t, '=')
    case None => None
    case Some(j) => Some((t[..j], t[j + 1..]))
  }

  /** One or more `name=value` items separated by "; ". */
  function ParseItems(s: string): Option<seq<Pair>>
    decreases |s|
  {
    match IndexOf(s, ';')
    case None => (match ParsePair(s) case None => None case Some(p) => Some([p]))
    case Some(i) =>
      if i + 1 < |s| && s[i + 1] == ' ' then
        match ParsePair(s[..i])
        case None => None
        case Some(p) =>
          match ParseItems(s[i + 2..])
          case None => None
          case Some(rest) => Some([p] + rest)
      else None
  }

  function ParseCookieString(s: string): Option<seq<Pair>>
  {
    if |s| == 0 then Some([]) else ParseItems(s)
  }

  /** A cookie that renders unambiguously: no '=' or ';' in its name, no ';' in its value. */
  predicate Plain(p: Pair)
  {
    '=' !in p.0 && ';' !in p.0 && ';' !in p.1
  }

  lemma ParsePairRender(p: Pair)
    requires Plain(p)
    ensures ParsePair(p.0 + "=" + p.1) == Some(p)
  {
    IndexOfSplit(p.0, '=', p.1);
    var t := p.0 + "=" + p.1;
    assert t == p.0 + ['='] + p.1;
    assert t[..|p.0|] == p.0 && t[|p.0| + 1..] == p.1;
  }

  /** One item in front of a list that reads back: the whole reads back with the item first. */
  lemma ParseItemsCons(first: string, rest: string, p: Pair)
    requires ';' !in first && ParsePair(first) == Some(p) && ParseItems(rest).Some?
    ensures ParseItems(first + "; " + rest) == Some([p] + ParseItems(rest).value)
  {
    var s := first + "; " + rest;
    assert s == first + [';'] + (" " + rest);
    IndexOfSplit(first, ';', " " + rest);
    assert s[..|first|] == first && s[|first| + 1] == ' ' && s[|first| + 2..] == rest;
  }

  lemma {:induction false} ParseItemsRender(d: seq<Pair>)
    requires |d| > 0 && forall i :: 0 <= i < |d| ==> Plain(d[i])
    ensures ParseItems(Join(Renders(d), "; ")) == Some(d)
    decreases |d|
  {
    var first := Render(d[0]);
    assert ';' !in first by {
      assert first == d[0].0 + ['='] + d[0].1;
    }
    ParsePairRender(d[0]);
    RenderJoinCons(d);
    if |d| == 1 {
      assert IndexOf(first, ';').None?;
      assert [d[0]] == d;
    } else {
      ParseItemsRender(d[1..]);
      ParseItemsCons(first, Join(Renders(d[1..]), "; "), d[0]);
      assert [d[0]] + d[1..] == d;
    }
  }

  /** Reading the header back yields the dict it was built from, for cookies whose names
      hold no '=' or ';' and whose values hold no ';'. */
  lemma CookieStringRoundTrip(d: seq<Pair>)
    requires forall i :: 0 <= i < |d| ==> Plain(d[i])
    ensures ParseCookieString(CookieString(d)) == Some(d)
  {
    if |d| > 0 {
      ParseItemsRender(d);
      var s := CookieString(d);
      assert |s| > 0 by {
        JoinLength(Renders(d), "; ");
        assert |Renders(d)[0]| > 0;
      }
    }
  }
}
