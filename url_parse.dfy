/**
 * `url_parse` and the per-row search columns of `revenue_calc`: the
 * referrer's netloc and `&`-separated query parameters, the search
 * compound string, the search engine domain and the search keyword.
 */
module UrlParse {
  import opened Wrappers
  import opened Text

  /* ---------------- urlparse(referrer).netloc / .query ---------------- */

  predicate IsAsciiAlpha(ch: char)
  {
    'a' <= ch <= 'z' || 'A' <= ch <= 'Z'
  }

  /** The characters `urlsplit` allows in a scheme. */
  predicate IsSchemeChar(ch: char)
  {
    IsAsciiAlpha(ch) || '0' <= ch <= '9' || ch == '+' || ch == '-' || ch == '.'
  }

  predicate IsScheme(s: string)
  {
    |s| > 0 && IsAsciiAlpha(s[0]) && forall i :: 0 <= i < |s| ==> IsSchemeChar(s[i])
  }

  /** The URL without its scheme: the text after the first `:` when what precedes it is a scheme. */
  function AfterScheme(url: string): (rest: string)
    ensures |rest| <= |url| && rest == url[|url| - |rest|..]
    ensures ':' !in url ==> rest == url
  {
    if ':' in url && IsScheme(url[..IndexOf(url, ':')]) then url[IndexOf(url, ':') + 1..] else url
  }

  predicate IsNetlocEnd(ch: char)
  {
    ch == '/' || ch == '?' || ch == '#'
  }

  /** The index of the first of `/`, `?`, `#` in `s` at or after `from`, else `|s|`. */
  function NetlocEnd(s: string, from: nat): (e: nat)
    requires from <= |s|
    ensures from <= e <= |s|
    ensures forall i :: from <= i < e ==> !IsNetlocEnd(s[i])
    ensures e < |s| ==> IsNetlocEnd(s[e])
    decreases |s| - from
  {
    if from == |s| || IsNetlocEnd(s[from]) then from else NetlocEnd(s, from + 1)
  }

  /** The two components of a URL that the attribution reads. */
  datatype UrlParts = UrlParts(netloc: string, query: string)

  /** After the scheme: a `//` starts a netloc that runs to the first `/`, `?` or `#`; the rest is the path. */
  function NetlocAndPath(rest: string): (np: (string, string))
    ensures NoNetlocEnd(np.0)
    ensures |np.1| <= |rest| && np.1 == rest[|rest| - |np.1|..]
  {
    if |rest| >= 2 && rest[..2] == "//" then
      var e := NetlocEnd(rest, 2);
      (rest[2..e], rest[e..])
    else ("", rest)
  }

  /** The query of what follows the netloc: drop the fragment after `#`, keep what follows the first `?`. */
  function QueryOf(path: string): (query: string)
    ensures '#' !in query
  {
    var noFragment := if '#' in path then path[..IndexOf(path, '#')] else path;
    if '?' in noFragment then
      var q := noFragment[IndexOf(noFragment, '?') + 1..];
      assert forall i :: 0 <= i < |q| ==> q[i] == noFragment[|noFragment| - |q| + i];
      q
    else ""
  }

  /**
   * `urlsplit`, reduced to netloc and query: strip a valid scheme, take
   * the netloc after `//`, drop the fragment, and keep what follows `?`.
   */
  function SplitUrl(url: string): (parts: UrlParts)
    ensures NoNetlocEnd(parts.netloc)
    ensures '#' !in parts.query
  {
    var np := NetlocAndPath(AfterScheme(url));
    UrlParts(np.0, QueryOf(np.1))
  }

  /** A URL written out from its parts: `scheme://netloc` + path + `?` + query. */
  function ComposeUrl(scheme: string, netloc: string, path: string, query: string): string
  {
    scheme + "://" + netloc + path + "?" + query
  }

  predicate NoNetlocEnd(s: string)
  {
    forall i :: 0 <= i < |s| ==> !IsNetlocEnd(s[i])
  }

  lemma {:induction false} IndexOfConcat(a: string, b: string, c: char)
    requires c !in a && |b| > 0 && b[0] == c
    ensures c in a + b && IndexOf(a + b, c) == |a|
    decreases |a|
  {
    assert (a + b)[|a|] == c;
    if |a| > 0 {
      IndexOfConcat(a[1..], b, c);
      assert (a + b)[1..] == a[1..] + b;
    }
  }

  lemma {:induction false} NetlocEndConcat(a: string, b: string, from: nat)
    requires from <= |a| && NoNetlocEnd(a[from..]) && |b| > 0 && IsNetlocEnd(b[0])
    ensures NetlocEnd(a + b, from) == |a|
    decreases |a| - from
  {
    if from < |a| {
      assert (a + b)[from] == a[from..][0];
      assert a[from + 1..] == a[from..][1..];
      NetlocEndConcat(a, b, from + 1);
    }
  }

  /** A valid scheme and its `:` come off, leaving what follows. */
  lemma AfterSchemeComposed(scheme: string, tail: string)
    requires IsScheme(scheme) && |tail| > 0 && tail[0] == ':'
    ensures AfterScheme(scheme + tail) == tail[1..]
  {
    assert ':' !in scheme by {
      forall i | 0 <= i < |scheme| ensures scheme[i] != ':' {
        assert IsSchemeChar(scheme[i]);
      }
    }
    IndexOfConcat(scheme, tail, ':');
    assert (scheme + tail)[..|scheme|] == scheme;
    assert (scheme + tail)[|scheme| + 1..] == tail[1..];
  }

  /** After `//`, the netloc runs up to the delimiter that starts the rest. */
  lemma NetlocComposed(netloc: string, after: string)
    requires NoNetlocEnd(netloc) && |after| > 0 && IsNetlocEnd(after[0])
    ensures NetlocAndPath("//" + netloc + after) == (netloc, after)
  {
    var front := "//" + netloc;
    var rest := front + after;
    assert front[2..] == netloc;
    NetlocEndConcat(front, after, 2);
    assert "//" + netloc + after == rest;
    assert rest[..2] == "//";
    assert rest[2..|netloc| + 2] == netloc && rest[|netloc| + 2..] == after;
  }

  /** The scheme and its `:` come off a composed URL. */
  lemma SchemeComposed(scheme: string, netloc: string, after: string)
    requires IsScheme(scheme)
    ensures AfterScheme(scheme + "://" + netloc + after) == "//" + netloc + after
  {
    var tail := "://" + netloc + after;
    assert scheme + "://" + netloc + after == scheme + tail;
    AfterSchemeComposed(scheme, tail);
    assert tail[1..] == "//" + netloc + after;
  }

  /** A path free of `?` and `#`, then `?query`: the query is everything after the `?`. */
  lemma QueryComposed(path: string, query: string)
    requires '?' !in path && '#' !in path && '#' !in query
    ensures QueryOf(path + "?" + query) == query
  {
    var s := path + "?" + query;
    assert s == path + ("?" + query);
    IndexOfConcat(path, "?" + query, '?');
    assert s[|path| + 1..] == query;
  }

  /**
   * Splitting a composed URL gives back its netloc and its query, when the
   * parts hold none of the characters that delimit them.
   */
  lemma SplitComposedUrl(scheme: string, netloc: string, path: string, query: string)
    requires IsScheme(scheme)
    requires NoNetlocEnd(netloc)
    requires path == [] || path[0] == '/'
    requires '?' !in path && '#' !in path && '#' !in query
    ensures SplitUrl(ComposeUrl(scheme, netloc, path, query)) == UrlParts(netloc, query)
  {
    var after := path + "?" + query;
    assert ComposeUrl(scheme, netloc, path, query) == scheme + "://" + netloc + after;
    SchemeComposed(scheme, netloc, after);
    assert after[0] == '/' || after[0] == '?';
    NetlocComposed(netloc, after);
    QueryComposed(path, query);
  }

  /**
   * `url_parse`: the referrer's netloc, and its query with leading and
   * trailing `&` stripped, split on `&`.
   */
  function UrlParseRow(referrer: string): (parsed: (string, seq<string>))
    ensures parsed.0 == SplitUrl(referrer).netloc
    ensures |parsed.1| >= 1
    ensures forall i :: 0 <= i < |parsed.1| ==> '&' !in parsed.1[i]
    ensures Join(parsed.1, '&') == Strip(SplitUrl(referrer).query, '&')
  {
    var parts := SplitUrl(referrer);
    var params := Split(Strip(parts.query, '&'), '&');
    SplitJoin(Strip(parts.query, '&'), '&');
    (parts.netloc, params)
  }

  /** A URL without `?` has the empty query. */
  lemma NoQueryMark(url: string)
    requires '?' !in url
    ensures SplitUrl(url).query == ""
  {
    var rest := AfterScheme(url);
    var np := NetlocAndPath(rest);
    NotInSuffix(url, |url| - |rest|, '?');
    NotInSuffix(rest, |rest| - |np.1|, '?');
    QueryOfNoMark(np.1);
    assert SplitUrl(url) == UrlParts(np.0, QueryOf(np.1));
  }

  /** What follows the netloc has the empty query when it holds no `?`. */
  lemma QueryOfNoMark(path: string)
    requires '?' !in path
    ensures QueryOf(path) == ""
  {
    if '#' in path {
      var noFragment := path[..IndexOf(path, '#')];
      assert forall i :: 0 <= i < |noFragment| ==> noFragment[i] == path[i];
      assert '?' !in noFragment;
    }
  }

  /** A character absent from a string is absent from each of its suffixes. */
  lemma NotInSuffix(s: string, k: nat, c: char)
    requires k <= |s| && c !in s
    ensures c !in s[k..]
  {
    assert forall i :: 0 <= i < |s| - k ==> s[k..][i] == s[k + i];
  }

  /** A query of nothing but `&` (or nothing at all) yields the single empty parameter. */
  lemma EmptyQueryParams(referrer: string)
    requires forall i :: 0 <= i < |SplitUrl(referrer).query| ==> SplitUrl(referrer).query[i] == '&'
    ensures UrlParseRow(referrer).1 == [""]
  {
    var q := SplitUrl(referrer).query;
    var lo, hi := StripSlice(q, '&');
    assert Strip(q, '&') == "";
  }

  /* ---------------- the derived columns ---------------- */

  /** A query parameter that names a search: it contains `p=` or `q=`. */
  predicate IsSearchParam(param: string)
  {
    Contains(param, "p=") || Contains(param, "q=")
  }

  /**
   * `search_compound_string`: the first parameter, in list order, that
   * contains `p=` or `q=`; `None` when there is none.
   */
  function SearchCompoundString(params: seq<string>): (r: Option<string>)
    ensures r.None? <==> forall i :: 0 <= i < |params| ==> !IsSearchParam(params[i])
    ensures r.Some? ==> exists i :: (0 <= i < |params| && params[i] == r.value
      && IsSearchParam(params[i]) && (forall j :: 0 <= j < i ==> !IsSearchParam(params[j])))
  {
    if |params| == 0 then None
    else if IsSearchParam(params[0]) then Some(params[0])
    else
      var r := SearchCompoundString(params[1..]);
      assert forall i :: 1 <= i < |params| ==> params[i] == params[1..][i - 1];
      r
  }

  /**
   * `search_engine_domain = domain_name.split('.', 1)[-1]`: everything
   * after the first `.`, or the whole name when it has none.
   */
  function SearchEngineDomain(domainName: string): (r: string)
    ensures '.' !in domainName ==> r == domainName
    ensures '.' in domainName ==>
      |r| < |domainName| && domainName == domainName[..|domainName| - |r| - 1] + "." + r
      && '.' !in domainName[..|domainName| - |r| - 1]
  {
    AfterFirst(domainName, '.')
  }

  /**
   * `search_keyword`: the text after the last `=` of the compound string,
   * with every `+` turned into a space, then lower-cased; null stays null.
   */
  function SearchKeyword(compound: Option<string>): (r: Option<string>)
    ensures r.Some? <==> compound.Some?
    ensures r.Some? ==> '=' !in r.value && '+' !in r.value
    ensures r.Some? ==> forall i :: 0 <= i < |r.value| ==> !('A' <= r.value[i] <= 'Z')
  {
    match compound
    case None => None
    case Some(s) =>
      var value := Last(Split(s, '='));
      var spaced := ReplaceChar(value, '+', ' ');
      var kw := Lower(spaced);
      assert forall i :: 0 <= i < |value| ==> value[i] != '=' by {
        LastPiece(s, '=');
      }
      ReplaceCharAt(value, '+', ' ');
      LowerAt(spaced);
      Some(kw)
  }

  /** A compound string `name=value` with no `=` in the value gives that value, de-plussed and lower-cased. */
  lemma KeywordOfParam(name: string, value: string)
    requires '=' !in value
    ensures SearchKeyword(Some(name + "=" + value)) == Some(Lower(ReplaceChar(value, '+', ' ')))
  {
    assert name + "=" + value == name + ['='] + value;
    SplitLastPiece(name, value, '=');
  }

  /** Replacing the plus of `Running+Shoes` gives `Running Shoes`. */
  lemma ReplaceExample(s: string)
    requires s == "Running+Shoes"
    ensures ReplaceChar(s, '+', ' ') == "Running Shoes"
  {
    ReplaceCharAt(s, '+', ' ');
  }

  /** Lower-casing `Running Shoes` gives `running shoes`. */
  lemma LowerExample(s: string)
    requires s == "Running Shoes"
    ensures Lower(s) == "running shoes"
  {
    LowerAt(s);
  }

  /** The compound string `q=Running+Shoes` gives the keyword `running shoes`. */
  lemma KeywordExample(compound: string)
    requires compound == "q=Running+Shoes"
    ensures SearchKeyword(Some(compound)) == Some("running shoes")
  {
    var name, v := compound[..1], compound[2..];
    assert compound == name + "=" + v;
    assert '=' !in v;
    KeywordOfParam(name, v);
    ReplaceExample(v);
    LowerExample(ReplaceChar(v, '+', ' '));
  }
}
