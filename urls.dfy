/**
 * HttpAuthenticationService.concatenateURL over an already parsed java.net.URL: protocol, host,
 * port, path, query and fragment ("ref"), with null modelled as None.
 */
module Urls {
  import opened Wrappers
  import Strings

  datatype Url = Url(
    protocol: string,
    host: string,
    port: int,
    path: string,
    query: Option<string>,
    fragment: Option<string>)

  /**
   * What every java.net.URL satisfies: its path and query were cut off before the first `#`.
   */
  predicate Valid(u: Url)
  {
    '#' !in u.path && (u.query.Some? ==> '#' !in u.query.value)
  }

  /** URL.getFile(): the path, then `?` and the query when there is one; never the fragment. */
  function File(u: Url): (f: string)
    ensures Valid(u) ==> '#' !in f
  {
    u.path + (if u.query.Some? then "?" + u.query.value else "")
  }

  /**
   * new URL(protocol, host, port, file): everything after the first `#` of `file` becomes the
   * fragment, and the rest is split at its last `?` into path and query.
   */
  function FromParts(protocol: string, host: string, port: int, file: string): (u: Url)
    ensures Valid(u)
    ensures u.protocol == protocol && u.host == host && u.port == port
    ensures '#' !in file ==> File(u) == file && u.fragment.None?
  {
    var hash := Strings.IndexOf(file, '#');
    var fragment := if hash.Some? then Some(file[hash.value + 1..]) else None;
    var rest := if hash.Some? then file[..hash.value] else file;
    var parts := SplitQuery(rest);
    Url(protocol, host, port, parts.0, parts.1, fragment)
  }

  /** A file without its fragment, split at its last `?` into path and query. */
  function SplitQuery(rest: string): (parts: (string, Option<string>))
    ensures parts.0 + (if parts.1.Some? then "?" + parts.1.value else "") == rest
    ensures parts.1.Some? ==> '?' !in parts.1.value
    ensures '#' !in rest ==> '#' !in parts.0 && (parts.1.Some? ==> '#' !in parts.1.value)
  {
    match Strings.LastIndexOf(rest, '?')
    case Some(q) =>
      Strings.SplitAround(rest, q);
      Strings.Regroup(rest[..q], "?", rest[q + 1..]);
      (rest[..q], Some(rest[q + 1..]))
    case None =>
      assert rest + "" == rest;
      (rest, None)
  }

  /** The separator concatenateURL puts between the old file and the new query. */
  function Separator(u: Url): (sep: string)
    ensures sep == "&" <==> u.query.Some? && u.query.value != []
    ensures sep == "&" || sep == "?"
  {
    if u.query.Some? && |u.query.value| > 0 then "&" else "?"
  }

  /** concatenateURL: the old file, `&` or `?`, then the query; protocol, host and port kept. */
  function ConcatenateUrl(u: Url, query: string): (r: Url)
    ensures r.protocol == u.protocol && r.host == u.host && r.port == u.port
    ensures Valid(u) && '#' !in query ==> File(r) == File(u) + Separator(u) + query && r.fragment.None?
  {
    FromParts(u.protocol, u.host, u.port, File(u) + Separator(u) + query)
  }

  /** A file made of a path, `?` and a query without `?` splits at that `?`. */
  lemma SplitQueryAt(path: string, query: string)
    requires '?' !in query
    ensures SplitQuery(path + "?" + query) == (path, Some(query))
  {
    var file := path + "?" + query;
    Strings.LastIndexOfBeforeSuffix(path, '?', query);
    assert file[..|path|] == path;
    assert file[|path| + 1..] == query;
  }

  /** A file made of a path, `?` and a query without `?`, and no `#`, rebuilds into exactly those parts. */
  lemma FromPartsWithQuery(protocol: string, host: string, port: int, path: string, query: string)
    requires '#' !in path && '#' !in query && '?' !in query
    ensures FromParts(protocol, host, port, path + "?" + query) == Url(protocol, host, port, path, Some(query), None)
  {
    assert '#' !in path + "?" + query;
    SplitQueryAt(path, query);
  }

  /** A URL without a query gets `?` and the query; its path stays as it was. */
  lemma ConcatenateWithoutQuery(u: Url, query: string)
    requires Valid(u) && u.query.None?
    requires '#' !in query && '?' !in query
    ensures ConcatenateUrl(u, query) == u.(query := Some(query), fragment := None)
  {
    assert File(u) + Separator(u) + query == u.path + "?" + query;
    FromPartsWithQuery(u.protocol, u.host, u.port, u.path, query);
  }

  /** A URL with a non-empty query gets `&` and the query appended to its query. */
  lemma ConcatenateWithQuery(u: Url, query: string)
    requires Valid(u) && u.query.Some? && u.query.value != []
    requires '?' !in u.query.value && '#' !in query && '?' !in query
    ensures ConcatenateUrl(u, query) == u.(query := Some(u.query.value + "&" + query), fragment := None)
  {
    var joined := u.query.value + "&" + query;
    assert File(u) + Separator(u) + query == u.path + "?" + joined;
    assert '?' !in joined && '#' !in joined;
    FromPartsWithQuery(u.protocol, u.host, u.port, u.path, joined);
  }

  /**
   * A URL that ends in an empty `?` gets a second `?`: the old `?` moves into the path and the
   * query is the new one alone.
   */
  lemma ConcatenateEmptyQuery(u: Url, query: string)
    requires Valid(u) && u.query == Some("")
    requires '#' !in query && '?' !in query
    ensures File(ConcatenateUrl(u, query)) == u.path + "??" + query
    ensures ConcatenateUrl(u, query) == u.(path := u.path + "?", query := Some(query), fragment := None)
  {
    var p := u.path + "?";
    assert File(u) + Separator(u) + query == p + "?" + query;
    assert p + "?" + query == u.path + "??" + query;
    assert '#' !in p;
    FromPartsWithQuery(u.protocol, u.host, u.port, p, query);
  }
}
