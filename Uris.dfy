/**
 * The parts of System.Uri the core reads, and the combining constructor
 * `new Uri(baseUri, relativeUri)` as the reference resolution of section
 * 5.2.2 of RFC 3986 (without the dot-segment removal of section 5.2.4).
 * Parsing a string into a URI is foreign code: callers receive it as a
 * function `UriParser`.
 */
module Uris {
  import opened Wrappers
  import opened Text

  /** Host and port; `isDefaultPort` is Uri.IsDefaultPort (the port is the scheme's own). */
  datatype Authority = Authority(host: string, port: nat, isDefaultPort: bool)

  /**
   * An absolute URI: the scheme in lower case, the authority, the local path
   * (Uri.LocalPath) and the query as Uri.Query gives it: "" or "?" followed
   * by the query text.
   */
  datatype Uri = Uri(scheme: string, authority: Authority, localPath: string, query: string)

  /** A relative reference: an optional network-path authority, a path and a query as above. */
  datatype RelativeReference = RelativeReference(authority: Option<Authority>, path: string, query: string)

  /** What Uri.TryCreate(text, UriKind.RelativeOrAbsolute) yields when it succeeds. */
  datatype UriReference = Absolute(uri: Uri) | Relative(reference: RelativeReference)

  /** Uri.TryCreate: `None` when the text is not a URI reference at all. */
  type UriParser = string -> Option<UriReference>

  /**
   * The merge step of section 5.2.3 of RFC 3986: the reference path goes
   * after the last "/" of the base path, or after "/" when the base path is empty.
   */
  function Merge(basePath: string, path: string): string {
    if basePath == [] then "/" + path else basePath[..AfterLast(basePath, '/')] + path
  }

  /**
   * `new Uri(baseUri, reference)`, following section 5.2.2 of RFC 3986 for
   * a reference without a scheme: a network-path reference replaces the
   * authority, an absolute path replaces the path, an empty path keeps the
   * base path (and its query when the reference has none), and any other
   * path is merged with the base path. "." and ".." segments are kept as
   * they are, and fragments are not represented.
   */
  function Resolve(baseUri: Uri, r: RelativeReference): (t: Uri)
    ensures t.scheme == baseUri.scheme
    ensures r.authority.None? ==> t.authority == baseUri.authority
    ensures r.authority.Some? ==> t.authority == r.authority.value && t.localPath == r.path
    ensures r.path != [] || r.query != [] ==> t.query == r.query
    ensures r.authority.None? && r.path != [] && r.path[0] == '/' ==> t.localPath == r.path
    ensures r.authority.None? && r.path != [] && r.path[0] != '/' ==> EndsWith(t.localPath, r.path)
    ensures r.authority.None? && r.path == [] ==>
      t.localPath == baseUri.localPath && (r.query == [] ==> t.query == baseUri.query)
  {
    if r.authority.Some? then
      Uri(baseUri.scheme, r.authority.value, r.path, r.query)
    else if r.path == [] then
      Uri(baseUri.scheme, baseUri.authority, baseUri.localPath, if r.query != [] then r.query else baseUri.query)
    else if r.path[0] == '/' then
      Uri(baseUri.scheme, baseUri.authority, r.path, r.query)
    else
      Uri(baseUri.scheme, baseUri.authority, Merge(baseUri.localPath, r.path), r.query)
  }
}
