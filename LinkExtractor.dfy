/**
 * Link extraction from a fetched document (LightGet/Logic/LinkExtractor.cs).
 * The HTML parser and its XPath queries are foreign code: the document
 * arrives as what the two queries return, and URI parsing as a `UriParser`.
 */
module LinkExtractor {
  import opened Wrappers
  import opened Uris
  import opened Text

  /**
   * The document as the extractor queries it: string(/html/head/base/@href),
   * which is "" when there is no base element, and the values of //a/@href
   * in document order.
   */
  datatype Document = Document(baseHref: string, hrefs: seq<string>)

  /** MediaTypeNames.Text.Html or the XHTML media type; anything else is not parsed. */
  predicate IsHtmlMediaType(mediaType: string) {
    mediaType == "text/html" || mediaType == "application/xhtml+xml"
  }

  /** Uri.UriSchemeHttp, Uri.UriSchemeHttps and Uri.UriSchemeFtp. */
  predicate IsFollowedScheme(scheme: string) {
    scheme == "http" || scheme == "https" || scheme == "ftp"
  }

  /** The URI relative hrefs are resolved against. */
  function ResolutionBase(documentUrl: Uri, baseHref: string, parse: UriParser): (b: Uri)
    ensures baseHref != [] && parse(baseHref).Some? && parse(baseHref).value.Absolute?
      ==> b == parse(baseHref).value.uri
    ensures baseHref == [] || parse(baseHref).None? || parse(baseHref).value.Relative?
      ==> b == documentUrl
  {
    if baseHref != [] && parse(baseHref).Some? && parse(baseHref).value.Absolute? then
      parse(baseHref).value.uri
    else
      documentUrl
  }

  /**
   * The link one href contributes: an absolute href as it is, a relative one
   * resolved against the base (and so followed exactly when the base's
   * scheme is), and none when it does not parse or its scheme is not followed.
   */
  function LinkOf(baseUri: Uri, href: string, parse: UriParser): (l: Option<Uri>)
    ensures l.Some? ==> IsFollowedScheme(l.value.scheme)
    ensures parse(href).None? ==> l.None?
    ensures parse(href).Some? && parse(href).value.Absolute? ==>
      (l.Some? <==> IsFollowedScheme(parse(href).value.uri.scheme)) && (l.Some? ==> l.value == parse(href).value.uri)
    ensures parse(href).Some? && parse(href).value.Relative? ==>
      (l.Some? <==> IsFollowedScheme(baseUri.scheme)) && (l.Some? ==> l.value == Resolve(baseUri, parse(href).value.reference))
  {
    match parse(href)
    case None => None
    case Some(reference) =>
      var uri := match reference
        case Absolute(u) => u
        case Relative(r) => Resolve(baseUri, r);
      if IsFollowedScheme(uri.scheme) then Some(uri) else None
  }

  /** The links one href contributes, as a list of zero or one. */
  function Contribution(baseUri: Uri, href: string, parse: UriParser): seq<Uri> {
    match LinkOf(baseUri, href, parse)
    case None => []
    case Some(u) => [u]
  }

  /** The links of a list of hrefs, in the order of the hrefs. */
  function Links(baseUri: Uri, hrefs: seq<string>, parse: UriParser): (links: seq<Uri>)
    ensures |links| <= |hrefs|
    ensures forall i :: 0 <= i < |links| ==> IsFollowedScheme(links[i].scheme)
  {
    if hrefs == [] then []
    else Links(baseUri, hrefs[..|hrefs| - 1], parse) + Contribution(baseUri, hrefs[|hrefs| - 1], parse)
  }

  /**
   * LinkExtractor.ExtractLinks: nothing for a document that is not HTML;
   * otherwise every href, in order, that parses and whose resolved scheme is
   * http, https or ftp.
   */
  method ExtractLinks(documentUrl: Uri, document: Document, mediaType: string, parse: UriParser)
    returns (links: seq<Uri>)
    ensures !IsHtmlMediaType(mediaType) ==> links == []
    ensures IsHtmlMediaType(mediaType) ==>
      links == Links(ResolutionBase(documentUrl, document.baseHref, parse), document.hrefs, parse)
    ensures |links| <= |document.hrefs|
    ensures forall i :: 0 <= i < |links| ==> IsFollowedScheme(links[i].scheme)
  {
    links := [];
    if mediaType != "text/html" && mediaType != "application/xhtml+xml" {
      return;
    }

    var absoluteUriBase := documentUrl;
    var baseHref := document.baseHref;
    if baseHref != [] {
      var parsedBase := parse(baseHref);
      if parsedBase.Some? && parsedBase.value.Absolute? {
        absoluteUriBase := parsedBase.value.uri;
      } else {
        absoluteUriBase := documentUrl;
      }
    }

    var hrefs := document.hrefs;
    for i := 0 to |hrefs|
      invariant links == Links(absoluteUriBase, hrefs[..i], parse)
    {
      assert hrefs[..i + 1][..i] == hrefs[..i];
      var parsed := parse(hrefs[i]);
      if parsed.None? {
        // a broken link
        assert Contribution(absoluteUriBase, hrefs[i], parse) == [];
        continue;
      }

      var uri: Uri;
      match parsed.value {
        case Absolute(u) => uri := u;
        case Relative(r) => uri := Resolve(absoluteUriBase, r);
      }

      if !IsFollowedScheme(uri.scheme) {
        assert Contribution(absoluteUriBase, hrefs[i], parse) == [];
        continue;
      }

      assert Contribution(absoluteUriBase, hrefs[i], parse) == [uri];
      links := links + [uri];
    }
    assert hrefs[..|hrefs|] == hrefs;
  }

  /** Links of a concatenation are the links of each part, in order: document order is kept. */
  lemma {:induction false} LinksAppend(baseUri: Uri, first: seq<string>, second: seq<string>, parse: UriParser)
    ensures Links(baseUri, first + second, parse) == Links(baseUri, first, parse) + Links(baseUri, second, parse)
  {
    if second == [] {
      assert first + second == first;
    } else {
      var init := second[..|second| - 1];
      var last := second[|second| - 1];
      var all := first + second;
      assert all[..|all| - 1] == first + init;
      assert all[|all| - 1] == last;
      LinksAppend(baseUri, first, init, parse);
      var c := Contribution(baseUri, last, parse);
      assert Links(baseUri, all, parse) == Links(baseUri, first + init, parse) + c;
      assert Links(baseUri, second, parse) == Links(baseUri, init, parse) + c;
    }
  }

  /** An href that does not parse is skipped, and the hrefs after it are still processed. */
  lemma BrokenHrefIsSkipped(baseUri: Uri, before: seq<string>, broken: string, after: seq<string>, parse: UriParser)
    requires parse(broken).None?
    ensures Links(baseUri, before + [broken] + after, parse) == Links(baseUri, before, parse) + Links(baseUri, after, parse)
  {
    var withBroken := before + [broken];
    LinksAppend(baseUri, withBroken, after, parse);
    assert withBroken[..|withBroken| - 1] == before;
    assert withBroken[|withBroken| - 1] == broken;
    assert Contribution(baseUri, broken, parse) == [];
    assert Links(baseUri, withBroken, parse) == Links(baseUri, before, parse) + [];
  }

  /** A URI is a link exactly when some href contributes it. */
  lemma {:induction false} LinksAreContributions(baseUri: Uri, hrefs: seq<string>, parse: UriParser, u: Uri)
    ensures u in Links(baseUri, hrefs, parse) <==> exists i :: 0 <= i < |hrefs| && LinkOf(baseUri, hrefs[i], parse) == Some(u)
  {
    if hrefs != [] {
      var init := hrefs[..|hrefs| - 1];
      LinksAreContributions(baseUri, init, parse, u);
      if u in Links(baseUri, hrefs, parse) && u !in Links(baseUri, init, parse) {
        assert LinkOf(baseUri, hrefs[|hrefs| - 1], parse) == Some(u);
      }
      if exists i :: 0 <= i < |hrefs| && LinkOf(baseUri, hrefs[i], parse) == Some(u) {
        var i :| 0 <= i < |hrefs| && LinkOf(baseUri, hrefs[i], parse) == Some(u);
        if i < |init| {
          assert init[i] == hrefs[i];
        }
      }
    }
  }

  /** The resolutions the extractor's tests pin down, and one through a base element. */
  lemma ResolutionExamples(parse: UriParser)
    requires parse("b") == Some(Relative(RelativeReference(None, "b", "")))
    requires parse("/b") == Some(Relative(RelativeReference(None, "/b", "")))
    requires parse("q") == Some(Relative(RelativeReference(None, "q", "")))
    requires parse("mailto:a@x.com") == Some(Absolute(Uri("mailto", Authority("", 0, true), "a@x.com", "")))
    ensures var xa := Uri("http", Authority("x.com", 80, true), "/a/", "");
      Links(xa, ["b", "/b", "mailto:a@x.com"], parse)
        == [Uri("http", Authority("x.com", 80, true), "/a/b", ""), Uri("http", Authority("x.com", 80, true), "/b", "")]
    ensures var yp := Uri("http", Authority("y.com", 80, true), "/p/", "");
      Links(yp, ["q"], parse) == [Uri("http", Authority("y.com", 80, true), "/p/q", "")]
  {
    var xa := Uri("http", Authority("x.com", 80, true), "/a/", "");
    var hs := ["b", "/b", "mailto:a@x.com"];
    XaLinks(xa, parse);
    assert hs[..2] == ["b", "/b"] && hs[2] == "mailto:a@x.com";
    assert ["b", "/b"][..1] == ["b"] && ["b"][..0] == [];
    var yp := Uri("http", Authority("y.com", 80, true), "/p/", "");
    QExample(yp, parse);
  }

  /** Each href of the test against a base whose path is "/a/". */
  lemma XaLinks(xa: Uri, parse: UriParser)
    requires xa == Uri("http", Authority("x.com", 80, true), "/a/", "")
    requires parse("b") == Some(Relative(RelativeReference(None, "b", "")))
    requires parse("/b") == Some(Relative(RelativeReference(None, "/b", "")))
    requires parse("mailto:a@x.com") == Some(Absolute(Uri("mailto", Authority("", 0, true), "a@x.com", "")))
    ensures LinkOf(xa, "b", parse) == Some(Uri("http", Authority("x.com", 80, true), "/a/b", ""))
    ensures LinkOf(xa, "/b", parse) == Some(Uri("http", Authority("x.com", 80, true), "/b", ""))
    ensures LinkOf(xa, "mailto:a@x.com", parse) == None
  {
    assert AfterLast("/a/", '/') == 3;
    assert Merge("/a/", "b") == "/a/b";
  }

  /** "q" against a base whose path is "/p/". */
  lemma QExample(yp: Uri, parse: UriParser)
    requires yp == Uri("http", Authority("y.com", 80, true), "/p/", "")
    requires parse("q") == Some(Relative(RelativeReference(None, "q", "")))
    ensures Links(yp, ["q"], parse) == [Uri("http", Authority("y.com", 80, true), "/p/q", "")]
  {
    assert AfterLast("/p/", '/') == 3;
    assert Merge("/p/", "q") == "/p/q";
    assert LinkOf(yp, "q", parse) == Some(Uri("http", Authority("y.com", 80, true), "/p/q", ""));
    assert ["q"][..0] == [];
  }

  /** A base element that names an absolute URI wins over the document's own URL. */
  lemma BaseElementExample(parse: UriParser)
    requires parse("http://y.com/p/") == Some(Absolute(Uri("http", Authority("y.com", 80, true), "/p/", "")))
    requires parse("q") == Some(Relative(RelativeReference(None, "q", "")))
    ensures var page := Uri("http", Authority("x.com", 80, true), "/a", "");
      Links(ResolutionBase(page, "http://y.com/p/", parse), ["q"], parse)
        == [Uri("http", Authority("y.com", 80, true), "/p/q", "")]
  {
    var page := Uri("http", Authority("x.com", 80, true), "/a", "");
    QExample(ResolutionBase(page, "http://y.com/p/", parse), parse);
  }
}
