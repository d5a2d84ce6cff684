/**
 * The collaborators the core of wcsm calls but does not implement: URL parsing and
 * joining, hashing, image sniffing, base64, the HTML parser and serialiser, and the
 * network. Each library is an opaque function; the network is an oracle from a URL
 * to the reply it gives at the moment of the call.
 */
module Env {
  import opened Wrappers

  /** The components of `urlparse.urlparse(uri)` that the core reads. */
  datatype UrlParts = UrlParts(scheme: string, netloc: string, path: string, query: string)

  /**
   * One element of a parsed page, in document order: its tag name, its attributes and
   * the text its `.string` holds.
   */
  datatype Element = Element(name: string, attrs: map<string, string>, body: string)

  /** What `PoolManager.request('GET', url)` gives back: the status and the body bytes. */
  datatype Response = Response(status: int, data: string)

  /** The network at the moment of one grab cycle. */
  type Net = string -> Response

  /** The library functions the core calls. */
  datatype Lib = Lib(
    parse: string -> UrlParts,            // urlparse.urlparse
    join: (string, string) -> string,     // urlparse.urljoin(base, ref)
    md5: string -> string,                // hashlib.md5(s).hexdigest()
    sniff: string -> Option<string>,      // imghdr.what: the image type, or None
    base64: string -> string,             // base64.b64encode
    parseHtml: string -> seq<Element>,    // BeautifulSoup(data): the elements in document order
    render: seq<Element> -> string)       // str(soup)
}
