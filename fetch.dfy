/**
  The outside world as the scraper observes it: HTTP responses, files that cannot be written,
  and URL resolution. Each is given, not computed.
*/
module Fetch {
  import opened Html

  /** An absolute URL and its path component, as `urlparse(url).path` gives it. */
  datatype Url = Url(text: string, path: string)

  /** A response to `requests.get`: its status code and the page its body parses to. */
  datatype Response = Response(status: int, page: Page)

  /**
    - responses: what `requests.get(url)` returns; a URL without an entry makes it raise;
    - unwritable: file paths that `open(path, "wb")` or the write raises on;
    - resolve: `urljoin(base, reference)`, with the resulting URL's path component.
  */
  datatype Web = Web(responses: map<string, Response>, unwritable: set<string>, resolve: (string, string) -> Url)

  /** `requests.get(url)` returns and its status code is 200. */
  predicate Fetched(web: Web, url: string) {
    url in web.responses && web.responses[url].status == 200
  }
}
