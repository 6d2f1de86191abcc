/**
  What the scraper sees of a parsed HTML document. Parsing and serializing are done by
  BeautifulSoup and are not modelled; a document is given by the elements the program queries.
*/
module Html {
  import opened Options

  /** An `<a>` element inside the sidebar, with its `href` attribute when it has one. */
  datatype Anchor = Anchor(href: Option<string>)

  /**
    An element of the page: its tag name, the values of its multi-valued `rel` attribute, and
    its other attributes.
  */
  datatype Tag = Tag(name: string, rel: seq<string>, attrs: map<string, string>)

  /**
    A parsed page: the anchors of its `<nav id="sidebar">`, or None when it has no such element,
    and its elements in document order.
  */
  datatype Page = Page(sidebar: Option<seq<Anchor>>, tags: seq<Tag>)
}
