/** The element tree the MediaRSS handlers read, as the tree walker presents
    it: a namespace and tag, the attributes in document order, the children
    as a sequence of decode results, and the two ways of collecting text.
    The walker itself (tokenizing, lazy iteration) is not part of this model:
    its outcomes are fields of the element. */
module Xml {
  import opened Results

  /** The namespaces the walker recognises; only MediaRSS matters here. */
  datatype NS = MediaRss | OtherNs(uri: string)

  datatype Attribute = Attribute(name: string, value: string)

  /** One element.
      - `children`: what iterating `children()` yields, in document order;
        an `Err` entry is a child the walker failed to decode.
      - `text`: the outcome of `child_as_text` (the element's text, if any).
      - `inner`: the outcome of `children_as_string` (the serialized
        content, markup included, if any). */
  datatype Element = Element(
    ns: Option<NS>,
    tag: string,
    attrs: seq<Attribute>,
    children: seq<Result<Element>>,
    text: Result<Option<string>>,
    inner: Result<Option<string>>)
  {
    /** `ns_and_tag().0 == Some(NS::MediaRSS)` */
    predicate InMediaRss() {
      ns == Some(MediaRss)
    }

    /** `ns_and_tag() == (Some(NS::MediaRSS), tag)` */
    predicate IsMedia(name: string) {
      InMediaRss() && tag == name
    }
  }
}
