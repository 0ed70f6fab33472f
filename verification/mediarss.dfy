/** The MediaRSS element handlers: the group entry point, the dispatcher that
    routes one element by namespace and tag, and the leaf handlers for
    content, thumbnails, captions, credits, community ratings and
    titles/descriptions.

    The accumulator is threaded functionally: every handler that fills a
    media object takes it and returns the new one, and an `Err` discards the
    partially filled object exactly as Rust's `?` abandons it. */
module MediaRss {
  import opened Results
  import opened Numbers
  import opened Npt
  import opened Xml
  import opened Attrs
  import opened Media

  /** The value parsers the decoder borrows from other crates:
      `str::parse::<Mime>` and `str::parse::<f64>`. */
  datatype Parsers = Parsers(mime: string -> Option<Mime>, float: string -> Option<real>)

  /** `if_ok_then_some(parsed, |v| field = v)` and `if_some_then(parsed, |v|
      field = Some(v))`: a parsed value replaces the field, a failed parse
      leaves it as it was. */
  function IfParsed<T>(parsed: Option<T>, field: Option<T>): Option<T> {
    if parsed.Some? then parsed else field
  }

  /** Every list of the accumulator only grows at its end. */
  ghost predicate Extends(a: MediaObject, b: MediaObject) {
    && a.thumbnails <= b.thumbnails
    && a.credits <= b.credits
    && a.texts <= b.texts
  }

  // ---------------------------------------------------------------------
  // The dispatcher and its recursion through media:content

  /** `handle_media_group`: a fresh media object, filled from the MediaRSS
      children in document order; never `None`. */
  function HandleMediaGroup(env: Parsers, e: Element): (r: Result<Option<MediaObject>>)
    ensures r.Ok? ==> r.value.Some?
  {
    var obj :- DispatchChildren(env, e, 0, NewMediaObject);
    Ok(Some(obj))
  }

  /** `handle_media_element`: route one element by (namespace, tag). */
  function HandleMediaElement(env: Parsers, e: Element, obj: MediaObject): (r: Result<MediaObject>)
    ensures r.Ok? ==> Extends(obj, r.value)
    decreases e, 2, 0
  {
    if !e.InMediaRss() then Ok(obj)
    else if e.tag == "title" then
      var t :- HandleText(e);
      Ok(obj.(title := t))
    else if e.tag == "content" then
      HandleMediaContent(env, e, obj)
    else if e.tag == "thumbnail" then
      Ok(obj.(thumbnails := obj.thumbnails + OptionToSeq(HandleMediaThumbnail(e))))
    else if e.tag == "description" then
      var t :- HandleText(e);
      Ok(obj.(description := t))
    else if e.tag == "community" then
      var c :- HandleMediaCommunity(env, e);
      Ok(obj.(community := c))
    else if e.tag == "credit" then
      var c :- HandleMediaCredit(e);
      Ok(obj.(credits := obj.credits + OptionToSeq(c)))
    else if e.tag == "text" then
      var t :- HandleMediaText(e);
      Ok(obj.(texts := obj.texts + OptionToSeq(t)))
    else
      Ok(obj)
  }

  /** `if_some_then(x, |v| list.push(v))`: what a push appends. */
  function OptionToSeq<T>(x: Option<T>): (s: seq<T>)
    ensures |s| <= 1
    ensures x.Some? ==> s == [x.value]
    ensures x.None? ==> s == []
  {
    if x.Some? then [x.value] else []
  }

  /** The loop `for child in element.children() { let child = child?; if
      child is MediaRSS { handle_media_element(child, media_obj)? } }`,
      from the child at index `i` on. */
  function DispatchChildren(env: Parsers, e: Element, i: nat, obj: MediaObject): (r: Result<MediaObject>)
    requires i <= |e.children|
    ensures r.Ok? ==> Extends(obj, r.value)
    decreases e, 0, |e.children| - i
  {
    if i == |e.children| then Ok(obj)
    else
      var child :- e.children[i];
      var obj' :- if child.InMediaRss() then HandleMediaElement(env, child, obj) else Ok(obj);
      DispatchChildren(env, e, i + 1, obj')
  }

  /** `handle_media_content`: without a `url` attribute the element is
      dropped; otherwise its MediaRSS children are dispatched into the same
      object first, and then its own record becomes the object's content. */
  function HandleMediaContent(env: Parsers, e: Element, obj: MediaObject): (r: Result<MediaObject>)
    ensures r.Ok? ==> Extends(obj, r.value)
    ensures r.Ok? && r.value != obj ==> r.value.content == Some(ContentAttrs(env, e.attrs))
    decreases e, 1, 0
  {
    var content := ContentAttrs(env, e.attrs);
    if content.url.None? then Ok(obj)
    else
      var obj' :- DispatchChildren(env, e, 0, obj);
      Ok(obj'.(content := Some(content)))
  }

  // ---------------------------------------------------------------------
  // media:content attributes

  /** One pass of the attribute loop of `handle_media_content`. */
  function ContentStep(env: Parsers, c: MediaContent, a: Attribute): MediaContent {
    if a.name == "url" then c.(url := Some(a.value))
    else if a.name == "type" then c.(contentType := IfParsed(env.mime(a.value), c.contentType))
    else if a.name == "width" then c.(width := IfParsed(ParseU32(a.value), c.width))
    else if a.name == "height" then c.(height := IfParsed(ParseU32(a.value), c.height))
    else c
  }

  function ContentStepOf(env: Parsers): (MediaContent, Attribute) -> MediaContent {
    (c, a) => ContentStep(env, c, a)
  }

  /** The record the attribute loop builds, starting from `MediaContent::new()`. */
  function ContentAttrs(env: Parsers, attrs: seq<Attribute>): MediaContent {
    FoldAttrs(attrs, NoContent, ContentStepOf(env))
  }

  // ---------------------------------------------------------------------
  // media:thumbnail

  /** The locals `url`, `width`, `height`, `time` of `handle_media_thumbnail`. */
  datatype ThumbnailAttrs = ThumbnailAttrs(url: Option<string>, width: Option<nat>, height: Option<nat>, time: Option<Millis>)

  function ThumbnailStep(t: ThumbnailAttrs, a: Attribute): ThumbnailAttrs {
    if a.name == "url" then t.(url := Some(a.value))
    else if a.name == "width" then t.(width := IfParsed(ParseU32(a.value), t.width))
    else if a.name == "height" then t.(height := IfParsed(ParseU32(a.value), t.height))
    else if a.name == "time" then t.(time := IfParsed(ParseNpt(a.value), t.time))
    else t
  }

  function ThumbnailAttrsOf(attrs: seq<Attribute>): ThumbnailAttrs {
    FoldAttrs(attrs, ThumbnailAttrs(None, None, None, None), ThumbnailStep)
  }

  /** `handle_media_thumbnail`: a thumbnail when a `url` attribute is present.
      The source's result is never an error, so the model's has no error case. */
  function HandleMediaThumbnail(e: Element): Option<MediaThumbnail> {
    var t := ThumbnailAttrsOf(e.attrs);
    if t.url.Some? then Some(MediaThumbnail(Image(t.url.value, t.width, t.height), t.time))
    else None
  }

  // ---------------------------------------------------------------------
  // media:text

  /** The locals `start_time`, `end_time`, `mime` of `handle_media_text`. */
  datatype CaptionAttrs = CaptionAttrs(start: Option<Millis>, end: Option<Millis>, mime: Option<Mime>)

  /** The `type` arm of `handle_media_text`: any other value clears the type. */
  function CaptionMime(v: string): (m: Option<Mime>)
    ensures m.Some? <==> v == "plain" || v == "html"
    ensures m == Some(TextHtml) <==> v == "html"
  {
    if v == "plain" then Some(TextPlain)
    else if v == "html" then Some(TextHtml)
    else None
  }

  function CaptionStep(c: CaptionAttrs, a: Attribute): CaptionAttrs {
    if a.name == "start" then c.(start := IfParsed(ParseNpt(a.value), c.start))
    else if a.name == "end" then c.(end := IfParsed(ParseNpt(a.value), c.end))
    else if a.name == "type" then c.(mime := CaptionMime(a.value))
    else c
  }

  function CaptionAttrsOf(attrs: seq<Attribute>): CaptionAttrs {
    FoldAttrs(attrs, CaptionAttrs(None, None, None), CaptionStep)
  }

  /** `handle_media_text`: a caption when the element has text; plain text
      unless the type says otherwise. */
  function HandleMediaText(e: Element): (r: Result<Option<MediaText>>)
    ensures r.Ok? <==> e.text.Ok?
    ensures r.Ok? ==> (r.value.Some? <==> e.text.value.Some?)
  {
    var c := CaptionAttrsOf(e.attrs);
    var text :- e.text;
    Ok(if text.Some? then Some(MediaText(Text(text.value, c.mime.GetOr(TextPlain)), c.start, c.end)) else None)
  }

  // ---------------------------------------------------------------------
  // media:credit

  /** `handle_media_credit`: a credit naming the element's text, if it has any. */
  function HandleMediaCredit(e: Element): (r: Result<Option<MediaCredit>>)
    ensures r.Ok? <==> e.text.Ok?
    ensures r.Ok? ==> r.value == if e.text.value.Some? then Some(MediaCredit(e.text.value.value)) else None
    ensures r.Err? ==> r.error == e.text.error
  {
    var text :- e.text;
    Ok(if text.Some? then Some(MediaCredit(text.value)) else None)
  }

  // ---------------------------------------------------------------------
  // media:title, media:description

  /** The MIME type `handle_text` accepts for a `type` value. */
  function TitleMime(v: string): (r: Result<Mime>)
    ensures r.Ok? <==> v == "plain" || v == "html"
    ensures r == Ok(TextHtml) <==> v == "html"
    ensures r.Err? ==> r.error == UnknownMimeType(v)
  {
    if v == "plain" then Ok(TextPlain)
    else if v == "html" then Ok(TextHtml)
    else Err(UnknownMimeType(v))
  }

  /** `handle_text`: strict where the other handlers are lenient. */
  function HandleText(e: Element): (r: Result<Option<Text>>)
    ensures r.Ok? ==> r.value.Some? && e.inner == Ok(Some(r.value.value.content))
  {
    var mime :- TitleMime(FirstValue(e.attrs, "type").GetOr("plain"));
    var inner :- e.inner;
    if inner.Some? then Ok(Some(Text(inner.value, mime)))
    else Err(MissingContent("text"))
  }

  // ---------------------------------------------------------------------
  // media:community

  /** One pass of the attribute loop over a `starRating` child. */
  function StarRatingStep(env: Parsers, c: MediaCommunity, a: Attribute): MediaCommunity {
    if a.name == "average" then c.(starsAvg := IfParsed(env.float(a.value), c.starsAvg))
    else if a.name == "count" then c.(starsCount := IfParsed(ParseU64(a.value), c.starsCount))
    else if a.name == "min" then c.(starsMin := IfParsed(ParseU64(a.value), c.starsMin))
    else if a.name == "max" then c.(starsMax := IfParsed(ParseU64(a.value), c.starsMax))
    else c
  }

  function StarRatingStepOf(env: Parsers): (MediaCommunity, Attribute) -> MediaCommunity {
    (c, a) => StarRatingStep(env, c, a)
  }

  /** One pass of the attribute loop over a `statistics` child. */
  function StatisticsStep(c: MediaCommunity, a: Attribute): MediaCommunity {
    if a.name == "views" then c.(statsViews := IfParsed(ParseU64(a.value), c.statsViews))
    else if a.name == "favorites" then c.(statsFavorites := IfParsed(ParseU64(a.value), c.statsFavorites))
    else c
  }

  /** One decoded child of `media:community`. */
  function CommunityChild(env: Parsers, c: MediaCommunity, child: Element): MediaCommunity {
    if child.IsMedia("starRating") then FoldAttrs(child.attrs, c, StarRatingStepOf(env))
    else if child.IsMedia("statistics") then FoldAttrs(child.attrs, c, StatisticsStep)
    else c
  }

  /** The child loop of `handle_media_community`; a child the walker fails
      to decode aborts it. */
  function CommunityChildren(env: Parsers, children: seq<Result<Element>>, c: MediaCommunity): (r: Result<MediaCommunity>)
    ensures r.Err? <==> exists i :: 0 <= i < |children| && children[i].Err?
    decreases |children|
  {
    if |children| == 0 then Ok(c)
    else
      var child :- children[0];
      var r := CommunityChildren(env, children[1..], CommunityChild(env, c, child));
      assert forall i :: 1 <= i < |children| ==> children[1..][i - 1] == children[i];
      r
  }

  /** `handle_media_community` */
  function HandleMediaCommunity(env: Parsers, e: Element): (r: Result<Option<MediaCommunity>>)
    ensures r.Ok? <==> forall i :: 0 <= i < |e.children| ==> e.children[i].Ok?
    ensures r.Ok? ==> r.value.Some?
  {
    var c :- CommunityChildren(env, e.children, NoCommunity);
    Ok(Some(c))
  }
}
