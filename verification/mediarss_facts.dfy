/** What the MediaRSS handlers produce, stated against reference definitions
    built from `LastParsed` / `LastValue` / `FirstValue` instead of the
    attribute loops, and what the dispatcher does to each field of the
    accumulator. */
module MediaRssFacts {
  import opened Results
  import opened Numbers
  import opened Npt
  import opened Xml
  import opened Attrs
  import opened Media
  import opened MediaRss

  // ---------------------------------------------------------------------
  // Reference definitions

  /** A media:content record: the last `url`, and the last `type`, `width`
      and `height` that parse. */
  ghost function ContentOf(env: Parsers, attrs: seq<Attribute>): MediaContent {
    MediaContent(
      LastValue(attrs, "url"),
      LastParsed(attrs, "type", env.mime),
      LastParsed(attrs, "width", ParseU32),
      LastParsed(attrs, "height", ParseU32))
  }

  /** A thumbnail: the last `url`, and the last `width`, `height` and `time`
      that parse. */
  ghost function ThumbnailOf(attrs: seq<Attribute>): MediaThumbnail
    requires LastValue(attrs, "url").Some?
  {
    MediaThumbnail(
      Image(LastValue(attrs, "url").value, LastParsed(attrs, "width", ParseU32), LastParsed(attrs, "height", ParseU32)),
      LastParsed(attrs, "time", ParseNpt))
  }

  /** A caption's type: HTML exactly when the last `type` attribute says
      "html"; plain otherwise, whatever came before. */
  ghost function CaptionTypeOf(attrs: seq<Attribute>): Mime {
    if LastValue(attrs, "type") == Some("html") then TextHtml else TextPlain
  }

  /** A community record from the attributes of all `starRating` children
      (in document order) and of all `statistics` children. */
  ghost function CommunityOf(env: Parsers, stars: seq<Attribute>, stats: seq<Attribute>): MediaCommunity {
    MediaCommunity(
      LastParsed(stars, "average", env.float),
      LastParsed(stars, "count", ParseU64),
      LastParsed(stars, "min", ParseU64),
      LastParsed(stars, "max", ParseU64),
      LastParsed(stats, "views", ParseU64),
      LastParsed(stats, "favorites", ParseU64))
  }

  /** The attributes of a child when it is the MediaRSS element `tag`; none otherwise. */
  ghost function AttrsIfTagged(child: Element, tag: string): seq<Attribute> {
    if child.IsMedia(tag) then child.attrs else []
  }

  /** The attributes of the decoded MediaRSS children tagged `tag`, concatenated. */
  ghost function TaggedAttrs(children: seq<Result<Element>>, tag: string): seq<Attribute>
    decreases |children|
  {
    if |children| == 0 then []
    else if children[0].Err? then TaggedAttrs(children[1..], tag)
    else AttrsIfTagged(children[0].value, tag) + TaggedAttrs(children[1..], tag)
  }

  /** The tags the dispatcher acts on inside the MediaRSS namespace. */
  const DispatchedTags: set<string> := {"title", "content", "thumbnail", "description", "community", "credit", "text"}

  // ---------------------------------------------------------------------
  // The attribute loops against the reference definitions

  /** The media:content attribute loop keeps the last `url` and the last
      parsable `type`, `width`, `height`. */
  lemma {:induction false} ContentAttrsSpec(env: Parsers, attrs: seq<Attribute>)
    ensures ContentAttrs(env, attrs) == ContentOf(env, attrs)
    decreases |attrs|
  {
    if |attrs| > 0 {
      var a', x := attrs[..|attrs| - 1], attrs[|attrs| - 1];
      assert attrs == a' + [x];
      ContentAttrsSpec(env, a');
      LastParsedSnoc(a', x, "url", KeepValue);
      LastParsedSnoc(a', x, "type", env.mime);
      LastParsedSnoc(a', x, "width", ParseU32);
      LastParsedSnoc(a', x, "height", ParseU32);
    }
  }

  /** The media:thumbnail attribute loop keeps the last `url` and the last
      parsable `width`, `height`, `time`. */
  lemma {:induction false} ThumbnailAttrsSpec(attrs: seq<Attribute>)
    ensures ThumbnailAttrsOf(attrs) == ThumbnailAttrs(
      LastValue(attrs, "url"), LastParsed(attrs, "width", ParseU32),
      LastParsed(attrs, "height", ParseU32), LastParsed(attrs, "time", ParseNpt))
    decreases |attrs|
  {
    if |attrs| > 0 {
      var a', x := attrs[..|attrs| - 1], attrs[|attrs| - 1];
      assert attrs == a' + [x];
      ThumbnailAttrsSpec(a');
      LastParsedSnoc(a', x, "url", KeepValue);
      LastParsedSnoc(a', x, "width", ParseU32);
      LastParsedSnoc(a', x, "height", ParseU32);
      LastParsedSnoc(a', x, "time", ParseNpt);
    }
  }

  /** The media:text attribute loop keeps the last parsable `start` and
      `end`, and the type named by the last `type` attribute, even when that
      one is unknown and an earlier one was valid. */
  lemma {:induction false} CaptionAttrsSpec(attrs: seq<Attribute>)
    ensures CaptionAttrsOf(attrs) == CaptionAttrs(
      LastParsed(attrs, "start", ParseNpt), LastParsed(attrs, "end", ParseNpt),
      if LastValue(attrs, "type").Some? then CaptionMime(LastValue(attrs, "type").value) else None)
    decreases |attrs|
  {
    if |attrs| > 0 {
      var a', x := attrs[..|attrs| - 1], attrs[|attrs| - 1];
      assert attrs == a' + [x];
      CaptionAttrsSpec(a');
      LastParsedSnoc(a', x, "start", ParseNpt);
      LastParsedSnoc(a', x, "end", ParseNpt);
      LastParsedSnoc(a', x, "type", KeepValue);
    }
  }

  /** A `starRating` child's attributes extend the star attributes seen so far. */
  lemma {:induction false} StarRatingFold(env: Parsers, a: seq<Attribute>, stars: seq<Attribute>, stats: seq<Attribute>)
    ensures FoldAttrs(a, CommunityOf(env, stars, stats), StarRatingStepOf(env)) == CommunityOf(env, stars + a, stats)
    decreases |a|
  {
    if |a| == 0 {
      assert stars + a == stars;
    } else {
      var a', x := a[..|a| - 1], a[|a| - 1];
      assert stars + a == (stars + a') + [x];
      StarRatingFold(env, a', stars, stats);
      LastParsedSnoc(stars + a', x, "average", env.float);
      LastParsedSnoc(stars + a', x, "count", ParseU64);
      LastParsedSnoc(stars + a', x, "min", ParseU64);
      LastParsedSnoc(stars + a', x, "max", ParseU64);
    }
  }

  /** A `statistics` child's attributes extend the statistics attributes seen so far. */
  lemma {:induction false} StatisticsFold(env: Parsers, a: seq<Attribute>, stars: seq<Attribute>, stats: seq<Attribute>)
    ensures FoldAttrs(a, CommunityOf(env, stars, stats), StatisticsStep) == CommunityOf(env, stars, stats + a)
    decreases |a|
  {
    if |a| == 0 {
      assert stats + a == stats;
    } else {
      var a', x := a[..|a| - 1], a[|a| - 1];
      assert stats + a == (stats + a') + [x];
      StatisticsFold(env, a', stars, stats);
      LastParsedSnoc(stats + a', x, "views", ParseU64);
      LastParsedSnoc(stats + a', x, "favorites", ParseU64);
    }
  }

  /** One decoded child of media:community adds its attributes to the
      star or statistics attributes, according to its tag. */
  lemma CommunityChildSpec(env: Parsers, child: Element, stars: seq<Attribute>, stats: seq<Attribute>)
    ensures CommunityChild(env, CommunityOf(env, stars, stats), child)
         == CommunityOf(env, stars + AttrsIfTagged(child, "starRating"), stats + AttrsIfTagged(child, "statistics"))
  {
    if child.IsMedia("starRating") {
      StarRatingFold(env, child.attrs, stars, stats);
      assert stats + AttrsIfTagged(child, "statistics") == stats;
    } else if child.IsMedia("statistics") {
      StatisticsFold(env, child.attrs, stars, stats);
      assert stars + AttrsIfTagged(child, "starRating") == stars;
    } else {
      assert stars + AttrsIfTagged(child, "starRating") == stars;
      assert stats + AttrsIfTagged(child, "statistics") == stats;
    }
  }

  lemma ConcatAssoc<T>(a: seq<T>, b: seq<T>, c: seq<T>)
    ensures a + b + c == a + (b + c)
  {
  }

  /** The community child loop, when every child decodes: each field is the
      last parsable value of its attribute across all `starRating` (or
      `statistics`) children; other children and attributes are ignored. */
  lemma {:induction false} CommunityChildrenSpec(env: Parsers, children: seq<Result<Element>>, stars: seq<Attribute>, stats: seq<Attribute>)
    requires forall i :: 0 <= i < |children| ==> children[i].Ok?
    ensures CommunityChildren(env, children, CommunityOf(env, stars, stats))
         == Ok(CommunityOf(env, stars + TaggedAttrs(children, "starRating"), stats + TaggedAttrs(children, "statistics")))
    decreases |children|
  {
    if |children| == 0 {
      assert stars + [] == stars && stats + [] == stats;
    } else {
      var child, rest := children[0].value, children[1..];
      var sa, ta := AttrsIfTagged(child, "starRating"), AttrsIfTagged(child, "statistics");
      CommunityChildSpec(env, child, stars, stats);
      assert CommunityChildren(env, children, CommunityOf(env, stars, stats))
          == CommunityChildren(env, rest, CommunityOf(env, stars + sa, stats + ta));
      assert forall i :: 0 <= i < |rest| ==> rest[i] == children[i + 1];
      CommunityChildrenSpec(env, rest, stars + sa, stats + ta);
      assert TaggedAttrs(children, "starRating") == sa + TaggedAttrs(rest, "starRating");
      assert TaggedAttrs(children, "statistics") == ta + TaggedAttrs(rest, "statistics");
      ConcatAssoc(stars, sa, TaggedAttrs(rest, "starRating"));
      ConcatAssoc(stats, ta, TaggedAttrs(rest, "statistics"));
    }
  }

  /** The community child loop stops at the first child that fails to decode
      and reports its error. */
  lemma {:induction false} CommunityChildrenError(env: Parsers, children: seq<Result<Element>>, c: MediaCommunity, j: nat)
    requires j < |children| && children[j].Err?
    requires forall i :: 0 <= i < j ==> children[i].Ok?
    ensures CommunityChildren(env, children, c) == Err(children[j].error)
    decreases j
  {
    if j > 0 {
      CommunityChildrenError(env, children[1..], CommunityChild(env, c, children[0].value), j - 1);
    }
  }

  // ---------------------------------------------------------------------
  // The leaf handlers

  /** `handle_media_thumbnail` gives a thumbnail exactly when some attribute
      is named `url`; an unparsable `width`, `height` or `time` only leaves
      that field out. */
  lemma ThumbnailSpec(e: Element)
    ensures HandleMediaThumbnail(e).Some? <==> exists i :: 0 <= i < |e.attrs| && e.attrs[i].name == "url"
    ensures HandleMediaThumbnail(e).Some? ==> HandleMediaThumbnail(e).value == ThumbnailOf(e.attrs)
  {
    ThumbnailAttrsSpec(e.attrs);
  }

  /** `handle_media_text`: a caption exactly when the element has text; its
      type is HTML exactly when the last `type` says so; its times are the
      last parsable `start` and `end`. */
  lemma MediaTextSpec(e: Element)
    ensures e.text.Err? ==> HandleMediaText(e) == Err(e.text.error)
    ensures e.text == Ok(None) ==> HandleMediaText(e) == Ok(None)
    ensures e.text.Ok? && e.text.value.Some? ==> HandleMediaText(e) == Ok(Some(MediaText(
      Text(e.text.value.value, CaptionTypeOf(e.attrs)),
      LastParsed(e.attrs, "start", ParseNpt),
      LastParsed(e.attrs, "end", ParseNpt))))
  {
    CaptionAttrsSpec(e.attrs);
    var lv := LastValue(e.attrs, "type");
    assert (if lv.Some? then CaptionMime(lv.value) else None).GetOr(TextPlain) == CaptionTypeOf(e.attrs);
  }

  /** `handle_text` (titles and descriptions): the first `type` attribute
      decides, "plain" when there is none; an unknown type and missing
      content are errors, in that order; otherwise the serialized content. */
  lemma HandleTextSpec(e: Element)
    ensures (forall i :: 0 <= i < |e.attrs| ==> e.attrs[i].name != "type") && e.inner.Ok? && e.inner.value.Some? ==>
      HandleText(e) == Ok(Some(Text(e.inner.value.value, TextPlain)))
    ensures forall i ::
      (0 <= i < |e.attrs| && e.attrs[i].name == "type" && e.attrs[i].value !in {"plain", "html"} &&
       forall j :: 0 <= j < i ==> e.attrs[j].name != "type") ==>
        HandleText(e) == Err(UnknownMimeType(e.attrs[i].value))
    ensures FirstValue(e.attrs, "type").GetOr("plain") in {"plain", "html"} ==>
      HandleText(e) == match e.inner
        case Err(x) => Err(x)
        case Ok(None) => Err(MissingContent("text"))
        case Ok(Some(c)) => Ok(Some(Text(c, if FirstValue(e.attrs, "type") == Some("html") then TextHtml else TextPlain)))
  {
    forall i | 0 <= i < |e.attrs| && e.attrs[i].name == "type" && (forall j :: 0 <= j < i ==> e.attrs[j].name != "type")
      ensures FirstValue(e.attrs, "type") == Some(e.attrs[i].value)
    {
      FirstValueAt(e.attrs, "type", i);
    }
  }

  /** The first attribute of a name is the one no earlier attribute shares
      the name with. */
  lemma {:induction false} FirstValueAt(attrs: seq<Attribute>, name: string, i: nat)
    requires i < |attrs| && attrs[i].name == name
    requires forall j :: 0 <= j < i ==> attrs[j].name != name
    ensures FirstValue(attrs, name) == Some(attrs[i].value)
    decreases i
  {
    if i > 0 {
      FirstValueAt(attrs[1..], name, i - 1);
    }
  }

  /** `handle_media_community`, when every child decodes: the reference
      record, never `None`. */
  lemma CommunitySpec(env: Parsers, e: Element)
    requires forall i :: 0 <= i < |e.children| ==> e.children[i].Ok?
    ensures HandleMediaCommunity(env, e)
         == Ok(Some(CommunityOf(env, TaggedAttrs(e.children, "starRating"), TaggedAttrs(e.children, "statistics"))))
  {
    CommunityChildrenSpec(env, e.children, [], []);
    assert [] + TaggedAttrs(e.children, "starRating") == TaggedAttrs(e.children, "starRating");
    assert [] + TaggedAttrs(e.children, "statistics") == TaggedAttrs(e.children, "statistics");
  }

  /** `handle_media_community` otherwise: the first child's decode error. */
  lemma CommunityError(env: Parsers, e: Element, j: nat)
    requires j < |e.children| && e.children[j].Err?
    requires forall i :: 0 <= i < j ==> e.children[i].Ok?
    ensures HandleMediaCommunity(env, e) == Err(e.children[j].error)
  {
    CommunityChildrenError(env, e.children, NoCommunity, j);
  }
}
