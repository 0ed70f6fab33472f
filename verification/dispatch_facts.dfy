/** What one dispatched element does to the media object, field by field,
    and how the child loops of `handle_media_group` / `handle_media_content`
    treat foreign children and decode failures. */
module DispatchFacts {
  import opened Results
  import opened Npt
  import opened Xml
  import opened Attrs
  import opened Media
  import opened MediaRss
  import opened MediaRssFacts

  /** An element outside MediaRSS, or with a tag the dispatcher does not
      know, leaves the object as it is. */
  lemma ElementIgnored(env: Parsers, e: Element, obj: MediaObject)
    requires !e.InMediaRss() || e.tag !in DispatchedTags
    ensures HandleMediaElement(env, e, obj) == Ok(obj)
  {
  }

  /** `title`, `description` and `community` replace their field (the last
      one wins) and touch nothing else; their handlers' errors propagate. */
  lemma ElementOverwrites(env: Parsers, e: Element, obj: MediaObject)
    ensures e.IsMedia("title") ==>
      HandleMediaElement(env, e, obj)
        == if HandleText(e).Ok? then Ok(obj.(title := HandleText(e).value)) else Err(HandleText(e).error)
    ensures e.IsMedia("description") ==>
      HandleMediaElement(env, e, obj)
        == if HandleText(e).Ok? then Ok(obj.(description := HandleText(e).value)) else Err(HandleText(e).error)
    ensures e.IsMedia("community") ==>
      HandleMediaElement(env, e, obj)
        == if HandleMediaCommunity(env, e).Ok? then Ok(obj.(community := HandleMediaCommunity(env, e).value))
           else Err(HandleMediaCommunity(env, e).error)
  {
  }

  /** `thumbnail` appends one thumbnail when the element has a `url`
      attribute, and otherwise leaves the object as it is; it never fails. */
  lemma ThumbnailElement(env: Parsers, e: Element, obj: MediaObject)
    requires e.IsMedia("thumbnail")
    ensures LastValue(e.attrs, "url").Some? ==>
      HandleMediaElement(env, e, obj) == Ok(obj.(thumbnails := obj.thumbnails + [ThumbnailOf(e.attrs)]))
    ensures LastValue(e.attrs, "url").None? ==> HandleMediaElement(env, e, obj) == Ok(obj)
  {
    ThumbnailSpec(e);
    assert obj.(thumbnails := obj.thumbnails + []) == obj;
  }

  /** `credit` appends a credit when the element has text, leaves the object
      as it is when it has none, and fails when collecting the text fails. */
  lemma CreditElement(env: Parsers, e: Element, obj: MediaObject)
    requires e.IsMedia("credit")
    ensures e.text.Err? ==> HandleMediaElement(env, e, obj) == Err(e.text.error)
    ensures e.text == Ok(None) ==> HandleMediaElement(env, e, obj) == Ok(obj)
    ensures e.text.Ok? && e.text.value.Some? ==>
      HandleMediaElement(env, e, obj) == Ok(obj.(credits := obj.credits + [MediaCredit(e.text.value.value)]))
  {
    assert obj.(credits := obj.credits + []) == obj;
  }

  /** `text` appends a caption when the element has text, leaves the object
      as it is when it has none, and fails when collecting the text fails. */
  lemma TextElement(env: Parsers, e: Element, obj: MediaObject)
    requires e.IsMedia("text")
    ensures e.text.Err? ==> HandleMediaElement(env, e, obj) == Err(e.text.error)
    ensures e.text == Ok(None) ==> HandleMediaElement(env, e, obj) == Ok(obj)
    ensures e.text.Ok? && e.text.value.Some? ==>
      HandleMediaElement(env, e, obj) == Ok(obj.(texts := obj.texts + [MediaText(
        Text(e.text.value.value, CaptionTypeOf(e.attrs)),
        LastParsed(e.attrs, "start", ParseNpt),
        LastParsed(e.attrs, "end", ParseNpt))]))
  {
    MediaTextSpec(e);
    assert obj.(texts := obj.texts + []) == obj;
  }

  /** `content` without a `url` attribute is dropped: the object is
      unchanged and the children, even undecodable ones, are never read. */
  lemma ContentWithoutUrl(env: Parsers, e: Element, obj: MediaObject)
    requires e.IsMedia("content")
    requires forall i :: 0 <= i < |e.attrs| ==> e.attrs[i].name != "url"
    ensures HandleMediaElement(env, e, obj) == Ok(obj)
  {
    ContentAttrsSpec(env, e.attrs);
  }

  /** `content` with a `url`: the nested MediaRSS children are dispatched
      into the same object first, then this element's record (with the last
      `url`) replaces whatever content they set. */
  lemma ContentWithUrl(env: Parsers, e: Element, obj: MediaObject)
    requires e.IsMedia("content")
    requires exists i :: 0 <= i < |e.attrs| && e.attrs[i].name == "url"
    ensures HandleMediaElement(env, e, obj)
         == match DispatchChildren(env, e, 0, obj)
            case Ok(o) => Ok(o.(content := Some(ContentOf(env, e.attrs))))
            case Err(x) => Err(x)
  {
    ContentAttrsSpec(env, e.attrs);
  }

  /** A child the tree walker fails to decode aborts the child loop, whatever
      came before it. */
  lemma {:induction false} DispatchAborts(env: Parsers, e: Element, i: nat, obj: MediaObject, j: nat)
    requires i <= j < |e.children| && e.children[j].Err?
    ensures DispatchChildren(env, e, i, obj).Err?
    decreases j - i
  {
    if i < j && e.children[i].Ok? {
      var child := e.children[i].value;
      var r := if child.InMediaRss() then HandleMediaElement(env, child, obj) else Ok(obj);
      if r.Ok? {
        DispatchAborts(env, e, i + 1, r.value, j);
      }
    }
  }

  /** Children outside MediaRSS are skipped. */
  lemma {:induction false} DispatchSkipsForeign(env: Parsers, e: Element, i: nat, obj: MediaObject)
    requires i <= |e.children|
    requires forall k :: i <= k < |e.children| ==> e.children[k].Ok? && !e.children[k].value.InMediaRss()
    ensures DispatchChildren(env, e, i, obj) == Ok(obj)
    decreases |e.children| - i
  {
    if i < |e.children| {
      DispatchSkipsForeign(env, e, i + 1, obj);
    }
  }

  /** `handle_media_group` fails whenever one of its children cannot be
      decoded. */
  lemma GroupAborts(env: Parsers, e: Element, j: nat)
    requires j < |e.children| && e.children[j].Err?
    ensures HandleMediaGroup(env, e).Err?
  {
    DispatchAborts(env, e, 0, NewMediaObject, j);
  }

  /** A group with no MediaRSS children yields an empty media object, not
      `None`. */
  lemma GroupOfForeign(env: Parsers, e: Element)
    requires forall k :: 0 <= k < |e.children| ==> e.children[k].Ok? && !e.children[k].value.InMediaRss()
    ensures HandleMediaGroup(env, e) == Ok(Some(NewMediaObject))
  {
    DispatchSkipsForeign(env, e, 0, NewMediaObject);
  }

  /** The thumbnail one child contributes: one for a decodable MediaRSS
      `thumbnail` element with a `url`, none otherwise. */
  ghost function ChildThumbnails(c: Result<Element>): seq<MediaThumbnail> {
    if c.Ok? && c.value.IsMedia("thumbnail") && LastValue(c.value.attrs, "url").Some?
    then [ThumbnailOf(c.value.attrs)] else []
  }

  /** The thumbnails a run of children contributes, in document order. */
  ghost function ThumbnailsIn(children: seq<Result<Element>>): seq<MediaThumbnail>
    decreases |children|
  {
    if |children| == 0 then [] else ChildThumbnails(children[0]) + ThumbnailsIn(children[1..])
  }

  /** One step of the child loop over a `thumbnail` child. */
  lemma DispatchThumbnailStep(env: Parsers, e: Element, i: nat, obj: MediaObject)
    requires i < |e.children| && e.children[i].Ok? && e.children[i].value.IsMedia("thumbnail")
    ensures DispatchChildren(env, e, i, obj)
         == DispatchChildren(env, e, i + 1, obj.(thumbnails := obj.thumbnails + ChildThumbnails(e.children[i])))
  {
    ThumbnailElement(env, e.children[i].value, obj);
    assert obj.(thumbnails := obj.thumbnails + []) == obj;
  }

  /** Thumbnail children are appended in document order, each exactly once,
      and nothing else changes. */
  lemma {:induction false} DispatchThumbnails(env: Parsers, e: Element, i: nat, obj: MediaObject)
    requires i <= |e.children|
    requires forall k :: i <= k < |e.children| ==> e.children[k].Ok? && e.children[k].value.IsMedia("thumbnail")
    ensures DispatchChildren(env, e, i, obj) == Ok(obj.(thumbnails := obj.thumbnails + ThumbnailsIn(e.children[i..])))
    decreases |e.children| - i
  {
    if i == |e.children| {
      assert obj.(thumbnails := obj.thumbnails + []) == obj;
    } else {
      var added := ChildThumbnails(e.children[i]);
      var rest := ThumbnailsIn(e.children[i + 1..]);
      DispatchThumbnailStep(env, e, i, obj);
      DispatchThumbnails(env, e, i + 1, obj.(thumbnails := obj.thumbnails + added));
      assert e.children[i..][1..] == e.children[i + 1..];
      assert ThumbnailsIn(e.children[i..]) == added + rest;
      ConcatAssoc(obj.thumbnails, added, rest);
    }
  }

  /** A group of thumbnails lists them in document order. */
  lemma GroupThumbnails(env: Parsers, e: Element)
    requires forall k :: 0 <= k < |e.children| ==> e.children[k].Ok? && e.children[k].value.IsMedia("thumbnail")
    ensures HandleMediaGroup(env, e) == Ok(Some(NewMediaObject.(thumbnails := ThumbnailsIn(e.children))))
  {
    DispatchThumbnails(env, e, 0, NewMediaObject);
    assert e.children[0..] == e.children;
    var listed := ThumbnailsIn(e.children);
    assert NewMediaObject.thumbnails + listed == listed;
    assert DispatchChildren(env, e, 0, NewMediaObject) == Ok(NewMediaObject.(thumbnails := listed));
  }

  /** The three lists of a media object that handlers append to. */
  datatype Lists = Lists(thumbnails: seq<MediaThumbnail>, credits: seq<MediaCredit>, texts: seq<MediaText>)

  function ListsOf(o: MediaObject): Lists {
    Lists(o.thumbnails, o.credits, o.texts)
  }

  function Join(a: Lists, b: Lists): Lists {
    Lists(a.thumbnails + b.thumbnails, a.credits + b.credits, a.texts + b.texts)
  }

  lemma JoinAssoc(a: Lists, b: Lists, c: Lists)
    ensures Join(Join(a, b), c) == Join(a, Join(b, c))
  {
    ConcatAssoc(a.thumbnails, b.thumbnails, c.thumbnails);
    ConcatAssoc(a.credits, b.credits, c.credits);
    ConcatAssoc(a.texts, b.texts, c.texts);
  }

  /** What an element appends does not depend on the object it is dispatched
      into: dispatching into `obj` succeeds exactly when dispatching into an
      empty object does, and appends the same entries. */
  lemma {:induction false} ElementFrame(env: Parsers, e: Element, obj: MediaObject)
    ensures HandleMediaElement(env, e, obj).Ok? == HandleMediaElement(env, e, NewMediaObject).Ok?
    ensures HandleMediaElement(env, e, obj).Ok? ==>
      ListsOf(HandleMediaElement(env, e, obj).value)
        == Join(ListsOf(obj), ListsOf(HandleMediaElement(env, e, NewMediaObject).value))
    decreases e, 2, 0
  {
    if e.InMediaRss() && e.tag == "content" {
      ContentFrame(env, e, obj);
    } else {
      assert ListsOf(obj) == Join(ListsOf(obj), ListsOf(NewMediaObject));
    }
  }

  /** The same for `handle_media_content`, nested children included. */
  lemma {:induction false} ContentFrame(env: Parsers, e: Element, obj: MediaObject)
    ensures HandleMediaContent(env, e, obj).Ok? == HandleMediaContent(env, e, NewMediaObject).Ok?
    ensures HandleMediaContent(env, e, obj).Ok? ==>
      ListsOf(HandleMediaContent(env, e, obj).value)
        == Join(ListsOf(obj), ListsOf(HandleMediaContent(env, e, NewMediaObject).value))
    decreases e, 1, 0
  {
    if ContentAttrs(env, e.attrs).url.Some? {
      ChildrenFrame(env, e, 0, obj);
    } else {
      assert ListsOf(obj) == Join(ListsOf(obj), ListsOf(NewMediaObject));
    }
  }

  /** The same for the child loop from child `i` on. */
  lemma {:induction false} ChildrenFrame(env: Parsers, e: Element, i: nat, obj: MediaObject)
    requires i <= |e.children|
    ensures DispatchChildren(env, e, i, obj).Ok? == DispatchChildren(env, e, i, NewMediaObject).Ok?
    ensures DispatchChildren(env, e, i, obj).Ok? ==>
      ListsOf(DispatchChildren(env, e, i, obj).value)
        == Join(ListsOf(obj), ListsOf(DispatchChildren(env, e, i, NewMediaObject).value))
    decreases e, 0, |e.children| - i
  {
    if i == |e.children| {
      assert ListsOf(obj) == Join(ListsOf(obj), ListsOf(NewMediaObject));
    } else if e.children[i].Ok? {
      var c := e.children[i].value;
      if c.InMediaRss() {
        ElementFrame(env, c, obj);
        var ra, rb := HandleMediaElement(env, c, obj), HandleMediaElement(env, c, NewMediaObject);
        if ra.Ok? {
          ChildrenFrame(env, e, i + 1, ra.value);
          ChildrenFrame(env, e, i + 1, rb.value);
          var rest := DispatchChildren(env, e, i + 1, NewMediaObject);
          if rest.Ok? {
            JoinAssoc(ListsOf(obj), ListsOf(rb.value), ListsOf(rest.value));
          }
        }
      } else {
        ChildrenFrame(env, e, i + 1, obj);
      }
    }
  }

  /** What one child of a loop contributes to the lists, on its own. */
  ghost function ChildAdds(env: Parsers, c: Result<Element>): Lists {
    if c.Ok? && c.value.InMediaRss() && HandleMediaElement(env, c.value, NewMediaObject).Ok?
    then ListsOf(HandleMediaElement(env, c.value, NewMediaObject).value)
    else Lists([], [], [])
  }

  /** The contributions of a run of children, concatenated in document order. */
  ghost function AllAdds(env: Parsers, children: seq<Result<Element>>): Lists
    decreases |children|
  {
    if |children| == 0 then Lists([], [], [])
    else Join(ChildAdds(env, children[0]), AllAdds(env, children[1..]))
  }

  /** A successful child loop appends to the lists exactly the children's
      contributions, in document order. */
  lemma {:induction false} ChildrenLists(env: Parsers, e: Element, i: nat, obj: MediaObject)
    requires i <= |e.children| && DispatchChildren(env, e, i, obj).Ok?
    ensures ListsOf(DispatchChildren(env, e, i, obj).value) == Join(ListsOf(obj), AllAdds(env, e.children[i..]))
    decreases |e.children| - i
  {
    if i == |e.children| {
      assert ListsOf(obj) == Join(ListsOf(obj), Lists([], [], []));
    } else {
      var c := e.children[i].value;
      assert e.children[i..][1..] == e.children[i + 1..];
      var next := if c.InMediaRss() then HandleMediaElement(env, c, obj).value else obj;
      assert ListsOf(next) == Join(ListsOf(obj), ChildAdds(env, e.children[i])) by {
        if c.InMediaRss() {
          ElementFrame(env, c, obj);
        } else {
          assert ListsOf(obj) == Join(ListsOf(obj), Lists([], [], []));
        }
      }
      ChildrenLists(env, e, i + 1, next);
      JoinAssoc(ListsOf(obj), ChildAdds(env, e.children[i]), AllAdds(env, e.children[i + 1..]));
    }
  }

  /** A successful group's thumbnails, credits and captions are exactly what
      its children contribute, concatenated in document order. */
  lemma GroupLists(env: Parsers, e: Element)
    requires HandleMediaGroup(env, e).Ok?
    ensures ListsOf(HandleMediaGroup(env, e).value.value) == AllAdds(env, e.children)
  {
    ChildrenLists(env, e, 0, NewMediaObject);
    assert e.children[0..] == e.children;
    var all := AllAdds(env, e.children);
    assert Join(ListsOf(NewMediaObject), all) == all;
  }
}
