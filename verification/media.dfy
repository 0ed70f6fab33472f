/** The records the MediaRSS handlers produce. Integers are naturals bounded
    by the parsers that produce them (`u32` widths and heights, `u64`
    counts); `average` is whatever the floating-point parser yields. */
module Media {
  import opened Results
  import opened Npt

  /** A MIME type, by its essence string ("text/plain"). */
  datatype Mime = Mime(essence: string)

  /** `mime::TEXT_PLAIN` */
  const TextPlain: Mime := Mime("text/plain")

  /** `mime::TEXT_HTML` */
  const TextHtml: Mime := Mime("text/html")

  /** A piece of text with its MIME type. */
  datatype Text = Text(content: string, contentType: Mime)

  datatype Image = Image(url: string, width: Option<nat>, height: Option<nat>)

  /** `media:thumbnail` */
  datatype MediaThumbnail = MediaThumbnail(image: Image, time: Option<Millis>)

  /** `media:content`; stored in a media object only when `url` is present. */
  datatype MediaContent = MediaContent(
    url: Option<string>,
    contentType: Option<Mime>,
    width: Option<nat>,
    height: Option<nat>)

  /** `MediaContent::new()` */
  const NoContent: MediaContent := MediaContent(None, None, None, None)

  /** `media:community`: its `starRating` and `statistics` values, each
      absent until an attribute for it parses. */
  datatype MediaCommunity = MediaCommunity(
    starsAvg: Option<real>,
    starsCount: Option<nat>,
    starsMin: Option<nat>,
    starsMax: Option<nat>,
    statsViews: Option<nat>,
    statsFavorites: Option<nat>)

  /** `MediaCommunity::new()` */
  const NoCommunity: MediaCommunity := MediaCommunity(None, None, None, None, None, None)

  /** `media:credit` */
  datatype MediaCredit = MediaCredit(entity: string)

  /** `media:text`: a caption with optional start and end times. */
  datatype MediaText = MediaText(text: Text, startTime: Option<Millis>, endTime: Option<Millis>)

  /** The accumulator every media element of one scope is decoded into. */
  datatype MediaObject = MediaObject(
    title: Option<Text>,
    description: Option<Text>,
    content: Option<MediaContent>,
    thumbnails: seq<MediaThumbnail>,
    community: Option<MediaCommunity>,
    credits: seq<MediaCredit>,
    texts: seq<MediaText>)

  /** `MediaObject::new()` */
  const NewMediaObject: MediaObject := MediaObject(None, None, None, [], None, [], [])
}
